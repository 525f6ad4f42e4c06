/** Character and string helpers for the model: ASCII letter classes and case
    mapping, prefix tests, the first occurrence of a character, and the view of
    a text as a sequence of newline-terminated lines. Strings are `seq<char>`;
    the model only relies on byte/character agreement where it requires ASCII. */
module Text {

  predicate IsAsciiLower(c: char) { 'a' <= c <= 'z' }

  predicate IsAsciiUpper(c: char) { 'A' <= c <= 'Z' }

  predicate IsAscii(s: string) {
    forall i :: 0 <= i < |s| ==> s[i] as int < 128
  }

  /** strings.ToUpper restricted to one ASCII character. */
  function ToUpperAscii(c: char): (d: char)
    ensures IsAsciiLower(c) ==> IsAsciiUpper(d) && d as int == c as int - 32
    ensures !IsAsciiLower(c) ==> d == c
  {
    if IsAsciiLower(c) then (c as int - 32) as char else c
  }

  /** The inverse case mapping, used by the specifications only. */
  function ToLowerAscii(c: char): (d: char)
    ensures IsAsciiUpper(c) ==> IsAsciiLower(d) && d as int == c as int + 32
    ensures !IsAsciiUpper(c) ==> d == c
  {
    if IsAsciiUpper(c) then (c as int + 32) as char else c
  }

  /** Upper-casing a lower-case letter and lower-casing it back is the identity. */
  lemma CaseRoundTrip(c: char)
    ensures IsAsciiLower(c) ==> ToLowerAscii(ToUpperAscii(c)) == c
    ensures IsAsciiUpper(c) ==> ToUpperAscii(ToLowerAscii(c)) == c
  {
  }

  /** strings.HasPrefix. */
  predicate HasPrefix(s: string, prefix: string) {
    |prefix| <= |s| && s[..|prefix|] == prefix
  }

  /** strings.HasSuffix. */
  predicate HasSuffix(s: string, suffix: string) {
    |suffix| <= |s| && s[|s| - |suffix|..] == suffix
  }

  /** A concatenation starts with its first part and ends with its last. */
  lemma Ends(a: string, b: string, c: string)
    ensures HasPrefix(a + b + c, a) && HasSuffix(a + b + c, c)
    ensures (a + b + c)[|a|..|a + b + c| - |c|] == b
  {
    assert (a + b + c)[..|a|] == a;
    assert (a + b + c)[|a + b|..] == c;
    assert (a + b + c)[|a|..|a| + |b|] == b;
  }

  /** A prefix test survives any extension of the tested string. */
  lemma HasPrefixExtend(s: string, t: string, prefix: string)
    requires HasPrefix(s, prefix)
    ensures HasPrefix(s + t, prefix)
  {
    assert (s + t)[..|prefix|] == s[..|prefix|];
  }

  /** Index of the first `c` in `s`, or `|s|` when there is none. */
  function IndexOf(s: string, c: char): (i: nat)
    ensures i <= |s|
    ensures i < |s| ==> s[i] == c
    ensures forall j :: 0 <= j < i ==> s[j] != c
    decreases |s|
  {
    if s == [] then 0
    else if s[0] == c then 0
    else 1 + IndexOf(s[1..], c)
  }

  /** The first `c` of `a + b` is found in `b` when `a` holds none. */
  lemma {:induction false} IndexOfAppend(a: string, b: string, c: char)
    requires c !in a
    ensures IndexOf(a + b, c) == |a| + IndexOf(b, c)
  {
    if a != [] {
      assert (a + b)[0] == a[0] != c;
      assert (a + b)[1..] == a[1..] + b;
      IndexOfAppend(a[1..], b, c);
    } else {
      assert a + b == b;
    }
  }

  /** Number of newline characters in `s`. */
  function Newlines(s: string): nat {
    multiset(s)['\n']
  }

  /** A character is counted zero times exactly when it does not occur. */
  lemma CountZero(s: string, c: char)
    ensures multiset(s)[c] == 0 <==> c !in s
  {
  }

  /** Empty, or ending in a newline. */
  predicate Terminated(s: string) {
    s == [] || s[|s| - 1] == '\n'
  }

  /** Removing a prefix leaves what followed it. */
  lemma StripPrefix(prefix: string, rest: string)
    ensures HasPrefix(prefix + rest, prefix)
    ensures (prefix + rest)[|prefix|..] == rest
  {
    assert (prefix + rest)[..|prefix|] == prefix;
  }

  /** Cutting `x + rest` at the first `c` gives `x` back when `x` holds no `c`
      and `rest` starts with one. */
  lemma CutAtSeparator(x: string, rest: string, c: char)
    requires c !in x && rest != [] && rest[0] == c
    ensures IndexOf(x + rest, c) == |x|
    ensures (x + rest)[..|x|] == x && (x + rest)[|x|..] == rest
  {
    IndexOfAppend(x, rest, c);
  }

  /** Each line followed by a newline, as `fmt.Sprintf("...\n")` pieces concatenated. */
  function JoinLines(lines: seq<string>): (s: string)
    ensures Terminated(s)
  {
    if lines == [] then [] else lines[0] + "\n" + JoinLines(lines[1..])
  }

  /** A joined text holds one newline per line plus those inside the lines. */
  lemma {:induction false} JoinLinesNewlines(lines: seq<string>)
    ensures Newlines(JoinLines(lines)) == |lines| + NewlinesIn(lines)
  {
    if lines != [] {
      JoinLinesNewlines(lines[1..]);
      assert multiset(JoinLines(lines)) == multiset(lines[0]) + multiset("\n") + multiset(JoinLines(lines[1..]));
    }
  }

  /** Total number of newline characters inside the lines themselves. */
  function NewlinesIn(lines: seq<string>): nat {
    if lines == [] then 0 else Newlines(lines[0]) + NewlinesIn(lines[1..])
  }

  /** No line contains a newline of its own. */
  predicate SingleLines(lines: seq<string>) {
    forall k :: 0 <= k < |lines| ==> '\n' !in lines[k]
  }

  /** Cut a text at every newline; a final line without newline is kept too. */
  function SplitLines(s: string): (lines: seq<string>)
    ensures SingleLines(lines)
    decreases |s|
  {
    if s == [] then []
    else
      var i := IndexOf(s, '\n');
      if i == |s| then [s] else [s[..i]] + SplitLines(s[i + 1..])
  }

  lemma {:induction false} NewlinesInZero(lines: seq<string>)
    ensures NewlinesIn(lines) == 0 <==> SingleLines(lines)
  {
    if lines != [] {
      NewlinesInZero(lines[1..]);
      assert '\n' in lines[0] <==> Newlines(lines[0]) > 0;
      if SingleLines(lines[1..]) && '\n' !in lines[0] {
        forall k | 0 <= k < |lines| ensures '\n' !in lines[k] {
          if k > 0 { assert lines[k] == lines[1..][k - 1]; }
        }
      }
      if SingleLines(lines) {
        forall k | 0 <= k < |lines[1..]| ensures '\n' !in lines[1..][k] {
          assert lines[1..][k] == lines[k + 1];
        }
      }
    }
  }

  lemma {:induction false} JoinLinesAppend(a: seq<string>, b: seq<string>)
    ensures JoinLines(a + b) == JoinLines(a) + JoinLines(b)
  {
    if a != [] {
      assert a + b != [] && (a + b)[0] == a[0];
      assert (a + b)[1..] == a[1..] + b;
      JoinLinesAppend(a[1..], b);
    } else {
      assert a + b == b;
    }
  }

  /** Joining three runs of lines starts with the first run's text and ends
      with the last run's. */
  lemma JoinEnds(a: seq<string>, b: seq<string>, c: seq<string>)
    ensures HasPrefix(JoinLines(a + b + c), JoinLines(a))
    ensures HasSuffix(JoinLines(a + b + c), JoinLines(c))
  {
    JoinLinesAppend(a + b, c);
    JoinLinesAppend(a, b);
    Ends(JoinLines(a), JoinLines(b), JoinLines(c));
  }

  /** Splitting undoes joining when no line holds a newline. */
  lemma {:induction false} SplitJoinLines(lines: seq<string>)
    requires SingleLines(lines)
    ensures SplitLines(JoinLines(lines)) == lines
  {
    if lines != [] {
      var s := JoinLines(lines);
      var rest := JoinLines(lines[1..]);
      assert s == lines[0] + ("\n" + rest);
      IndexOfAppend(lines[0], "\n" + rest, '\n');
      assert IndexOf(s, '\n') == |lines[0]|;
      assert s[..|lines[0]|] == lines[0];
      assert s[|lines[0]| + 1..] == rest;
      SplitJoinLines(lines[1..]);
    }
  }

  /** Joining undoes splitting on every newline-terminated text. */
  lemma {:induction false} JoinSplitLines(s: string)
    requires Terminated(s)
    ensures JoinLines(SplitLines(s)) == s
    decreases |s|
  {
    if s != [] {
      var i := IndexOf(s, '\n');
      assert i < |s| by { assert s[|s| - 1] == '\n'; }
      var t := s[i + 1..];
      TerminatedSuffix(s, i + 1);
      JoinSplitLines(t);
      SplitLinesCut(s, i);
      JoinLinesCons(s[..i], SplitLines(t));
      CutAt(s, i);
    }
  }

  /** A text is the part before position `i`, its character there, and the rest. */
  lemma CutAt(s: string, i: nat)
    requires i < |s|
    ensures s == s[..i] + [s[i]] + s[i + 1..]
  {
  }

  /** Every suffix of a newline-terminated text is newline-terminated. */
  lemma TerminatedSuffix(s: string, k: nat)
    requires k <= |s|
    requires Terminated(s)
    ensures Terminated(s[k..])
  {
    if k < |s| { assert s[k..][|s| - k - 1] == s[|s| - 1]; }
  }

  /** Appending one line appends it and a newline to the text. */
  lemma JoinLinesSnoc(lines: seq<string>, line: string)
    ensures JoinLines(lines + [line]) == JoinLines(lines) + line + "\n"
  {
    JoinLinesAppend(lines, [line]);
    assert JoinLines([line]) == line + "\n" + JoinLines([]);
  }

  lemma JoinTwoLines(lines: seq<string>)
    requires |lines| == 2
    ensures JoinLines(lines) == lines[0] + "\n" + lines[1] + "\n"
  {
    JoinLinesSnoc([lines[0]], lines[1]);
    JoinLinesSnoc([], lines[0]);
    assert [lines[0]] + [lines[1]] == lines;
  }

  lemma JoinThreeLines(lines: seq<string>)
    requires |lines| == 3
    ensures JoinLines(lines) == lines[0] + "\n" + lines[1] + "\n" + lines[2] + "\n"
  {
    JoinTwoLines(lines[..2]);
    JoinLinesSnoc(lines[..2], lines[2]);
    assert lines[..2] + [lines[2]] == lines;
  }

  lemma JoinLinesCons(line: string, lines: seq<string>)
    ensures JoinLines([line] + lines) == line + "\n" + JoinLines(lines)
  {
    assert ([line] + lines)[1..] == lines;
  }

  /** Unfolding SplitLines at the first newline. */
  lemma SplitLinesCut(s: string, i: nat)
    requires i < |s| && i == IndexOf(s, '\n')
    ensures SplitLines(s) == [s[..i]] + SplitLines(s[i + 1..])
  {
  }

  /** Splitting a joined text gives one line per joined line, plus one for
      each newline inside them. */
  lemma SplitJoinCount(lines: seq<string>)
    ensures |SplitLines(JoinLines(lines))| == |lines| + NewlinesIn(lines)
    ensures |SplitLines(JoinLines(lines))| == |lines| <==> SingleLines(lines)
  {
    LineCount(JoinLines(lines));
    JoinLinesNewlines(lines);
    NewlinesInZero(lines);
  }

  lemma SingleLinesAppend(a: seq<string>, b: seq<string>)
    ensures SingleLines(a + b) <==> SingleLines(a) && SingleLines(b)
  {
    if SingleLines(a + b) {
      forall k | 0 <= k < |a| ensures '\n' !in a[k] { assert a[k] == (a + b)[k]; }
      forall k | 0 <= k < |b| ensures '\n' !in b[k] { assert b[k] == (a + b)[|a| + k]; }
    }
    if SingleLines(a) && SingleLines(b) {
      forall k | 0 <= k < |a + b| ensures '\n' !in (a + b)[k] {
        if k < |a| { assert (a + b)[k] == a[k]; } else { assert (a + b)[k] == b[k - |a|]; }
      }
    }
  }

  /** A newline-terminated text has exactly as many lines as newlines. */
  lemma LineCount(s: string)
    requires Terminated(s)
    ensures |SplitLines(s)| == Newlines(s)
  {
    JoinSplitLines(s);
    JoinLinesNewlines(SplitLines(s));
    NewlinesInZero(SplitLines(s));
  }
}
