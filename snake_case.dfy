/** `snakeToCamel` of cmd/cmd.go: every non-overlapping match of the regular
    expression `_([a-z])`, found left to right, is replaced by the upper-case
    form of its letter. The regular-expression engine is modelled as the scan
    it performs: at each position either a match starts there (an underscore
    followed by an ASCII lower-case letter, both consumed) or the character is
    copied and the scan moves one position on. */
module SnakeCase {
  import opened Text

  /** An underscore at `i` followed by an ASCII lower-case letter: a match of `_([a-z])`. */
  predicate SnakePairAt(s: string, i: int)
    requires 0 <= i < |s|
  {
    s[i] == '_' && i + 1 < |s| && IsAsciiLower(s[i + 1])
  }

  /** No match of `_([a-z])` anywhere in `s`. */
  predicate NoSnakePair(s: string) {
    forall i :: 0 <= i < |s| ==> !SnakePairAt(s, i)
  }

  function SnakeToCamel(s: string): (r: string)
    ensures |r| <= |s|
    ensures |r| == 0 <==> |s| == 0
    decreases |s|
  {
    if s == [] then []
    else if SnakePairAt(s, 0) then [ToUpperAscii(s[1])] + SnakeToCamel(s[2..])
    else [s[0]] + SnakeToCamel(s[1..])
  }

  /** The first character of the result: the upper-cased letter of a match at
      the start, the first character of the input otherwise. */
  lemma SnakeToCamelHead(s: string)
    requires s != []
    ensures SnakeToCamel(s)[0] == if SnakePairAt(s, 0) then ToUpperAscii(s[1]) else s[0]
  {
  }

  /** The result holds no underscore followed by a lower-case letter. */
  lemma {:induction false} NoSnakePairInResult(s: string)
    ensures NoSnakePair(SnakeToCamel(s))
    decreases |s|
  {
    if s != [] {
      var r := SnakeToCamel(s);
      if SnakePairAt(s, 0) {
        var rest := SnakeToCamel(s[2..]);
        NoSnakePairInResult(s[2..]);
        assert r == [ToUpperAscii(s[1])] + rest;
        forall i | 0 <= i < |r| ensures !SnakePairAt(r, i) {
          if i > 0 { assert r[i] == rest[i - 1]; assert !SnakePairAt(rest, i - 1); }
        }
      } else {
        var rest := SnakeToCamel(s[1..]);
        NoSnakePairInResult(s[1..]);
        assert r == [s[0]] + rest;
        if s[0] == '_' && rest != [] {
          SnakeToCamelHead(s[1..]);
          assert !IsAsciiLower(rest[0]);
        }
        forall i | 0 <= i < |r| ensures !SnakePairAt(r, i) {
          if i > 0 { assert r[i] == rest[i - 1]; assert !SnakePairAt(rest, i - 1); }
        }
      }
    }
  }

  /** A text is left unchanged exactly when it holds no match. */
  lemma {:induction false} FixedPointIff(s: string)
    ensures SnakeToCamel(s) == s <==> NoSnakePair(s)
    decreases |s|
  {
    NoSnakePairInResult(s);
    if s != [] && NoSnakePair(s) {
      assert !SnakePairAt(s, 0);
      assert NoSnakePair(s[1..]) by {
        forall i | 0 <= i < |s[1..]| ensures !SnakePairAt(s[1..], i) {
          assert !SnakePairAt(s, i + 1);
        }
      }
      FixedPointIff(s[1..]);
      assert s == [s[0]] + s[1..];
    }
  }

  /** Converting twice is converting once. */
  lemma {:induction false} Idempotent(s: string)
    ensures SnakeToCamel(SnakeToCamel(s)) == SnakeToCamel(s)
  {
    NoSnakePairInResult(s);
    FixedPointIff(SnakeToCamel(s));
  }

  /** A text without underscores is left unchanged. */
  lemma {:induction false} NoUnderscoreUnchanged(s: string)
    requires '_' !in s
    ensures SnakeToCamel(s) == s
  {
    assert NoSnakePair(s) by {
      forall i | 0 <= i < |s| ensures !SnakePairAt(s, i) { assert s[i] in s; }
    }
    FixedPointIff(s);
  }

  /** Counting a character in a text, split after its first `k` characters. */
  lemma CountSplit(s: string, k: nat, c: char)
    requires k <= |s|
    ensures multiset(s)[c] == multiset(s[..k])[c] + multiset(s[k..])[c]
  {
    assert s == s[..k] + s[k..];
  }

  /** Number of matches of `_([a-z])` in `s`. Matches cannot overlap: a match
      starts with an underscore and ends with a letter. */
  function Pairs(s: string): (n: nat)
    ensures n <= multiset(s)['_']
    decreases |s|
  {
    if s == [] then 0
    else
      CountSplit(s, 1, '_');
      (if SnakePairAt(s, 0) then 1 else 0) + Pairs(s[1..])
  }

  /** A match at the start is followed by a letter, which starts no match. */
  lemma PairsAfterMatch(s: string)
    requires s != [] && SnakePairAt(s, 0)
    ensures Pairs(s) == 1 + Pairs(s[2..])
  {
    assert s[1..][1..] == s[2..];
  }

  /** The text shrinks by exactly one character per match. */
  lemma {:induction false} MatchLength(s: string)
    ensures |SnakeToCamel(s)| == |s| - Pairs(s)
    decreases |s|
  {
    if s != [] {
      if SnakePairAt(s, 0) {
        PairsAfterMatch(s);
        MatchLength(s[2..]);
      } else {
        MatchLength(s[1..]);
      }
    }
  }

  /** Exactly the underscore of each match disappears; every other
      underscore is kept. */
  lemma {:induction false} MatchUnderscores(s: string)
    ensures multiset(SnakeToCamel(s))['_'] == multiset(s)['_'] - Pairs(s)
    decreases |s|
  {
    if s != [] {
      var r := SnakeToCamel(s);
      var k := if SnakePairAt(s, 0) then 2 else 1;
      MatchUnderscores(s[k..]);
      CountSplit(s, k, '_');
      CountSplit(r, 1, '_');
      assert r[1..] == SnakeToCamel(s[k..]);
      if k == 2 {
        PairsAfterMatch(s);
        assert s[..2] == ['_', s[1]] && s[1] != '_';
        assert r[..1] == [ToUpperAscii(s[1])];
      } else {
        assert s[..1] == r[..1];
      }
    }
  }

  /** Converting a concatenation converts each part, unless a match straddles
      the seam: `a` ending in an underscore and `b` starting with a
      lower-case letter. So every text between matches is copied verbatim. */
  lemma {:induction false} SplitAt(a: string, b: string)
    requires !(a != [] && a[|a| - 1] == '_' && b != [] && IsAsciiLower(b[0]))
    ensures SnakeToCamel(a + b) == SnakeToCamel(a) + SnakeToCamel(b)
    decreases |a|
  {
    if a == [] {
      assert a + b == b;
    } else if |a| >= 2 && SnakePairAt(a, 0) {
      var ab := a + b;
      assert ab[0] == a[0] && ab[1] == a[1];
      assert SnakePairAt(ab, 0);
      SplitTail(a, b, 2);
    } else {
      var ab := a + b;
      assert !SnakePairAt(ab, 0) by {
        if |a| >= 2 { assert ab[0] == a[0] && ab[1] == a[1]; }
      }
      assert !SnakePairAt(a, 0);
      SplitTail(a, b, 1);
    }
  }

  /** The recursive step of `SplitAt`: after the first `k` characters of `a`. */
  lemma {:induction false} SplitTail(a: string, b: string, k: nat)
    requires 1 <= k <= |a|
    requires !(a[|a| - 1] == '_' && b != [] && IsAsciiLower(b[0]))
    requires SnakeToCamel(a + b) == SnakeToCamel(a)[..1] + SnakeToCamel((a + b)[k..])
    requires SnakeToCamel(a) == SnakeToCamel(a)[..1] + SnakeToCamel(a[k..])
    ensures SnakeToCamel(a + b) == SnakeToCamel(a) + SnakeToCamel(b)
    decreases |a|, 0
  {
    assert (a + b)[k..] == a[k..] + b;
    if k < |a| { assert a[k..][|a[k..]| - 1] == a[|a| - 1]; }
    SplitAt(a[k..], b);
    var h, t, u := SnakeToCamel(a)[..1], SnakeToCamel(a[k..]), SnakeToCamel(b);
    assert h + (t + u) == (h + t) + u;
  }

  /** A text without underscores in front of the rest is copied verbatim. */
  lemma PlainPrefixKept(a: string, b: string)
    requires '_' !in a
    ensures SnakeToCamel(a + b) == a + SnakeToCamel(b)
  {
    if a != [] { assert a[|a| - 1] in a; }
    SplitAt(a, b);
    NoUnderscoreUnchanged(a);
  }

  /** The characters that are neither ASCII letters nor underscores keep
      their number of occurrences. */
  lemma {:induction false} OtherCharsKept(s: string, c: char)
    requires !IsAsciiLower(c) && !IsAsciiUpper(c) && c != '_'
    ensures multiset(SnakeToCamel(s))[c] == multiset(s)[c]
    decreases |s|
  {
    if s != [] {
      var r := SnakeToCamel(s);
      var k := if SnakePairAt(s, 0) then 2 else 1;
      OtherCharsKept(s[k..], c);
      CountSplit(s, k, c);
      CountSplit(r, 1, c);
      assert r[1..] == SnakeToCamel(s[k..]);
      if k == 2 {
        assert s[..2] == ['_', s[1]];
        assert r[..1] == [ToUpperAscii(s[1])];
      } else {
        assert s[..1] == r[..1];
      }
    }
  }

  /** A character that is neither an ASCII letter nor an underscore occurs in
      the result exactly when it occurs in the input. */
  lemma OtherCharIn(s: string, c: char)
    requires !IsAsciiLower(c) && !IsAsciiUpper(c) && c != '_'
    ensures c in SnakeToCamel(s) <==> c in s
  {
    OtherCharsKept(s, c);
    CountZero(s, c);
    CountZero(SnakeToCamel(s), c);
  }

  /** The text with every underscore dropped and every ASCII letter
      lower-cased: what the conversion must not change. */
  function Fold(s: string): (f: string)
    ensures |f| <= |s|
  {
    if s == [] then []
    else if s[0] == '_' then Fold(s[1..])
    else [ToLowerAscii(s[0])] + Fold(s[1..])
  }

  /** The conversion only drops underscores and changes the case of letters;
      all characters keep their order. */
  lemma {:induction false} FoldKept(s: string)
    ensures Fold(SnakeToCamel(s)) == Fold(s)
    decreases |s|
  {
    if s != [] {
      if SnakePairAt(s, 0) {
        var rest := SnakeToCamel(s[2..]);
        FoldKept(s[2..]);
        var u := ToUpperAscii(s[1]);
        assert ([u] + rest)[1..] == rest;
        assert Fold([u] + rest) == [ToLowerAscii(u)] + Fold(rest);
        assert s[1..][1..] == s[2..];
        assert Fold(s[1..]) == [ToLowerAscii(s[1])] + Fold(s[2..]);
      } else {
        var rest := SnakeToCamel(s[1..]);
        FoldKept(s[1..]);
        assert ([s[0]] + rest)[1..] == rest;
      }
    }
  }

  /** The opposite conversion: each ASCII upper-case letter becomes an
      underscore and its lower-case form. */
  function CamelToSnake(t: string): (s: string)
    ensures |s| >= |t|
  {
    if t == [] then []
    else if IsAsciiUpper(t[0]) then ['_', ToLowerAscii(t[0])] + CamelToSnake(t[1..])
    else [t[0]] + CamelToSnake(t[1..])
  }

  /** Lower-case snake case: no upper-case ASCII letter, and every underscore
      followed by a lower-case letter. */
  predicate IsSnakeCase(s: string) {
    forall i :: 0 <= i < |s| ==> !IsAsciiUpper(s[i]) && (s[i] == '_' ==> SnakePairAt(s, i))
  }

  /** On a text without underscores, converting to snake case and back is the identity. */
  lemma {:induction false} CamelRoundTrip(t: string)
    requires '_' !in t
    ensures SnakeToCamel(CamelToSnake(t)) == t
    decreases |t|
  {
    if t != [] {
      assert t[0] != '_' by { assert t[0] in t; }
      assert '_' !in t[1..] by {
        forall i | 0 <= i < |t[1..]| ensures t[1..][i] != '_' { assert t[1..][i] in t; }
      }
      CamelRoundTrip(t[1..]);
      var rest := CamelToSnake(t[1..]);
      if IsAsciiUpper(t[0]) {
        var s := ['_', ToLowerAscii(t[0])] + rest;
        assert SnakePairAt(s, 0);
        assert s[2..] == rest;
        CaseRoundTrip(ToLowerAscii(t[0]));
      } else {
        var s := [t[0]] + rest;
        assert s[1..] == rest;
      }
      assert t == [t[0]] + t[1..];
    }
  }

  /** On lower-case snake case, converting to camel case and back is the identity. */
  lemma {:induction false} SnakeRoundTrip(s: string)
    requires IsSnakeCase(s)
    ensures CamelToSnake(SnakeToCamel(s)) == s
    decreases |s|
  {
    if s != [] {
      if SnakePairAt(s, 0) {
        assert IsSnakeCase(s[2..]) by {
          forall i | 0 <= i < |s[2..]|
            ensures !IsAsciiUpper(s[2..][i]) && (s[2..][i] == '_' ==> SnakePairAt(s[2..], i))
          {
            assert s[2..][i] == s[i + 2];
            if s[i + 2] == '_' { assert SnakePairAt(s, i + 2); }
          }
        }
        SnakeRoundTrip(s[2..]);
        var rest := SnakeToCamel(s[2..]);
        var u := ToUpperAscii(s[1]);
        CaseRoundTrip(s[1]);
        assert ([u] + rest)[1..] == rest;
        assert s == ['_', s[1]] + s[2..];
      } else {
        assert s[0] != '_' && !IsAsciiUpper(s[0]);
        assert IsSnakeCase(s[1..]) by {
          forall i | 0 <= i < |s[1..]|
            ensures !IsAsciiUpper(s[1..][i]) && (s[1..][i] == '_' ==> SnakePairAt(s[1..], i))
          {
            assert s[1..][i] == s[i + 1];
            if s[i + 1] == '_' { assert SnakePairAt(s, i + 1); }
          }
        }
        SnakeRoundTrip(s[1..]);
        var rest := SnakeToCamel(s[1..]);
        assert ([s[0]] + rest)[1..] == rest;
        assert s == [s[0]] + s[1..];
      }
    }
  }

  /** ASCII input gives ASCII output. */
  lemma {:induction false} AsciiKept(s: string)
    requires IsAscii(s)
    ensures IsAscii(SnakeToCamel(s))
    decreases |s|
  {
    if s != [] {
      var k := if SnakePairAt(s, 0) then 2 else 1;
      assert IsAscii(s[k..]) by {
        forall i | 0 <= i < |s[k..]| ensures s[k..][i] as int < 128 { assert s[k..][i] == s[i + k]; }
      }
      AsciiKept(s[k..]);
      var r := SnakeToCamel(s);
      forall i | 0 <= i < |r| ensures r[i] as int < 128 {
        if i > 0 { assert r[i] == SnakeToCamel(s[k..])[i - 1]; }
      }
    }
  }
}
