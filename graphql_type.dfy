/** The code emitter of cmd/cmd.go (`GetGraphQLType`): from a table name and
    the table's columns, in catalog order, it writes the Go source text of a
    `graphql.NewObject` declaration with one field per column.

    The text is specified line by line (`OutputLines`): three header lines
    naming the derived type, one line per column, two footer lines, each line
    ending in a newline (`GraphQLText`). The method `GetGraphQLType` builds the
    text by repeated concatenation, as the source does, and is proved to
    produce exactly that text. Nothing is escaped, so the line structure and
    the fields can be read back only when names and comments stay clear of
    newlines and double quotes; the lemmas below say exactly when. */
module GraphQLType {
  import opened Text
  import opened SnakeCase
  import opened ColumnTypes

  /** One row of the column catalog: name, storage type and comment. */
  datatype ColumnInfo = ColumnInfo(columnName: string, columnType: string, columnComment: string)

  datatype Option<T> = None | Some(value: T)

  /** A field read back from a generated line. */
  datatype Field = Field(name: string, scalar: string, description: string)

  /** What the name derivation needs: the slices of the camel-cased table name
      panic below two characters, and they index bytes while the upper bound is
      a count of runes, which agree only on ASCII text. */
  predicate ValidTable(table: string) {
    IsAscii(table) && |SnakeToCamel(table)| >= 2
  }

  /** The type name: the camel-cased table name with its first character
      upper-cased and its last character dropped. */
  function TypeName(table: string): (name: string)
    requires ValidTable(table)
    ensures var camel := SnakeToCamel(table);
      |name| == |camel| - 1 &&
      name + [camel[|camel| - 1]] == [ToUpperAscii(camel[0])] + camel[1..]
    ensures !IsAsciiLower(name[0])
  {
    var camel := SnakeToCamel(table);
    [ToUpperAscii(camel[0])] + camel[1..|camel| - 1]
  }

  /** The type name is ASCII camel case like the table name it comes from. */
  lemma TypeNameIsCamel(table: string)
    requires ValidTable(table)
    ensures IsAscii(TypeName(table))
    ensures NoSnakePair(TypeName(table))
  {
    var camel := SnakeToCamel(table);
    var name := TypeName(table);
    AsciiKept(table);
    NoSnakePairInResult(table);
    forall i | 0 <= i < |name| ensures name[i] as int < 128 && !SnakePairAt(name, i) {
      assert i > 0 ==> name[i] == camel[i];
      assert i + 1 < |name| ==> name[i + 1] == camel[i + 1];
      assert !SnakePairAt(camel, i);
    }
  }

  /** The table `user_id` gives the type name `UserI`: the last character of
      the camel-cased name is dropped whatever it is. */
  lemma TypeNameExample()
    ensures ValidTable("user_id") && TypeName("user_id") == "UserI"
  {
    CamelUserId();
    var camel := SnakeToCamel("user_id");
    assert IsAscii("user_id");
    assert camel[1..|camel| - 1] == "serI";
  }

  /** The column-style name `user_id` camel-cases to `userId`. */
  lemma CamelUserId()
    ensures SnakeToCamel("user_id") == "userId"
  {
    PlainPrefixKept("user", "_id");
    assert "user" + "_id" == "user_id";
    assert SnakePairAt("_id", 0) && "_id"[2..] == "d";
    assert SnakeToCamel("d") == "d";
  }

  const TypeOpen: string := "var "
  const TypeClose: string := "Type = graphql." + "NewObject(" + "graphql.ObjectConfig{"
  const NameOpen: string := "\tName: \""
  const NameClose: string := "\","
  const FieldsOpen: string := "\tFields: " + "graphql.Fields{"
  const FieldOpen: string := "\t\t\""
  const FieldMid: string := "\": &graphql." + "Field{Type: graphql."
  const FieldDesc: string := ", Description: \""
  const FieldClose: string := "\"},"
  const FieldsClose: string := "\t},"
  const ObjectClose: string := "})"

  /** The fixed pieces of the header hold no newline. */
  lemma HeaderTemplateFacts()
    ensures '\n' !in TypeOpen && '\n' !in TypeClose && '\n' !in NameOpen
    ensures '\n' !in NameClose && '\n' !in FieldsOpen
  {
  }

  /** The pieces of a field line hold no newline, and each separator after an
      inserted text starts with the character that ends that text. */
  lemma FieldTemplateFacts()
    ensures '\n' !in FieldOpen && '\n' !in FieldMid && '\n' !in FieldDesc && '\n' !in FieldClose
    ensures FieldMid[0] == '"' && FieldDesc[0] == ',' && FieldClose[0] == '"'
  {
  }

  lemma FooterTemplateFacts()
    ensures '\n' !in FieldsClose && '\n' !in ObjectClose
  {
  }

  /** The three header lines: the declaration and the `Name` entry both carry
      the type name, and the third opens the field list. */
  function HeaderLines(name: string): (lines: seq<string>)
    ensures |lines| == 3
    ensures HasPrefix(lines[0], TypeOpen + name) && HasSuffix(lines[0], name + TypeClose)
    ensures HasPrefix(lines[1], NameOpen + name) && HasSuffix(lines[1], name + NameClose)
    ensures lines[2] == FieldsOpen
  {
    Ends(TypeOpen, name, TypeClose);
    Ends(NameOpen, name, NameClose);
    assert TypeOpen + name + TypeClose == TypeOpen + (name + TypeClose);
    assert NameOpen + name + NameClose == NameOpen + (name + NameClose);
    [TypeOpen + name + TypeClose, NameOpen + name + NameClose, FieldsOpen]
  }

  const FooterLines: seq<string> := [FieldsClose, ObjectClose]

  /** A field line: four separators around the key, the scalar and the comment. */
  function FieldShape(open: string, key: string, mid: string, scalar: string,
                      desc: string, comment: string, close: string): (line: string)
    ensures HasPrefix(line, open + key + mid)
    ensures HasSuffix(line, desc + comment + close)
    ensures |open + key + mid| + |desc + comment + close| <= |line|
    ensures line[|open + key + mid|..|line| - |desc + comment + close|] == scalar
  {
    var line := open + (key + (mid + (scalar + (desc + (comment + close)))));
    assert line == (open + key + mid) + scalar + (desc + comment + close);
    Ends(open + key + mid, scalar, desc + comment + close);
    line
  }

  /** The line for one column, without its newline: the camel-cased column
      name right after the opening quote, the scalar label after `graphql.`, and
      the comment right before the closing quote, each inserted verbatim. */
  function FieldText(ci: ColumnInfo): (line: string)
    ensures HasPrefix(line, FieldOpen + SnakeToCamel(ci.columnName) + FieldMid)
    ensures HasSuffix(line, FieldDesc + ci.columnComment + FieldClose)
    ensures |FieldOpen + SnakeToCamel(ci.columnName) + FieldMid| + |FieldDesc + ci.columnComment + FieldClose| <= |line|
    ensures line[|FieldOpen + SnakeToCamel(ci.columnName) + FieldMid|..|line| - |FieldDesc + ci.columnComment + FieldClose|]
      == ColumnType(ci.columnName, ci.columnType)
  {
    FieldShape(FieldOpen, SnakeToCamel(ci.columnName), FieldMid,
               ColumnType(ci.columnName, ci.columnType), FieldDesc, ci.columnComment, FieldClose)
  }

  function FieldTexts(cis: seq<ColumnInfo>): (lines: seq<string>)
    ensures |lines| == |cis|
    ensures forall k :: 0 <= k < |cis| ==> lines[k] == FieldText(cis[k])
  {
    seq(|cis|, k requires 0 <= k < |cis| => FieldText(cis[k]))
  }

  /** The three parts of a concatenation, by position. */
  lemma ThreeParts<T>(a: seq<T>, b: seq<T>, c: seq<T>)
    ensures (a + b + c)[..|a|] == a
    ensures (a + b + c)[|a|..|a| + |b|] == b
    ensures forall k :: 0 <= k < |b| ==> (a + b + c)[|a| + k] == b[k]
    ensures (a + b + c)[|a| + |b|..] == c
  {
  }

  /** The lines of the generated declaration, in order. */
  function OutputLines(table: string, cis: seq<ColumnInfo>): (lines: seq<string>)
    requires ValidTable(table)
    ensures |lines| == |cis| + 5
    ensures lines[..3] == HeaderLines(TypeName(table))
    ensures lines[3..|cis| + 3] == FieldTexts(cis)
    ensures lines[|cis| + 3..] == FooterLines
  {
    var header, fields, footer := HeaderLines(TypeName(table)), FieldTexts(cis), FooterLines;
    assert |footer| == 2;
    ThreeParts(header, fields, footer);
    header + fields + footer
  }

  /** The whole generated text: every line followed by a newline. It starts
      with the header and ends with the footer. */
  function GraphQLText(table: string, cis: seq<ColumnInfo>): (text: string)
    requires ValidTable(table)
    ensures HasPrefix(text, JoinLines(HeaderLines(TypeName(table))))
    ensures HasSuffix(text, JoinLines(FooterLines))
  {
    JoinEnds(HeaderLines(TypeName(table)), FieldTexts(cis), FooterLines);
    JoinLines(OutputLines(table, cis))
  }

  /** The source's loop: start from the header, append one field line per
      column, then the footer. */
  method GetGraphQLType(table: string, cis: seq<ColumnInfo>) returns (str: string)
    requires ValidTable(table)
    ensures str == GraphQLText(table, cis)
  {
    var name := TypeName(table);
    var header := HeaderLines(name);
    str := header[0] + "\n";
    str := str + header[1] + "\n";
    str := str + header[2] + "\n";
    HeaderText(header, cis);
    for i := 0 to |cis|
      invariant str == JoinLines(header + FieldTexts(cis[..i]))
    {
      str := str + FieldText(cis[i]) + "\n";
      FieldLineText(header, cis, i);
    }
    str := str + FooterLines[0] + "\n";
    str := str + FooterLines[1] + "\n";
    FooterText(header, cis, str);
  }

  /** The text before the loop: the three header lines and no field yet. */
  lemma HeaderText(header: seq<string>, cis: seq<ColumnInfo>)
    requires |header| == 3
    ensures header[0] + "\n" + header[1] + "\n" + header[2] + "\n" == JoinLines(header + FieldTexts(cis[..0]))
  {
    JoinThreeLines(header);
    assert header + FieldTexts(cis[..0]) == header;
  }

  /** One pass of the loop appends the line of column `i`. */
  lemma FieldLineText(header: seq<string>, cis: seq<ColumnInfo>, i: nat)
    requires i < |cis|
    ensures JoinLines(header + FieldTexts(cis[..i + 1])) ==
      JoinLines(header + FieldTexts(cis[..i])) + FieldText(cis[i]) + "\n"
  {
    var line := FieldText(cis[i]);
    FieldTextsSnoc(cis, i);
    assert header + FieldTexts(cis[..i + 1]) == (header + FieldTexts(cis[..i])) + [line];
    JoinLinesSnoc(header + FieldTexts(cis[..i]), line);
  }

  /** The lines of one more column: one more line at the end. */
  lemma FieldTextsSnoc(cis: seq<ColumnInfo>, i: nat)
    requires i < |cis|
    ensures FieldTexts(cis[..i + 1]) == FieldTexts(cis[..i]) + [FieldText(cis[i])]
  {
    var longer, shorter := FieldTexts(cis[..i + 1]), FieldTexts(cis[..i]);
    forall k | 0 <= k < i + 1 ensures longer[k] == (shorter + [FieldText(cis[i])])[k] {
      assert cis[..i + 1][k] == cis[k];
      if k < i { assert cis[..i][k] == cis[k]; }
    }
  }

  /** The text after the loop, followed by the two footer lines. */
  lemma FooterText(header: seq<string>, cis: seq<ColumnInfo>, str: string)
    requires str == JoinLines(header + FieldTexts(cis[..|cis|])) + FooterLines[0] + "\n" + FooterLines[1] + "\n"
    ensures str == JoinLines(header + FieldTexts(cis) + FooterLines)
  {
    assert cis[..|cis|] == cis;
    JoinTwoLines(FooterLines);
    JoinLinesAppend(header + FieldTexts(cis), FooterLines);
  }

  /** A character absent from the separators and the scalar occurs in a field
      line exactly when it occurs in the key or the comment. */
  lemma FieldShapeHas(open: string, key: string, mid: string, scalar: string,
                      desc: string, comment: string, close: string, x: char)
    requires x !in open && x !in mid && x !in scalar && x !in desc && x !in close
    ensures x in FieldShape(open, key, mid, scalar, desc, comment, close) <==> x in key || x in comment
  {
  }

  /** A column's line holds a newline exactly when its name or comment does. */
  lemma FieldTextNewline(ci: ColumnInfo)
    ensures '\n' in FieldText(ci) <==> '\n' in ci.columnName || '\n' in ci.columnComment
  {
    var camel := SnakeToCamel(ci.columnName);
    FieldTemplateFacts();
    OtherCharIn(ci.columnName, '\n');
    FieldShapeHas(FieldOpen, camel, FieldMid, ColumnType(ci.columnName, ci.columnType),
                  FieldDesc, ci.columnComment, FieldClose, '\n');
  }

  /** The header lines are single lines exactly when the type name holds no newline. */
  lemma HeaderSingleLines(name: string)
    ensures SingleLines(HeaderLines(name)) <==> '\n' !in name
  {
    HeaderTemplateFacts();
    var lines := HeaderLines(name);
    assert '\n' in lines[0] <==> '\n' in name;
  }

  lemma FooterSingleLines()
    ensures SingleLines(FooterLines)
  {
    FooterTemplateFacts();
  }

  /** Neither the type name nor any column name or comment holds a newline. */
  predicate NoNewlines(table: string, cis: seq<ColumnInfo>)
    requires ValidTable(table)
  {
    && '\n' !in TypeName(table)
    && forall k :: 0 <= k < |cis| ==> '\n' !in cis[k].columnName && '\n' !in cis[k].columnComment
  }

  /** The generated lines are single lines exactly when no inserted text
      holds a newline. */
  lemma OutputSingleLines(table: string, cis: seq<ColumnInfo>)
    requires ValidTable(table)
    ensures SingleLines(OutputLines(table, cis)) <==> NoNewlines(table, cis)
  {
    var name := TypeName(table);
    var fields := FieldTexts(cis);
    HeaderSingleLines(name);
    FooterSingleLines();
    SingleLinesAppend(HeaderLines(name), fields);
    SingleLinesAppend(HeaderLines(name) + fields, FooterLines);
    forall k | 0 <= k < |cis|
      ensures '\n' in fields[k] <==> '\n' in cis[k].columnName || '\n' in cis[k].columnComment
    {
      FieldTextNewline(cis[k]);
    }
  }

  /** The generated text has one line per column plus five exactly when no
      inserted text holds a newline; otherwise it has more, because nothing
      is escaped. */
  lemma LineCountIff(table: string, cis: seq<ColumnInfo>)
    requires ValidTable(table)
    ensures |SplitLines(GraphQLText(table, cis))| >= |cis| + 5
    ensures |SplitLines(GraphQLText(table, cis))| == |cis| + 5 <==> NoNewlines(table, cis)
  {
    var lines := OutputLines(table, cis);
    SplitJoinCount(lines);
    OutputSingleLines(table, cis);
  }

  /** Without newlines in the inserted text, splitting the generated text at
      its newlines gives back the header, one line per column in column
      order, and the footer. */
  lemma LinesRecovered(table: string, cis: seq<ColumnInfo>)
    requires ValidTable(table) && NoNewlines(table, cis)
    ensures SplitLines(GraphQLText(table, cis)) == OutputLines(table, cis)
  {
    OutputSingleLines(table, cis);
    SplitJoinLines(OutputLines(table, cis));
  }

  /** Line `3 + k` of the generated text is the line of column `k`. */
  lemma ColumnLine(table: string, cis: seq<ColumnInfo>, k: nat)
    requires ValidTable(table) && NoNewlines(table, cis) && k < |cis|
    ensures 3 + k < |SplitLines(GraphQLText(table, cis))|
    ensures SplitLines(GraphQLText(table, cis))[3 + k] == FieldText(cis[k])
  {
    LinesRecovered(table, cis);
    ThreeParts(HeaderLines(TypeName(table)), FieldTexts(cis), FooterLines);
  }

  /** An empty column list still gives a complete declaration: the three
      header lines and the two footer lines, and nothing else when the type
      name holds no newline. */
  lemma EmptyColumns(table: string)
    requires ValidTable(table)
    ensures GraphQLText(table, []) == JoinLines(HeaderLines(TypeName(table)) + FooterLines)
    ensures '\n' !in TypeName(table) ==>
      SplitLines(GraphQLText(table, [])) == HeaderLines(TypeName(table)) + FooterLines
  {
    assert HeaderLines(TypeName(table)) + FieldTexts([]) == HeaderLines(TypeName(table));
    if '\n' !in TypeName(table) {
      LinesRecovered(table, []);
    }
  }

  /** Reads a field line back by its separators: the key ends at the first
      double quote, the scalar at the first comma, the description at the next
      double quote, which must start the closing separator. The key and the
      description are Go string literals, where a backslash starts an escape
      sequence and `\"` does not end the literal; this reader decodes no
      escapes, so it rejects a line with a backslash in either literal rather
      than read it back differently from Go. */
  function ReadField(line: string, open: string, mid: string, desc: string, close: string): Option<Field> {
    if !HasPrefix(line, open) then None
    else
      var a := line[|open|..];
      var i := IndexOf(a, '"');
      var b := a[i..];
      if !HasPrefix(b, mid) then None
      else
        var c := b[|mid|..];
        var j := IndexOf(c, ',');
        var d := c[j..];
        if !HasPrefix(d, desc) then None
        else
          var e := d[|desc|..];
          var k := IndexOf(e, '"');
          if e[k..] != close then None
          else if '\\' in a[..i] || '\\' in e[..k] then None
          else Some(Field(a[..i], c[..j], e[..k]))
  }

  function ParseField(line: string): Option<Field> {
    ReadField(line, FieldOpen, FieldMid, FieldDesc, FieldClose)
  }

  /** Reading a field line back gives its key, scalar and comment, except that
      a double quote in the comment ends it early and the line is rejected. */
  lemma ReadFieldShape(open: string, key: string, mid: string, scalar: string,
                       desc: string, comment: string, close: string)
    requires '"' !in key && ',' !in scalar
    requires mid != [] && mid[0] == '"' && desc != [] && desc[0] == ','
    requires close != [] && close[0] == '"'
    ensures ReadField(FieldShape(open, key, mid, scalar, desc, comment, close), open, mid, desc, close) ==
      if '"' in comment || '\\' in key || '\\' in comment then None else Some(Field(key, scalar, comment))
  {
    var e := comment + close;
    var d := desc + e;
    var c := scalar + d;
    var b := mid + c;
    var a := key + b;
    StripPrefix(open, a);
    CutAtSeparator(key, b, '"');
    StripPrefix(mid, c);
    CutAtSeparator(scalar, d, ',');
    StripPrefix(desc, e);
    var k := IndexOf(e, '"');
    if '"' in comment {
      var x :| 0 <= x < |comment| && comment[x] == '"';
      assert e[x] == '"';
      assert |e[k..]| > |close|;
    } else {
      CutAtSeparator(comment, close, '"');
    }
  }

  /** A column whose name holds no double quote gives a line that reads back
      as its camel-cased name, its scalar and its comment exactly when neither
      the name nor the comment holds a backslash and the comment holds no
      double quote: an unescaped quote in the comment ends the description
      early, and an unescaped backslash starts an escape sequence. */
  lemma ParseFieldText(ci: ColumnInfo)
    requires '"' !in ci.columnName
    ensures ParseField(FieldText(ci)) ==
      if '"' in ci.columnComment || '\\' in ci.columnName || '\\' in ci.columnComment then None
      else Some(Field(SnakeToCamel(ci.columnName), ColumnType(ci.columnName, ci.columnType), ci.columnComment))
  {
    var camel := SnakeToCamel(ci.columnName);
    FieldTemplateFacts();
    OtherCharIn(ci.columnName, '"');
    OtherCharIn(ci.columnName, '\\');
    ReadFieldShape(FieldOpen, camel, FieldMid, ColumnType(ci.columnName, ci.columnType),
                   FieldDesc, ci.columnComment, FieldClose);
  }

  /** Every column's line in the generated text reads back as that column's
      camel-cased name, scalar and comment, in column order, when no inserted
      text holds a newline, a double quote or a backslash. */
  lemma FieldsRecovered(table: string, cis: seq<ColumnInfo>, k: nat)
    requires ValidTable(table) && NoNewlines(table, cis)
    requires k < |cis|
    requires '"' !in cis[k].columnName && '"' !in cis[k].columnComment
    requires '\\' !in cis[k].columnName && '\\' !in cis[k].columnComment
    ensures 3 + k < |SplitLines(GraphQLText(table, cis))|
    ensures ParseField(SplitLines(GraphQLText(table, cis))[3 + k]) ==
      Some(Field(SnakeToCamel(cis[k].columnName),
                 ColumnType(cis[k].columnName, cis[k].columnType),
                 cis[k].columnComment))
  {
    ColumnLine(table, cis, k);
    ParseFieldText(cis[k]);
  }
}
