# make-graphql-field, modelled in Dafny

make-graphql-field reads the column catalog of one MySQL table and prints
the Go source of a `graphql-go` object type for it. The type has one field
per column. This project models the pure core of `cmd/cmd.go`:

- `ColumnInfo` (cmd/cmd.go:66-70): one catalog row, with the column's name,
  storage type and comment. It is modelled as the datatype
  `GraphQLType.ColumnInfo`, with the same three string fields in the same
  order. It has no behaviour of its own; the functions below read its fields.
- `columnType`: maps a column to a GraphQL scalar name. The rules are
  checked in order: a column named `id` is always `ID`; otherwise the label
  follows from a prefix of the storage type (`varchar`, `char`, `int`,
  `tinyint`, `float`, `time`, `date`); for anything else it is the empty
  string. This is module `ColumnTypes`.
- `snakeToCamel`: replaces every match of the regular expression `_([a-z])`
  with the upper-case form of the letter. The regular-expression engine is
  modelled as the left-to-right scan it performs. This is module `SnakeCase`.
- `GetGraphQLType`: builds the text. The type name is the camel-cased table
  name with its first character upper-cased and its last character dropped.
  Then come three header lines, one field line per column in catalog order,
  and two footer lines, each ending in a newline. This is module
  `GraphQLType`.
  - The text is specified line by line by `OutputLines` and `GraphQLText`.
  - The method `GetGraphQLType` builds it by repeated concatenation, as the
    source does. It is proved to produce exactly `GraphQLText`.

Module `Text` holds generic helpers: ASCII character classes, `HasPrefix`,
the first index of a character, and joining and splitting newline-terminated
lines, with their round trips.

The source has three open questions: the `id` override, the unconditional
removal of the type name's last character, and the lack of escaping. All
three are modelled as written; none is corrected.
- `TypeNameExample` shows the removal of the last character: `user_id`
  gives `UserI`.
- `LineCountIff` and `ParseFieldText` show what the lack of escaping does.
  A newline in a name or comment adds lines to the output. A double quote
  in a comment ends the Go string literal early. A backslash in a name or
  comment starts a Go escape sequence, so `C:\` as a comment turns the
  closing quote into `\"` and the literal never closes. The field reader
  used to state these facts decodes no escapes: it rejects a line with a
  backslash in either string literal.

## Model

| member | source | states |
|---|---|---|
| ColumnTypes.ColumnType | cmd/cmd.go:143-164 | The label is one of `ID`, `String`, `Int`, `Float`, `DateTime`, or the empty string. It is `ID` exactly when the column is named `id`. It is empty exactly when the column is not `id` and the type has none of the seven recognised prefixes. |
| ColumnTypes.FamiliesDisjoint | cmd/cmd.go:147-160 | No storage type has prefixes from two families (string, int, float, date-time). So the order of the prefix cases never changes the result. |
| ColumnTypes.LabelByFamily | cmd/cmd.go:144-163 | For a column not named `id`, each label holds exactly when the type is in that label's family, in both directions. |
| ColumnTypes.LabelStableUnderSuffix | cmd/cmd.go:147-160 | Extending a recognised storage type (`varchar` to `varchar(255)`) does not change its label. |
| SnakeCase.SnakeToCamel | cmd/cmd.go:135-141 | The result is never longer than the input. It is empty exactly when the input is empty. |
| SnakeCase.NoSnakePairInResult | cmd/cmd.go:135-141 | The result has no underscore followed by a lower-case ASCII letter. |
| SnakeCase.FixedPointIff | cmd/cmd.go:135-141 | A text is unchanged exactly when it contains no match of `_([a-z])`. |
| SnakeCase.Idempotent | cmd/cmd.go:135-141 | Converting twice gives the same result as converting once. |
| SnakeCase.NoUnderscoreUnchanged | cmd/cmd.go:135-141 | A text without underscores is unchanged. |
| SnakeCase.MatchLength | cmd/cmd.go:135-141 | The result is shorter than the input by exactly `Pairs(s)`, the number of matches of `_([a-z])`. |
| SnakeCase.MatchUnderscores | cmd/cmd.go:135-141 | The result has exactly `Pairs(s)` fewer underscores than the input: only the underscore of each match disappears, and unmatched underscores stay. |
| SnakeCase.SplitAt | cmd/cmd.go:135-141 | Converting `a + b` gives the conversion of `a` followed by that of `b`, unless a match straddles the seam (`a` ends in `_` and `b` starts with a lower-case letter). So the text between matches is copied verbatim. |
| SnakeCase.PlainPrefixKept | cmd/cmd.go:135-141 | A part without underscores in front of the rest is copied unchanged, character for character and with its case. |
| SnakeCase.OtherCharsKept | cmd/cmd.go:135-141 | Every character that is not an ASCII letter or an underscore occurs as often in the result as in the input. |
| SnakeCase.FoldKept | cmd/cmd.go:135-141 | Input and result are equal once underscores are dropped and letters lower-cased. So no character other than an underscore is added, dropped or moved. |
| SnakeCase.CamelRoundTrip | cmd/cmd.go:135-141 | On a text without underscores, converting each capital to an underscore plus its lower-case letter and then back gives the original text. |
| SnakeCase.SnakeRoundTrip | cmd/cmd.go:135-141 | On lower-case snake case (no capitals, every underscore followed by a lower-case letter), converting to camel case and back gives the original text. |
| SnakeCase.AsciiKept | cmd/cmd.go:135-141 | ASCII input gives ASCII output. |
| GraphQLType.TypeName | cmd/cmd.go:121-122 | The name is the camel-cased table name without its last character, with its first character upper-cased. Its first character is never a lower-case letter. |
| GraphQLType.TypeNameIsCamel | cmd/cmd.go:121-122 | The type name is ASCII and has no `_([a-z])` match left. |
| GraphQLType.TypeNameExample | cmd/cmd.go:121-122 | The table `user_id` is accepted and gives `UserI`, so the last character is dropped unconditionally. |
| GraphQLType.CamelUserId | cmd/cmd.go:135-141 | The name `user_id` converts to `userId`. |
| GraphQLType.HeaderLines | cmd/cmd.go:123-125 | Three lines: the declaration opens with `var ` and the type name and closes with `Type = graphql.NewObject(graphql.ObjectConfig{`; the `Name:` line carries the type name between quotes; the third line opens `Fields: graphql.Fields{`. |
| GraphQLType.HeaderSingleLines | cmd/cmd.go:123-125 | The header lines hold no newline of their own exactly when the type name holds none. |
| GraphQLType.FooterSingleLines | cmd/cmd.go:129-130 | The two footer lines, the closing `},` of the fields and the closing `})`, hold no newline of their own. |
| GraphQLType.FieldText | cmd/cmd.go:127 | A column's line starts with two tabs, a quote, the camel-cased column name and `": &graphql.Field{Type: graphql.`, and ends with `, Description: "`, the comment verbatim and `"},`. What lies between `graphql.` and `, Description: "` is exactly the `ColumnType` label of the column. This holds for every column, quotes and backslashes included. |
| GraphQLType.FieldTexts | cmd/cmd.go:126-128 | One line per column, in column order: line `k` is the line of column `k`. |
| GraphQLType.OutputLines | cmd/cmd.go:123-130 | The declaration has (columns + 5) lines: the three header lines, then the column lines in order, then the footer lines. |
| GraphQLType.GraphQLText | cmd/cmd.go:123-130 | The text starts with the joined header lines and ends with the joined footer lines. |
| GraphQLType.GetGraphQLType | cmd/cmd.go:119-133 | The concatenation loop returns exactly `GraphQLText`: the three header lines with the type name, one field line per column in order, and the two footer lines, each followed by a newline. |
| GraphQLType.FieldTextNewline | cmd/cmd.go:127 | A column's field line contains a newline exactly when the column's name or comment does. |
| GraphQLType.OutputSingleLines | cmd/cmd.go:123-130 | No generated line contains a newline of its own exactly when the type name and every column name and comment are free of newlines. |
| GraphQLType.LineCountIff | cmd/cmd.go:123-130 | The text always splits into at least (columns + 5) lines. It splits into exactly that many exactly when no inserted text contains a newline. |
| GraphQLType.LinesRecovered | cmd/cmd.go:123-130 | Without inserted newlines, splitting the text at its newlines gives back the header, the column lines in order, and the footer. |
| GraphQLType.ColumnLine | cmd/cmd.go:126-128 | Without inserted newlines, line 3 + k of the text is the field line of column k. |
| GraphQLType.EmptyColumns | cmd/cmd.go:123-130 | With no columns, for every accepted table, the text is the three header lines joined with the two footer lines. When the type name holds no newline, splitting the text gives back exactly those five lines. |
| GraphQLType.ParseFieldText | cmd/cmd.go:127 | If the column name has no double quote, the field line reads back as the camel-cased name, the scalar and the comment exactly when the comment has no double quote and neither the name nor the comment has a backslash. Otherwise the line is rejected. |
| GraphQLType.FieldsRecovered | cmd/cmd.go:126-128 | Without inserted newlines, and with no double quote or backslash in column k's name and comment, line 3 + k of the text reads back as column k's camel-cased name, scalar and comment. |

## Left out

- GraphQLType.TypeName: requires an ASCII table name whose camel-cased form has at least two characters. On shorter names the source's slices panic. On non-ASCII names the source mixes byte indices with a rune count, and that is not modelled.
- GraphQLType.GetGraphQLType: has the same requirement on the table name as `TypeName`, because it calls it.
- `snakeToCamel` runs on UTF-8 bytes in Go; `SnakeCase.SnakeToCamel` runs on characters. They agree on valid UTF-8 text, because `_` and `[a-z]` are single-byte characters. Invalid UTF-8 is not modelled.
- `GetColumnInfo` (cmd/cmd.go:104-117) queries `information_schema.columns` through the database driver. The column list is a parameter of the model, taken to be in ordinal order.
- `newCmdClient` and the `cmdClient` struct (cmd/cmd.go:88-102) open the database connection. The receiver of `GetGraphQLType` is unused, so the model omits it.
- `init`, `initConfig`, `cmd` and `cmdFunction` (cmd/cmd.go:19-86) handle the command line, configuration and printing. The extra newline that `fmt.Println` adds is not modelled.
- `main.go` only starts the command.
