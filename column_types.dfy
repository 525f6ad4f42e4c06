/** The type mapper of cmd/cmd.go (`columnType`): a column's name and its
    storage type, as reported by the database catalog (`varchar(255)`,
    `int(11)`, ...), give the GraphQL scalar named in the generated field. */
module ColumnTypes {
  import opened Text

  /** Every label `ColumnType` can produce; `""` means "no known type". */
  const Labels: set<string> := {"ID", "String", "Int", "Float", "DateTime", ""}

  predicate IsStringType(cType: string) {
    HasPrefix(cType, "varchar") || HasPrefix(cType, "char")
  }

  predicate IsIntType(cType: string) {
    HasPrefix(cType, "int") || HasPrefix(cType, "tinyint")
  }

  predicate IsFloatType(cType: string) {
    HasPrefix(cType, "float")
  }

  predicate IsDateTimeType(cType: string) {
    HasPrefix(cType, "time") || HasPrefix(cType, "date")
  }

  /** The storage type starts with one of the seven recognised prefixes. */
  predicate IsKnownType(cType: string) {
    IsStringType(cType) || IsIntType(cType) || IsFloatType(cType) || IsDateTimeType(cType)
  }

  /** The switch of `columnType`: the first matching case wins. */
  function ColumnType(cName: string, cType: string): (scalar: string)
    ensures scalar in Labels
    ensures scalar == "ID" <==> cName == "id"
    ensures scalar == "" <==> cName != "id" && !IsKnownType(cType)
  {
    if cName == "id" then "ID"
    else if HasPrefix(cType, "varchar") then "String"
    else if HasPrefix(cType, "char") then "String"
    else if HasPrefix(cType, "int") then "Int"
    else if HasPrefix(cType, "tinyint") then "Int"
    else if HasPrefix(cType, "float") then "Float"
    else if HasPrefix(cType, "time") then "DateTime"
    else if HasPrefix(cType, "date") then "DateTime"
    else ""
  }

  /** The first three characters a prefix test looks at. */
  lemma PrefixHead(s: string, prefix: string)
    requires HasPrefix(s, prefix) && |prefix| >= 3
    ensures s[0] == prefix[0] && s[1] == prefix[1] && s[2] == prefix[2]
  {
    assert s[..|prefix|][0] == s[0] && s[..|prefix|][1] == s[1] && s[..|prefix|][2] == s[2];
  }

  /** No storage type belongs to two families: the order of the cases only
      matters for the `id` override. */
  lemma {:induction false} FamiliesDisjoint(cType: string)
    ensures !(IsStringType(cType) && IsIntType(cType))
    ensures !(IsStringType(cType) && IsFloatType(cType))
    ensures !(IsStringType(cType) && IsDateTimeType(cType))
    ensures !(IsIntType(cType) && IsFloatType(cType))
    ensures !(IsIntType(cType) && IsDateTimeType(cType))
    ensures !(IsFloatType(cType) && IsDateTimeType(cType))
  {
    if HasPrefix(cType, "varchar") { PrefixHead(cType, "varchar"); }
    if HasPrefix(cType, "char") { PrefixHead(cType, "char"); }
    if HasPrefix(cType, "int") { PrefixHead(cType, "int"); }
    if HasPrefix(cType, "tinyint") { PrefixHead(cType, "tinyint"); }
    if HasPrefix(cType, "float") { PrefixHead(cType, "float"); }
    if HasPrefix(cType, "time") { PrefixHead(cType, "time"); }
    if HasPrefix(cType, "date") { PrefixHead(cType, "date"); }
  }

  /** For any column other than `id`, the label is decided by the family of
      the storage type alone, in both directions. */
  lemma LabelByFamily(cName: string, cType: string)
    requires cName != "id"
    ensures ColumnType(cName, cType) == "String" <==> IsStringType(cType)
    ensures ColumnType(cName, cType) == "Int" <==> IsIntType(cType)
    ensures ColumnType(cName, cType) == "Float" <==> IsFloatType(cType)
    ensures ColumnType(cName, cType) == "DateTime" <==> IsDateTimeType(cType)
  {
    FamiliesDisjoint(cType);
  }

  /** Length suffixes do not matter: `varchar(10)` and `varchar(255)` share the
      label of `varchar`, and so does any other extension of a recognised type. */
  lemma LabelStableUnderSuffix(cName: string, cType: string, suffix: string)
    requires ColumnType(cName, cType) != ""
    ensures ColumnType(cName, cType + suffix) == ColumnType(cName, cType)
  {
    if cName != "id" {
      forall p: string | HasPrefix(cType, p) ensures HasPrefix(cType + suffix, p) {
        HasPrefixExtend(cType, suffix, p);
      }
      LabelByFamily(cName, cType);
      LabelByFamily(cName, cType + suffix);
    }
  }
}
