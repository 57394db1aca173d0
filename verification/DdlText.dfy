/** Printing DDL statements (src/fdw/ddl.rs:4-9, 70-147). */
module DdlText {
  import opened Text
  import opened TypeMapping
  import opened DdlOrder

  /** `s` with every `q` doubled. */
  function Escape(q: char, s: string): string {
    if s == "" then ""
    else (if s[0] == q then [q, q] else [s[0]]) + Escape(q, s[1..])
  }

  function Quote(q: char, s: string): string {
    [q] + Escape(q, s) + [q]
  }

  function QuoteIdent(ident: string): string {
    Quote('"', ident)
  }

  function QuoteLiteral(value: string): string {
    Quote('\'', value)
  }

  function Join(items: seq<string>): string {
    if |items| == 0 then ""
    else if |items| == 1 then items[0]
    else items[0] + ", " + Join(items[1..])
  }

  // ----- qualify_type_string -----

  function QualifyCompositeType(typeName: string, schema: string): string {
    QuoteIdent(schema) + "." + QuoteIdent(typeName)
  }

  function QualifyBase(base: string, schema: string): string {
    if StartsWith(base, LANCE_PREFIX) then QualifyCompositeType(base, schema) else base
  }

  function QualifyTypeString(ty: string, schema: string): string {
    var parts := Suffixes(Trim(ty));
    QualifyBase(parts.0, schema) + Repeat("[]", parts.1)
  }

  method QualifyTypeStringOf(ty: string, schema: string) returns (out: string)
    ensures out == QualifyTypeString(ty, schema)
  {
    TrimEndTwice(TrimStart(ty));
    var t, dims := CountArrays(Trim(ty));
    out := AppendArrays(QualifyBase(t, schema), dims);
  }

  /** The loop that strips and counts array suffixes. */
  method CountArrays(trimmed: string) returns (t: string, dims: nat)
    requires TrimEnd(trimmed) == trimmed
    ensures (t, dims) == Suffixes(trimmed)
  {
    t, dims := trimmed, 0;
    while EndsWith(TrimEnd(t), "[]")
      invariant TrimEnd(t) == t
      invariant Suffixes(trimmed) == (Suffixes(t).0, dims + Suffixes(t).1)
      decreases |t|
    {
      dims := dims + 1;
      var stripped := TrimEnd(t)[..|TrimEnd(t)| - 2];
      TrimEndTwice(stripped);
      t := TrimEnd(stripped);
    }
  }

  // ----- the statements -----

  function ColumnText(c: (string, string), schema: string): string {
    QuoteIdent(c.0) + " " + QualifyTypeString(c.1, schema)
  }

  function OptionText(o: (string, string)): string {
    QuoteIdent(o.0) + " " + QuoteLiteral(o.1)
  }

  function ColumnTexts(columns: seq<(string, string)>, schema: string): seq<string> {
    seq(|columns|, i requires 0 <= i < |columns| => ColumnText(columns[i], schema))
  }

  function OptionTexts(options: seq<(string, string)>): seq<string> {
    seq(|options|, i requires 0 <= i < |options| => OptionText(options[i]))
  }

  const BEFORE := " BEGIN CREATE FOREIGN TABLE "
  const AFTER := "); EXCEPTION " + ("WHEN duplicate_table " + "THEN NULL; END ")

  /** The text between the dollar quotes. */
  function ForeignTableBody(server: string, schema: string, table: string,
                            options: seq<(string, string)>, columns: seq<(string, string)>): string
  {
    BEFORE + (QuoteIdent(schema) + ("." + (QuoteIdent(table) + (" (" + (Join(ColumnTexts(columns, schema))
    + (") SERVER " + (QuoteIdent(server) + (" OPTIONS (" + (Join(OptionTexts(options)) + AFTER)))))))))
  }

  function CreateForeignTableSql(server: string, schema: string, table: string,
                                 options: seq<(string, string)>, columns: seq<(string, string)>): string
  {
    "DO $$" + ForeignTableBody(server, schema, table, options, columns) + "$$;"
  }

  const BEFORE_TYPE := " BEGIN CREATE TYPE "
  const AFTER_TYPE := "); EXCEPTION " + ("WHEN duplicate_object " + "THEN NULL; END ")

  function CompositeTypeBody(schema: string, def: CompositeTypeDef): string {
    BEFORE_TYPE + (QualifyCompositeType(def.typeName, schema) +
      (" AS (" + (Join(ColumnTexts(def.fields, schema)) + AFTER_TYPE)))
  }

  function CreateCompositeTypeSql(schema: string, def: CompositeTypeDef): string {
    "DO $$" + CompositeTypeBody(schema, def) + "$$;"
  }
}
