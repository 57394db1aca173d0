/** Reading generated DDL back under PostgreSQL's quoting rules (PostgreSQL documentation,
    sections 4.1.1 and 4.1.2). */
module DdlParser {
  import opened Wrappers
  import opened Text
  import opened DdlOrder
  import opened DdlText
  import opened SchemaOrder
  import opened Arrow
  import opened TypeMapping

  // ----- identifiers -----

  /** The size of a character in UTF-8. */
  function Utf8Len(c: char): (n: nat)
    ensures 1 <= n <= 4
  {
    var u := c as int;
    if u < 0x80 then 1 else if u < 0x800 then 2 else if u < 0x1_0000 then 3 else 4
  }

  function ByteLen(s: string): nat {
    if s == "" then 0 else Utf8Len(s[0]) + ByteLen(s[1..])
  }

  /** The characters of `s` that fit into `n` bytes. */
  function Clip(s: string, n: nat): string {
    if s == "" || Utf8Len(s[0]) > n then "" else [s[0]] + Clip(s[1..], n - Utf8Len(s[0]))
  }

  /** What PostgreSQL keeps of an identifier. */
  function ClipName(s: string): string {
    Clip(s, Naming.MAX_IDENT)
  }

  /** Only the tail is lost, and only if there are too many bytes. */
  lemma {:induction false} ClipIff(s: string, n: nat)
    ensures Clip(s, n) <= s && ByteLen(Clip(s, n)) <= n
    ensures Clip(s, n) == s <==> ByteLen(s) <= n
    decreases |s|
  {
    if s != "" && Utf8Len(s[0]) <= n {
      ClipIff(s[1..], n - Utf8Len(s[0]));
      var t := Clip(s[1..], n - Utf8Len(s[0]));
      assert ([s[0]] + t)[1..] == t;
      assert s == [s[0]] + s[1..];
    }
  }

  /** What may stand between double quotes. */
  predicate IsName(s: string) {
    s != "" && '\0' !in s
  }

  // ----- the reader -----

  /** The rest of a quoted token behind its opening `q`, and what follows the closing one. */
  function ReadQuotedTail(q: char, s: string): (r: Option<(string, string)>)
    ensures r.Some? ==> |r.value.1| < |s|
  {
    if s == "" || s[0] == '\0' then None
    else if s[0] == q && (|s| == 1 || s[1] != q) then Some(("", s[1..]))
    else
      var skip := if s[0] == q then 2 else 1;
      var t :- ReadQuotedTail(q, s[skip..]);
      Some(([s[0]] + t.0, t.1))
  }

  function ReadQuoted(q: char, s: string): (r: Option<(string, string)>)
    ensures r.Some? ==> |r.value.1| < |s|
  {
    if s != "" && s[0] == q then ReadQuotedTail(q, s[1..]) else None
  }

  /** A quoted identifier: not empty, and cut at 63 bytes. */
  function ReadIdent(s: string): (r: Option<(string, string)>)
    ensures r.Some? ==> |r.value.1| < |s|
  {
    var t :- ReadQuoted('"', s);
    if t.0 == "" then None else Some((ClipName(t.0), t.1))
  }

  /** The text behind a fixed keyword or punctuation. */
  function Expect(s: string, t: string): Option<string> {
    if StartsWith(s, t) then Some(s[|t|..]) else None
  }

  predicate WordChar(c: char) {
    'a' <= c <= 'z' || '0' <= c <= '9' || c == '_'
  }

  function ReadWord(s: string): (string, string) {
    if s == "" || !WordChar(s[0]) then ("", s)
    else var r := ReadWord(s[1..]); ([s[0]] + r.0, r.1)
  }

  function ReadDims(s: string): (nat, string) {
    if StartsWith(s, "[]") then var r := ReadDims(s[2..]); (r.0 + 1, r.1) else (0, s)
  }

  /** A type as written: its schema if it is qualified, its name and its array dimensions. */
  datatype TypeRef = TypeRef(schema: Option<string>, name: string, dims: nat)

  function ReadTypeName(s: string): Option<(Option<string>, string, string)> {
    if s != "" && s[0] == '"' then
      var a :- ReadIdent(s);
      var s1 :- Expect(a.1, ".");
      var b :- ReadIdent(s1);
      Some((Some(a.0), b.0, b.1))
    else
      var w := ReadWord(s);
      if w.0 == "" then None else Some((None, ClipName(w.0), w.1))
  }

  function ReadType(s: string): Option<(TypeRef, string)> {
    var n :- ReadTypeName(s);
    var d := ReadDims(n.2);
    Some((TypeRef(n.0, n.1, d.0), d.1))
  }

  function ReadColumn(s: string): Option<((string, TypeRef), string)> {
    var n :- ReadIdent(s);
    var s1 :- Expect(n.1, " ");
    var t :- ReadType(s1);
    Some(((n.0, t.0), t.1))
  }

  function ReadOption(s: string): Option<((string, string), string)> {
    var k :- ReadIdent(s);
    var s1 :- Expect(k.1, " ");
    var v :- ReadQuoted('\'', s1);
    Some(((k.0, v.0), v.1))
  }

  /** A comma-separated list up to a closing parenthesis, which is left unread. */
  function ReadList<T>(s: string, item: string -> Option<(T, string)>): Option<(seq<T>, string)>
    decreases |s|
  {
    if StartsWith(s, ")") then Some(([], s))
    else
      var x :- item(s);
      match Expect(x.1, ", ")
      case None => Some(([x.0], x.1))
      case Some(s1) =>
        if |s1| >= |s| || StartsWith(s1, ")") then None
        else
          var xs :- ReadList(s1, item);
          Some(([x.0] + xs.0, xs.1))
  }

  const TABLE_START := " BEGIN CREATE FOREIGN TABLE "
  const TABLE_END := "); EXCEPTION " + ("WHEN duplicate_table " + "THEN NULL; END ")
  const TYPE_START := " BEGIN CREATE TYPE "
  const TYPE_END := "); EXCEPTION " + ("WHEN duplicate_object " + "THEN NULL; END ")

  /** What the printer puts around the parts. */
  lemma {:induction false} FixedTexts()
    ensures BEFORE == TABLE_START && AFTER == TABLE_END && BEFORE_TYPE == TYPE_START && AFTER_TYPE == TYPE_END
  {
  }

  datatype Statement = Statement(server: string, schema: string, table: string,
                                 options: seq<(string, string)>, columns: seq<(string, TypeRef)>)

  /** The schema and name of the table, and the text behind the opening parenthesis. */
  function ReadHead(s: string): Option<(string, string, string)> {
    var s1 :- Expect(s, TABLE_START);
    var schema :- ReadIdent(s1);
    var s2 :- Expect(schema.1, ".");
    var table :- ReadIdent(s2);
    var s3 :- Expect(table.1, " (");
    Some((schema.0, table.0, s3))
  }

  /** The server and the options, up to the end of the body. */
  function ReadTail(s: string): Option<(string, seq<(string, string)>)> {
    var s1 :- Expect(s, ") SERVER ");
    var server :- ReadIdent(s1);
    var s2 :- Expect(server.1, " OPTIONS (");
    var options :- ReadList(s2, ReadOption);
    if options.1 == TABLE_END then Some((server.0, options.0)) else None
  }

  function ReadBody(s: string): Option<Statement> {
    var head :- ReadHead(s);
    var columns :- ReadList(head.2, ReadColumn);
    var tail :- ReadTail(columns.1);
    Some(Statement(tail.0, head.0, head.1, tail.1, columns.0))
  }

  /** A dollar-quoted string runs to the first `$$`. */
  function ReadDollars(s: string): (r: Option<(string, string)>)
    ensures r.Some? ==> |r.value.0| + 2 + |r.value.1| == |s|
  {
    if |s| < 2 then None
    else if s[0] == '$' && s[1] == '$' then Some(("", s[2..]))
    else
      var r :- ReadDollars(s[1..]);
      Some(([s[0]] + r.0, r.1))
  }

  /** A DO block whose dollar-quoted text is read by `reader`. */
  function ReadDo<T>(s: string, reader: string -> Option<T>): Option<T> {
    var s1 :- Expect(s, "DO $$");
    var body :- ReadDollars(s1);
    if body.1 == ";" then reader(body.0) else None
  }

  function ReadStatement(s: string): Option<Statement> {
    ReadDo(s, ReadBody)
  }

  // ----- reading back quoted tokens -----

  lemma {:induction false} QuotedReadsBack(q: char, s: string, rest: string)
    requires q != '\0' && (rest == "" || rest[0] != q)
    ensures ReadQuotedTail(q, Escape(q, s) + [q] + rest) == if '\0' in s then None else Some((s, rest))
    decreases |s|
  {
    var t := Escape(q, s) + [q] + rest;
    if s == "" {
      assert t == [q] + rest;
    } else {
      QuotedReadsBack(q, s[1..], rest);
      var tail := Escape(q, s[1..]) + [q] + rest;
      if s[0] == q {
        assert t == [q, q] + tail;
      } else {
        assert t == [s[0]] + tail;
      }
      assert s == [s[0]] + s[1..];
    }
  }

  /** Quoted text reads back exactly if it holds no zero character. */
  lemma {:induction false} QuoteReadsBack(q: char, s: string, rest: string)
    requires q != '\0' && (rest == "" || rest[0] != q)
    ensures ReadQuoted(q, Quote(q, s) + rest) == if '\0' in s then None else Some((s, rest))
  {
    QuotedReadsBack(q, s, rest);
    assert Quote(q, s) + rest == [q] + (Escape(q, s) + [q] + rest);
  }

  lemma {:induction false} IdentReadsBack(s: string, rest: string)
    requires rest == "" || rest[0] != '"'
    ensures ReadIdent(QuoteIdent(s) + rest) == if IsName(s) then Some((ClipName(s), rest)) else None
  {
    QuoteReadsBack('"', s, rest);
  }

  lemma {:induction false} ExpectReadsBack(t: string, rest: string)
    ensures Expect(t + rest, t) == Some(rest)
  {
  }

  // ----- reading back types -----

  /** Where a list item ends. */
  ghost predicate Delimited(r: string) {
    r != "" && (r[0] == ',' || r[0] == ')')
  }

  lemma {:induction false} WordReadsBack(w: string, rest: string)
    requires forall i | 0 <= i < |w| :: WordChar(w[i])
    requires rest == "" || !WordChar(rest[0])
    ensures ReadWord(w + rest) == (w, rest)
    decreases |w|
  {
    if w == "" {
      assert w + rest == rest;
    } else {
      WordReadsBack(w[1..], rest);
      assert (w + rest)[1..] == w[1..] + rest;
      assert w == [w[0]] + w[1..];
    }
  }

  lemma {:induction false} RepeatFront(n: nat)
    requires n > 0
    ensures Repeat("[]", n) == "[]" + Repeat("[]", n - 1)
  {
    if n > 1 {
      RepeatFront(n - 1);
    }
  }

  lemma {:induction false} DimsReadBack(n: nat, rest: string)
    requires Delimited(rest)
    ensures ReadDims(Repeat("[]", n) + rest) == (n, rest)
  {
    if n == 0 {
      assert Repeat("[]", n) + rest == rest;
    } else {
      RepeatFront(n);
      DimsReadBack(n - 1, rest);
      assert Repeat("[]", n) + rest == "[]" + (Repeat("[]", n - 1) + rest);
    }
  }

  /** What a declared type `w[]...[]` refers to. */
  function Reference(w: string, n: nat, schema: string): TypeRef {
    TypeRef(if StartsWith(w, LANCE_PREFIX) then Some(schema) else None, w, n)
  }

  function ClipRef(t: TypeRef): TypeRef {
    TypeRef(if t.schema.Some? then Some(ClipName(t.schema.value)) else None, ClipName(t.name), t.dims)
  }

  predicate LegibleRef(t: TypeRef) {
    (t.schema.Some? ==> IsName(t.schema.value)) && IsName(t.name)
  }

  lemma {:induction false} WordIsName(w: string)
    requires IsWord(w)
    ensures IsName(w)
  {
  }

  lemma {:induction false} TypeNameReadsBack(w: string, schema: string, rest: string)
    requires IsWord(w) && rest != "" && rest[0] in {'[', ',', ')'}
    ensures var t := Reference(w, 0, schema);
            ReadTypeName(QualifyBase(w, schema) + rest) ==
            if LegibleRef(t) then Some((ClipRef(t).schema, ClipName(w), rest)) else None
  {
    WordIsName(w);
    if StartsWith(w, LANCE_PREFIX) {
      var second := QuoteIdent(w) + rest;
      assert QualifyCompositeType(w, schema) + rest == QuoteIdent(schema) + ("." + second);
      IdentReadsBack(schema, "." + second);
      ExpectReadsBack(".", second);
      IdentReadsBack(w, rest);
    } else {
      WordReadsBack(w, rest);
      assert (w + rest)[0] == w[0];
    }
  }

  lemma {:induction false} TypeReadsBack(w: string, n: nat, schema: string, rest: string)
    requires IsWord(w) && Delimited(rest)
    ensures var t := Reference(w, n, schema);
            ReadType(QualifyTypeString(w + Repeat("[]", n), schema) + rest) ==
            if LegibleRef(t) then Some((ClipRef(t), rest)) else None
  {
    SuffixesOfWord(w, n);
    var text, dims := QualifyBase(w, schema), Repeat("[]", n);
    assert QualifyTypeString(w + Repeat("[]", n), schema) == text + dims;
    TypePartsReadBack(w, n, schema, text, dims, rest);
  }

  lemma {:induction false} TypePartsReadBack(w: string, n: nat, schema: string, text: string, dims: string,
                                             rest: string)
    requires IsWord(w) && Delimited(rest) && text == QualifyBase(w, schema) && dims == Repeat("[]", n)
    ensures var t := Reference(w, n, schema);
            ReadType(text + dims + rest) == if LegibleRef(t) then Some((ClipRef(t), rest)) else None
  {
    DimsReadBack(n, rest);
    var tail := dims + rest;
    assert tail[0] in {'[', ',', ')'} by {
      if n > 0 {
        RepeatFront(n);
      }
    }
    TypeNameReadsBack(w, schema, tail);
    assert text + dims + rest == text + tail;
  }

  // ----- reading back lists -----

  /** Whatever ends the item, `item` reads `x` from `text` if that is legible, and fails if not. */
  ghost predicate Reads<T(!new)>(item: string -> Option<(T, string)>, text: string, legible: bool, x: T)
  {
    && text != "" && text[0] != ')'
    && forall rest | Delimited(rest) :: item(text + rest) == if legible then Some((x, rest)) else None
  }

  ghost predicate AllTrue(bs: seq<bool>)
  {
    forall i | 0 <= i < |bs| :: bs[i]
  }

  lemma {:induction false} ListReadsBack<T(!new)>(item: string -> Option<(T, string)>, texts: seq<string>,
                                           legible: seq<bool>, xs: seq<T>, rest: string)
    requires |texts| == |legible| == |xs| && forall i | 0 <= i < |texts| :: Reads(item, texts[i], legible[i], xs[i])
    requires rest != "" && rest[0] == ')'
    ensures ReadList(Join(texts) + rest, item) == if AllTrue(legible) then Some((xs, rest)) else None
    decreases |texts|
  {
    var s := Join(texts) + rest;
    if |texts| == 0 {
      assert s == rest;
    } else {
      assert Reads(item, texts[0], legible[0], xs[0]);
      assert s[0] == texts[0][0];
      if |texts| == 1 {
        assert item(texts[0] + rest) == if legible[0] then Some((xs[0], rest)) else None;
        assert xs == [xs[0]];
      } else {
        var tail := Join(texts[1..]) + rest;
        assert Reads(item, texts[1], legible[1], xs[1]);
        assert tail[0] == texts[1][0];
        assert s == texts[0] + (", " + tail);
        assert item(texts[0] + (", " + tail)) == if legible[0] then Some((xs[0], ", " + tail)) else None;
        ExpectReadsBack(", ", tail);
        ListReadsBack(item, texts[1..], legible[1..], xs[1..], rest);
        AllTrueFront(legible);
        assert xs == [xs[0]] + xs[1..];
      }
    }
  }

  lemma {:induction false} AllTrueFront(bs: seq<bool>)
    requires bs != []
    ensures AllTrue(bs) <==> bs[0] && AllTrue(bs[1..])
  {
    assert bs == [bs[0]] + bs[1..];
  }

  /** The columns of a statement: names, and words with array suffixes as types. */
  ghost predicate WellShaped(columns: seq<(string, string)>, parts: seq<(string, nat)>)
  {
    |parts| == |columns| &&
    forall i | 0 <= i < |columns| :: IsWord(parts[i].0) && columns[i].1 == parts[i].0 + Repeat("[]", parts[i].1)
  }

  ghost function ColumnRefs(columns: seq<(string, string)>, parts: seq<(string, nat)>,
                            schema: string): seq<(string, TypeRef)>
    requires |parts| == |columns|
  {
    seq(|columns|, i requires 0 <= i < |columns| => (columns[i].0, Reference(parts[i].0, parts[i].1, schema)))
  }

  predicate LegibleColumn(c: (string, TypeRef)) {
    IsName(c.0) && LegibleRef(c.1)
  }

  predicate LegibleOption(o: (string, string)) {
    IsName(o.0) && '\0' !in o.1
  }

  function ClipColumn(c: (string, TypeRef)): (string, TypeRef) {
    (ClipName(c.0), ClipRef(c.1))
  }

  function ClipOption(o: (string, string)): (string, string) {
    (ClipName(o.0), o.1)
  }

  function Mapped<T, U>(f: T -> U, xs: seq<T>): seq<U> {
    seq(|xs|, i requires 0 <= i < |xs| => f(xs[i]))
  }

  lemma {:induction false} ColumnReads(c: (string, string), w: string, n: nat, schema: string)
    requires IsWord(w) && c.1 == w + Repeat("[]", n)
    ensures var x := (c.0, Reference(w, n, schema));
            Reads(ReadColumn, ColumnText(c, schema), LegibleColumn(x), ClipColumn(x))
  {
    var text, x := ColumnText(c, schema), (c.0, Reference(w, n, schema));
    forall rest | Delimited(rest)
      ensures ReadColumn(text + rest) == if LegibleColumn(x) then Some((ClipColumn(x), rest)) else None
    {
      TypeReadsBack(w, n, schema, rest);
      NameAndTypeRead(c.0, QualifyTypeString(c.1, schema), x.1, rest);
    }
    assert text[0] == '"';
  }

  lemma {:induction false} NameAndTypeRead(name: string, text: string, t: TypeRef, rest: string)
    requires ReadType(text + rest) == if LegibleRef(t) then Some((ClipRef(t), rest)) else None
    ensures ReadColumn(QuoteIdent(name) + " " + text + rest) ==
            if LegibleColumn((name, t)) then Some((ClipColumn((name, t)), rest)) else None
  {
    var tail := text + rest;
    assert QuoteIdent(name) + " " + text + rest == QuoteIdent(name) + (" " + tail);
    IdentReadsBack(name, " " + tail);
    ExpectReadsBack(" ", tail);
  }

  lemma {:induction false} OptionReads(o: (string, string))
    ensures Reads(ReadOption, OptionText(o), LegibleOption(o), ClipOption(o))
  {
    var text := OptionText(o);
    forall rest | Delimited(rest)
      ensures ReadOption(text + rest) == if LegibleOption(o) then Some((ClipOption(o), rest)) else None
    {
      var tail := QuoteLiteral(o.1) + rest;
      assert text + rest == QuoteIdent(o.0) + (" " + tail);
      IdentReadsBack(o.0, " " + tail);
      ExpectReadsBack(" ", tail);
      QuoteReadsBack('\'', o.1, rest);
    }
    assert text[0] == '"';
  }

  predicate LegibleColumns(columns: seq<(string, TypeRef)>) {
    forall i | 0 <= i < |columns| :: LegibleColumn(columns[i])
  }

  predicate LegibleOptions(options: seq<(string, string)>) {
    forall i | 0 <= i < |options| :: LegibleOption(options[i])
  }

  lemma {:induction false} ColumnsReadBack(columns: seq<(string, string)>, parts: seq<(string, nat)>, schema: string,
                                           rest: string)
    requires WellShaped(columns, parts) && rest != "" && rest[0] == ')'
    ensures var refs := ColumnRefs(columns, parts, schema);
            ReadList(Join(ColumnTexts(columns, schema)) + rest, ReadColumn) ==
            if LegibleColumns(refs) then Some((Mapped(ClipColumn, refs), rest)) else None
  {
    var refs, texts := ColumnRefs(columns, parts, schema), ColumnTexts(columns, schema);
    var legible, read := Mapped(LegibleColumn, refs), Mapped(ClipColumn, refs);
    forall i | 0 <= i < |columns| ensures Reads(ReadColumn, texts[i], legible[i], read[i]) {
      ColumnReads(columns[i], parts[i].0, parts[i].1, schema);
    }
    ListReadsBack(ReadColumn, texts, legible, read, rest);
    assert forall i | 0 <= i < |refs| :: legible[i] == LegibleColumn(refs[i]);
  }

  lemma {:induction false} OptionsReadBack(options: seq<(string, string)>, rest: string)
    requires rest != "" && rest[0] == ')'
    ensures ReadList(Join(OptionTexts(options)) + rest, ReadOption) ==
            if LegibleOptions(options) then Some((Mapped(ClipOption, options), rest)) else None
  {
    var texts, legible, read := OptionTexts(options), Mapped(LegibleOption, options), Mapped(ClipOption, options);
    forall i | 0 <= i < |options| ensures Reads(ReadOption, texts[i], legible[i], read[i]) {
      OptionReads(options[i]);
    }
    ListReadsBack(ReadOption, texts, legible, read, rest);
    assert forall i | 0 <= i < |options| :: legible[i] == LegibleOption(options[i]);
  }

  // ----- reading back a whole statement -----

  /** Two neighbouring dollar signs, which end a dollar-quoted string. */
  ghost predicate HasDollars(s: string)
  {
    exists i :: 0 <= i < |s| - 1 && DollarsAt(s, i)
  }

  ghost predicate DollarsAt(s: string, i: int)
    requires 0 <= i < |s| - 1
  {
    s[i] == '$' && s[i + 1] == '$'
  }

  lemma {:induction false} DollarsReadBack(body: string, rest: string)
    requires !HasDollars(body) && (body != "" ==> body[|body| - 1] != '$')
    ensures ReadDollars(body + "$$" + rest) == Some((body, rest))
    decreases |body|
  {
    var s := body + "$$" + rest;
    if body == "" {
      assert s == "$$" + rest;
    } else {
      var b := body[1..];
      assert s == [body[0]] + (b + "$$" + rest);
      forall i | 0 <= i < |b| - 1 ensures !DollarsAt(b, i) {
        assert !DollarsAt(body, i + 1);
      }
      DollarsReadBack(b, rest);
      if |body| > 1 {
        assert !DollarsAt(body, 0);
      }
      assert s[1] == (if |body| > 1 then body[1] else '$');
      assert body == [body[0]] + b;
    }
  }

  /** A body with two neighbouring dollar signs is cut short. */
  lemma {:induction false} DollarsCutShort(body: string, rest: string)
    requires HasDollars(body)
    ensures var r := ReadDollars(body + rest); r.Some? && |r.value.0| < |body|
    decreases |body|
  {
    var s := body + rest;
    var i :| 0 <= i < |body| - 1 && DollarsAt(body, i);
    assert s[0] == body[0] && s[1] == body[1];
    if !(s[0] == '$' && s[1] == '$') {
      var b := body[1..];
      assert DollarsAt(b, i - 1);
      DollarsCutShort(b, rest);
      assert s == [body[0]] + (b + rest);
    }
  }

  lemma {:induction false} HeadReadsBack(schema: string, table: string, rest: string)
    ensures ReadHead(BEFORE + (QuoteIdent(schema) + ("." + (QuoteIdent(table) + (" (" + rest)))))
            == if IsName(schema) && IsName(table) then Some((ClipName(schema), ClipName(table), rest)) else None
  {
    FixedTexts();
    var r3 := " (" + rest;
    var r2 := "." + (QuoteIdent(table) + r3);
    ExpectReadsBack(BEFORE, QuoteIdent(schema) + r2);
    IdentReadsBack(schema, r2);
    ExpectReadsBack(".", QuoteIdent(table) + r3);
    IdentReadsBack(table, r3);
    ExpectReadsBack(" (", rest);
  }

  lemma {:induction false} TailReadsBack(server: string, options: seq<(string, string)>)
    ensures ReadTail(") SERVER " + (QuoteIdent(server) + (" OPTIONS (" + (Join(OptionTexts(options)) + AFTER))))
            == if IsName(server) && LegibleOptions(options) then Some((ClipName(server), Mapped(ClipOption, options)))
               else None
  {
    FixedTexts();
    var r2 := Join(OptionTexts(options)) + AFTER;
    var r1 := " OPTIONS (" + r2;
    ExpectReadsBack(") SERVER ", QuoteIdent(server) + r1);
    IdentReadsBack(server, r1);
    ExpectReadsBack(" OPTIONS (", r2);
    OptionsReadBack(options, AFTER);
  }

  /** All names are identifiers that PostgreSQL takes, and no text holds the zero character. */
  predicate Legible(st: Statement) {
    && IsName(st.server) && IsName(st.schema) && IsName(st.table)
    && LegibleOptions(st.options) && LegibleColumns(st.columns)
  }

  function Clipped(st: Statement): Statement {
    Statement(ClipName(st.server), ClipName(st.schema), ClipName(st.table),
              Mapped(ClipOption, st.options), Mapped(ClipColumn, st.columns))
  }

  /** What a statement says. */
  ghost function Meant(server: string, schema: string, table: string, options: seq<(string, string)>,
                       columns: seq<(string, string)>, parts: seq<(string, nat)>): Statement
    requires |parts| == |columns|
  {
    Statement(server, schema, table, options, ColumnRefs(columns, parts, schema))
  }

  /** The body of a legible statement reads back as the statement it was printed from, up to the cut of
      its names. */
  lemma {:induction false} BodyReadsBack(server: string, schema: string, table: string, options: seq<(string, string)>,
                                         columns: seq<(string, string)>, parts: seq<(string, nat)>)
    requires WellShaped(columns, parts)
    ensures var st := Meant(server, schema, table, options, columns, parts);
            ReadBody(ForeignTableBody(server, schema, table, options, columns)) ==
            if Legible(st) then Some(Clipped(st)) else None
  {
    var tail := ") SERVER " + (QuoteIdent(server) + (" OPTIONS (" + (Join(OptionTexts(options)) + AFTER)));
    HeadReadsBack(schema, table, Join(ColumnTexts(columns, schema)) + tail);
    ColumnsReadBack(columns, parts, schema, tail);
    TailReadsBack(server, options);
  }

  lemma {:induction false} DoBlockReadsBack<T>(body: string, reader: string -> Option<T>)
    requires body != "" && body[|body| - 1] != '$'
    ensures ReadDo("DO $$" + body + "$$;", reader) == if HasDollars(body) then None else reader(body)
  {
    if HasDollars(body) {
      DollarsCutShort(body, "$$" + ";");
      assert body + "$$" + ";" == body + ("$$" + ";");
    } else {
      DollarsReadBack(body, ";");
    }
    assert "DO $$" + body + "$$;" == "DO $$" + (body + "$$" + ";");
    ExpectReadsBack("DO $$", body + "$$" + ";");
  }

  // ----- which statements contain neighbouring dollar signs -----

  lemma {:induction false} DollarsOfConcat(a: string, b: string)
    requires a == "" || b == "" || a[|a| - 1] != '$' || b[0] != '$'
    ensures HasDollars(a + b) <==> HasDollars(a) || HasDollars(b)
  {
    var s := a + b;
    if HasDollars(s) {
      var i :| 0 <= i < |s| - 1 && DollarsAt(s, i);
      if i + 1 < |a| {
        assert DollarsAt(a, i);
      } else if i >= |a| {
        assert DollarsAt(b, i - |a|);
      }
    }
    if HasDollars(a) {
      var i :| 0 <= i < |a| - 1 && DollarsAt(a, i);
      assert DollarsAt(s, i);
    }
    if HasDollars(b) {
      var i :| 0 <= i < |b| - 1 && DollarsAt(b, i);
      assert DollarsAt(s, i + |a|);
    }
  }

  lemma {:induction false} DollarsOfEscape(q: char, s: string)
    requires q != '$'
    ensures HasDollars(Escape(q, s)) <==> HasDollars(s)
    ensures s != "" ==> Escape(q, s) != "" && Escape(q, s)[0] == s[0]
    decreases |s|
  {
    if s != "" {
      var head, t := if s[0] == q then [q, q] else [s[0]], s[1..];
      DollarsOfEscape(q, t);
      assert s == [s[0]] + t;
      if t != "" && s[0] == '$' && t[0] == '$' {
        assert DollarsAt(s, 0) && DollarsAt(Escape(q, s), 0);
      } else {
        DollarsOfConcat(head, Escape(q, t));
        DollarsOfConcat([s[0]], t);
      }
    }
  }

  /** Text that starts and ends with something else than a dollar sign. */
  ghost predicate Bounded(s: string)
  {
    s != "" && s[0] != '$' && s[|s| - 1] != '$'
  }

  lemma {:induction false} DollarsOfQuote(q: char, s: string)
    requires q != '$'
    ensures HasDollars(Quote(q, s)) <==> HasDollars(s)
    ensures Bounded(Quote(q, s))
  {
    DollarsOfEscape(q, s);
    DollarsOfConcat([q], Escape(q, s));
    DollarsOfConcat([q] + Escape(q, s), [q]);
  }

  lemma {:induction false} NoDollars(s: string)
    requires forall i | 0 <= i < |s| :: s[i] != '$'
    ensures !HasDollars(s)
  {
    forall i | 0 <= i < |s| - 1 ensures !DollarsAt(s, i) {
    }
  }

  lemma {:induction false} DollarsOfType(w: string, n: nat, schema: string)
    requires IsWord(w)
    ensures var t := QualifyTypeString(w + Repeat("[]", n), schema);
            && Bounded(t)
            && (HasDollars(t) <==> StartsWith(w, LANCE_PREFIX) && HasDollars(schema))
  {
    SuffixesOfWord(w, n);
    DimsHaveNoDollars(n);
    var base, dims := QualifyBase(w, schema), Repeat("[]", n);
    NoDollars(w);
    if StartsWith(w, LANCE_PREFIX) {
      DollarsOfQuote('"', schema);
      DollarsOfQuote('"', w);
      DollarsOfConcat(QuoteIdent(schema), ".");
      DollarsOfConcat(QuoteIdent(schema) + ".", QuoteIdent(w));
    }
    DollarsOfConcat(base, dims);
    assert (base + dims)[0] == base[0];
  }

  lemma {:induction false} DimsHaveNoDollars(n: nat)
    ensures var d := Repeat("[]", n); !HasDollars(d) && (d != "" ==> Bounded(d))
    ensures forall i | 0 <= i < |Repeat("[]", n)| :: Repeat("[]", n)[i] != '$'
  {
    if n > 0 {
      DimsHaveNoDollars(n - 1);
    }
    NoDollars(Repeat("[]", n));
  }

  lemma {:induction false} DollarsOfJoin(items: seq<string>)
    requires forall i | 0 <= i < |items| :: Bounded(items[i])
    ensures HasDollars(Join(items)) <==> exists i :: 0 <= i < |items| && HasDollars(items[i])
    ensures items != [] ==> Bounded(Join(items))
    decreases |items|
  {
    if |items| > 1 {
      DollarsOfJoin(items[1..]);
      DollarsOfConcat(items[0], ", ");
      DollarsOfConcat(items[0] + ", ", Join(items[1..]));
      assert Join(items) == items[0] + ", " + Join(items[1..]);
      if i :| 0 <= i < |items| && HasDollars(items[i]) {
        assert i > 0 ==> items[1..][i - 1] == items[i];
      }
    } else if |items| == 0 {
      assert !HasDollars("");
    }
  }

  /** A name, an option or the qualifying schema contains two neighbouring dollar signs. */
  ghost predicate MentionsDollars(server: string, schema: string, table: string, options: seq<(string, string)>,
                                  columns: seq<(string, string)>)
  {
    || HasDollars(server) || HasDollars(schema) || HasDollars(table)
    || (exists i :: 0 <= i < |options| && (HasDollars(options[i].0) || HasDollars(options[i].1)))
    || (exists i :: 0 <= i < |columns| && HasDollars(columns[i].0))
  }

  lemma {:induction false} DollarsOfColumns(columns: seq<(string, string)>, parts: seq<(string, nat)>, schema: string)
    requires WellShaped(columns, parts)
    ensures var j := Join(ColumnTexts(columns, schema));
            && (j != "" ==> Bounded(j))
            && (HasDollars(schema) || (HasDollars(j) <==> exists i :: 0 <= i < |columns| && HasDollars(columns[i].0)))
  {
    var texts := ColumnTexts(columns, schema);
    forall i | 0 <= i < |columns|
      ensures Bounded(texts[i])
      ensures HasDollars(schema) || (HasDollars(texts[i]) <==> HasDollars(columns[i].0))
    {
      var name, ty := QuoteIdent(columns[i].0), QualifyTypeString(columns[i].1, schema);
      DollarsOfQuote('"', columns[i].0);
      DollarsOfType(parts[i].0, parts[i].1, schema);
      DollarsOfConcat(name, " ");
      DollarsOfConcat(name + " ", ty);
      assert texts[i] == name + " " + ty;
    }
    DollarsOfJoin(texts);
  }

  lemma {:induction false} DollarsOfOptions(options: seq<(string, string)>)
    ensures var j := Join(OptionTexts(options));
            && (j != "" ==> Bounded(j))
            && (HasDollars(j) <==>
              exists i :: 0 <= i < |options| && (HasDollars(options[i].0) || HasDollars(options[i].1)))
  {
    var texts := OptionTexts(options);
    forall i | 0 <= i < |options|
      ensures Bounded(texts[i]) && (HasDollars(texts[i]) <==> HasDollars(options[i].0) || HasDollars(options[i].1))
    {
      var k, v := QuoteIdent(options[i].0), QuoteLiteral(options[i].1);
      DollarsOfQuote('"', options[i].0);
      DollarsOfQuote('\'', options[i].1);
      DollarsOfConcat(k, " ");
      DollarsOfConcat(k + " ", v);
      assert texts[i] == k + " " + v;
    }
    DollarsOfJoin(texts);
  }

  /** Text between two fixed pieces adds exactly its own dollar signs. */
  lemma {:induction false} DollarsOfStep(fixed: string, x: string, rest: string)
    requires Bounded(fixed) && !HasDollars(fixed) && Bounded(rest) && (x != "" ==> Bounded(x))
    ensures Bounded(fixed + (x + rest))
    ensures HasDollars(fixed + (x + rest)) <==> HasDollars(x) || HasDollars(rest)
  {
    DollarsOfConcat(x, rest);
    DollarsOfConcat(fixed, x + rest);
  }

  lemma {:induction false} DollarsOfBody(server: string, schema: string, table: string, options: seq<(string, string)>,
                                         columns: seq<(string, string)>, parts: seq<(string, nat)>)
    requires WellShaped(columns, parts)
    ensures HasDollars(ForeignTableBody(server, schema, table, options, columns))
            <==> MentionsDollars(server, schema, table, options, columns)
  {
    var o, c := Join(OptionTexts(options)), Join(ColumnTexts(columns, schema));
    DollarsOfOptions(options);
    DollarsOfColumns(columns, parts, schema);
    DollarsOfQuote('"', server);
    DollarsOfQuote('"', table);
    DollarsOfQuote('"', schema);
    DollarsOfPieces(QuoteIdent(schema), QuoteIdent(table), c, QuoteIdent(server), o);
  }

  lemma {:induction false} DollarsOfPieces(schema: string, table: string, c: string, server: string, o: string)
    requires Bounded(schema) && Bounded(table) && Bounded(server)
    requires (c != "" ==> Bounded(c)) && (o != "" ==> Bounded(o))
    ensures HasDollars(BEFORE +
            (schema + ("." + (table + (" (" + (c + (") SERVER " + (server + (" OPTIONS (" + (o + AFTER))))))))))
            <==> HasDollars(schema) || HasDollars(table) || HasDollars(c) || HasDollars(server) || HasDollars(o)
  {
    NoDollars(AFTER);
    NoDollars(" OPTIONS (");
    NoDollars(") SERVER ");
    NoDollars(" (");
    NoDollars(".");
    NoDollars(BEFORE);
    DollarsOfStep(" OPTIONS (", o, AFTER);
    var r5 := " OPTIONS (" + (o + AFTER);
    DollarsOfStep(") SERVER ", server, r5);
    var r4 := ") SERVER " + (server + r5);
    DollarsOfStep(" (", c, r4);
    var r3 := " (" + (c + r4);
    DollarsOfStep(".", table, r3);
    DollarsOfStep(BEFORE, schema, "." + (table + r3));
  }

  predicate Short(s: string) {
    ByteLen(s) <= Naming.MAX_IDENT
  }

  predicate ShortColumn(c: (string, TypeRef)) {
    Short(c.0) && Short(c.1.name) && (c.1.schema.Some? ==> Short(c.1.schema.value))
  }

  predicate ShortColumns(columns: seq<(string, TypeRef)>) {
    forall i | 0 <= i < |columns| :: ShortColumn(columns[i])
  }

  /** No name has more than 63 bytes. */
  predicate NamesFit(st: Statement) {
    && Short(st.server) && Short(st.schema) && Short(st.table)
    && (forall i | 0 <= i < |st.options| :: Short(st.options[i].0))
    && ShortColumns(st.columns)
  }

  lemma {:induction false} ColumnClippedIff(c: (string, TypeRef))
    ensures ClipColumn(c) == c <==> ShortColumn(c)
  {
    ClipIff(c.0, Naming.MAX_IDENT);
    ClipIff(c.1.name, Naming.MAX_IDENT);
    if c.1.schema.Some? {
      ClipIff(c.1.schema.value, Naming.MAX_IDENT);
    }
  }

  /** Mapping changes nothing exactly if it changes no element. */
  lemma {:induction false} MappedIff<T>(f: T -> T, xs: seq<T>)
    ensures Mapped(f, xs) == xs <==> forall i | 0 <= i < |xs| :: f(xs[i]) == xs[i]
  {
    assert forall i | 0 <= i < |xs| :: Mapped(f, xs)[i] == f(xs[i]);
  }

  lemma {:induction false} ColumnsClippedIff(columns: seq<(string, TypeRef)>)
    ensures Mapped(ClipColumn, columns) == columns <==> ShortColumns(columns)
  {
    MappedIff(ClipColumn, columns);
    forall i | 0 <= i < |columns| ensures ClipColumn(columns[i]) == columns[i] <==> ShortColumn(columns[i]) {
      ColumnClippedIff(columns[i]);
    }
  }

  lemma {:induction false} OptionClippedIff(o: (string, string))
    ensures ClipOption(o) == o <==> Short(o.0)
  {
    ClipIff(o.0, Naming.MAX_IDENT);
  }

  lemma {:induction false} OptionsClippedIff(options: seq<(string, string)>)
    ensures Mapped(ClipOption, options) == options <==> forall i | 0 <= i < |options| :: Short(options[i].0)
  {
    MappedIff(ClipOption, options);
    forall i | 0 <= i < |options| ensures ClipOption(options[i]) == options[i] <==> Short(options[i].0) {
      OptionClippedIff(options[i]);
    }
  }

  lemma {:induction false} ClippedIff(st: Statement)
    ensures Clipped(st) == st <==> NamesFit(st)
  {
    ClipIff(st.server, Naming.MAX_IDENT);
    ClipIff(st.schema, Naming.MAX_IDENT);
    ClipIff(st.table, Naming.MAX_IDENT);
    OptionsClippedIff(st.options);
    ColumnsClippedIff(st.columns);
  }

  /** Printing and reading are inverse, exactly: a generated statement reads back, whatever quotes,
      commas and parentheses it contains, unless some name or option contains `$$` or the zero
      character or some name is empty; and it reads back as the server, schema, table, options and
      columns it was generated from exactly if, moreover, no name has more than 63 bytes. */
  lemma {:induction false} StatementReadsBackIff(server: string, schema: string, table: string,
                                                 options: seq<(string, string)>,
                                                 columns: seq<(string, string)>, parts: seq<(string, nat)>)
    requires WellShaped(columns, parts)
    ensures var st := Meant(server, schema, table, options, columns, parts);
            var printable := Legible(st) && !MentionsDollars(server, schema, table, options, columns);
            var read := ReadStatement(CreateForeignTableSql(server, schema, table, options, columns));
            && read == (if printable then Some(Clipped(st)) else None)
            && (read == Some(st) <==> printable && NamesFit(st))
  {
    BodyReadsBack(server, schema, table, options, columns, parts);
    DoBlockReadsBack(ForeignTableBody(server, schema, table, options, columns), ReadBody);
    DollarsOfBody(server, schema, table, options, columns, parts);
    ClippedIff(Meant(server, schema, table, options, columns, parts));
  }

  /** A table named `$$` gives a statement that does not read back. */
  lemma {:induction false} DollarTableIsUnreadable()
    ensures ReadStatement(CreateForeignTableSql("server", "public", "$$", [], [])) == None
  {
    assert DollarsAt("$$", 0);
    StatementReadsBackIff("server", "public", "$$", [], [], []);
  }

  /** So does a column without a name. */
  lemma {:induction false} NamelessColumnIsUnreadable()
    ensures ReadStatement(CreateForeignTableSql("server", "public", "t", [], [("", "int4")])) == None
  {
    assert "int4" == "int4" + Repeat("[]", 0);
    StatementReadsBackIff("server", "public", "t", [], [("", "int4")], [("int4", 0)]);
    assert !LegibleColumn(ColumnRefs([("", "int4")], [("int4", 0)], "public")[0]);
  }

  /** One or more small letters. */
  predicate Plain(s: string) {
    s != "" && forall i | 0 <= i < |s| :: 'a' <= s[i] <= 'z'
  }

  /** A table name of 64 letters loses the last one. */
  lemma {:induction false} LongTableNameIsCut(server: string, schema: string, name: string)
    requires Plain(server) && Plain(schema) && Plain(name) && |server| <= 63 && |schema| <= 63 && |name| == 64
    ensures ReadStatement(CreateForeignTableSql(server, schema, name, [], [])) ==
            Some(Statement(server, schema, name[..63], [], []))
  {
    StatementReadsBackIff(server, schema, name, [], [], []);
    PlainName(server);
    PlainName(schema);
    PlainName(name);
    var st := Meant(server, schema, name, [], [], []);
    assert Legible(st) && Clipped(st) == Statement(server, schema, name[..63], [], []);
    assert !MentionsDollars(server, schema, name, [], []);
  }

  lemma {:induction false} PlainName(s: string)
    requires Plain(s)
    ensures IsName(s) && !HasDollars(s) && ClipName(s) == if |s| > 63 then s[..63] else s
  {
    NoDollars(s);
    ClipAscii(s, 63);
  }

  lemma {:induction false} ClipAscii(s: string, n: nat)
    requires forall i | 0 <= i < |s| :: s[i] < 128 as char
    ensures Clip(s, n) == if |s| > n then s[..n] else s
    ensures ByteLen(s) == |s|
    decreases |s|
  {
    if s != "" && n > 0 {
      ClipAscii(s[1..], n - 1);
      assert s == [s[0]] + s[1..];
    } else if s != "" {
      ClipAscii(s[1..], 0);
    }
  }

  // ----- CREATE TYPE -----

  /** The schema, name and attributes of a composite type. */
  function ReadTypeBody(s: string): Option<(string, string, seq<(string, TypeRef)>)> {
    var s1 :- Expect(s, TYPE_START);
    var name :- ReadQualifiedName(s1);
    var s2 :- Expect(name.1, " AS (");
    var attrs :- ReadList(s2, ReadColumn);
    if attrs.1 == TYPE_END then Some((name.0.0, name.0.1, attrs.0)) else None
  }

  function ReadQualifiedName(s: string): Option<((string, string), string)> {
    var schema :- ReadIdent(s);
    var s1 :- Expect(schema.1, ".");
    var name :- ReadIdent(s1);
    Some(((schema.0, name.0), name.1))
  }

  /** The declared types of compiled columns are words with array suffixes. */
  ghost function FieldParts(table: string, fields: seq<Field>, path: string): seq<(string, nat)> {
    seq(|fields|, i requires 0 <= i < |fields| =>
      (CoreName(table, fields[i].dataType, ChildPath(path, fields[i])), ListDepth(fields[i].dataType)))
  }

  ghost function ColumnParts(table: string, fields: seq<Field>): seq<(string, nat)> {
    seq(|fields|, i requires 0 <= i < |fields| =>
      (CoreName(table, fields[i].dataType, fields[i].name), ListDepth(fields[i].dataType)))
  }

  lemma {:induction false} CompiledColumnsAreWellShaped(table: string, fields: seq<Field>)
    ensures WellShaped(ColumnTypes(table, fields), ColumnParts(table, fields))
  {
    forall i | 0 <= i < |fields|
      ensures IsWord(ColumnParts(table, fields)[i].0)
      ensures ColumnTypes(table, fields)[i].1 ==
              ColumnParts(table, fields)[i].0 + Repeat("[]", ColumnParts(table, fields)[i].1)
    {
      TypeStringShape(table, fields[i].dataType, fields[i].name);
    }
  }

  lemma {:induction false} CompiledFieldsAreWellShaped(table: string, fields: seq<Field>, path: string)
    ensures WellShaped(FieldTypes(table, fields, path), FieldParts(table, fields, path))
  {
    forall i | 0 <= i < |fields|
      ensures IsWord(FieldParts(table, fields, path)[i].0)
      ensures FieldTypes(table, fields, path)[i].1
              == FieldParts(table, fields, path)[i].0 + Repeat("[]", FieldParts(table, fields, path)[i].1)
    {
      TypeStringShape(table, fields[i].dataType, ChildPath(path, fields[i]));
    }
  }

  /** The definition of a struct, printed in a DO block, reads back with its schema, name, and every
      attribute with its qualified type and all its list levels, unless the schema or an attribute
      name contains `$$` or the zero character or is empty; and it reads back unchanged exactly if,
      moreover, none of these has more than 63 bytes. */
  lemma {:induction false} CompositeReadsBackIff(table: string, schema: string, fields: seq<Field>, path: string)
    ensures var def := CompositeTypeDef(TypeName(table, path), FieldTypes(table, fields, path));
            var refs := ColumnRefs(def.fields, FieldParts(table, fields, path), schema);
            var read := ReadDo(CreateCompositeTypeSql(schema, def), ReadTypeBody);
            && read == (if PrintableType(schema, fields)
                        then Some((ClipName(schema), def.typeName, Mapped(ClipColumn, refs))) else None)
            && (read == Some((schema, def.typeName, refs)) <==>
                PrintableType(schema, fields) && Short(schema)
                && forall i | 0 <= i < |fields| :: Short(fields[i].name))
  {
    var refs := ColumnRefs(FieldTypes(table, fields, path), FieldParts(table, fields, path), schema);
    CompositeReadsBack(table, schema, fields, path);
    FieldRefs(table, schema, fields, path);
    ColumnsClippedIff(refs);
    ClipIff(schema, Naming.MAX_IDENT);
  }

  lemma {:induction false} CompositeReadsBack(table: string, schema: string, fields: seq<Field>, path: string)
    ensures var def := CompositeTypeDef(TypeName(table, path), FieldTypes(table, fields, path));
            var refs := ColumnRefs(def.fields, FieldParts(table, fields, path), schema);
            ReadDo(CreateCompositeTypeSql(schema, def), ReadTypeBody) ==
            if PrintableType(schema, fields) then Some((ClipName(schema), def.typeName, Mapped(ClipColumn, refs)))
            else None
  {
    var def := CompositeTypeDef(TypeName(table, path), FieldTypes(table, fields, path));
    var parts := FieldParts(table, fields, path);
    CompiledFieldsAreWellShaped(table, fields, path);
    TypeNameIsWord(table, path);
    GeneratedIsShort(table, path);
    TypeBodyReadsBack(schema, def.typeName, def.fields, parts);
    DollarsOfTypeBody(schema, def.typeName, def.fields, parts);
    assert forall i | 0 <= i < |fields| :: def.fields[i].0 == fields[i].name;
    DoBlockReadsBack(CompositeTypeBody(schema, def), ReadTypeBody);
    FieldRefs(table, schema, fields, path);
  }

  /** The schema and all attribute names are legible, without `$$`. */
  ghost predicate PrintableType(schema: string, fields: seq<Field>)
  {
    && IsName(schema) && !HasDollars(schema)
    && forall i | 0 <= i < |fields| :: IsName(fields[i].name) && !HasDollars(fields[i].name)
  }

  lemma {:induction false} GeneratedIsShort(table: string, path: string)
    ensures ClipName(TypeName(table, path)) == TypeName(table, path) && Short(TypeName(table, path))
  {
    TypeNameIsWord(table, path);
    ClipAscii(TypeName(table, path), Naming.MAX_IDENT);
  }

  lemma {:induction false} ScalarIsShort(p: Primitive)
    ensures Short(ScalarTypeName(p))
  {
    ScalarIsWord(p);
    ClipAscii(ScalarTypeName(p), 63);
    assert |ScalarTypeName(p)| <= 63;
  }

  lemma {:induction false} CoreIsShort(table: string, t: ArrowType, path: string)
    ensures Short(CoreName(table, t, path))
    decreases t
  {
    match t
    case List(_, elem) => CoreIsShort(table, elem.dataType, path + "_item");
    case Dictionary(_, value) => CoreIsShort(table, value, path + "_dict");
    case Struct(_) => GeneratedIsShort(table, path);
    case Prim(p) => ScalarIsShort(p);
    case Map(_) => ClipAscii("jsonb", 63);
    case Other(_) => ClipAscii("jsonb", 63);
  }

  /** The attributes are as legible and as short as the schema and the field names. */
  lemma {:induction false} FieldRefs(table: string, schema: string, fields: seq<Field>, path: string)
    ensures var refs := ColumnRefs(FieldTypes(table, fields, path), FieldParts(table, fields, path), schema);
            && (IsName(schema) ==> (LegibleColumns(refs) <==> forall i | 0 <= i < |fields| :: IsName(fields[i].name)))
            && (Short(schema) ==> (ShortColumns(refs) <==> forall i | 0 <= i < |fields| :: Short(fields[i].name)))
  {
    var refs := ColumnRefs(FieldTypes(table, fields, path), FieldParts(table, fields, path), schema);
    forall i | 0 <= i < |fields|
      ensures IsName(schema) ==> (LegibleColumn(refs[i]) <==> IsName(fields[i].name))
      ensures Short(schema) ==> (ShortColumn(refs[i]) <==> Short(fields[i].name))
    {
      TypeStringShape(table, fields[i].dataType, ChildPath(path, fields[i]));
      WordIsName(CoreName(table, fields[i].dataType, ChildPath(path, fields[i])));
      CoreIsShort(table, fields[i].dataType, ChildPath(path, fields[i]));
    }
  }

  lemma {:induction false} DollarsOfTypeBody(schema: string, name: string, attrs: seq<(string, string)>,
                                             parts: seq<(string, nat)>)
    requires WellShaped(attrs, parts) && IsWord(name)
    ensures var body := CompositeTypeBody(schema, CompositeTypeDef(name, attrs));
            && body != "" && body[|body| - 1] != '$'
            && (HasDollars(body) <==> HasDollars(schema) || exists i :: 0 <= i < |attrs| && HasDollars(attrs[i].0))
  {
    DollarsOfColumns(attrs, parts, schema);
    DollarsOfName(schema, name);
    DollarsOfTypePieces(QualifyCompositeType(name, schema), Join(ColumnTexts(attrs, schema)));
  }

  lemma {:induction false} DollarsOfName(schema: string, name: string)
    requires IsWord(name)
    ensures Bounded(QualifyCompositeType(name, schema))
    ensures HasDollars(QualifyCompositeType(name, schema)) <==> HasDollars(schema)
  {
    NoDollars(name);
    NoDollars(".");
    DollarsOfQuote('"', schema);
    DollarsOfQuote('"', name);
    DollarsOfConcat(QuoteIdent(schema), ".");
    DollarsOfConcat(QuoteIdent(schema) + ".", QuoteIdent(name));
  }

  lemma {:induction false} DollarsOfTypePieces(name: string, c: string)
    requires Bounded(name) && (c != "" ==> Bounded(c))
    ensures var body := BEFORE_TYPE + (name + (" AS (" + (c + AFTER_TYPE)));
            Bounded(body) && (HasDollars(body) <==> HasDollars(name) || HasDollars(c))
  {
    NoDollars(AFTER_TYPE);
    NoDollars(" AS (");
    NoDollars(BEFORE_TYPE);
    DollarsOfStep(" AS (", c, AFTER_TYPE);
    DollarsOfStep(BEFORE_TYPE, name, " AS (" + (c + AFTER_TYPE));
  }

  lemma {:induction false} QualifiedNameReadsBack(schema: string, name: string, rest: string)
    requires IsName(name) && rest != "" && rest[0] != '"'
    ensures ReadQualifiedName(QualifyCompositeType(name, schema) + rest) ==
            if IsName(schema) then Some(((ClipName(schema), ClipName(name)), rest)) else None
  {
    var r := "." + (QuoteIdent(name) + rest);
    assert QualifyCompositeType(name, schema) + rest == QuoteIdent(schema) + r;
    IdentReadsBack(schema, r);
    ExpectReadsBack(".", QuoteIdent(name) + rest);
    IdentReadsBack(name, rest);
  }

  lemma {:induction false} TypeBodyReadsBack(schema: string, name: string, attrs: seq<(string, string)>,
                                             parts: seq<(string, nat)>)
    requires WellShaped(attrs, parts) && IsName(name)
    ensures var refs := ColumnRefs(attrs, parts, schema);
            ReadTypeBody(CompositeTypeBody(schema, CompositeTypeDef(name, attrs))) ==
            if IsName(schema) && LegibleColumns(refs)
            then Some((ClipName(schema), ClipName(name), Mapped(ClipColumn, refs))) else None
  {
    FixedTexts();
    var r := Join(ColumnTexts(attrs, schema)) + AFTER_TYPE;
    ExpectReadsBack(BEFORE_TYPE, QualifyCompositeType(name, schema) + (" AS (" + r));
    QualifiedNameReadsBack(schema, name, " AS (" + r);
    ExpectReadsBack(" AS (", r);
    ColumnsReadBack(attrs, parts, schema, AFTER_TYPE);
  }
}
