/** Local schema and table names for Lance table ids (src/fdw/naming.rs). */
module Naming {
  import opened Wrappers
  import opened Words

  type TableId = seq<string>

  /** PostgreSQL's identifier limit, in bytes; every sanitised character is one byte. */
  const MAX_IDENT := 63

  function ToLower(c: char): char {
    if 'A' <= c <= 'Z' then (c as int + 32) as char else c
  }

  function Lower(s: string): string {
    seq(|s|, i requires 0 <= i < |s| => ToLower(s[i]))
  }

  predicate IsDigit(c: char) {
    '0' <= c <= '9'
  }

  predicate IsAlnum(c: char) {
    'a' <= c <= 'z' || IsDigit(c)
  }

  function Cut(s: string, n: nat): string {
    if |s| > n then s[..n] else s
  }

  /** The letter-and-digit runs of `s`, lower-cased and joined by single underscores. */
  function Slug(s: string): string {
    Squeeze(Lower(s), IsAlnum, '_')
  }

  /** A slug made usable as an identifier: never empty and never starting with a digit. */
  function Guarded(slug: string): string {
    if slug == "" then "_" else if IsDigit(slug[0]) then "_" + slug else slug
  }

  /** What `sanitize_ident` computes. */
  function Sanitized(s: string): string {
    Cut(Guarded(Slug(s)), MAX_IDENT)
  }

  /** An identifier that survives sanitising: the lone underscore, or single underscores
      strictly between letters and digits, plus one in front of a leading digit. */
  ghost predicate Clean(s: string)
  {
    s == "_" ||
    (&& s != ""
     && (forall i | 0 <= i < |s| :: IsAlnum(s[i]) || s[i] == '_')
     && (s[0] == '_' ==> |s| > 1 && IsDigit(s[1]))
     && !IsDigit(s[0])
     && s[|s| - 1] != '_'
     && Spaced(s))
  }

  /** No two neighbouring underscores. */
  ghost predicate Spaced(s: string)
  {
    forall i, j | 0 <= i < j < |s| && j == i + 1 :: s[i] != '_' || s[j] != '_'
  }

  // ----- sanitize_ident -----

  /** The buffer after the collapsing loop has read the lower-cased prefix `p`. */
  ghost function Collapsed(p: string): string {
    Framed(p, Squeeze(p, IsAlnum, '_'))
  }

  /** `body` with an underscore on either side where `p` begins or ends with a rejected character. */
  ghost function Framed(p: string, body: string): string {
    if p == "" then ""
    else if body == "" then "_"
    else (if IsAlnum(p[0]) then "" else "_") + body + (if IsAlnum(p[|p| - 1]) then "" else "_")
  }

  lemma {:induction false} CollapsedSnoc(p: string, c: char)
    ensures Collapsed(p + [c]) ==
            if IsAlnum(c) then Collapsed(p) + [c]
            else if p != "" && !IsAlnum(p[|p| - 1]) then Collapsed(p)
            else Collapsed(p) + "_"
  {
    SqueezeSnoc(p, c, IsAlnum, '_');
    if p != "" && IsAlnum(p[|p| - 1]) {
      SqueezeNonEmpty(p, |p| - 1, IsAlnum, '_');
    }
    if p != "" && IsAlnum(p[0]) {
      SqueezeNonEmpty(p, 0, IsAlnum, '_');
    }
    FramedSnoc(p, c, Squeeze(p, IsAlnum, '_'), Squeeze(p + [c], IsAlnum, '_'));
  }

  lemma {:induction false} FramedSnoc(p: string, c: char, body: string, after: string)
    requires p != "" && (IsAlnum(p[0]) || IsAlnum(p[|p| - 1])) ==> body != ""
    requires p == "" ==> body == ""
    requires after ==
             if !IsAlnum(c) then body
             else if body == "" || (p != "" && IsAlnum(p[|p| - 1])) then body + [c]
             else body + ['_', c]
    ensures Framed(p + [c], after) ==
            if IsAlnum(c) then Framed(p, body) + [c]
            else if p != "" && !IsAlnum(p[|p| - 1]) then Framed(p, body)
            else Framed(p, body) + "_"
  {
    assert p != "" ==> (p + [c])[0] == p[0];
  }

  lemma {:induction false} CollapsedStep(low: string, i: nat)
    requires i < |low|
    ensures var before := Collapsed(low[..i]);
            Collapsed(low[..i + 1]) ==
            if IsAlnum(low[i]) then before + [low[i]]
            else if i > 0 && !IsAlnum(low[i - 1]) then before
            else before + "_"
  {
    assert low[..i + 1] == low[..i] + [low[i]];
    CollapsedSnoc(low[..i], low[i]);
  }

  /** The first loop of `sanitize_ident`: map every character and collapse underscores. */
  method Collapse(input: string) returns (out: string)
    ensures out == Collapsed(Lower(input))
  {
    out := "";
    var lastWasUnderscore := false;
    ghost var low := Lower(input);
    var i := 0;
    while i < |input|
      invariant 0 <= i <= |input|
      invariant out == Collapsed(low[..i])
      invariant lastWasUnderscore <==> i > 0 && !IsAlnum(low[i - 1])
    {
      CollapsedStep(low, i);
      var lower := ToLower(input[i]);
      var ok := 'a' <= lower <= 'z' || '0' <= lower <= '9' || lower == '_';
      var mapped := if ok then lower else '_';
      i := i + 1;
      if mapped == '_' {
        if lastWasUnderscore {
          continue;
        }
        lastWasUnderscore := true;
      } else {
        lastWasUnderscore := false;
      }
      out := out + [mapped];
    }
    assert low[..i] == low;
  }

  method SanitizeIdent(input: string) returns (out: string)
    ensures out == Sanitized(input)
  {
    out := Collapse(input);
    ghost var body, trail := CollapsedParts(Lower(input));

    while |out| > 0 && out[0] == '_'
      invariant out == body + trail || out == "_" + (body + trail)
    {
      out := out[1..];
    }
    while |out| > 0 && out[|out| - 1] == '_'
      invariant out == body + trail || out == body
    {
      out := out[..|out| - 1];
    }
    assert out == Slug(input);
    if |out| == 0 {
      out := out + "_";
    }
    if IsDigit(out[0]) {
      out := "_" + out;
    }
    if |out| > MAX_IDENT {
      out := out[..MAX_IDENT];
    }
  }

  lemma {:induction false} CollapsedParts(p: string) returns (body: string, trail: string)
    ensures body == Squeeze(p, IsAlnum, '_')
    ensures body == "" ==> trail == ""
    ensures body != "" ==> body[0] != '_' && body[|body| - 1] != '_'
    ensures trail == "" || trail == "_"
    ensures Collapsed(p) == body + trail || Collapsed(p) == "_" + (body + trail)
  {
    body := Squeeze(p, IsAlnum, '_');
    trail := if p == "" || body == "" || IsAlnum(p[|p| - 1]) then "" else "_";
    SqueezeIsTidy(p, IsAlnum, '_');
    assert "_" + (body + trail) == "_" + body + trail;
  }

  // ----- what a sanitised name looks like -----

  lemma {:induction false} GuardedIsClean(s: string)
    ensures Clean(Guarded(Slug(s)))
  {
    SqueezeIsTidy(Lower(s), IsAlnum, '_');
    var slug, g := Slug(s), Guarded(Slug(s));
    if slug != "" && IsDigit(slug[0]) {
      assert forall i | 0 < i < |g| :: g[i] == slug[i - 1];
    }
  }

  /** Every sanitised name is a valid, non-empty identifier of at most 63 bytes. */
  lemma {:induction false} SanitizedIsIdentifier(s: string)
    ensures var r := Sanitized(s);
            && 0 < |r| <= MAX_IDENT
            && !IsDigit(r[0])
            && forall i | 0 <= i < |r| :: IsAlnum(r[i]) || r[i] == '_'
  {
    GuardedIsClean(s);
  }

  /** The clean names are exactly the ones that sanitising, short of the cut, leaves alone. */
  lemma {:induction false} CleanIsFixed(r: string)
    ensures Clean(r) <==> Guarded(Slug(r)) == r
  {
    GuardedIsClean(r);
    if Clean(r) {
      LowerClean(r);
      if r[0] == '_' {
        assert Slug(r) == r[1..] by {
          SlugBehindUnderscore(r);
        }
      } else {
        assert Slug(r) == r by {
          SqueezeTidy(r, IsAlnum, '_');
        }
      }
    }
  }

  lemma {:induction false} SlugBehindUnderscore(r: string)
    requires Clean(r) && r[0] == '_' && Lower(r) == r
    ensures Slug(r) == r[1..]
  {
    var t := r[1..];
    assert r == ['_'] + t;
    SqueezeLeading('_', t, IsAlnum, '_');
    assert t != "" ==> t[|t| - 1] == r[|r| - 1];
    SqueezeTidy(t, IsAlnum, '_');
  }

  lemma {:induction false} LowerClean(r: string)
    requires Clean(r)
    ensures Lower(r) == r
  {
    forall i | 0 <= i < |r| ensures ToLower(r[i]) == r[i] {
      assert IsAlnum(r[i]) || r[i] == '_';
    }
  }

  /** Sanitising twice equals sanitising once, unless the 63-byte cut fell right behind an
      underscore. */
  lemma {:induction false} SanitizeIdempotentIff(s: string)
    ensures var g := Guarded(Slug(s));
            Sanitized(Sanitized(s)) == Sanitized(s) <==> !(|g| > MAX_IDENT && g[MAX_IDENT - 1] == '_')
  {
    var g, r := Guarded(Slug(s)), Sanitized(s);
    GuardedIsClean(s);
    CleanIsFixed(r);
    if r[|r| - 1] == '_' && r != "_" {
      SqueezeNoLonger(Lower(r), IsAlnum, '_');
    }
  }

  /** 64 bytes whose cut falls behind the underscore are sanitised to a name that sanitising changes. */
  lemma {:induction false} CutBehindUnderscore(s: string)
    requires s == seq(62, _ => 'a') + "_b"
    ensures Sanitized(s) == s[..63] && Sanitized(Sanitized(s)) != Sanitized(s)
  {
    assert Clean(s);
    CleanIsFixed(s);
    SanitizeIdempotentIff(s);
  }

  // ----- where the characters of a sanitised name come from -----

  const CAPITALS := "ABCDEFGHIJKLMNOPQRSTUVWXYZ"
  const SMALL := "abcdefghijklmnopqrstuvwxyz"
  const DIGITS := "0123456789"

  /** A letter of either case, or a digit. */
  ghost predicate Kept(c: char) {
    c in CAPITALS || c in SMALL || c in DIGITS
  }

  /** Capital letters become the small letters at their place in the alphabet, small letters and digits stay,
      and everything else becomes an underscore. */
  ghost predicate Folded(c: char, d: char)
  {
    if c in CAPITALS then exists i :: 0 <= i < 26 && CAPITALS[i] == c && SMALL[i] == d
    else if c in SMALL || c in DIGITS then d == c
    else d == '_'
  }

  lemma {:induction false} AlphabetIs()
    ensures |CAPITALS| == |SMALL| == 26 && |DIGITS| == 10
    ensures forall i | 0 <= i < 26 :: CAPITALS[i] == ('A' as int + i) as char
    ensures forall i | 0 <= i < 26 :: SMALL[i] == ('a' as int + i) as char
    ensures forall i | 0 <= i < 10 :: DIGITS[i] == ('0' as int + i) as char
  {
  }

  lemma {:induction false} CapitalIff(c: char)
    ensures c in CAPITALS <==> 'A' <= c <= 'Z'
  {
    AlphabetIs();
    if 'A' <= c <= 'Z' {
      assert CAPITALS[c as int - 'A' as int] == c;
    }
  }

  lemma {:induction false} SmallIff(c: char)
    ensures c in SMALL <==> 'a' <= c <= 'z'
  {
    AlphabetIs();
    if 'a' <= c <= 'z' {
      assert SMALL[c as int - 'a' as int] == c;
    }
  }

  lemma {:induction false} DigitIff(c: char)
    ensures c in DIGITS <==> '0' <= c <= '9'
  {
    AlphabetIs();
    if '0' <= c <= '9' {
      assert DIGITS[c as int - '0' as int] == c;
    }
  }

  lemma {:induction false} KeptIff(c: char)
    ensures c in CAPITALS <==> 'A' <= c <= 'Z'
    ensures c in SMALL <==> 'a' <= c <= 'z'
    ensures c in DIGITS <==> '0' <= c <= '9'
  {
    CapitalIff(c);
    SmallIff(c);
    DigitIff(c);
  }

  lemma {:induction false} LowerFolds(c: char)
    ensures IsAlnum(ToLower(c)) <==> Kept(c)
    ensures Kept(c) ==> Folded(c, ToLower(c)) && ToLower(c) != '_'
    ensures !Kept(c) ==> Folded(c, '_')
  {
    KeptIff(c);
    if c in CAPITALS {
      AlphabetIs();
      var i := c as int - 'A' as int;
      assert CAPITALS[i] == c && SMALL[i] == ToLower(c);
    }
  }

  /** Character `k` of `name` comes from character `at[k]` of `s`: the order is kept, no character that is
      kept gets lost, and two of them that stand next to each other did so before. */
  ghost predicate ComesFrom(kept: char -> bool, folded: (char, char) -> bool, s: string, name: string, at: seq<int>)
  {
    && |at| == |name|
    && (forall k | 0 <= k < |at| ::
         0 <= at[k] < |s| && folded(s[at[k]], name[k]) && (name[k] == '_' <==> !kept(s[at[k]])))
    && (forall j, k | 0 <= j < k < |at| :: at[j] < at[k])
    && NoneLost(kept, s, at)
    && (forall k | 0 < k < |at| && name[k - 1] != '_' && name[k] != '_' :: at[k] == at[k - 1] + 1)
  }

  ghost predicate NoneLost(kept: char -> bool, s: string, at: seq<int>)
  {
    forall i | 0 <= i < |s| && kept(s[i]) :: i in at
  }

  lemma {:induction false} StillNoneLost(kept: char -> bool, p: string, s: string, at: seq<int>, pos: nat)
    requires NoneLost(kept, p, at) && p <= s
    requires forall i | |p| <= i < |s| && kept(s[i]) :: i == pos
    ensures NoneLost(kept, s, at + [pos])
  {
    var more := at + [pos];
    forall i | 0 <= i < |s| && kept(s[i]) ensures i in more {
      if i < |p| {
        assert kept(p[i]) && i in at;
      } else {
        assert more[|at|] == i;
      }
    }
  }

  /** Underscores stand alone, and neither first nor last. */
  ghost predicate SingleSpaced(name: string)
  {
    && (name != "" ==> name[0] != '_' && name[|name| - 1] != '_')
    && Spaced(name)
  }

  lemma {:induction false} Skipped(kept: char -> bool, folded: (char, char) -> bool, p: string, c: char, name: string,
                                   at: seq<int>)
    requires ComesFrom(kept, folded, p, name, at) && !kept(c)
    ensures ComesFrom(kept, folded, p + [c], name, at)
  {
  }

  /** One more character `d`, which comes from position `pos`. */
  lemma {:induction false} Appended(kept: char -> bool, folded: (char, char) -> bool, p: string, s: string,
                                    name: string, at: seq<int>, d: char, pos: nat)
    requires ComesFrom(kept, folded, p, name, at) && p <= s && pos < |s|
    requires folded(s[pos], d) && (d == '_' <==> !kept(s[pos]))
    requires name != "" ==> at[|at| - 1] < pos && (name[|name| - 1] != '_' && d != '_' ==> pos == at[|at| - 1] + 1)
    requires forall i | |p| <= i < |s| && kept(s[i]) :: i == pos
    ensures ComesFrom(kept, folded, s, name + [d], at + [pos])
  {
    StillNoneLost(kept, p, s, at, pos);
    assert forall j | 0 <= j < |at| - 1 :: at[j] < at[|at| - 1];
  }

  lemma {:induction false} LastIsKept(kept: char -> bool, folded: (char, char) -> bool, p: string, name: string,
                                      at: seq<int>)
    requires ComesFrom(kept, folded, p, name, at) && p != "" && kept(p[|p| - 1])
    ensures at != [] && at[|at| - 1] == |p| - 1
  {
    assert |p| - 1 in at;
    var k :| 0 <= k < |at| && at[k] == |p| - 1;
    assert forall j | 0 <= j < |at| - 1 :: at[j] < at[|at| - 1];
  }

  lemma {:induction false} LastIsSmaller(kept: char -> bool, folded: (char, char) -> bool, p: string, name: string,
                                         at: seq<int>)
    requires ComesFrom(kept, folded, p, name, at) && p != "" && !kept(p[|p| - 1])
    requires name != "" && name[|name| - 1] != '_'
    ensures at[|at| - 1] < |p| - 1
  {
    assert kept(p[at[|at| - 1]]);
  }

  /** What one more character `c`, which folds to `d`, adds. */
  lemma {:induction false} OneMoreCharacter(kept: char -> bool, folded: (char, char) -> bool, p: string, c: char,
                                            d: char, name: string, before: seq<int>)
    returns (after: string, at: seq<int>)
    requires ComesFrom(kept, folded, p, name, before) && SingleSpaced(name)
    requires kept(c) ==> folded(c, d) && d != '_'
    requires p != "" && !kept(p[|p| - 1]) ==> folded(p[|p| - 1], '_')
    ensures after == if !kept(c) then name
                     else if name == "" || (p != "" && kept(p[|p| - 1])) then name + [d]
                     else name + ['_', d]
    ensures ComesFrom(kept, folded, p + [c], after, at)
  {
    var n := |p|;
    if !kept(c) {
      after, at := name, before;
      Skipped(kept, folded, p, c, name, before);
    } else if name == "" || (p != "" && kept(p[n - 1])) {
      after, at := name + [d], before + [n];
      if name != "" {
        LastIsKept(kept, folded, p, name, before);
      }
      Appended(kept, folded, p, p + [c], name, before, d, n);
    } else {
      after, at := name + ['_'] + [d], before + [n - 1] + [n];
      assert p != "" by {
        assert 0 <= before[0] < |p|;
      }
      LastIsSmaller(kept, folded, p, name, before);
      Appended(kept, folded, p, p, name, before, '_', n - 1);
      Appended(kept, folded, p, p + [c], name + ['_'], before + [n - 1], d, n);
      assert after == name + ['_', d];
    }
  }

  /** Lower-casing keeps exactly the kept characters and folds them. */
  ghost predicate Folds(kept: char -> bool, folded: (char, char) -> bool, c: char)
  {
    && (IsAlnum(ToLower(c)) <==> kept(c))
    && (if kept(c) then folded(c, ToLower(c)) && ToLower(c) != '_' else folded(c, '_'))
  }

  lemma {:induction false} SlugSnoc(kept: char -> bool, folded: (char, char) -> bool, p: string, c: char)
    requires forall x :: Folds(kept, folded, x)
    ensures Slug(p + [c]) ==
            if !kept(c) then Slug(p)
            else if Slug(p) == "" || (p != "" && kept(p[|p| - 1])) then Slug(p) + [ToLower(c)]
            else Slug(p) + ['_', ToLower(c)]
  {
    assert Lower(p + [c]) == Lower(p) + [ToLower(c)];
    SqueezeSnoc(Lower(p), ToLower(c), IsAlnum, '_');
    assert Folds(kept, folded, c);
    assert p != "" ==> Folds(kept, folded, p[|p| - 1]);
  }

  lemma {:induction false} SlugIsSingleSpaced(s: string)
    ensures SingleSpaced(Slug(s))
  {
    SqueezeIsTidy(Lower(s), IsAlnum, '_');
  }

  lemma {:induction false} SlugComesFrom(kept: char -> bool, folded: (char, char) -> bool, s: string)
    returns (at: seq<int>)
    requires forall x :: Folds(kept, folded, x)
    ensures ComesFrom(kept, folded, s, Slug(s), at)
    decreases |s|
  {
    if s == "" {
      at := [];
    } else {
      var p, c := s[..|s| - 1], s[|s| - 1];
      var before := SlugComesFrom(kept, folded, p);
      assert s == p + [c];
      SlugSnoc(kept, folded, p, c);
      SlugIsSingleSpaced(p);
      assert Folds(kept, folded, c);
      assert p != "" ==> Folds(kept, folded, p[|p| - 1]);
      var after;
      after, at := OneMoreCharacter(kept, folded, p, c, ToLower(c), Slug(p), before);
    }
  }

  /** A sanitised name, character by character: the letters and digits of the input in small letters, with a
      single underscore for whatever stood between them; an underscore in front of a leading digit or in
      place of nothing; and of that the first 63 characters. */
  lemma {:induction false} SanitizedComesFrom(s: string) returns (name: string, at: seq<int>)
    ensures ComesFrom(Kept, Folded, s, name, at) && SingleSpaced(name)
    ensures var whole := if name == "" then "_" else if name[0] in DIGITS then "_" + name else name;
            Sanitized(s) == if |whole| > 63 then whole[..63] else whole
  {
    name := Slug(s);
    forall c ensures Folds(Kept, Folded, c) {
      LowerFolds(c);
    }
    at := SlugComesFrom(Kept, Folded, s);
    SlugIsSingleSpaced(s);
    if name != "" {
      KeptIff(name[0]);
    }
  }

  // ----- schema_and_table_for_table_id -----

  function SanitizedAll(ids: seq<string>): seq<string> {
    seq(|ids|, i requires 0 <= i < |ids| => Sanitized(ids[i]))
  }

  /** Segments strung together, each behind a double underscore. */
  function Strung(segs: seq<string>): string
    decreases |segs|
  {
    if segs == [] then "" else Strung(segs[..|segs| - 1]) + "__" + segs[|segs| - 1]
  }

  /** The schema name before the 63-byte cut. */
  function FullSchema(prefix: string, ns: seq<string>): string {
    Sanitized(prefix) + Strung(SanitizedAll(ns))
  }

  function Namespace(tableId: TableId): seq<string>
    requires tableId != []
  {
    tableId[..|tableId| - 1]
  }

  /** The local (schema, table) of a table id; only the empty id has none. */
  function Location(prefix: string, tableId: TableId): Option<(string, string)> {
    if tableId == [] then None
    else Some((Cut(FullSchema(prefix, Namespace(tableId)), MAX_IDENT), Sanitized(tableId[|tableId| - 1])))
  }

  method SchemaAndTableForTableId(schemaPrefix: string, tableId: TableId)
    returns (r: Result<(string, string), string>)
    ensures r.Ok? <==> tableId != []
    ensures r.Ok? ==> Location(schemaPrefix, tableId) == Some(r.value)
  {
    if tableId == [] {
      return Err("table_id must not be empty");
    }
    var prefix := SanitizeIdent(schemaPrefix);
    var table := SanitizeIdent(tableId[|tableId| - 1]);
    var namespace := tableId[..|tableId| - 1];
    if namespace == [] {
      SanitizedIsIdentifier(schemaPrefix);
      assert prefix == FullSchema(schemaPrefix, namespace);
      return Ok((prefix, table));
    }
    var schema := StringUp(prefix, namespace);
    if |schema| > MAX_IDENT {
      schema := schema[..MAX_IDENT];
    }
    return Ok((schema, table));
  }

  /** The loop of `schema_and_table_for_table_id`. */
  method StringUp(prefix: string, namespace: seq<string>) returns (schema: string)
    ensures schema == prefix + Strung(SanitizedAll(namespace))
  {
    ghost var segs := SanitizedAll(namespace);
    schema := prefix;
    for i := 0 to |namespace|
      invariant schema == prefix + Strung(segs[..i])
    {
      var seg := SanitizeIdent(namespace[i]);
      StrungStep(prefix, segs, i);
      schema := schema + "__" + seg;
    }
    assert segs[..|namespace|] == segs;
  }

  lemma {:induction false} StrungStep(prefix: string, segs: seq<string>, i: nat)
    requires i < |segs|
    ensures prefix + Strung(segs[..i + 1]) == prefix + Strung(segs[..i]) + "__" + segs[i]
  {
    assert segs[..i + 1][..i] == segs[..i];
  }

  /** Parts with a double underscore between them. */
  function Joined(parts: seq<string>): string {
    if |parts| == 0 then "" else if |parts| == 1 then parts[0] else parts[0] + "__" + Joined(parts[1..])
  }

  lemma {:induction false} JoinedSnoc(parts: seq<string>, x: string)
    requires parts != []
    ensures Joined(parts + [x]) == Joined(parts) + "__" + x
    decreases |parts|
  {
    assert (parts + [x])[1..] == parts[1..] + [x];
    if |parts| == 1 {
      assert Joined(parts[1..] + [x]) == x;
    } else {
      JoinedSnoc(parts[1..], x);
      assert parts[0] + "__" + (Joined(parts[1..]) + "__" + x) == parts[0] + "__" + Joined(parts[1..]) + "__" + x;
    }
  }

  lemma {:induction false} SchemaIsJoined(prefix: string, segs: seq<string>)
    ensures prefix + Strung(segs) == Joined([prefix] + segs)
    decreases |segs|
  {
    if segs == [] {
      assert [prefix] + segs == [prefix];
      assert prefix + "" == prefix;
    } else {
      var front, x := segs[..|segs| - 1], segs[|segs| - 1];
      SchemaIsJoined(prefix, front);
      JoinedSnoc([prefix] + front, x);
      assert [prefix] + segs == [prefix] + front + [x];
      assert prefix + (Strung(front) + "__" + x) == prefix + Strung(front) + "__" + x;
    }
  }

  /** The local table of an id: its last part, sanitised; the schema is the prefix and the other parts,
      sanitised and joined by double underscores, of which the first 63 characters count. */
  lemma {:induction false} LocationIs(prefix: string, id: TableId)
    ensures Location(prefix, id) ==
            if id == [] then None
            else
              var schema := Joined([Sanitized(prefix)] + SanitizedAll(id[..|id| - 1]));
              Some((if |schema| > 63 then schema[..63] else schema, Sanitized(id[|id| - 1])))
  {
    if id != [] {
      SchemaIsJoined(Sanitized(prefix), SanitizedAll(Namespace(id)));
    }
  }

  ghost predicate AllClean(segs: seq<string>)
  {
    forall i | 0 <= i < |segs| :: Clean(segs[i])
  }

  /** Two clean segments behind a separator at the end of the same text are the same segment. */
  lemma {:induction false} LastSegmentDecodes(x: string, s: string, y: string, t: string)
    requires Clean(s) && Clean(t) && |s| <= |t|
    requires x + "__" + s == y + "__" + t
    ensures s == t && x == y
  {
    var u, d := x + "__" + s, |t| - |s|;
    var v := y + "__" + t;
    assert |x| == |y| + d;
    assert u[|x|] == u[|x| + 1] == '_';
    assert forall i | 0 <= i < |t| :: t[i] == v[|y| + 2 + i];
    assert s[0] == u[|x| + 2];
    if d > 0 {
      assert false;
    }
    assert s == u[|x| + 2..] && t == v[|x| + 2..];
    assert x == u[..|x|] && y == v[..|x|];
  }

  lemma {:induction false} StrungDecodes(a: seq<string>, b: seq<string>)
    requires AllClean(a) && AllClean(b)
    requires Strung(a) == Strung(b)
    ensures a == b
    decreases |a|
  {
    if a != [] && b != [] {
      var frontA, s := a[..|a| - 1], a[|a| - 1];
      var frontB, t := b[..|b| - 1], b[|b| - 1];
      if |s| <= |t| {
        LastSegmentDecodes(Strung(frontA), s, Strung(frontB), t);
      } else {
        LastSegmentDecodes(Strung(frontB), t, Strung(frontA), s);
      }
      StrungDecodes(frontA, frontB);
      assert a == frontA + [s] && b == frontB + [t];
    }
  }

  lemma {:induction false} StrungIsLonger(segs: seq<string>, i: nat)
    requires i < |segs|
    ensures |segs[i]| + 2 <= |Strung(segs)|
    decreases |segs|
  {
    if i < |segs| - 1 {
      StrungIsLonger(segs[..|segs| - 1], i);
    }
  }

  /** A sanitised name shorter than the limit was not cut, so it is clean. */
  lemma {:induction false} ShortIsClean(s: string)
    requires |Sanitized(s)| < MAX_IDENT
    ensures Clean(Sanitized(s))
  {
    GuardedIsClean(s);
  }

  lemma {:induction false} FittingSegmentsAreClean(prefix: string, ns: seq<string>)
    requires |FullSchema(prefix, ns)| <= MAX_IDENT
    ensures AllClean(SanitizedAll(ns))
  {
    var segs := SanitizedAll(ns);
    forall i | 0 <= i < |segs| ensures Clean(segs[i]) {
      StrungIsLonger(segs, i);
      assert segs[i] == Sanitized(ns[i]);
      ShortIsClean(ns[i]);
    }
  }

  /** The naming scheme is uniquely decodable: while the joined name is not cut, two
      namespaces share a schema exactly when they agree segment by segment after sanitising. */
  lemma {:induction false} SchemaUniquelyDecodable(prefix: string, a: seq<string>, b: seq<string>)
    requires |FullSchema(prefix, a)| <= MAX_IDENT && |FullSchema(prefix, b)| <= MAX_IDENT
    ensures FullSchema(prefix, a) == FullSchema(prefix, b) <==> SanitizedAll(a) == SanitizedAll(b)
  {
    FittingSegmentsAreClean(prefix, a);
    FittingSegmentsAreClean(prefix, b);
    var p, sa, sb := Sanitized(prefix), Strung(SanitizedAll(a)), Strung(SanitizedAll(b));
    if p + sa == p + sb {
      assert sa == (p + sa)[|p|..] && sb == (p + sb)[|p|..];
      StrungDecodes(SanitizedAll(a), SanitizedAll(b));
    }
  }

  /** Two table ids get the same local table exactly when they agree part by part. */
  lemma {:induction false} LocationUniquelyDecodable(prefix: string, a: TableId, b: TableId)
    requires a != [] && b != []
    requires |FullSchema(prefix, Namespace(a))| <= MAX_IDENT
    requires |FullSchema(prefix, Namespace(b))| <= MAX_IDENT
    ensures Location(prefix, a) == Location(prefix, b) <==> SanitizedAll(a) == SanitizedAll(b)
  {
    SchemaUniquelyDecodable(prefix, Namespace(a), Namespace(b));
    SanitizedAllSplit(a);
    SanitizedAllSplit(b);
    LastApart(SanitizedAll(a), SanitizedAll(b));
  }

  lemma {:induction false} LastApart(x: seq<string>, y: seq<string>)
    requires x != [] && y != []
    ensures x == y <==> x[..|x| - 1] == y[..|y| - 1] && x[|x| - 1] == y[|y| - 1]
  {
    assert x == x[..|x| - 1] + [x[|x| - 1]] && y == y[..|y| - 1] + [y[|y| - 1]];
  }

  lemma {:induction false} SanitizedAllSplit(a: TableId)
    requires a != []
    ensures var x := SanitizedAll(a);
            |x| == |a| && x[..|a| - 1] == SanitizedAll(Namespace(a)) && x[|a| - 1] == Sanitized(a[|a| - 1])
  {
  }

  /** The cut is where decodability ends: once a schema name is full, every deeper namespace
      lands in the same schema. */
  lemma {:induction false} FullSchemasCollide(prefix: string, ns: seq<string>, deeper: seq<string>)
    requires |FullSchema(prefix, ns)| >= MAX_IDENT
    ensures Cut(FullSchema(prefix, ns + deeper), MAX_IDENT) == Cut(FullSchema(prefix, ns), MAX_IDENT)
  {
    SanitizedAllAppend(ns, deeper);
    FullStringsCollide(Sanitized(prefix), SanitizedAll(ns), SanitizedAll(deeper));
  }

  lemma {:induction false} FullStringsCollide(p: string, x: seq<string>, y: seq<string>)
    requires |p + Strung(x)| >= MAX_IDENT
    ensures Cut(p + Strung(x + y), MAX_IDENT) == Cut(p + Strung(x), MAX_IDENT)
  {
    StrungAppend(x, y);
    var s, t := p + Strung(x), Strung(y);
    assert p + (Strung(x) + t) == s + t;
    assert (s + t)[..MAX_IDENT] == s[..MAX_IDENT];
  }

  lemma {:induction false} SanitizedAllAppend(a: seq<string>, b: seq<string>)
    ensures SanitizedAll(a + b) == SanitizedAll(a) + SanitizedAll(b)
  {
  }

  lemma {:induction false} StrungAppend(x: seq<string>, y: seq<string>)
    ensures Strung(x + y) == Strung(x) + Strung(y)
    decreases |y|
  {
    if y == [] {
      assert x + y == x;
    } else {
      assert (x + y)[..|x + y| - 1] == x + y[..|y| - 1];
      StrungAppend(x, y[..|y| - 1]);
    }
  }
}
