/** Comparing declared and actual column types (src/fdw/sync_namespace.rs:423-544). */
module Canonical {
  import opened Text
  import opened Words
  import Naming

  predicate NonSpace(c: char) {
    !IsSpace(c)
  }

  function RemoveQuotes(s: string): string {
    if s == "" then ""
    else if s[0] == '"' then RemoveQuotes(s[1..])
    else [s[0]] + RemoveQuotes(s[1..])
  }

  /** Lower case, no quotes, single spaces. */
  function Normalized(s: string): string {
    Squeeze(RemoveQuotes(Naming.Lower(Trim(s))), NonSpace, ' ')
  }

  /** What follows the last dot. */
  function LastPart(s: string): string
    decreases |s|
  {
    if s == "" || s[|s| - 1] == '.' then "" else LastPart(s[..|s| - 1]) + [s[|s| - 1]]
  }

  /** PostgreSQL's display names mapped to the declared ones; every other name stays. */
  function Alias(base: string): string {
    if base == "smallint" then "int2"
    else if base == "integer" then "int4"
    else if base == "bigint" then "int8"
    else if base == "real" then "float4"
    else if base == "double precision" then "float8"
    else if base == "timestamp without time zone" then "timestamp"
    else if base == "timestamp with time zone" then "timestamptz"
    else base
  }

  /** What `canonical_type_string` computes. */
  function CanonicalType(input: string): string {
    var parts := Suffixes(Normalized(input));
    Alias(Trim(LastPart(parts.0))) + Repeat("[]", parts.1)
  }

  method CanonicalTypeString(input: string) returns (out: string)
    ensures out == CanonicalType(input)
    ensures CanonicalType(out) == out
  {
    var s := Naming.Lower(Trim(input));
    s := RemoveQuotes(s);
    var words := Split(s, NonSpace);
    s := Join(words, ' ');

    var dims := 0;
    while EndsWith(s, "[]")
      invariant Suffixes(Normalized(input)) == (Suffixes(s).0, dims + Suffixes(s).1)
      decreases |s|
    {
      dims := dims + 1;
      s := TrimEnd(s[..|s| - 2]);
    }

    var base := Trim(LastPart(s));
    out := AppendArrays(Alias(base), dims);
    CanonicalIsIdempotent(input);
  }

  // ----- text that normalising leaves alone -----

  ghost predicate Quiet(c: char) {
    c != '"' && Naming.ToLower(c) == c
  }

  ghost predicate AllQuiet(s: string)
  {
    forall i | 0 <= i < |s| :: Quiet(s[i])
  }

  ghost predicate Settled(s: string)
  {
    && Tidy(s, NonSpace, ' ')
    && (s != "" ==> s[|s| - 1] != ' ')
    && forall i | 0 <= i < |s| :: Quiet(s[i])
  }

  lemma {:induction false} NormalizedIsSettled(s: string)
    ensures Settled(Normalized(s))
  {
    var u := RemoveQuotes(Naming.Lower(Trim(s)));
    SqueezeIsTidy(u, NonSpace, ' ');
    QuietWithoutQuotes(Trim(s));
    SqueezeKeepsQuiet(u);
  }

  lemma {:induction false} QuietWithoutQuotes(s: string)
    ensures forall i | 0 <= i < |RemoveQuotes(Naming.Lower(s))| :: Quiet(RemoveQuotes(Naming.Lower(s))[i])
  {
    if s != "" {
      QuietWithoutQuotes(s[1..]);
      assert Naming.Lower(s)[1..] == Naming.Lower(s[1..]);
    }
  }

  lemma {:induction false} SqueezeKeepsQuiet(s: string)
    requires AllQuiet(s)
    ensures AllQuiet(Squeeze(s, NonSpace, ' '))
    decreases |s|
  {
    if s != "" {
      var p := s[..|s| - 1];
      SqueezeKeepsQuiet(p);
      SqueezeSnoc(p, s[|s| - 1], NonSpace, ' ');
      assert s == p + [s[|s| - 1]];
      assert Quiet(' ');
    }
  }

  lemma {:induction false} TrimSettled(s: string)
    requires Settled(s)
    ensures Trim(s) == s && TrimEnd(s) == s
  {
    if s != "" {
      assert NonSpace(s[0]) && NonSpace(s[|s| - 1]);
    }
  }

  lemma {:induction false} LowerQuiet(s: string)
    requires forall i | 0 <= i < |s| :: Quiet(s[i])
    ensures Naming.Lower(s) == s && RemoveQuotes(s) == s
  {
    if s != "" {
      LowerQuiet(s[1..]);
      assert s == [s[0]] + s[1..];
    }
  }

  lemma {:induction false} SettledIsNormal(s: string)
    requires Settled(s)
    ensures Normalized(s) == s
  {
    TrimSettled(s);
    LowerQuiet(s);
    SqueezeTidy(s, NonSpace, ' ');
  }

  // ----- the parts of settled text -----

  lemma {:induction false} SettledPrefix(s: string, n: nat)
    requires Settled(s) && n <= |s| && (n > 0 ==> s[n - 1] != ' ')
    ensures Settled(s[..n])
  {
  }

  lemma {:induction false} TrimEndSettled(s: string, n: nat)
    requires Settled(s) && n <= |s|
    ensures Settled(TrimEnd(s[..n])) && |TrimEnd(s[..n])| <= n && TrimEnd(s[..n]) <= s
    decreases n
  {
    var p := s[..n];
    if n > 0 && IsSpace(p[n - 1]) {
      assert p[..n - 1] == s[..n - 1];
      TrimEndSettled(s, n - 1);
    } else {
      SettledPrefix(s, n);
    }
  }

  lemma {:induction false} SuffixesSettled(s: string)
    requires Settled(s)
    ensures Settled(Suffixes(s).0) && !EndsWith(Suffixes(s).0, "[]")
    decreases |s|
  {
    if EndsWith(s, "[]") {
      TrimEndSettled(s, |s| - 2);
      SuffixesSettled(TrimEnd(s[..|s| - 2]));
    }
  }

  lemma {:induction false} LastPartIsSuffix(s: string)
    ensures var l := LastPart(s);
            && |l| <= |s| && s[|s| - |l|..] == l
            && (forall i | 0 <= i < |l| :: l[i] != '.')
            && (|l| < |s| ==> s[|s| - |l| - 1] == '.')
    decreases |s|
  {
    if s != "" && s[|s| - 1] != '.' {
      LastPartIsSuffix(s[..|s| - 1]);
    }
  }

  ghost predicate Trunk(s: string)
  {
    Settled(s) && !EndsWith(s, "[]")
  }

  /** A base name: settled, without dots, and not an array. */
  ghost predicate Atom(s: string)
  {
    Trunk(s) && forall i | 0 <= i < |s| :: s[i] != '.'
  }

  lemma {:induction false} LastPartIsAtom(s: string)
    requires Settled(s) && !EndsWith(s, "[]")
    ensures Atom(Trim(LastPart(s)))
  {
    var l := LastPart(s);
    LastPartIsSuffix(s);
    if l == "" {
    } else if l[0] == ' ' {
      var m := l[1..];
      assert m != "" && m[0] != ' ' by {
        assert l[|l| - 1] == s[|s| - 1];
      }
      SettledSuffix(s, |s| - |m|);
      assert m == s[|s| - |m|..];
      TrimSettled(m);
      assert TrimStart(l) == m by {
        assert IsSpace(' ');
        assert NonSpace(m[0]);
      }
      SuffixNotArray(s, m);
    } else {
      SettledSuffix(s, |s| - |l|);
      TrimSettled(l);
      SuffixNotArray(s, l);
    }
  }

  lemma {:induction false} SettledSuffix(s: string, n: nat)
    requires Settled(s) && n < |s| && s[n] != ' '
    ensures Settled(s[n..])
  {
  }

  lemma {:induction false} SuffixNotArray(s: string, l: string)
    requires |l| <= |s| && s[|s| - |l|..] == l && !EndsWith(s, "[]")
    ensures !EndsWith(l, "[]")
  {
    if |l| >= 2 {
      assert s[|s| - 2..] == l[|l| - 2..];
    }
  }

  lemma {:induction false} WordIsAtom(s: string)
    requires s != "" && forall i | 0 <= i < |s| :: 'a' <= s[i] <= 'z' || '0' <= s[i] <= '9' || s[i] == '_'
    ensures Atom(s)
  {
    assert |s| >= 2 ==> s[|s| - 2..][1] == s[|s| - 1];
    forall i | 0 <= i < |s| ensures NonSpace(s[i]) && Quiet(s[i]) && s[i] != '.' {
    }
  }

  /** No display name ends like a declared one. */
  lemma {:induction false} AliasFixed(w: string)
    requires w != "" && w[|w| - 1] in {'2', '4', '8', 'p', 'z'}
    ensures Alias(w) == w
  {
  }

  lemma {:induction false} AliasTarget(w: string)
    requires w == "int2" || w == "int4" || w == "int8" || w == "float4" || w == "float8" || w == "timestamp" ||
             w == "timestamptz"
    ensures Atom(w) && Alias(w) == w
  {
    AliasFixed(w);
    WordIsAtom(w);
  }

  lemma {:induction false} AliasIsAtom(a: string)
    requires Atom(a)
    ensures Atom(Alias(a)) && Alias(Alias(a)) == Alias(a)
  {
    var b := Alias(a);
    if b != a {
      AliasTarget(b);
    }
  }

  // ----- canonicalising twice -----

  lemma {:induction false} CanonicalOfAtom(a: string, n: nat)
    requires Atom(a)
    ensures CanonicalType(a + Repeat("[]", n)) == Alias(a) + Repeat("[]", n)
  {
    WithSuffixes(a, n);
    SettledIsNormal(a + Repeat("[]", n));
    SuffixesOfTrunk(a, n);
    LastPartOfAtom(a);
    TrimSettled(a);
  }

  lemma {:induction false} WithSuffixes(a: string, n: nat)
    requires Trunk(a)
    ensures Settled(a + Repeat("[]", n))
  {
    if n == 0 {
      assert a + Repeat("[]", n) == a;
    } else {
      WithSuffixes(a, n - 1);
      var s := a + Repeat("[]", n - 1);
      assert a + Repeat("[]", n) == s + "[]";
    }
  }

  lemma {:induction false} SuffixesOfTrunk(a: string, n: nat)
    requires Trunk(a)
    ensures Suffixes(a + Repeat("[]", n)) == (a, n)
  {
    SuffixesOf(a, n);
  }

  lemma {:induction false} LastPartOfAtom(a: string)
    requires forall i | 0 <= i < |a| :: a[i] != '.'
    ensures LastPart(a) == a
    decreases |a|
  {
    if a != "" {
      LastPartOfAtom(a[..|a| - 1]);
    }
  }

  /** A base name that is no alias, with array suffixes. */
  ghost predicate InCanonicalForm(s: string, a: string, n: nat)
  {
    Atom(a) && Alias(a) == a && s == a + Repeat("[]", n)
  }

  /** Every canonical form is a base name with array suffixes. */
  lemma {:induction false} CanonicalForm(s: string) returns (a: string, n: nat)
    ensures InCanonicalForm(CanonicalType(s), a, n)
  {
    NormalizedIsSettled(s);
    SuffixesSettled(Normalized(s));
    var parts := Suffixes(Normalized(s));
    LastPartIsAtom(parts.0);
    var base := Trim(LastPart(parts.0));
    AliasIsAtom(base);
    a, n := Alias(base), parts.1;
  }

  /** The texts that canonicalising leaves alone are exactly these. */
  lemma {:induction false} CanonicalIsFixedIff(s: string)
    ensures CanonicalType(s) == s <==> exists a, n :: InCanonicalForm(s, a, n)
  {
    var a, n := CanonicalForm(s);
    if a, n :| InCanonicalForm(s, a, n) {
      CanonicalOfAtom(a, n);
    }
  }

  /** Canonicalising is idempotent, whatever the text. */
  lemma {:induction false} CanonicalIsIdempotent(s: string)
    ensures CanonicalType(CanonicalType(s)) == CanonicalType(s)
  {
    var a, n := CanonicalForm(s);
    CanonicalOfAtom(a, n);
  }
}
