/** The string operations of the Rust standard library that the model needs, and array suffixes. */
module Text {
  import opened Wrappers

  /** The characters with the Unicode White_Space property. */
  predicate IsSpace(c: char) {
    var n := c as int;
    9 <= n <= 13 || n == 32 || n == 0x85 || n == 0xA0 || n == 0x1680 || 0x2000 <= n <= 0x200A
    || n == 0x2028 || n == 0x2029 || n == 0x202F || n == 0x205F || n == 0x3000
  }

  function TrimStart(s: string): string {
    if s != "" && IsSpace(s[0]) then TrimStart(s[1..]) else s
  }

  function TrimEnd(s: string): (r: string)
    ensures |r| <= |s|
    decreases |s|
  {
    if s != "" && IsSpace(s[|s| - 1]) then TrimEnd(s[..|s| - 1]) else s
  }

  function Trim(s: string): string {
    TrimEnd(TrimStart(s))
  }

  predicate StartsWith(s: string, p: string) {
    |p| <= |s| && s[..|p|] == p
  }

  predicate EndsWith(s: string, p: string) {
    |p| <= |s| && s[|s| - |p|..] == p
  }

  function Repeat(s: string, n: nat): string {
    if n == 0 then "" else Repeat(s, n - 1) + s
  }

  // ----- array suffixes -----

  /** What is left of `t` once `step` no longer shortens it, and how often it did. */
  function Peel(step: string -> Option<string>, t: string): (string, nat)
    decreases |t|
  {
    var u := step(t);
    if u.None? || |u.value| >= |t| then (t, 0) else var r := Peel(step, u.value); (r.0, r.1 + 1)
  }

  /** `t` without one array suffix and the space before it. */
  function StripSuffix(t: string): Option<string> {
    if EndsWith(t, "[]") then Some(TrimEnd(t[..|t| - 2])) else None
  }

  /** A type without its array suffixes, and how many there were. */
  function Suffixes(t: string): (string, nat) {
    Peel(StripSuffix, t)
  }

  /** `w` with `n` array suffixes, built from the front. */
  ghost function Suffixed(w: string, n: nat): string {
    if n == 0 then w else Suffixed(w, n - 1) + "[]"
  }

  lemma {:induction false} SuffixedIs(w: string, n: nat)
    ensures Suffixed(w, n) == w + Repeat("[]", n)
  {
    if n == 0 {
      assert w + "" == w;
    } else {
      SuffixedIs(w, n - 1);
      assert w + Repeat("[]", n - 1) + "[]" == w + (Repeat("[]", n - 1) + "[]");
    }
  }

  lemma {:induction false} TrimEndTwice(s: string)
    ensures TrimEnd(TrimEnd(s)) == TrimEnd(s)
    decreases |s|
  {
    if s != "" && IsSpace(s[|s| - 1]) {
      TrimEndTwice(s[..|s| - 1]);
    }
  }

  /** `step` takes away suffix number `k`. */
  ghost predicate Takes(step: string -> Option<string>, w: string, k: nat)
  {
    step(Suffixed(w, k + 1)) == Some(Suffixed(w, k)) && |Suffixed(w, k)| < |Suffixed(w, k + 1)|
  }

  lemma {:induction false} PeelSuffixed(step: string -> Option<string>, w: string, n: nat)
    requires step(w).None? && forall k: nat | k < n :: Takes(step, w, k)
    ensures Peel(step, Suffixed(w, n)) == (w, n)
  {
    if n > 0 {
      PeelSuffixed(step, w, n - 1);
      assert Takes(step, w, n - 1);
    }
  }

  lemma {:induction false} SuffixIsLast(r: string)
    ensures var t := r + "[]";
            EndsWith(t, "[]") && t[..|t| - 2] == r && TrimEnd(t) == t
  {
    var t := r + "[]";
    assert t[|t| - 1] == ']';
    assert t[|t| - 2..] == "[]" && t[..|t| - 2] == r;
  }

  lemma {:induction false} SuffixedTrims(w: string, n: nat)
    requires TrimEnd(w) == w
    ensures TrimEnd(Suffixed(w, n)) == Suffixed(w, n)
  {
    if n > 0 {
      SuffixIsLast(Suffixed(w, n - 1));
    }
  }

  lemma {:induction false} SuffixIsTaken(w: string, k: nat)
    requires TrimEnd(w) == w
    ensures Takes(StripSuffix, w, k)
  {
    SuffixedTrims(w, k);
    SuffixIsLast(Suffixed(w, k));
  }

  /** Array suffixes can be stripped and counted again. */
  lemma {:induction false} SuffixesOf(w: string, n: nat)
    requires TrimEnd(w) == w && !EndsWith(w, "[]")
    ensures Suffixes(w + Repeat("[]", n)) == (w, n) && TrimEnd(w + Repeat("[]", n)) == w + Repeat("[]", n)
  {
    forall k: nat | k < n ensures Takes(StripSuffix, w, k) {
      SuffixIsTaken(w, k);
    }
    PeelSuffixed(StripSuffix, w, n);
    SuffixedTrims(w, n);
    SuffixedIs(w, n);
  }

  /** The loop that puts `dims` array suffixes behind a type. */
  method AppendArrays(base: string, dims: nat) returns (out: string)
    ensures out == base + Repeat("[]", dims)
  {
    out := base;
    for i := 0 to dims
      invariant out == base + Repeat("[]", i)
    {
      assert out + "[]" == base + (Repeat("[]", i) + "[]");
      out := out + "[]";
    }
  }
}
