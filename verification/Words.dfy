/** Splitting a string into maximal runs of accepted characters, and joining them again. */
module Words {

  /** The maximal runs of characters of `s` accepted by `keep`, from left to right. */
  function Split(s: string, keep: char -> bool): (ws: seq<string>)
    ensures s != "" && keep(s[|s| - 1]) ==> ws != []
    decreases |s|
  {
    if s == "" then []
    else
      var c, p := s[|s| - 1], s[..|s| - 1];
      var ws := Split(p, keep);
      if !keep(c) then ws
      else if p != "" && keep(p[|p| - 1]) then ws[..|ws| - 1] + [ws[|ws| - 1] + [c]]
      else ws + [[c]]
  }

  /** Every element is a non-empty run of accepted characters. */
  ghost predicate AllWords(ws: seq<string>, keep: char -> bool)
  {
    forall i | 0 <= i < |ws| :: ws[i] != "" && forall k | 0 <= k < |ws[i]| :: keep(ws[i][k])
  }

  function Join(ws: seq<string>, sep: char): string
    decreases |ws|
  {
    if |ws| == 0 then ""
    else if |ws| == 1 then ws[0]
    else Join(ws[..|ws| - 1], sep) + [sep] + ws[|ws| - 1]
  }

  /** Only accepted characters and separators; separators stand alone and never first. */
  ghost predicate Tidy(s: string, keep: char -> bool, sep: char)
  {
    && (forall i | 0 <= i < |s| :: keep(s[i]) || s[i] == sep)
    && (s != "" ==> s[0] != sep)
    && (forall i, j | 0 <= i < j < |s| && j == i + 1 :: s[i] != sep || s[j] != sep)
  }

  /** Joining words gives a tidy string that does not end in a separator. */
  lemma {:induction false} JoinIsTidy(ws: seq<string>, keep: char -> bool, sep: char)
    requires AllWords(ws, keep) && !keep(sep)
    ensures Tidy(Join(ws, sep), keep, sep)
    ensures ws == [] <==> Join(ws, sep) == ""
    ensures ws != [] ==> var j := Join(ws, sep); keep(j[0]) && keep(j[|j| - 1])
    decreases |ws|
  {
    if |ws| > 1 {
      var init, w := ws[..|ws| - 1], ws[|ws| - 1];
      JoinIsTidy(init, keep, sep);
      var j, b := Join(ws, sep), Join(init, sep);
      assert forall i | |b| < i < |j| :: j[i] == w[i - |b| - 1];
      assert j[|j| - 1] == w[|w| - 1];
    }
  }

  /** The words of `s` joined by single separators. */
  function Squeeze(s: string, keep: char -> bool, sep: char): string {
    Join(Split(s, keep), sep)
  }

  lemma {:induction false} SplitWords(s: string, keep: char -> bool)
    ensures AllWords(Split(s, keep), keep)
    decreases |s|
  {
    if s != "" {
      SplitWords(s[..|s| - 1], keep);
    }
  }

  /** How one more character changes the squeezed string. */
  lemma {:induction false} SqueezeSnoc(p: string, c: char, keep: char -> bool, sep: char)
    ensures var q := Squeeze(p, keep, sep);
            Squeeze(p + [c], keep, sep) ==
            if !keep(c) then q
            else if q == "" || (p != "" && keep(p[|p| - 1])) then q + [c]
            else q + [sep, c]
  {
    assert (p + [c])[..|p|] == p;
    var ws := Split(p, keep);
    SqueezeEmpty(p, keep, sep);
    if keep(c) {
      if p == "" || !keep(p[|p| - 1]) {
        assert (ws + [[c]])[..|ws|] == ws;
      }
    }
  }

  lemma {:induction false} SqueezeEmpty(s: string, keep: char -> bool, sep: char)
    ensures Squeeze(s, keep, sep) == "" <==> Split(s, keep) == []
  {
    SplitWords(s, keep);
    var ws := Split(s, keep);
    if ws != [] {
      assert ws[|ws| - 1] != "";
    }
  }

  /** An accepted character anywhere leaves something to squeeze. */
  lemma {:induction false} SqueezeNonEmpty(s: string, i: nat, keep: char -> bool, sep: char)
    requires i < |s| && keep(s[i])
    ensures Squeeze(s, keep, sep) != ""
    decreases |s|
  {
    var p := s[..|s| - 1];
    assert s == p + [s[|s| - 1]];
    SqueezeSnoc(p, s[|s| - 1], keep, sep);
    if i < |p| {
      SqueezeNonEmpty(p, i, keep, sep);
    }
  }

  /** A squeezed string is tidy, and starts and ends with accepted characters. */
  lemma {:induction false} SqueezeIsTidy(s: string, keep: char -> bool, sep: char)
    requires !keep(sep)
    ensures var q := Squeeze(s, keep, sep);
            Tidy(q, keep, sep) && (q != "" ==> keep(q[0]) && keep(q[|q| - 1]))
  {
    SplitWords(s, keep);
    JoinIsTidy(Split(s, keep), keep, sep);
  }

  /** Squeezing a tidy string removes only a trailing separator. */
  lemma {:induction false} SqueezeTidy(s: string, keep: char -> bool, sep: char)
    requires Tidy(s, keep, sep) && !keep(sep)
    ensures Squeeze(s, keep, sep) + (if s != "" && s[|s| - 1] == sep then [sep] else "") == s
    decreases |s|
  {
    if s != "" {
      var c, p := s[|s| - 1], s[..|s| - 1];
      assert s == p + [c];
      SqueezeTidy(p, keep, sep);
      SqueezeSnoc(p, c, keep, sep);
    }
  }

  /** A rejected character in front changes nothing. */
  lemma {:induction false} SqueezeLeading(c: char, t: string, keep: char -> bool, sep: char)
    requires !keep(c)
    ensures Squeeze([c] + t, keep, sep) == Squeeze(t, keep, sep)
    decreases |t|
  {
    if t == "" {
      SqueezeSnoc("", c, keep, sep);
      assert [c] + t == "" + [c];
    } else {
      var p, d := t[..|t| - 1], t[|t| - 1];
      SqueezeLeading(c, p, keep, sep);
      SqueezeSnoc([c] + p, d, keep, sep);
      SqueezeSnoc(p, d, keep, sep);
      SqueezeEmpty(p, keep, sep);
      assert [c] + t == [c] + p + [d] && t == p + [d];
    }
  }

  /** Squeezing never lengthens a string. */
  lemma {:induction false} SqueezeNoLonger(s: string, keep: char -> bool, sep: char)
    requires !keep(sep)
    ensures |Squeeze(s, keep, sep)| + (if s != "" && !keep(s[|s| - 1]) then 1 else 0) <= |s|
    decreases |s|
  {
    if s != "" {
      var p := s[..|s| - 1];
      SqueezeNoLonger(p, keep, sep);
      SqueezeSnoc(p, s[|s| - 1], keep, sep);
      assert s == p + [s[|s| - 1]];
    }
  }
}
