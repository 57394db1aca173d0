/** Ascending enumeration of finite sets: the iteration order of a BTreeMap's keys. */
module Ordered {

  ghost predicate TotalOrder<K(!new)>(le: (K, K) -> bool)
  {
    && (forall a, b :: le(a, b) || le(b, a))
    && (forall a, b :: le(a, b) && le(b, a) ==> a == b)
    && (forall a, b, c :: le(a, b) && le(b, c) ==> le(a, c))
  }

  /** Lexicographic order of sequences under an order of their elements. */
  predicate LexLe<T(==)>(a: seq<T>, b: seq<T>, le: (T, T) -> bool) {
    a == [] || (b != [] && (if a[0] == b[0] then LexLe(a[1..], b[1..], le) else le(a[0], b[0])))
  }

  predicate CharLe(a: char, b: char) { a <= b }

  predicate StringLe(a: string, b: string) { LexLe(a, b, CharLe) }

  predicate PairLe(a: (string, string), b: (string, string)) {
    if a.0 == b.0 then StringLe(a.1, b.1) else StringLe(a.0, b.0)
  }

  lemma {:induction false} LexTotal<T(!new)>(a: seq<T>, b: seq<T>, le: (T, T) -> bool)
    requires TotalOrder(le)
    ensures LexLe(a, b, le) || LexLe(b, a, le)
    ensures LexLe(a, b, le) && LexLe(b, a, le) ==> a == b
  {
    if a != [] && b != [] {
      if a[0] == b[0] {
        LexTotal(a[1..], b[1..], le);
        assert a == [a[0]] + a[1..] && b == [b[0]] + b[1..];
      }
    }
  }

  lemma {:induction false} LexTransitive<T(!new)>(a: seq<T>, b: seq<T>, c: seq<T>, le: (T, T) -> bool)
    requires TotalOrder(le)
    requires LexLe(a, b, le) && LexLe(b, c, le)
    ensures LexLe(a, c, le)
  {
    if a != [] && a[0] == b[0] && b[0] == c[0] {
      LexTransitive(a[1..], b[1..], c[1..], le);
    }
  }

  lemma {:induction false} LexIsTotal<T(!new)>(le: (T, T) -> bool, lex: (seq<T>, seq<T>) -> bool)
    requires TotalOrder(le)
    requires forall a, b :: lex(a, b) == LexLe(a, b, le)
    ensures TotalOrder(lex)
  {
    forall a, b ensures lex(a, b) || lex(b, a) ensures lex(a, b) && lex(b, a) ==> a == b {
      LexTotal(a, b, le);
    }
    forall a, b, c | lex(a, b) && lex(b, c) ensures lex(a, c) {
      LexTransitive(a, b, c, le);
    }
  }

  lemma {:induction false} StringLeIsTotal()
    ensures TotalOrder(StringLe)
  {
    LexIsTotal(CharLe, StringLe);
  }

  lemma {:induction false} PairLeIsTotal()
    ensures TotalOrder(PairLe)
  {
    StringLeIsTotal();
  }

  ghost predicate IsLeast<K(!new)>(k: K, s: set<K>, le: (K, K) -> bool)
  {
    k in s && forall x | x in s :: le(k, x)
  }

  lemma {:induction false} LeastExists<K(!new)>(s: set<K>, le: (K, K) -> bool)
    requires TotalOrder(le) && s != {}
    ensures exists k :: IsLeast(k, s, le)
    decreases |s|
  {
    var y :| y in s;
    if s - {y} == {} {
      assert s == {y};
      assert le(y, y);
      assert IsLeast(y, s, le);
    } else {
      LeastExists(s - {y}, le);
      var k :| IsLeast(k, s - {y}, le);
      var m := if le(y, k) then y else k;
      forall x | x in s ensures le(m, x) {
        if x != y {
          assert le(k, x);
        }
      }
      assert IsLeast(m, s, le);
    }
  }

  function Least<K(==,!new)>(s: set<K>, le: (K, K) -> bool): (k: K)
    requires TotalOrder(le) && s != {}
    ensures k in s && forall x | x in s :: le(k, x)
  {
    LeastExists(s, le);
    var k :| k in s && forall x | x in s :: le(k, x);
    k
  }

  /** The members of `s`, each once, in ascending order. */
  function Ascending<K(==,!new)>(s: set<K>, le: (K, K) -> bool): (r: seq<K>)
    requires TotalOrder(le)
    ensures forall x :: x in r <==> x in s
    ensures Distinct(r)
    ensures forall i, j | 0 <= i < j < |r| :: le(r[i], r[j])
    decreases |s|
  {
    if s == {} then []
    else
      var k := Least(s, le);
      [k] + Ascending(s - {k}, le)
  }

  predicate Distinct<T(==)>(s: seq<T>) {
    forall i, j | 0 <= i < j < |s| :: s[i] != s[j]
  }

  /** `a` comes before `b` in the dictionary: it is a beginning of `b`, or smaller where they first differ. */
  ghost predicate Precedes(a: string, b: string)
  {
    exists i :: 0 <= i <= |a| && PrecedesAt(a, b, i)
  }

  ghost predicate PrecedesAt(a: string, b: string, i: nat)
    requires i <= |a|
  {
    i < |b| && a[..i] == b[..i] && (i == |a| || a[i] < b[i])
  }

  ghost predicate PairPrecedes(a: (string, string), b: (string, string))
  {
    Precedes(a.0, b.0) || (a.0 == b.0 && Precedes(a.1, b.1))
  }

  lemma {:induction false} LePrecedes(a: string, b: string)
    requires StringLe(a, b) && a != b
    ensures Precedes(a, b)
    decreases |a|
  {
    if a == [] {
      assert PrecedesAt(a, b, 0);
    } else if a[0] == b[0] {
      assert a == [a[0]] + a[1..] && b == [b[0]] + b[1..];
      LePrecedes(a[1..], b[1..]);
      var i :| 0 <= i <= |a[1..]| && PrecedesAt(a[1..], b[1..], i);
      assert a[..i + 1] == [a[0]] + a[1..][..i] && b[..i + 1] == [b[0]] + b[1..][..i];
      assert PrecedesAt(a, b, i + 1);
    } else {
      assert PrecedesAt(a, b, 0);
    }
  }

  /** The iteration orders of the source's BTreeMaps. */
  function SortedStrings(s: set<string>): (r: seq<string>)
    ensures Distinct(r) && forall x :: x in r <==> x in s
  {
    StringLeIsTotal();
    Ascending(s, StringLe)
  }

  lemma {:induction false} SortedStringsAscend(s: set<string>)
    ensures var r := SortedStrings(s); forall i, j | 0 <= i < j < |r| :: Precedes(r[i], r[j])
  {
    StringLeIsTotal();
    AllPrecede(Ascending(s, StringLe));
  }

  lemma {:induction false} AllPrecede(r: seq<string>)
    requires Distinct(r) && forall i, j | 0 <= i < j < |r| :: StringLe(r[i], r[j])
    ensures forall i, j | 0 <= i < j < |r| :: Precedes(r[i], r[j])
  {
    forall i, j | 0 <= i < j < |r| ensures Precedes(r[i], r[j]) {
      LePrecedes(r[i], r[j]);
    }
  }

  function SortedPairs(s: set<(string, string)>): (r: seq<(string, string)>)
    ensures Distinct(r) && forall x :: x in r <==> x in s
    ensures forall i, j | 0 <= i < j < |r| :: PairPrecedes(r[i], r[j])
  {
    PairLeIsTotal();
    var r := Ascending(s, PairLe);
    AllPairsPrecede(r);
    r
  }

  lemma {:induction false} AllPairsPrecede(r: seq<(string, string)>)
    requires Distinct(r) && forall i, j | 0 <= i < j < |r| :: PairLe(r[i], r[j])
    ensures forall i, j | 0 <= i < j < |r| :: PairPrecedes(r[i], r[j])
  {
    forall i, j | 0 <= i < j < |r| ensures PairPrecedes(r[i], r[j]) {
      assert r[i] != r[j] && PairLe(r[i], r[j]);
      if r[i].0 == r[j].0 {
        LePrecedes(r[i].1, r[j].1);
      } else {
        LePrecedes(r[i].0, r[j].0);
      }
    }
  }

  /** Nothing precedes itself or what it precedes. */
  lemma {:induction false} PrecedesOneWay(a: string, b: string)
    requires Precedes(a, b)
    ensures !Precedes(b, a) && a != b
  {
    var i :| 0 <= i <= |a| && PrecedesAt(a, b, i);
    assert a != b by {
      if i < |a| {
        assert a[i] != b[i];
      }
    }
    forall j | 0 <= j <= |b| ensures !PrecedesAt(b, a, j) {
      if j < |a| && a[..j] == b[..j] {
        if j < i {
          assert a[j] == a[..i][j] == b[..i][j] == b[j];
        }
      }
    }
  }

  lemma {:induction false} PairPrecedesOneWay(a: (string, string), b: (string, string))
    requires PairPrecedes(a, b)
    ensures !PairPrecedes(b, a) && a != b
  {
    if Precedes(a.0, b.0) {
      PrecedesOneWay(a.0, b.0);
    } else {
      PrecedesOneWay(a.1, b.1);
      if Precedes(b.0, a.0) {
        PrecedesOneWay(b.0, a.0);
      }
    }
  }
}
