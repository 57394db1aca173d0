/** The streaming minimum and maximum of a column (src/write/aggregate.rs:40-280). */
module Aggregate {
  import opened Wrappers
  import opened Machine
  import opened Arrow
  import opened Convert
  import Decimal
  import TypeSafety
  import JsonMeaning
  import Readability

  datatype Extremum = Min | Max

  predicate IntLt(a: int, b: int) { a < b }

  /** IEEE order: a NaN compares with nothing, zeros are equal. */
  predicate FloatLt(a: Float, b: Float) {
    match (a, b)
    case (NaN, _) => false
    case (_, NaN) => false
    case (Inf(m), Inf(n)) => m && !n
    case (Inf(m), Finite(_, _)) => m
    case (Finite(_, _), Inf(n)) => !n
    case (Finite(x, _), Finite(y, _)) => x < y
  }

  predicate Beats<T>(lt: (T, T) -> bool, op: Extremum, a: T, b: T) {
    if op.Min? then lt(a, b) else lt(b, a)
  }

  predicate ShouldReplace<T>(lt: (T, T) -> bool, current: Option<T>, candidate: T, op: Extremum) {
    current.None? || Beats(lt, op, candidate, current.value)
  }

  /** What is kept after `xs`. */
  function Kept<T>(lt: (T, T) -> bool, op: Extremum, current: Option<T>, xs: seq<T>): Option<T>
    decreases |xs|
  {
    if xs == [] then current
    else
      var before, x := Kept(lt, op, current, xs[..|xs| - 1]), xs[|xs| - 1];
      if ShouldReplace(lt, before, x, op) then Some(x) else before
  }

  /** The values of an array that are not null. */
  function NonNull<T>(array_: seq<Option<T>>): seq<T>
    decreases |array_|
  {
    if array_ == [] then []
    else
      var before, x := NonNull(array_[..|array_| - 1]), array_[|array_| - 1];
      if x.Some? then before + [x.value] else before
  }

  /** The values of a float array that are neither null nor NaN. */
  function Numbers(array_: seq<Option<Float>>): seq<Float>
    decreases |array_|
  {
    if array_ == [] then []
    else
      var before, x := Numbers(array_[..|array_| - 1]), array_[|array_| - 1];
      if x.Some? && !x.value.NaN? then before + [x.value] else before
  }

  method UpdateOrd(current0: Option<int>, array_: seq<Option<int>>, op: Extremum) returns (current: Option<int>)
    ensures current == Kept(IntLt, op, current0, NonNull(array_))
  {
    current := current0;
    for row := 0 to |array_|
      invariant current == Kept(IntLt, op, current0, NonNull(array_[..row]))
    {
      assert array_[..row + 1][..row] == array_[..row];
      if array_[row].None? {
        continue;
      }
      var value := array_[row].value;
      if ShouldReplace(IntLt, current, value, op) {
        current := Some(value);
      }
    }
    assert array_[..|array_|] == array_;
  }

  method UpdateFloat(current0: Option<Float>, array_: seq<Option<Float>>, op: Extremum) returns (current: Option<Float>)
    ensures current == Kept(FloatLt, op, current0, Numbers(array_))
  {
    current := current0;
    for row := 0 to |array_|
      invariant current == Kept(FloatLt, op, current0, Numbers(array_[..row]))
    {
      assert array_[..row + 1][..row] == array_[..row];
      if array_[row].None? {
        continue;
      }
      var value := array_[row].value;
      if value.NaN? {
        continue;
      }
      if ShouldReplace(FloatLt, current, value, op) {
        current := Some(value);
      }
    }
    assert array_[..|array_|] == array_;
  }

  // ----- the state over a stream of batches -----

  datatype Column = Ord(ints: seq<Option<int>>) | Floats(floats: seq<Option<Float>>)

  predicate IsFloat(kind: Primitive) { kind.Float32? || kind.Float64? }

  predicate Supported(kind: Primitive) {
    IsFloat(kind) || kind.Date32? || kind.Date64? || kind.Timestamp? || kind.Decimal128?
    || kind.Int8? || kind.Int16? || kind.Int32? || kind.Int64? || kind.UInt8? || kind.UInt16? || kind.UInt32? ||
      kind.UInt64?
  }

  ghost predicate Fits(kind: Primitive, c: Column)
  {
    if IsFloat(kind) then c.Floats? else c.Ord?
  }

  predicate AllOrd(batches: seq<Column>) { forall i | 0 <= i < |batches| :: batches[i].Ord? }

  predicate AllFloats(batches: seq<Column>) { forall i | 0 <= i < |batches| :: batches[i].Floats? }

  /** All non-null integers of the batches. */
  function Ints(batches: seq<Column>): seq<int>
    requires AllOrd(batches)
    decreases |batches|
  {
    if batches == [] then [] else Ints(batches[..|batches| - 1]) + NonNull(batches[|batches| - 1].ints)
  }

  /** All floats of the batches that are neither null nor NaN. */
  function Reals(batches: seq<Column>): seq<Float>
    requires AllFloats(batches)
    decreases |batches|
  {
    if batches == [] then [] else Reals(batches[..|batches| - 1]) + Numbers(batches[|batches| - 1].floats)
  }

  class ExtremumState {
    const kind: Primitive
    var ord: Option<int>
    var flt: Option<Float>

    constructor (kind: Primitive)
      ensures this.kind == kind && ord == None && flt == None
    {
      this.kind := kind;
      ord := None;
      flt := None;
    }

    method Update(column: Column, op: Extremum)
      requires Fits(kind, column)
      modifies this
      ensures IsFloat(kind) ==> flt == Kept(FloatLt, op, old(flt), Numbers(column.floats)) && ord == old(ord)
      ensures !IsFloat(kind) ==> ord == Kept(IntLt, op, old(ord), NonNull(column.ints)) && flt == old(flt)
    {
      if IsFloat(kind) {
        flt := UpdateFloat(flt, column.floats, op);
      } else {
        ord := UpdateOrd(ord, column.ints, op);
      }
    }

    /** The answer, if there is a value and the calendar can express it. */
    method Finish(formats: int -> bool) returns (r: Result<Option<Answer>, string>)
      requires UsableScale(kind)
      ensures IsFloat(kind) ==> r == Ok(if flt.Some? then Some(FloatAnswer(flt.value)) else None)
      ensures !IsFloat(kind) && ord.None? ==> r == Ok(None)
      ensures !IsFloat(kind) && ord.Some? ==> Answers(kind, formats, ord.value, r)
    {
      if IsFloat(kind) {
        return Ok(if flt.Some? then Some(FloatAnswer(flt.value)) else None);
      }
      if ord.None? {
        return Ok(None);
      }
      if OnCalendar(kind) && !formats(ord.value) {
        return Err("value out of range");
      }
      return Ok(Some(AnswerOf(kind, ord.value)));
    }
  }

  /** What is printed: dates as days since 1970-01-01, timestamps as microseconds since then. */
  datatype Answer =
    | IntAnswer(i: int)
    | FloatAnswer(f: Float)
    | DayAnswer(unixDays: int)
    | InstantAnswer(unixMicros: int)
    | DecimalAnswer(text: string)

  predicate OnCalendar(kind: Primitive) { kind.Date32? || kind.Date64? || kind.Timestamp? }

  /** Scales are signed bytes; -128 has no negation. */
  predicate UsableScale(kind: Primitive) { kind.Decimal128? ==> -128 < kind.scale <= 127 }

  /** What `finish` makes of a stored value, before it is printed. */
  function Finished(kind: Primitive): int -> int {
    if kind.Timestamp? then x => UnixMicros(kind.unit, x)
    else if kind.Date64? then x => x / MILLIS_PER_DAY
    else x => x
  }

  function AnswerOf(kind: Primitive, x: int): Answer {
    var y := Finished(kind)(x);
    if kind.Timestamp? then InstantAnswer(y)
    else if kind.Date32? || kind.Date64? then DayAnswer(y)
    else if kind.Decimal128? then DecimalAnswer(Decimal.Printed(y, kind.scale))
    else IntAnswer(y)
  }

  /** `r` is the answer for the stored value `x`, or an error where the calendar ends. */
  ghost predicate Answers(kind: Primitive, formats: int -> bool, x: int, r: Result<Option<Answer>, string>)
  {
    if OnCalendar(kind) && !formats(x) then r.Err? else r == Ok(Some(AnswerOf(kind, x)))
  }

  lemma {:induction false} KeptAppend<T>(lt: (T, T) -> bool, op: Extremum, current: Option<T>, a: seq<T>, b: seq<T>)
    ensures Kept(lt, op, current, a + b) == Kept(lt, op, Kept(lt, op, current, a), b)
    decreases |b|
  {
    if b == [] {
      assert a + b == a;
    } else {
      KeptAppend(lt, op, current, a, b[..|b| - 1]);
      assert a + b == (a + b[..|b| - 1]) + [b[|b| - 1]];
    }
  }

  /** `b` is the first of the elements of `xs` that nothing beats. */
  ghost predicate IsFirstBest<T>(lt: (T, T) -> bool, op: Extremum, xs: seq<T>, b: T)
  {
    exists i :: 0 <= i < |xs| && xs[i] == b && BestAt(lt, op, xs, i)
  }

  ghost predicate BestAt<T>(lt: (T, T) -> bool, op: Extremum, xs: seq<T>, i: nat)
    requires i < |xs|
  {
    && (forall j | 0 <= j < |xs| :: !Beats(lt, op, xs[j], xs[i]))
    && (forall j | 0 <= j < i :: Beats(lt, op, xs[i], xs[j]))
  }

  /** A strict order in which being unordered is transitive. */
  ghost predicate StrictWeak<T>(lt: (T, T) -> bool, xs: seq<T>)
  {
    && (forall i | 0 <= i < |xs| :: !lt(xs[i], xs[i]))
    && (forall i, j, k | 0 <= i < |xs| && 0 <= j < |xs| && 0 <= k < |xs| :: lt(xs[i], xs[j]) && lt(xs[j], xs[k]) ==>
      lt(xs[i], xs[k]))
    && (forall i, j, k | 0 <= i < |xs| && 0 <= j < |xs| && 0 <= k < |xs| :: lt(xs[i], xs[k]) ==>
      lt(xs[i], xs[j]) || lt(xs[j], xs[k]))
  }

  lemma {:induction false} KeptIsFirstBest<T>(lt: (T, T) -> bool, op: Extremum, xs: seq<T>)
    requires StrictWeak(lt, xs)
    ensures var r := Kept(lt, op, None, xs);
            (r.None? <==> xs == []) && (r.Some? ==> IsFirstBest(lt, op, xs, r.value))
    decreases |xs|
  {
    if xs != [] {
      var before, x := xs[..|xs| - 1], xs[|xs| - 1];
      KeptIsFirstBest(lt, op, before);
      var r := Kept(lt, op, None, before);
      if r.None? {
        assert BestAt(lt, op, xs, |xs| - 1);
      } else {
        var i :| 0 <= i < |before| && before[i] == r.value && BestAt(lt, op, before, i);
        BestStep(lt, op, xs, i);
      }
    }
  }

  lemma {:induction false} BestStep<T>(lt: (T, T) -> bool, op: Extremum, xs: seq<T>, i: nat)
    requires StrictWeak(lt, xs) && i < |xs| - 1 && BestAt(lt, op, xs[..|xs| - 1], i)
    ensures BestAt(lt, op, xs, if Beats(lt, op, xs[|xs| - 1], xs[i]) then |xs| - 1 else i)
  {
    var before, n := xs[..|xs| - 1], |xs| - 1;
    if Beats(lt, op, xs[n], xs[i]) {
      forall j | 0 <= j < n ensures Beats(lt, op, xs[n], xs[j]) && !Beats(lt, op, xs[j], xs[n]) {
        assert before[j] == xs[j] && !Beats(lt, op, before[j], before[i]);
      }
    } else {
      forall j | 0 <= j < |xs| ensures !Beats(lt, op, xs[j], xs[i]) {
        if j < n {
          assert before[j] == xs[j];
        }
      }
      forall j | 0 <= j < i ensures Beats(lt, op, xs[i], xs[j]) {
        assert before[j] == xs[j];
      }
    }
  }

  lemma {:induction false} FirstBestIsUnique<T>(lt: (T, T) -> bool, op: Extremum, xs: seq<T>, a: T, b: T)
    requires IsFirstBest(lt, op, xs, a) && IsFirstBest(lt, op, xs, b)
    ensures a == b
  {
    var i :| 0 <= i < |xs| && xs[i] == a && BestAt(lt, op, xs, i);
    var j :| 0 <= j < |xs| && xs[j] == b && BestAt(lt, op, xs, j);
    assert i == j;
  }

  lemma {:induction false} FloatsAreOrdered(xs: seq<Float>)
    requires forall i | 0 <= i < |xs| :: !xs[i].NaN?
    ensures StrictWeak(FloatLt, xs)
  {
  }

  lemma {:induction false} NumbersAreNumbers(array_: seq<Option<Float>>)
    ensures forall i | 0 <= i < |Numbers(array_)| :: !Numbers(array_)[i].NaN?
    decreases |array_|
  {
    if array_ != [] {
      NumbersAreNumbers(array_[..|array_| - 1]);
    }
  }

  lemma {:induction false} RealsAreNumbers(batches: seq<Column>)
    requires AllFloats(batches)
    ensures forall i | 0 <= i < |Reals(batches)| :: !Reals(batches)[i].NaN?
    decreases |batches|
  {
    if batches != [] {
      RealsAreNumbers(batches[..|batches| - 1]);
      NumbersAreNumbers(batches[|batches| - 1].floats);
    }
  }

  /** `b` is among `xs` and nothing beats it: what min or max over `xs` yields. */
  ghost predicate IsBest(op: Extremum, xs: seq<int>, b: int)
  {
    b in xs && forall i | 0 <= i < |xs| :: !Beats(IntLt, op, xs[i], b)
  }

  function Converted(f: int -> int, xs: seq<int>): seq<int> {
    seq(|xs|, i requires 0 <= i < |xs| => f(xs[i]))
  }

  ghost predicate Monotone(f: int -> int, xs: seq<int>)
  {
    forall i, j | 0 <= i < |xs| && 0 <= j < |xs| && xs[i] <= xs[j] :: f(xs[i]) <= f(xs[j])
  }

  /** Converting the extremum is taking the extremum of the converted values. */
  lemma {:induction false} ExtremumCommutes(f: int -> int, op: Extremum, xs: seq<int>, b: int)
    requires IsBest(op, xs, b) && Monotone(f, xs)
    ensures IsBest(op, Converted(f, xs), f(b))
  {
    var k :| 0 <= k < |xs| && xs[k] == b;
    var ys := Converted(f, xs);
    assert ys[k] == f(b);
    forall i | 0 <= i < |ys| ensures !Beats(IntLt, op, ys[i], f(b)) {
      assert !Beats(IntLt, op, xs[i], b);
      assert if op.Min? then f(xs[k]) <= f(xs[i]) else f(xs[i]) <= f(xs[k]);
    }
  }

  lemma {:induction false} BestIsUnique(op: Extremum, xs: seq<int>, a: int, b: int)
    requires IsBest(op, xs, a) && IsBest(op, xs, b)
    ensures a == b
  {
    var i, j :| 0 <= i < |xs| && 0 <= j < |xs| && xs[i] == a && xs[j] == b;
    assert !Beats(IntLt, op, xs[i], b) && !Beats(IntLt, op, xs[j], a);
  }

  /** Saturating, truncating and taking whole days do not disturb the order. */
  lemma {:induction false} FinishedIsMonotone(kind: Primitive, xs: seq<int>)
    ensures Monotone(Finished(kind), xs)
  {
    forall i, j | 0 <= i < |xs| && 0 <= j < |xs| && xs[i] <= xs[j]
      ensures Finished(kind)(xs[i]) <= Finished(kind)(xs[j])
    {
      TruncOrdered(xs[i], xs[j]);
    }
  }

  lemma {:induction false} TruncOrdered(x: int, y: int)
    requires x <= y
    ensures TruncDiv(x, 1_000) <= TruncDiv(y, 1_000)
  {
  }

  /** The finished extremum of a column of integers, dates, timestamps or decimals is the
      extremum of its finished values. */
  lemma {:induction false} DirectAgrees(kind: Primitive, op: Extremum, xs: seq<int>, b: int)
    requires IsFirstBest(IntLt, op, xs, b)
    ensures IsBest(op, xs, b)
    ensures IsBest(op, Converted(Finished(kind), xs), Finished(kind)(b))
  {
    FinishedIsMonotone(kind, xs);
    ExtremumCommutes(Finished(kind), op, xs, b);
  }

  /** The value whose answer a run gives: the first extremal one, whose finished form is the
      extremum of all finished forms. */
  ghost predicate IsAnswered(kind: Primitive, op: Extremum, xs: seq<int>, b: int)
  {
    IsFirstBest(IntLt, op, xs, b) && IsBest(op, Converted(Finished(kind), xs), Finished(kind)(b))
  }

  /** The loop over the stream of batches. */
  method Stream(state: ExtremumState, batches: seq<Column>, op: Extremum)
    requires if IsFloat(state.kind) then AllFloats(batches) else AllOrd(batches)
    requires state.ord.None? && state.flt.None?
    modifies state
    ensures IsFloat(state.kind) ==> state.flt == Kept(FloatLt, op, None, Reals(batches))
    ensures !IsFloat(state.kind) ==> state.ord == Kept(IntLt, op, None, Ints(batches))
  {
    for i := 0 to |batches|
      invariant IsFloat(state.kind) ==> state.flt == Kept(FloatLt, op, None, Reals(batches[..i]))
      invariant !IsFloat(state.kind) ==> state.ord == Kept(IntLt, op, None, Ints(batches[..i]))
    {
      assert batches[..i + 1][..i] == batches[..i];
      state.Update(batches[i], op);
      if IsFloat(state.kind) {
        KeptAppend(FloatLt, op, None, Reals(batches[..i]), Numbers(batches[i].floats));
      } else {
        KeptAppend(IntLt, op, None, Ints(batches[..i]), NonNull(batches[i].ints));
      }
    }
    assert batches[..|batches|] == batches;
  }

  // ----- the answer by the numbers -----

  ghost predicate HoldsInt(batches: seq<Column>, x: int)
    requires AllOrd(batches)
  {
    exists i :: 0 <= i < |batches| && Some(x) in batches[i].ints
  }

  ghost predicate HoldsFloat(batches: seq<Column>, x: Float)
    requires AllFloats(batches)
  {
    exists i :: 0 <= i < |batches| && Some(x) in batches[i].floats
  }

  /** `b` is one of the integers, and none is smaller, or none is larger. */
  ghost predicate IntExtremum(op: Extremum, batches: seq<Column>, b: int)
    requires AllOrd(batches)
  {
    HoldsInt(batches, b) && forall x | HoldsInt(batches, x) :: if op.Min? then b <= x else x <= b
  }

  /** `x` lies below `b` as a number: negative infinity below all else, positive infinity above. */
  predicate Below(x: Float, b: Float) {
    match x
    case NaN => false
    case Inf(negative) => negative && (b.Finite? || b == Inf(false))
    case Finite(value, _) => (b.Finite? && value < b.value) || b == Inf(false)
  }

  /** `b` is one of the numbers that are neither null nor NaN, and none of them is below it, or above. */
  ghost predicate FloatExtremum(op: Extremum, batches: seq<Column>, b: Float)
    requires AllFloats(batches)
  {
    && HoldsFloat(batches, b) && !b.NaN?
    && forall x | HoldsFloat(batches, x) && !x.NaN? :: if op.Min? then !Below(x, b) else !Below(b, x)
  }

  lemma {:induction false} NonNullHas(array_: seq<Option<int>>, x: int)
    ensures x in NonNull(array_) <==> Some(x) in array_
    decreases |array_|
  {
    if array_ != [] {
      NonNullHas(array_[..|array_| - 1], x);
      assert array_ == array_[..|array_| - 1] + [array_[|array_| - 1]];
    }
  }

  lemma {:induction false} NumbersHave(array_: seq<Option<Float>>, x: Float)
    ensures x in Numbers(array_) <==> Some(x) in array_ && !x.NaN?
    decreases |array_|
  {
    if array_ != [] {
      NumbersHave(array_[..|array_| - 1], x);
      assert array_ == array_[..|array_| - 1] + [array_[|array_| - 1]];
    }
  }

  lemma {:induction false} IntsHave(batches: seq<Column>, x: int)
    requires AllOrd(batches)
    ensures x in Ints(batches) <==> HoldsInt(batches, x)
    decreases |batches|
  {
    if batches != [] {
      var before, last := batches[..|batches| - 1], batches[|batches| - 1];
      IntsHave(before, x);
      NonNullHas(last.ints, x);
      if i :| 0 <= i < |before| && Some(x) in before[i].ints {
        assert Some(x) in batches[i].ints;
      }
      assert last == batches[|batches| - 1];
      if i :| 0 <= i < |batches| && Some(x) in batches[i].ints {
        assert i < |before| ==> Some(x) in before[i].ints;
      }
    }
  }

  lemma {:induction false} RealsHave(batches: seq<Column>, x: Float)
    requires AllFloats(batches)
    ensures x in Reals(batches) <==> HoldsFloat(batches, x) && !x.NaN?
    decreases |batches|
  {
    if batches != [] {
      var before, last := batches[..|batches| - 1], batches[|batches| - 1];
      RealsHave(before, x);
      NumbersHave(last.floats, x);
      if i :| 0 <= i < |before| && Some(x) in before[i].floats {
        assert Some(x) in batches[i].floats;
      }
      assert last == batches[|batches| - 1];
      if i :| 0 <= i < |batches| && Some(x) in batches[i].floats {
        assert i < |before| ==> Some(x) in before[i].floats;
      }
    }
  }

  lemma {:induction false} FirstIsIntExtremum(op: Extremum, batches: seq<Column>, b: int)
    requires AllOrd(batches) && IsFirstBest(IntLt, op, Ints(batches), b)
    ensures IntExtremum(op, batches, b)
  {
    var xs := Ints(batches);
    var i :| 0 <= i < |xs| && xs[i] == b && BestAt(IntLt, op, xs, i);
    IntsHave(batches, b);
    forall x | HoldsInt(batches, x) ensures if op.Min? then b <= x else x <= b {
      IntsHave(batches, x);
      var j :| 0 <= j < |xs| && xs[j] == x;
      assert !Beats(IntLt, op, xs[j], xs[i]);
    }
  }

  lemma {:induction false} FirstIsFloatExtremum(op: Extremum, batches: seq<Column>, b: Float)
    requires AllFloats(batches) && IsFirstBest(FloatLt, op, Reals(batches), b)
    ensures FloatExtremum(op, batches, b)
  {
    var xs := Reals(batches);
    var i :| 0 <= i < |xs| && xs[i] == b && BestAt(FloatLt, op, xs, i);
    RealsHave(batches, b);
    forall x | HoldsFloat(batches, x) && !x.NaN? ensures if op.Min? then !Below(x, b) else !Below(b, x) {
      RealsHave(batches, x);
      var j :| 0 <= j < |xs| && xs[j] == x;
      assert !Beats(FloatLt, op, xs[j], xs[i]);
    }
  }

  /** What is printed for the stored value `x`: integers as they are, dates as the day they lie in,
      timestamps as microseconds since 1970, cut towards zero and held within 64 bits, and decimals as a
      text that denotes them exactly. */
  ghost predicate PrintedAs(kind: Primitive, x: int, a: Answer)
    requires UsableScale(kind)
  {
    match kind
    case Date32 => a == DayAnswer(x)
    case Date64 => a.DayAnswer? && a.unixDays * 86_400_000 <= x < (a.unixDays + 1) * 86_400_000
    case Timestamp(unit, _) => a.InstantAnswer? && Readability.IsUnixMicros(unit, x, a.unixMicros)
    case Decimal128(_, scale) =>
      && a.DecimalAnswer?
      && Decimal.Read(a.text) ==
         Some(if scale > 0 then Decimal.Number(x, scale) else Decimal.Number(x * Decimal.Pow10(-scale), 0))
    case _ => a == IntAnswer(x)
  }

  lemma {:induction false} AnswerIsPrinted(kind: Primitive, x: int)
    requires UsableScale(kind) && JsonMeaning.PrimTyped(kind, Int(x))
    ensures PrintedAs(kind, x, AnswerOf(kind, x))
  {
    match kind
    case Timestamp(unit, _) => Readability.UnixMicrosIs(unit, x);
    case Decimal128(_, scale) => Decimal.PrintingIsExact(x, scale);
    case _ =>
  }

  /** All columns but these have extrema. */
  lemma {:induction false} SupportedIff(kind: Primitive)
    ensures Supported(kind) <==>
            !(kind.Boolean? || kind.Float16? || kind.Utf8? || kind.LargeUtf8? || kind.Binary? || kind.LargeBinary?
              || kind.FixedSizeBinary? || kind.Decimal256?)
  {
  }

  /** The answer is what is printed for one of the values, none of which is smaller, or larger; there is
      none exactly for a column without values, and an error only where the calendar ends. */
  ghost predicate IntAnswered(kind: Primitive, formats: int -> bool, batches: seq<Column>, op: Extremum,
                              r: Result<Option<Answer>, string>)
    requires AllOrd(batches) && UsableScale(kind)
  {
    if forall x :: !HoldsInt(batches, x) then r == Ok(None)
    else exists b :: IntExtremum(op, batches, b) && IntAnswerFor(kind, formats, b, r)
  }

  ghost predicate IntAnswerFor(kind: Primitive, formats: int -> bool, b: int, r: Result<Option<Answer>, string>)
    requires UsableScale(kind)
  {
    if (kind.Date32? || kind.Date64? || kind.Timestamp?) && !formats(b) then r.Err?
    else r.Ok? && r.value.Some? && (JsonMeaning.PrimTyped(kind, Int(b)) ==> PrintedAs(kind, b, r.value.value))
  }

  ghost predicate FloatAnswered(batches: seq<Column>, op: Extremum, r: Result<Option<Answer>, string>)
    requires AllFloats(batches)
  {
    if forall x | HoldsFloat(batches, x) :: x.NaN? then r == Ok(None)
    else exists b :: FloatExtremum(op, batches, b) && r == Ok(Some(FloatAnswer(b)))
  }

  /** The whole scan of a column: the answer is that of the first extremal value among all
      non-null (and non-NaN) values, however they are batched, and NULL exactly when there
      are none. */
  method LanceExtremum(kind: Primitive, formats: int -> bool, batches: seq<Column>, op: Extremum)
    returns (r: Result<Option<Answer>, string>)
    requires if IsFloat(kind) then AllFloats(batches) else AllOrd(batches)
    requires UsableScale(kind)
    ensures !Supported(kind) ==> r.Err?
    ensures Supported(kind) && IsFloat(kind) ==>
              && FloatAnswered(batches, op, r)
              && if Reals(batches) == [] then r == Ok(None)
                 else exists b :: IsFirstBest(FloatLt, op, Reals(batches), b) && r == Ok(Some(FloatAnswer(b)))
    ensures Supported(kind) && !IsFloat(kind) ==>
              && IntAnswered(kind, formats, batches, op, r)
              && if Ints(batches) == [] then r == Ok(None)
                 else exists b :: IsAnswered(kind, op, Ints(batches), b) && Answers(kind, formats, b, r)
  {
    if !Supported(kind) {
      return Err("unsupported column type");
    }
    var state := new ExtremumState(kind);
    Stream(state, batches, op);
    if IsFloat(kind) {
      RealsAreNumbers(batches);
      FloatsAreOrdered(Reals(batches));
      KeptIsFirstBest(FloatLt, op, Reals(batches));
    } else {
      KeptIsFirstBest(IntLt, op, Ints(batches));
      if state.ord.Some? {
        DirectAgrees(kind, op, Ints(batches), state.ord.value);
      }
    }
    r := state.Finish(formats);
    if IsFloat(kind) {
      FloatsAnswered(batches, op, state.flt, r);
    } else {
      IntsAnswered(kind, formats, batches, op, state.ord, r);
    }
  }

  lemma {:induction false} FloatsAnswered(batches: seq<Column>, op: Extremum, kept: Option<Float>,
                                          r: Result<Option<Answer>, string>)
    requires AllFloats(batches) && (kept.None? <==> Reals(batches) == [])
    requires kept.Some? ==> IsFirstBest(FloatLt, op, Reals(batches), kept.value)
    requires r == Ok(if kept.Some? then Some(FloatAnswer(kept.value)) else None)
    ensures FloatAnswered(batches, op, r)
  {
    if kept.Some? {
      FirstIsFloatExtremum(op, batches, kept.value);
    } else {
      forall x | HoldsFloat(batches, x) ensures x.NaN? {
        RealsHave(batches, x);
      }
    }
  }

  lemma {:induction false} IntsAnswered(kind: Primitive, formats: int -> bool, batches: seq<Column>, op: Extremum,
                                        kept: Option<int>, r: Result<Option<Answer>, string>)
    requires AllOrd(batches) && UsableScale(kind) && (kept.None? <==> Ints(batches) == [])
    requires kept.Some? ==> IsFirstBest(IntLt, op, Ints(batches), kept.value) && Answers(kind, formats, kept.value, r)
    requires kept.None? ==> r == Ok(None)
    ensures IntAnswered(kind, formats, batches, op, r)
  {
    if kept.Some? {
      var b := kept.value;
      FirstIsIntExtremum(op, batches, b);
      if JsonMeaning.PrimTyped(kind, Int(b)) {
        AnswerIsPrinted(kind, b);
      }
      assert IntAnswerFor(kind, formats, b, r);
    } else {
      forall x ensures !HoldsInt(batches, x) {
        IntsHave(batches, x);
      }
    }
  }

  // ----- against the cells that a scan shows -----

  predicate IsOrd(kind: Primitive) { Supported(kind) && !IsFloat(kind) }

  /** What a scan makes of a value of the column. */
  function ShownCell(lim: Limits, kind: Primitive, x: int): Result<Cell, ErrorKind> {
    ToCell(lim, Prim(kind), Int(x), Base(RequiredBase(kind)))
  }

  /** The number by which cells of one column compare: an integer, days since 1970, microseconds since
      2000, or the digits of a decimal. */
  function Key(c: Cell): int {
    match c
    case DInt(_, i) => i
    case DDate(days) => days
    case DTimestamp(_, micros) => micros
    case DNumeric(unscaled, _) => unscaled
    case _ => 0
  }

  /** The reader has room for the value. */
  predicate ScanHas(lim: Limits, kind: Primitive, x: int) {
    match kind
    case UInt64 => x <= I64_MAX
    case Date32 => Within(x, lim.chronoDays) && Within(x, lim.pgDays)
    case Date64 => Within(x, lim.chronoMillis) && Within(x / MILLIS_PER_DAY, lim.pgDays)
    case Timestamp(unit, _) => Within(PgMicros(unit, x), lim.pgMicros)
    case _ => true
  }

  /** The unchecked shift of a timestamp wraps. */
  predicate Wraps(kind: Primitive, x: int) { kind.Timestamp? && TypeSafety.Wraps(kind.unit, x) }

  predicate SomeWrap(kind: Primitive, xs: seq<int>) { exists i :: 0 <= i < |xs| && Wraps(kind, xs[i]) }

  predicate SomeFit(kind: Primitive, xs: seq<int>) { exists i :: 0 <= i < |xs| && !Wraps(kind, xs[i]) }

  /** The values of a column of integers, dates, timestamps or decimals. */
  ghost predicate Holds(kind: Primitive, xs: seq<int>)
  {
    IsOrd(kind) && forall i | 0 <= i < |xs| :: JsonMeaning.PrimTyped(kind, Int(xs[i]))
  }

  /** A scan of the column yields a cell for every value. */
  ghost predicate Scans(lim: Limits, kind: Primitive, xs: seq<int>)
  {
    forall i | 0 <= i < |xs| :: ShownCell(lim, kind, xs[i]).Ok?
  }

  ghost function ShownKeys(lim: Limits, kind: Primitive, xs: seq<int>): seq<int>
    requires Scans(lim, kind, xs)
  {
    seq(|xs|, i requires 0 <= i < |xs| => Key(ShownCell(lim, kind, xs[i]).value))
  }

  lemma {:induction false} CellIsShownIff(lim: Limits, kind: Primitive, x: int)
    requires IsOrd(kind)
    ensures ShownCell(lim, kind, x).Ok? <==> ScanHas(lim, kind, x)
  {
  }

  /** A scan yields its cells exactly when the reader has room for every value. */
  lemma {:induction false} ScansIff(lim: Limits, kind: Primitive, xs: seq<int>)
    requires IsOrd(kind)
    ensures Scans(lim, kind, xs) <==> forall i | 0 <= i < |xs| :: ScanHas(lim, kind, xs[i])
  {
    forall i | 0 <= i < |xs| ensures ShownCell(lim, kind, xs[i]).Ok? <==> ScanHas(lim, kind, xs[i]) {
      CellIsShownIff(lim, kind, xs[i]);
    }
  }

  /** The key of the direct answer: the printed value, instants counted from 2000. */
  function PrintedKey(kind: Primitive, b: int): int {
    Finished(kind)(b) - (if kind.Timestamp? then EPOCH_MICROS else 0)
  }

  /** The key is the number in the printed answer, shifted by the 946,684,800 seconds between the epochs for
      instants; a decimal has its unscaled value as key. */
  lemma {:induction false} PrintedKeyIsPrinted(kind: Primitive, b: int)
    requires IsOrd(kind) && UsableScale(kind) && JsonMeaning.PrimTyped(kind, Int(b))
    ensures PrintedAs(kind, b, AnswerOf(kind, b))
    ensures match AnswerOf(kind, b)
            case IntAnswer(i) => PrintedKey(kind, b) == i
            case DayAnswer(d) => PrintedKey(kind, b) == d
            case InstantAnswer(m) => PrintedKey(kind, b) == m - 946_684_800_000_000
            case DecimalAnswer(_) => PrintedKey(kind, b) == b
            case FloatAnswer(_) => false
  {
    AnswerIsPrinted(kind, b);
  }

  /** A cell has the key that the direct answer for its value would have, unless the shift wraps. */
  lemma {:induction false} ShownKey(lim: Limits, kind: Primitive, x: int)
    requires IsOrd(kind) && JsonMeaning.PrimTyped(kind, Int(x)) && ShownCell(lim, kind, x).Ok?
    ensures Key(ShownCell(lim, kind, x).value) == PrintedKey(kind, x) + (if Wraps(kind, x) then TWO_64 else 0)
    ensures kind.Timestamp? ==> InI64(Finished(kind)(x))
  {
    match kind
    case Timestamp(unit, _) => TypeSafety.ShiftedMicros(unit, x);
    case _ =>
  }

  lemma {:induction false} KeysAt(lim: Limits, kind: Primitive, xs: seq<int>)
    requires Holds(kind, xs) && Scans(lim, kind, xs)
    ensures forall i | 0 <= i < |xs| ::
              ShownKeys(lim, kind, xs)[i] == PrintedKey(kind, xs[i]) + (if Wraps(kind, xs[i]) then TWO_64 else 0)
    ensures kind.Timestamp? ==> forall i | 0 <= i < |xs| :: InI64(Finished(kind)(xs[i]))
  {
    forall i | 0 <= i < |xs|
      ensures ShownKeys(lim, kind, xs)[i] == PrintedKey(kind, xs[i]) + (if Wraps(kind, xs[i]) then TWO_64 else 0)
      ensures kind.Timestamp? ==> InI64(Finished(kind)(xs[i]))
    {
      ShownKey(lim, kind, xs[i]);
    }
  }

  /** Where a scan of the column yields its cells, the value that the direct extremum prints is the
      extremum of the cells exactly when the scan wraps none of the values; for integers, dates and
      decimals it always is. */
  lemma {:induction false} AgreesWithScanIff(lim: Limits, kind: Primitive, op: Extremum, xs: seq<int>, b: int)
    requires IsBest(op, xs, b) && Holds(kind, xs) && Scans(lim, kind, xs)
    ensures IsBest(op, ShownKeys(lim, kind, xs), PrintedKey(kind, b)) <==> !SomeWrap(kind, xs)
    ensures !kind.Timestamp? ==> IsBest(op, ShownKeys(lim, kind, xs), PrintedKey(kind, b))
  {
    if SomeWrap(kind, xs) {
      WrappedDisagrees(lim, kind, op, xs, b);
    } else {
      UnwrappedAgrees(lim, kind, op, xs, b);
    }
  }

  /** In other words: the direct extremum equals the extremum of the cells exactly in that case. */
  lemma {:induction false} EqualsScanIff(lim: Limits, kind: Primitive, op: Extremum, xs: seq<int>, b: int, m: int)
    requires IsBest(op, xs, b) && Holds(kind, xs) && Scans(lim, kind, xs)
    requires IsBest(op, ShownKeys(lim, kind, xs), m)
    ensures PrintedKey(kind, b) == m <==> !SomeWrap(kind, xs)
  {
    AgreesWithScanIff(lim, kind, op, xs, b);
    if !SomeWrap(kind, xs) {
      BestIsUnique(op, ShownKeys(lim, kind, xs), PrintedKey(kind, b), m);
    }
  }

  lemma {:induction false} UnwrappedAgrees(lim: Limits, kind: Primitive, op: Extremum, xs: seq<int>, b: int)
    requires IsBest(op, xs, b) && Holds(kind, xs) && Scans(lim, kind, xs) && !SomeWrap(kind, xs)
    ensures IsBest(op, ShownKeys(lim, kind, xs), PrintedKey(kind, b))
  {
    var f: int -> int := x => PrintedKey(kind, x);
    KeysAt(lim, kind, xs);
    assert ShownKeys(lim, kind, xs) == Converted(f, xs);
    FinishedIsMonotone(kind, xs);
    ExtremumCommutes(f, op, xs, b);
  }

  /** A wrapped value is above all others and leaves nothing in its own place. */
  lemma {:induction false} WrappedDisagrees(lim: Limits, kind: Primitive, op: Extremum, xs: seq<int>, b: int)
    requires IsBest(op, xs, b) && Holds(kind, xs) && Scans(lim, kind, xs) && SomeWrap(kind, xs)
    ensures !IsBest(op, ShownKeys(lim, kind, xs), PrintedKey(kind, b))
  {
    var shown, printed := ShownKeys(lim, kind, xs), PrintedKey(kind, b);
    var w :| 0 <= w < |xs| && Wraps(kind, xs[w]);
    var k :| 0 <= k < |xs| && xs[k] == b;
    KeysAt(lim, kind, xs);
    FinishedIsMonotone(kind, xs);
    assert !Beats(IntLt, op, xs[w], b);
    assert InI64(Finished(kind)(xs[w])) && InI64(Finished(kind)(xs[k]));
    if op.Max? {
      assert Beats(IntLt, op, shown[w], printed);
    } else {
      assert Finished(kind)(xs[k]) <= Finished(kind)(xs[w]);
      assert Wraps(kind, b);
      assert forall i | 0 <= i < |shown| :: shown[i] != printed;
    }
  }

  /** The row in which the direct extremum lies is also the scan's extremal row exactly when the
      scan wraps none of the values or all of them. */
  lemma {:induction false} SameRowAsScanIff(lim: Limits, kind: Primitive, op: Extremum, xs: seq<int>, k: nat)
    requires k < |xs| && IsBest(op, xs, xs[k]) && Holds(kind, xs) && Scans(lim, kind, xs)
    ensures IsBest(op, ShownKeys(lim, kind, xs), ShownKeys(lim, kind, xs)[k]) <==>
            !SomeWrap(kind, xs) || !SomeFit(kind, xs)
  {
    if SomeWrap(kind, xs) && SomeFit(kind, xs) {
      MixedRowsDiffer(lim, kind, op, xs, k);
    } else {
      UniformRowsAgree(lim, kind, op, xs, k);
    }
  }

  lemma {:induction false} UniformRowsAgree(lim: Limits, kind: Primitive, op: Extremum, xs: seq<int>, k: nat)
    requires k < |xs| && IsBest(op, xs, xs[k]) && Holds(kind, xs) && Scans(lim, kind, xs)
    requires !SomeWrap(kind, xs) || !SomeFit(kind, xs)
    ensures IsBest(op, ShownKeys(lim, kind, xs), ShownKeys(lim, kind, xs)[k])
  {
    var shown := ShownKeys(lim, kind, xs);
    FinishedIsMonotone(kind, xs);
    KeysAt(lim, kind, xs);
    forall i | 0 <= i < |shown| ensures !Beats(IntLt, op, shown[i], shown[k]) {
      assert !Beats(IntLt, op, xs[i], xs[k]);
    }
  }

  lemma {:induction false} MixedRowsDiffer(lim: Limits, kind: Primitive, op: Extremum, xs: seq<int>, k: nat)
    requires k < |xs| && IsBest(op, xs, xs[k]) && Holds(kind, xs) && Scans(lim, kind, xs)
    requires SomeWrap(kind, xs) && SomeFit(kind, xs)
    ensures !IsBest(op, ShownKeys(lim, kind, xs), ShownKeys(lim, kind, xs)[k])
  {
    var shown := ShownKeys(lim, kind, xs);
    var w :| 0 <= w < |xs| && Wraps(kind, xs[w]);
    var f :| 0 <= f < |xs| && !Wraps(kind, xs[f]);
    KeysAt(lim, kind, xs);
    FinishedIsMonotone(kind, xs);
    assert !Beats(IntLt, op, xs[w], xs[k]) && !Beats(IntLt, op, xs[f], xs[k]);
    assert Beats(IntLt, op, shown[if op.Min? then f else w], shown[k]);
  }

  /** A column that holds the earliest second and 1970-01-01: the direct maximum is 1970-01-01, and
      the scan's is 292 thousand years later. */
  lemma {:induction false} EarliestSecondDisagrees(lim: Limits)
    requires lim.pgMicros == TypeSafety.PG_TIMESTAMPS
    ensures var kind, xs := Timestamp(Second, false), [I64_MIN, 0];
            && IsBest(Max, xs, 0) && Scans(lim, kind, xs)
            && IsBest(Max, ShownKeys(lim, kind, xs), 9_222_425_352_054_775_808)
            && PrintedKey(kind, 0) == -EPOCH_MICROS
  {
    var kind, xs := Timestamp(Second, false), [I64_MIN, 0];
    TypeSafety.EarliestSecondIsShownWrong(lim);
    TypeSafety.ShiftedMicros(Second, 0);
    assert xs[1] == 0;
    assert Scans(lim, kind, xs) by {
      ScansIff(lim, kind, xs);
    }
    assert ShownKeys(lim, kind, xs)[0] == 9_222_425_352_054_775_808;
  }

  /** An unsigned value beyond 63 bits: the direct maximum prints it, and the scan fails. */
  lemma {:induction false} LargeUnsignedIsNotScanned(lim: Limits, x: int)
    requires I64_MAX < x < TWO_64
    ensures Holds(UInt64, [x]) && AnswerOf(UInt64, x) == IntAnswer(x)
    ensures ShownCell(lim, UInt64, x) == Err(ValueOutOfRange) && !Scans(lim, UInt64, [x])
  {
    ScansIff(lim, UInt64, [x]);
    assert [x][0] == x;
  }
}
