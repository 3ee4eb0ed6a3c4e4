/**
 * array_max: the greatest non-null element of one array value, or null when
 * the array has no non-null element. The reduction is generic in the element
 * type and takes the type's strict "less than" as a parameter.
 */
module ArrayMaximum {
  import opened Wrappers
  import opened ElementOrder

  /**
   * Folds one element into the running maximum: a null element is skipped,
   * the first non-null element starts it, and a later element replaces it
   * only when strictly greater, so the earliest of equal maxima is kept.
   */
  function Step<T>(running: Option<T>, e: Option<T>, lt: (T, T) -> bool): (r: Option<T>)
    ensures r.None? <==> running.None? && e.None?
    ensures e.None? ==> r == running
    ensures e.Some? ==> (r == e <==> running.None? || lt(running.value, e.value) || running == e)
    ensures r == running || r == e
  {
    match e
    case None => running
    case Some(x) =>
      match running
      case None => e
      case Some(m) => if lt(m, x) then e else running
  }

  /** The reduction, scanning the elements in their stored order. */
  function ArrayMax<T>(a: seq<Option<T>>, lt: (T, T) -> bool): (r: Option<T>)
    ensures r.None? <==> forall i | 0 <= i < |a| :: a[i].None?
    ensures r.Some? ==> r in a
    decreases |a|
  {
    if |a| == 0 then None
    else
      var init := a[..|a| - 1];
      assert a == init + [a[|a| - 1]];
      Step(ArrayMax(init, lt), a[|a| - 1], lt)
  }

  /** The non-null elements of an array, regardless of position and multiplicity. */
  ghost function Values<T>(a: seq<Option<T>>): set<T> {
    set i | 0 <= i < |a| && a[i].Some? :: a[i].value
  }

  /** `m` is one of the values and no value is above it. */
  ghost predicate IsGreatest<T>(m: T, s: set<T>, lt: (T, T) -> bool) {
    m in s && forall x | x in s :: x == m || lt(x, m)
  }

  lemma ValuesSnoc<T>(a: seq<Option<T>>, e: Option<T>)
    ensures Values(a + [e]) == Values(a) + (if e.Some? then {e.value} else {})
  {
    var b := a + [e];
    forall x | x in Values(b) ensures x in Values(a) + (if e.Some? then {e.value} else {}) {
      var i :| 0 <= i < |b| && b[i].Some? && b[i].value == x;
      if i < |a| {
        assert a[i] == b[i];
      }
    }
    forall x | x in Values(a) ensures x in Values(b) {
      var i :| 0 <= i < |a| && a[i].Some? && a[i].value == x;
      assert b[i] == a[i];
    }
    if e.Some? {
      assert b[|a|] == e;
    }
  }

  /** Under a strict total order the result is the greatest non-null value. */
  lemma {:induction false} ArrayMaxIsGreatest<T(!new)>(a: seq<Option<T>>, lt: (T, T) -> bool)
    requires StrictTotalOrder(lt)
    ensures ArrayMax(a, lt).None? <==> Values(a) == {}
    ensures ArrayMax(a, lt).Some? ==> IsGreatest(ArrayMax(a, lt).value, Values(a), lt)
    decreases |a|
  {
    if |a| == 0 {
      assert Values(a) == {};
    } else {
      var init, e := a[..|a| - 1], a[|a| - 1];
      assert a == init + [e];
      ValuesSnoc(init, e);
      ArrayMaxIsGreatest(init, lt);
    }
  }

  lemma GreatestIsUnique<T(!new)>(m1: T, m2: T, s: set<T>, lt: (T, T) -> bool)
    requires StrictTotalOrder(lt)
    requires IsGreatest(m1, s, lt) && IsGreatest(m2, s, lt)
    ensures m1 == m2
  {
    StrictTotalOrderAsymmetric(lt, m1, m2);
  }

  /** array_max(a) is Some(m) exactly when m is the greatest non-null element. */
  lemma ArrayMaxCharacterization<T(!new)>(a: seq<Option<T>>, lt: (T, T) -> bool, m: T)
    requires StrictTotalOrder(lt)
    ensures ArrayMax(a, lt) == Some(m) <==> IsGreatest(m, Values(a), lt)
  {
    ArrayMaxIsGreatest(a, lt);
    if IsGreatest(m, Values(a), lt) {
      GreatestIsUnique(ArrayMax(a, lt).value, m, Values(a), lt);
    }
  }

  /**
   * The form used for concrete arrays: a non-null element that every other
   * non-null element is below (or equal to) is the result.
   */
  lemma ArrayMaxIs<T(!new)>(a: seq<Option<T>>, lt: (T, T) -> bool, m: T)
    requires StrictTotalOrder(lt)
    requires Some(m) in a
    requires forall x | Some(x) in a :: x == m || lt(x, m)
    ensures ArrayMax(a, lt) == Some(m)
  {
    var i :| 0 <= i < |a| && a[i] == Some(m);
    assert m in Values(a);
    forall x | x in Values(a) ensures x == m || lt(x, m) {
      var j :| 0 <= j < |a| && a[j].Some? && a[j].value == x;
      assert Some(x) == a[j];
    }
    ArrayMaxCharacterization(a, lt, m);
  }

  /**
   * Only the set of non-null values matters: nulls may sit anywhere, and
   * the elements may be permuted or repeated, without changing the result.
   */
  lemma ArrayMaxDependsOnlyOnValues<T(!new)>(a: seq<Option<T>>, b: seq<Option<T>>, lt: (T, T) -> bool)
    requires StrictTotalOrder(lt)
    requires Values(a) == Values(b)
    ensures ArrayMax(a, lt) == ArrayMax(b, lt)
  {
    ArrayMaxIsGreatest(a, lt);
    ArrayMaxIsGreatest(b, lt);
    if ArrayMax(a, lt).Some? {
      ArrayMaxCharacterization(b, lt, ArrayMax(a, lt).value);
    }
  }

  /** Appending a null element changes nothing. */
  lemma ArrayMaxAppendNull<T>(a: seq<Option<T>>, lt: (T, T) -> bool)
    ensures ArrayMax(a + [None], lt) == ArrayMax(a, lt)
  {
    assert (a + [None])[..|a|] == a;
  }

  /**
   * Appending a non-null element either keeps the old maximum or makes the
   * new element the maximum, and never lowers it.
   */
  lemma ArrayMaxAppendValue<T(!new)>(a: seq<Option<T>>, e: T, lt: (T, T) -> bool)
    requires StrictTotalOrder(lt)
    ensures ArrayMax(a + [Some(e)], lt) == ArrayMax(a, lt) || ArrayMax(a + [Some(e)], lt) == Some(e)
    ensures ArrayMax(a + [Some(e)], lt).Some?
    ensures ArrayMax(a, lt).Some? ==> !lt(ArrayMax(a + [Some(e)], lt).value, ArrayMax(a, lt).value)
  {
    assert (a + [Some(e)])[..|a|] == a;
    if ArrayMax(a, lt).Some? {
      StrictTotalOrderAsymmetric(lt, ArrayMax(a, lt).value, e);
    }
  }

  /** The same reduction as a loop over the elements with a running maximum. */
  method ArrayMaxScan<T>(a: seq<Option<T>>, lt: (T, T) -> bool) returns (r: Option<T>)
    ensures r == ArrayMax(a, lt)
  {
    r := None;
    for i := 0 to |a|
      invariant r == ArrayMax(a[..i], lt)
    {
      assert a[..i + 1][..i] == a[..i];
      match a[i] {
        case None =>
        case Some(x) =>
          if r.None? || lt(r.value, x) {
            r := a[i];
          }
      }
    }
    assert a[..|a|] == a;
  }

  // ---------------------------------------------------------------------
  // Facts specific to one element type
  // ---------------------------------------------------------------------

  /** Booleans: the result is true exactly when some element is true. */
  lemma BoolArrayMax(a: seq<Option<bool>>)
    ensures ArrayMax(a, BoolLess) == Some(true) <==> Some(true) in a
    ensures ArrayMax(a, BoolLess) == Some(false) <==> Some(false) in a && Some(true) !in a
  {
    BoolLessIsStrictTotal();
    ArrayMaxIsGreatest(a, BoolLess);
    if Some(true) in a {
      var i :| 0 <= i < |a| && a[i] == Some(true);
      assert true in Values(a);
    } else if Some(false) in a {
      var i :| 0 <= i < |a| && a[i] == Some(false);
      assert false in Values(a);
    }
  }

  /** Floating point: any NaN element makes the result NaN. */
  lemma NaNDominates(a: seq<Option<Float>>)
    requires Some(NaN) in a
    ensures ArrayMax(a, FloatLess) == Some(NaN)
  {
    FloatLessIsStrictTotal();
    var i :| 0 <= i < |a| && a[i] == Some(NaN);
    assert NaN in Values(a);
    ArrayMaxCharacterization(a, FloatLess, NaN);
  }

  /** Integers: the result never leaves the range of the elements' width. */
  lemma IntArrayMaxInRange(a: seq<Option<int>>, w: IntWidth)
    requires forall i | 0 <= i < |a| && a[i].Some? :: InRange(w, a[i].value)
    ensures ArrayMax(a, IntLess).Some? ==> InRange(w, ArrayMax(a, IntLess).value)
  {
  }

  /** Timestamps: Timestamp::max() in the array makes it the result. */
  lemma TimestampMaxDominates(a: seq<Option<Timestamp>>)
    requires forall i | 0 <= i < |a| && a[i].Some? :: ValidTimestamp(a[i].value)
    requires Some(TimestampMax) in a
    ensures ArrayMax(a, TimestampLess) == Some(TimestampMax)
  {
    TimestampLessIsStrictTotal();
    var i :| 0 <= i < |a| && a[i] == Some(TimestampMax);
    assert TimestampMax in Values(a);
    forall x | x in Values(a) ensures x == TimestampMax || TimestampLess(x, TimestampMax) {
      var j :| 0 <= j < |a| && a[j].Some? && a[j].value == x;
      if x != TimestampMax {
        TimestampMaxIsGreatest(x);
      }
    }
    ArrayMaxCharacterization(a, TimestampLess, TimestampMax);
  }
}
