/**
 * WARL ("write any values, reads legal values") legal-value ranges and the
 * point resolvers that pick a legal value from a range.
 *
 * A range is a list of entries, each a single value or an inclusive interval.
 * The resolvers are modelled exactly as written: each aborts with
 * "Empty WARL range" on an empty list and otherwise returns an entry's value,
 * an interval bound or the searched value itself.  Next to them are the
 * definitions the resolvers were evidently meant to compute (`RangeMinFixed`,
 * `NextUpFixed`, `NextDownFixed`, `NearUpFixed`, `NearDownFixed`), each with
 * its intended property proved, and a concrete input on which the written
 * resolver and the intended one disagree.
 */
module WarlRange {
  import opened Wrappers

  datatype RangeEntry = Value(v: nat) | Interval(lo: nat, hi: nat)

  const EmptyRange := "Empty WARL range"

  predicate Contains(e: RangeEntry, x: nat)
  {
    match e
    case Value(v) => x == v
    case Interval(l, u) => l <= x <= u
  }

  /** The largest number an entry can stand for. */
  function Upper(e: RangeEntry): nat
  {
    match e
    case Value(v) => v
    case Interval(_, u) => u
  }

  /** The smallest number an entry can stand for. */
  function Lower(e: RangeEntry): nat
  {
    match e
    case Value(v) => v
    case Interval(l, _) => l
  }

  /** `x` is one of the entries' values or interval bounds. */
  ghost predicate IsEndpoint(es: seq<RangeEntry>, x: nat)
  {
    exists i :: 0 <= i < |es| && (x == Lower(es[i]) || x == Upper(es[i]))
  }

  lemma EndpointOfTail(es: seq<RangeEntry>, x: nat)
    requires |es| > 0 && IsEndpoint(es[1..], x)
    ensures IsEndpoint(es, x)
  {
    var i :| 0 <= i < |es[1..]| && (x == Lower(es[1..][i]) || x == Upper(es[1..][i]));
    assert es[1..][i] == es[i + 1];
  }

  /** Every interval is non-empty. */
  predicate WellFormed(es: seq<RangeEntry>)
  {
    forall i :: 0 <= i < |es| ==> Lower(es[i]) <= Upper(es[i])
  }

  /** is_value_in_range: some entry contains `value`. */
  function InRange(value: nat, es: seq<RangeEntry>): bool
  {
    if |es| == 0 then false
    else match es[0]
      case Value(v) => value == v || InRange(value, es[1..])
      case Interval(l, u) => (l <= value && value <= u) || InRange(value, es[1..])
  }

  lemma {:induction false} InRangeMeaning(value: nat, es: seq<RangeEntry>)
    ensures InRange(value, es) <==> exists i :: 0 <= i < |es| && Contains(es[i], value)
  {
    if |es| > 0 {
      InRangeMeaning(value, es[1..]);
      if InRange(value, es[1..]) {
        var i :| 0 <= i < |es[1..]| && Contains(es[1..][i], value);
        assert Contains(es[i + 1], value);
      }
      if exists i :: 0 <= i < |es| && Contains(es[i], value) {
        var i :| 0 <= i < |es| && Contains(es[i], value);
        if i > 0 {
          assert Contains(es[1..][i - 1], value);
        }
      }
    }
  }

  lemma InRangeHead(value: nat, es: seq<RangeEntry>)
    requires |es| > 0
    ensures InRange(value, es) == (Contains(es[0], value) || InRange(value, es[1..]))
  {
  }

  /** A member of the range lies below some entry's upper end and above some entry's lower end. */
  lemma MemberBounds(value: nat, es: seq<RangeEntry>)
    requires InRange(value, es)
    ensures HasAtLeast(es, value) && HasAtMost(es, value)
  {
    InRangeMeaning(value, es);
    var i :| 0 <= i < |es| && Contains(es[i], value);
    assert Upper(es[i]) >= value && Lower(es[i]) <= value;
  }

  /** Some entry reaches `value` or beyond. */
  predicate HasAtLeast(es: seq<RangeEntry>, value: nat)
  {
    exists i :: 0 <= i < |es| && Upper(es[i]) >= value
  }

  /** Some entry reaches `value` or below. */
  predicate HasAtMost(es: seq<RangeEntry>, value: nat)
  {
    exists i :: 0 <= i < |es| && Lower(es[i]) <= value
  }

  lemma HasAtLeastHead(es: seq<RangeEntry>, value: nat)
    requires |es| > 0
    ensures HasAtLeast(es, value) == (Upper(es[0]) >= value || HasAtLeast(es[1..], value))
  {
    if HasAtLeast(es, value) {
      var i :| 0 <= i < |es| && Upper(es[i]) >= value;
      if i > 0 {
        assert Upper(es[1..][i - 1]) >= value;
      }
    }
    if HasAtLeast(es[1..], value) {
      var i :| 0 <= i < |es[1..]| && Upper(es[1..][i]) >= value;
      assert Upper(es[i + 1]) >= value;
    }
  }

  lemma HasAtMostHead(es: seq<RangeEntry>, value: nat)
    requires |es| > 0
    ensures HasAtMost(es, value) == (Lower(es[0]) <= value || HasAtMost(es[1..], value))
  {
    if HasAtMost(es, value) {
      var i :| 0 <= i < |es| && Lower(es[i]) <= value;
      if i > 0 {
        assert Lower(es[1..][i - 1]) <= value;
      }
    }
    if HasAtMost(es[1..], value) {
      var i :| 0 <= i < |es[1..]| && Lower(es[1..][i]) <= value;
      assert Lower(es[i + 1]) <= value;
    }
  }

  /** WARL_range_max. */
  function RangeMax(es: seq<RangeEntry>): (r: Result<nat>)
    ensures r.Err? <==> |es| == 0
    ensures r.Ok? ==> forall x: nat :: InRange(x, es) ==> x <= r.value
    ensures r.Ok? && WellFormed(es) ==> InRange(r.value, es)
    ensures r.Ok? ==> IsEndpoint(es, r.value)
  {
    if |es| == 0 then Err(EmptyRange)
    else if |es| == 1 then
      match es[0]
      case Value(v) => Ok(v)
      case Interval(_, u) => Ok(u)
    else
      var tail := RangeMax(es[1..]);
      if tail.Err? then tail
      else
        EndpointOfTail(es, tail.value);
        match es[0]
        case Value(v) => Ok(if v > tail.value then v else tail.value)
        case Interval(_, u) => Ok(if u > tail.value then u else tail.value)
  }

  /**
   * WARL_range_min as written: an interval that is not the last entry takes
   * part with its upper bound, so the result is the least of those upper
   * bounds, the other entries' values and the last entry's lower end.
   */
  function RangeMin(es: seq<RangeEntry>): (r: Result<nat>)
    ensures r.Err? <==> |es| == 0
    ensures r.Ok? ==> r.value <= Lower(es[|es| - 1])
    ensures r.Ok? ==> forall i :: 0 <= i < |es| - 1 ==> r.value <= Upper(es[i])
    ensures r.Ok? && WellFormed(es) ==> InRange(r.value, es)
    ensures r.Ok? ==> IsEndpoint(es, r.value)
  {
    if |es| == 0 then Err(EmptyRange)
    else if |es| == 1 then
      match es[0]
      case Value(v) => Ok(v)
      case Interval(l, _) => Ok(l)
    else
      var tail := RangeMin(es[1..]);
      if tail.Err? then tail
      else
        EndpointOfTail(es, tail.value);
        match es[0]
        case Value(v) => Ok(if v < tail.value then v else tail.value)
        case Interval(_, u) => Ok(if u < tail.value then u else tail.value)
  }

  /** WARL_range_min as evidently intended: every interval takes part with its lower bound. */
  function RangeMinFixed(es: seq<RangeEntry>): (r: Result<nat>)
    ensures r.Err? <==> |es| == 0
    ensures r.Ok? ==> forall x: nat :: InRange(x, es) ==> r.value <= x
    ensures r.Ok? && WellFormed(es) ==> InRange(r.value, es)
  {
    if |es| == 0 then Err(EmptyRange)
    else if |es| == 1 then Ok(Lower(es[0]))
    else
      var tail := RangeMinFixed(es[1..]);
      if tail.Err? then tail
      else Ok(if Lower(es[0]) < tail.value then Lower(es[0]) else tail.value)
  }

  /** On the input below the written minimum is 3 while 0 is legal. */
  lemma RangeMinFinding()
    ensures RangeMin([Interval(0, 5), Value(3)]) == Ok(3)
    ensures InRange(0, [Interval(0, 5), Value(3)])
    ensures RangeMinFixed([Interval(0, 5), Value(3)]) == Ok(0)
  {
  }

  /**
   * WARL_range_nextup as written.  A legal `value` is returned unchanged; on a
   * well-formed range the result is always legal.
   */
  function NextUp(value: nat, es: seq<RangeEntry>): (r: Result<nat>)
    ensures r.Err? <==> |es| == 0
    ensures r.Ok? && WellFormed(es) ==> InRange(r.value, es)
    ensures r.Ok? && InRange(value, es) ==> r.value == value
  {
    if |es| == 0 then Err(EmptyRange)
    else if |es| == 1 then
      assert !InRange(value, es[1..]);
      match es[0]
      case Value(v) => Ok(v)
      case Interval(l, u) =>
        Ok(if value >= l && value <= u then value else if value > u then u else l)
    else
      var tail := NextUp(value, es[1..]);
      if tail.Err? then tail
      else
        var t := tail.value;
        match es[0]
        case Value(v) =>
          Ok(if v >= value && v < t then v
             else if v >= value && t < value then v
             else if v <= value && v > t then v
             else t)
        case Interval(l, u) =>
          Ok(if value >= l && value <= u then value
             else if value > u && u > t then u
             else if value < l && l < t then l
             else t)
  }

  /**
   * WARL_range_nextdown as written.  A legal `value` is returned unchanged; on
   * a well-formed range the result is always legal.
   */
  function NextDown(value: nat, es: seq<RangeEntry>): (r: Result<nat>)
    ensures r.Err? <==> |es| == 0
    ensures r.Ok? && WellFormed(es) ==> InRange(r.value, es)
    ensures r.Ok? && InRange(value, es) ==> r.value == value
  {
    if |es| == 0 then Err(EmptyRange)
    else if |es| == 1 then
      assert !InRange(value, es[1..]);
      match es[0]
      case Value(v) => Ok(v)
      case Interval(l, u) =>
        Ok(if value >= l && value <= u then value else if value > u then u else l)
    else
      var tail := NextDown(value, es[1..]);
      if tail.Err? then tail
      else
        var t := tail.value;
        match es[0]
        case Value(v) =>
          Ok(if v <= value && v > t then v
             else if v <= value && t > value then v
             else if v >= value && v < t then v
             else t)
        case Interval(l, u) =>
          Ok(if value >= l && value <= u then value
             else if value > u && u > t then u
             else if value < l && l < t then l
             else t)
  }

  /**
   * The value a "next up" search should find: the least legal value at or
   * above `value`, or the greatest legal value when there is none.
   */
  ghost predicate IsNextUp(es: seq<RangeEntry>, value: nat, r: nat)
  {
    && InRange(r, es)
    && (HasAtLeast(es, value) ==> value <= r && forall x: nat :: InRange(x, es) && value <= x ==> r <= x)
    && (!HasAtLeast(es, value) ==> forall x: nat :: InRange(x, es) ==> x <= r)
  }

  /**
   * The value a "next down" search should find: the greatest legal value at
   * or below `value`, or the least legal value when there is none.
   */
  ghost predicate IsNextDown(es: seq<RangeEntry>, value: nat, r: nat)
  {
    && InRange(r, es)
    && (HasAtMost(es, value) ==> r <= value && forall x: nat :: InRange(x, es) && x <= value ==> x <= r)
    && (!HasAtMost(es, value) ==> forall x: nat :: InRange(x, es) ==> r <= x)
  }

  /**
   * WARL_range_nextup as evidently intended: an interval lying wholly above
   * `value` is also taken when the rest of the range lies wholly below it.
   */
  function NextUpFixed(value: nat, es: seq<RangeEntry>): (r: Result<nat>)
    ensures r.Err? <==> |es| == 0
  {
    if |es| == 0 then Err(EmptyRange)
    else if |es| == 1 then NextUp(value, es)
    else
      var tail := NextUpFixed(value, es[1..]);
      if tail.Err? then tail
      else
        var t := tail.value;
        match es[0]
        case Value(v) =>
          Ok(if v >= value && v < t then v
             else if v >= value && t < value then v
             else if v <= value && v > t then v
             else t)
        case Interval(l, u) =>
          Ok(if value >= l && value <= u then value
             else if value > u && u > t then u
             else if value < l && l < t then l
             else if value < l && t < value then l
             else t)
  }

  /**
   * WARL_range_nextdown as evidently intended: an interval lying wholly below
   * `value` is also taken when the rest of the range lies wholly above it.
   */
  function NextDownFixed(value: nat, es: seq<RangeEntry>): (r: Result<nat>)
    ensures r.Err? <==> |es| == 0
  {
    if |es| == 0 then Err(EmptyRange)
    else if |es| == 1 then NextDown(value, es)
    else
      var tail := NextDownFixed(value, es[1..]);
      if tail.Err? then tail
      else
        var t := tail.value;
        match es[0]
        case Value(v) =>
          Ok(if v <= value && v > t then v
             else if v <= value && t > value then v
             else if v >= value && v < t then v
             else t)
        case Interval(l, u) =>
          Ok(if value >= l && value <= u then value
             else if value > u && u > t then u
             else if value > u && t > value then u
             else if value < l && l < t then l
             else t)
  }

  lemma {:induction false} NextUpFixedCorrect(value: nat, es: seq<RangeEntry>)
    requires |es| > 0 && WellFormed(es)
    ensures IsNextUp(es, value, NextUpFixed(value, es).value)
  {
    var r := NextUpFixed(value, es).value;
    HasAtLeastHead(es, value);
    forall x: nat
      ensures InRange(x, es) == (Contains(es[0], x) || InRange(x, es[1..]))
    {
      InRangeHead(x, es);
    }
    if |es| > 1 {
      NextUpFixedCorrect(value, es[1..]);
      var t := NextUpFixed(value, es[1..]).value;
      assert IsNextUp(es[1..], value, t);
      assert WellFormed(es[1..]) by {
        forall i | 0 <= i < |es[1..]| ensures Lower(es[1..][i]) <= Upper(es[1..][i]) {
          assert es[1..][i] == es[i + 1];
        }
      }
      MemberBounds(t, es[1..]);
      assert Lower(es[0]) <= Upper(es[0]);
    } else {
      assert !HasAtLeast(es[1..], value);
      forall x: nat ensures !InRange(x, es[1..]) { }
      assert Lower(es[0]) <= Upper(es[0]);
    }
  }

  lemma {:induction false} NextDownFixedCorrect(value: nat, es: seq<RangeEntry>)
    requires |es| > 0 && WellFormed(es)
    ensures IsNextDown(es, value, NextDownFixed(value, es).value)
  {
    var r := NextDownFixed(value, es).value;
    HasAtMostHead(es, value);
    forall x: nat
      ensures InRange(x, es) == (Contains(es[0], x) || InRange(x, es[1..]))
    {
      InRangeHead(x, es);
    }
    if |es| > 1 {
      NextDownFixedCorrect(value, es[1..]);
      var t := NextDownFixed(value, es[1..]).value;
      assert IsNextDown(es[1..], value, t);
      assert WellFormed(es[1..]) by {
        forall i | 0 <= i < |es[1..]| ensures Lower(es[1..][i]) <= Upper(es[1..][i]) {
          assert es[1..][i] == es[i + 1];
        }
      }
      MemberBounds(t, es[1..]);
      assert Lower(es[0]) <= Upper(es[0]);
    } else {
      assert !HasAtMost(es[1..], value);
      forall x: nat ensures !InRange(x, es[1..]) { }
      assert Lower(es[0]) <= Upper(es[0]);
    }
  }

  /** On the input below the written search returns 3 although 10 is the least legal value above 5. */
  lemma NextUpFinding()
    ensures NextUp(5, [Interval(10, 20), Value(3)]) == Ok(3)
    ensures NextUpFixed(5, [Interval(10, 20), Value(3)]) == Ok(10)
    ensures IsNextUp([Interval(10, 20), Value(3)], 5, 10)
  {
    NextUpFixedCorrect(5, [Interval(10, 20), Value(3)]);
  }

  /** On the input below the written search returns 20 although 10 is the greatest legal value below 15. */
  lemma NextDownFinding()
    ensures NextDown(15, [Interval(0, 10), Value(20)]) == Ok(20)
    ensures NextDownFixed(15, [Interval(0, 10), Value(20)]) == Ok(10)
    ensures IsNextDown([Interval(0, 10), Value(20)], 15, 10)
  {
    NextDownFixedCorrect(15, [Interval(0, 10), Value(20)]);
  }

  /**
   * WARL_range_nearup as written: both candidates are taken from the
   * next-up search, so the result is always the next-up result.
   */
  function NearUp(value: nat, es: seq<RangeEntry>): (r: Result<nat>)
    ensures r == NextUp(value, es)
  {
    var up := NextUp(value, es);
    var down := NextUp(value, es);
    if up.Err? then up
    else
      var u := up.value;
      var d := down.value;
      if u <= value then Ok(u)
      else if d >= value then Ok(d)
      else if u - value <= value - d then Ok(u)
      else Ok(d)
  }

  /** WARL_range_neardown as written: like `NearUp`, it always yields the next-up result. */
  function NearDown(value: nat, es: seq<RangeEntry>): (r: Result<nat>)
    ensures r == NextUp(value, es)
  {
    var up := NextUp(value, es);
    var down := NextUp(value, es);
    if up.Err? then up
    else
      var u := up.value;
      var d := down.value;
      if u <= value then Ok(u)
      else if d >= value then Ok(d)
      else if u - value < value - d then Ok(u)
      else Ok(d)
  }

  function Dist(a: nat, b: nat): nat
  {
    if a >= b then a - b else b - a
  }

  /** WARL_range_nearup as evidently intended: the down candidate comes from the next-down search. */
  function NearUpFixed(value: nat, es: seq<RangeEntry>): (r: Result<nat>)
    ensures r.Err? <==> |es| == 0
  {
    var up := NextUpFixed(value, es);
    var down := NextDownFixed(value, es);
    if up.Err? || down.Err? then Err(EmptyRange)
    else if up.value <= value then up
    else if down.value >= value then down
    else if up.value - value <= value - down.value then up
    else down
  }

  /** WARL_range_neardown as evidently intended. */
  function NearDownFixed(value: nat, es: seq<RangeEntry>): (r: Result<nat>)
    ensures r.Err? <==> |es| == 0
  {
    var up := NextUpFixed(value, es);
    var down := NextDownFixed(value, es);
    if up.Err? || down.Err? then Err(EmptyRange)
    else if up.value <= value then up
    else if down.value >= value then down
    else if up.value - value < value - down.value then up
    else down
  }

  /** A legal value nearest to `value`. */
  ghost predicate IsNearest(es: seq<RangeEntry>, value: nat, r: nat)
  {
    InRange(r, es) && forall x: nat :: InRange(x, es) ==> Dist(r, value) <= Dist(x, value)
  }

  /** What the corrected up and down searches tell about every legal value. */
  lemma NearCandidates(value: nat, es: seq<RangeEntry>, u: nat, d: nat)
    requires |es| > 0 && WellFormed(es)
    requires u == NextUpFixed(value, es).value && d == NextDownFixed(value, es).value
    ensures InRange(u, es) && InRange(d, es)
    ensures u < value ==> forall x: nat :: InRange(x, es) ==> x <= u
    ensures u >= value ==> forall x: nat :: InRange(x, es) && value <= x ==> u <= x
    ensures d > value ==> forall x: nat :: InRange(x, es) ==> d <= x
    ensures d <= value ==> forall x: nat :: InRange(x, es) && x <= value ==> x <= d
  {
    NextUpFixedCorrect(value, es);
    NextDownFixedCorrect(value, es);
    MemberBounds(u, es);
    MemberBounds(d, es);
    if u >= value {
      HasAtLeastMonotone(es, u, value);
    }
    if d <= value {
      HasAtMostMonotone(es, d, value);
    }
  }

  /** The corrected near-up search finds a nearest legal value and breaks ties upwards. */
  lemma NearUpFixedCorrect(value: nat, es: seq<RangeEntry>)
    requires |es| > 0 && WellFormed(es)
    ensures IsNearest(es, value, NearUpFixed(value, es).value)
    ensures var r := NearUpFixed(value, es).value;
      r < value ==> forall x: nat :: InRange(x, es) && x > value ==> Dist(x, value) > Dist(r, value)
  {
    var u := NextUpFixed(value, es).value;
    var d := NextDownFixed(value, es).value;
    NearCandidates(value, es, u, d);
  }

  /** The corrected near-down search finds a nearest legal value and breaks ties downwards. */
  lemma NearDownFixedCorrect(value: nat, es: seq<RangeEntry>)
    requires |es| > 0 && WellFormed(es)
    ensures IsNearest(es, value, NearDownFixed(value, es).value)
    ensures var r := NearDownFixed(value, es).value;
      r > value ==> forall x: nat :: InRange(x, es) && x < value ==> Dist(x, value) > Dist(r, value)
  {
    var u := NextUpFixed(value, es).value;
    var d := NextDownFixed(value, es).value;
    NearCandidates(value, es, u, d);
  }

  lemma HasAtLeastMonotone(es: seq<RangeEntry>, a: nat, b: nat)
    requires HasAtLeast(es, a) && b <= a
    ensures HasAtLeast(es, b)
  {
    var i :| 0 <= i < |es| && Upper(es[i]) >= a;
    assert Upper(es[i]) >= b;
  }

  lemma HasAtMostMonotone(es: seq<RangeEntry>, a: nat, b: nat)
    requires HasAtMost(es, a) && a <= b
    ensures HasAtMost(es, b)
  {
    var i :| 0 <= i < |es| && Lower(es[i]) <= a;
    assert Lower(es[i]) <= b;
  }

  /** On the input below the written near-up search returns 10 although 0 is nearer to 2. */
  lemma NearUpFinding()
    ensures NearUp(2, [Value(0), Value(10)]) == Ok(10)
    ensures NearUpFixed(2, [Value(0), Value(10)]) == Ok(0)
    ensures Dist(0, 2) < Dist(10, 2)
  {
  }
}
