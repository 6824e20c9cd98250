/**
 * The generator's legal-value parser: a `[msb:lsb] in [...]` clause of a
 * WARL field becomes a segment (mask, delta, entries).
 *
 * Values are shifted left by the field's `lsb` (`Shl`), so every entry is a
 * multiple of `2^lsb` (`Aligned`).  A `not in` clause becomes the complement
 * of its values inside the field mask, built by a left-to-right walk over the
 * sorted values (`ComplementFrom`).
 */
module WarlParse {
  import opened Wrappers
  import opened Bits
  import opened WarlRange
  import opened WarlLegalize

  /** A clause's value list as written: `base:bound` or `v0,v1,...`. */
  datatype ValSpec = Span(base: nat, bound: nat) | Listed(vals: seq<nat>)

  /** One `[msb:lsb] op [values]` clause of a legal string. */
  datatype LegalPart =
    | RangePart(msb: nat, lsb: nat, notIn: bool, spec: ValSpec)
    | BitmaskPart(msb: nat, lsb: nat, mask: nat, fixed: nat)

  const IllegalSpan := "[base : bound] is illegal"
  const IllegalList := "legal list is illegal"
  const NotANumber := "invalid literal for int()"
  const CannotMix := "cannot mix bitmask and range"

  /** Two distinct multiples of `2^k` are at least `2^k` apart. */
  lemma {:induction false} AlignedGap(x: nat, i: nat, k: nat)
    requires Aligned(x, k) && Aligned(i, k) && x < i
    ensures x + Pow2(k) <= i
  {
    if k > 0 {
      AlignedGap(x / 2, i / 2, k - 1);
    }
  }

  lemma {:induction false} AlignedZero(k: nat)
    ensures Aligned(0, k)
  {
    if k > 0 {
      AlignedZero(k - 1);
    }
  }

  lemma {:induction false} AlignedAdd(x: nat, k: nat)
    requires Aligned(x, k)
    ensures Aligned(x + Pow2(k), k)
  {
    if k > 0 {
      AlignedAdd(x / 2, k - 1);
      assert (x + Pow2(k)) / 2 == x / 2 + Pow2(k - 1);
    }
  }

  lemma {:induction false} AlignedSub(x: nat, k: nat)
    requires Aligned(x, k) && x >= Pow2(k)
    ensures Aligned(x - Pow2(k), k)
  {
    if k > 0 {
      AlignedSub(x / 2, k - 1);
      assert (x - Pow2(k)) / 2 == x / 2 - Pow2(k - 1);
    }
  }

  /** A nonzero multiple of `2^k` is at least `2^k`. */
  lemma AlignedPositive(x: nat, k: nat)
    requires Aligned(x, k) && x > 0
    ensures x >= Pow2(k)
  {
    AlignedZero(k);
    AlignedGap(0, x, k);
  }

  /** field_mask: the bits `lsb..msb` set. */
  function FieldMask(msb: nat, lsb: nat): (r: nat)
    requires lsb <= msb
    ensures r < Pow2(msb + 1)
  {
    Pow2Monotone(lsb, msb + 1);
    Pow2(msb + 1) - Pow2(lsb)
  }

  /** The field mask sets exactly the bits from `lsb` to `msb`, and it is a multiple of the delta `2^lsb`. */
  lemma {:induction false} FieldMaskBits(msb: nat, lsb: nat, i: nat)
    requires lsb <= msb
    ensures Bit(FieldMask(msb, lsb), i) <==> lsb <= i <= msb
    ensures Aligned(FieldMask(msb, lsb), lsb)
  {
    var j := if i > 0 then i - 1 else 0;
    if lsb > 0 {
      FieldMaskBits(msb - 1, lsb - 1, j);
      FieldMaskDouble(msb, lsb);
      DoubleBit(FieldMask(msb - 1, lsb - 1), 0, i);
    } else if msb > 0 {
      FieldMaskBits(msb - 1, 0, j);
      FieldMaskDouble(msb, lsb);
      DoubleBit(FieldMask(msb - 1, 0), 1, i);
    } else if i > 0 {
      BitOfZero(i - 1);
    }
  }

  /** The field mask one bit wider at the bottom, or one bit higher, is twice the smaller one, plus one when it reaches bit 0. */
  lemma FieldMaskDouble(msb: nat, lsb: nat)
    requires lsb <= msb && msb > 0
    ensures lsb > 0 ==> FieldMask(msb, lsb) == 2 * FieldMask(msb - 1, lsb - 1)
    ensures lsb == 0 ==> FieldMask(msb, 0) == 2 * FieldMask(msb - 1, 0) + 1
  {
    assert Pow2(msb + 1) == 2 * Pow2(msb);
    if lsb > 0 {
      assert Pow2(lsb) == 2 * Pow2(lsb - 1);
    }
  }

  /** The bits of `2 * m + b`: `b` at bit 0 and the bits of `m` one place up. */
  lemma DoubleBit(m: nat, b: nat, i: nat)
    requires b < 2
    ensures i == 0 ==> (Bit(2 * m + b, i) <==> b == 1)
    ensures i > 0 ==> (Bit(2 * m + b, i) <==> Bit(m, i - 1))
    ensures b == 0 ==> Aligned(2 * m, 1)
  {
    assert (2 * m + b) / 2 == m;
  }

  /** Every value shifted by `k`. */
  function ShiftAll(vals: seq<nat>, k: nat): (r: seq<nat>)
    ensures |r| == |vals|
    ensures forall i :: 0 <= i < |r| ==> r[i] == Shl(vals[i], k)
  {
    seq(|vals|, i requires 0 <= i < |vals| => Shl(vals[i], k))
  }

  predicate Sorted(s: seq<nat>)
  {
    forall i, j :: 0 <= i < j < |s| ==> s[i] <= s[j]
  }

  function Insert(x: nat, s: seq<nat>): (r: seq<nat>)
    requires Sorted(s)
    ensures |r| == |s| + 1
    ensures r[0] == if |s| == 0 || x <= s[0] then x else s[0]
    ensures Sorted(r)
    ensures multiset(r) == multiset(s) + multiset{x}
  {
    if |s| == 0 then [x]
    else if x <= s[0] then [x] + s
    else
      var rest := Insert(x, s[1..]);
      assert s == [s[0]] + s[1..];
      [s[0]] + rest
  }

  /** Python's `list.sort()` on integers. */
  function Sort(s: seq<nat>): (r: seq<nat>)
    ensures Sorted(r)
    ensures multiset(r) == multiset(s)
  {
    if |s| == 0 then []
    else
      assert s == [s[0]] + s[1..];
      Insert(s[0], Sort(s[1..]))
  }

  /** The range check of parse_values as written: Python chains `base > (field_mask | bound) > field_mask`. */
  function SpanRejectedAsWritten(b: nat, u: nat, fieldMask: nat): bool
  {
    b > Or(fieldMask, u) && Or(fieldMask, u) > fieldMask
  }

  /** The range check as intended: either end lies above the field mask. */
  function SpanRejected(b: nat, u: nat, fieldMask: nat): (r: bool)
    ensures !r ==> b <= fieldMask && u <= fieldMask
  {
    b > fieldMask || u > fieldMask
  }

  /**
   * The check as written lets through spans that end above the field: with
   * field mask 0xF the span 0:0x1F passes, so an interval reaching 0x1F is
   * emitted for a 4-bit field.
   */
  lemma SpanCheckFinding()
    ensures !SpanRejectedAsWritten(0, 0x1F, 0xF)
    ensures SpanRejected(0, 0x1F, 0xF)
  {
    assert Or(0, 1) == 1;
    assert Or(1, 3) == 3;
    assert Or(3, 7) == 7;
    assert Or(7, 15) == 15;
    assert Or(15, 31) == 31;
  }

  /** `x - y`, except that a negative difference (an empty interval either way) is clamped to 0. */
  function Sub(x: nat, y: nat): (r: nat)
    ensures x >= y ==> r == x - y
  {
    if x >= y then x - y else 0
  }

  /**
   * The `not in` walk of parse_values over sorted shifted values: before
   * each value that is not where the last gap ended, emit the gap
   * `[last, value - delta]`; after the walk, emit `[last, field_mask]` when
   * anything is left.
   */
  function ComplementFrom(vals: seq<nat>, last: nat, fieldMask: nat, lsb: nat): seq<RangeEntry>
    decreases |vals|
  {
    if |vals| == 0 then
      if last <= fieldMask then [Interval(last, fieldMask)] else []
    else
      var i := vals[0];
      var rest := ComplementFrom(vals[1..], i + Pow2(lsb), fieldMask, lsb);
      if i != last then [Interval(last, Sub(i, Pow2(lsb)))] + rest
      else rest
  }

  /** The same walk as written: the start of each inner gap is shifted a second time (`last << lsb`). */
  function ComplementFromAsWritten(vals: seq<nat>, last: nat, fieldMask: nat, lsb: nat): seq<RangeEntry>
    decreases |vals|
  {
    if |vals| == 0 then
      if last <= fieldMask then [Interval(last, fieldMask)] else []
    else
      var i := vals[0];
      var rest := ComplementFromAsWritten(vals[1..], i + Pow2(lsb), fieldMask, lsb);
      if i != last then [Interval(Shl(last, lsb), Sub(i, Pow2(lsb)))] + rest
      else rest
  }

  /**
   * With `lsb` 1 and the field `[3:1]` (mask 0xE), `not in [1,6 >> 1]`,
   * i.e. shifted values 2 and 6: the value 4 is neither listed nor above the
   * mask, yet the gap before 6 is emitted as `[8, 4]` and 4 is rejected.
   */
  lemma DoubleShiftFinding()
    ensures FieldMask(3, 1) == 0xE
    ensures ComplementFromAsWritten([2, 6], 0, 0xE, 1) == [Interval(0, 0), Interval(8, 4), Interval(8, 0xE)]
    ensures !InRange(4, ComplementFromAsWritten([2, 6], 0, 0xE, 1))
    ensures InRange(4, ComplementFrom([2, 6], 0, 0xE, 1))
  {
    assert Pow2(1) == 2;
    assert Pow2(4) == 16;
  }

  /** Every element of `s` is a multiple of `2^k`. */
  predicate AllAligned(s: seq<nat>, k: nat)
  {
    forall i :: 0 <= i < |s| ==> Aligned(s[i], k)
  }

  /**
   * The complement walk is exact on aligned values: an aligned `x` is
   * covered iff it lies between `last` and the field mask and is not one of
   * the values.
   */
  lemma {:induction false} ComplementMeaning(vals: seq<nat>, last: nat, fieldMask: nat, lsb: nat, x: nat)
    requires Sorted(vals) && AllAligned(vals, lsb) && Aligned(last, lsb) && Aligned(x, lsb)
    requires forall i :: 0 <= i < |vals| ==> vals[i] <= fieldMask
    requires |vals| > 0 ==> last <= vals[0] + Pow2(lsb)
    ensures InRange(x, ComplementFrom(vals, last, fieldMask, lsb)) <==> last <= x <= fieldMask && x !in vals
    decreases |vals|
  {
    if |vals| > 0 {
      AlignedAdd(vals[0], lsb);
      ComplementMeaning(vals[1..], vals[0] + Pow2(lsb), fieldMask, lsb, x);
      ComplementStep(vals, last, fieldMask, lsb, x);
    }
  }

  /** The inductive step of `ComplementMeaning`, given its claim for the values after the first. */
  lemma ComplementStep(vals: seq<nat>, last: nat, fieldMask: nat, lsb: nat, x: nat)
    requires |vals| > 0 && Sorted(vals) && AllAligned(vals, lsb) && Aligned(x, lsb)
    requires vals[0] <= fieldMask && last <= vals[0] + Pow2(lsb)
    requires InRange(x, ComplementFrom(vals[1..], vals[0] + Pow2(lsb), fieldMask, lsb)) <==>
             vals[0] + Pow2(lsb) <= x <= fieldMask && x !in vals[1..]
    ensures InRange(x, ComplementFrom(vals, last, fieldMask, lsb)) <==> last <= x <= fieldMask && x !in vals
  {
    var i := vals[0];
    ComplementHead(vals, last, fieldMask, lsb, x);
    if x < i {
      AlignedGap(x, i, lsb);
      assert x !in vals[1..];
    } else if x > i {
      AlignedGap(i, x, lsb);
    }
    ComplementCases(i, last, Pow2(lsb), fieldMask, x, x in vals[1..],
                    InRange(x, ComplementFrom(vals[1..], i + Pow2(lsb), fieldMask, lsb)),
                    InRange(x, ComplementFrom(vals, last, fieldMask, lsb)));
  }

  /** The case analysis of one step of `ComplementMeaning`, on the value `x` against the first value `i`. */
  lemma ComplementCases(i: nat, last: nat, p: nat, fieldMask: nat, x: nat, inTail: bool, inRest: bool, inAll: bool)
    requires p >= 1 && i <= fieldMask && last <= i + p
    requires inAll <==> (i != last && last <= x <= Sub(i, p)) || inRest
    requires inRest <==> i + p <= x <= fieldMask && !inTail
    requires x < i ==> x + p <= i && !inTail
    requires x > i ==> i + p <= x
    ensures inAll <==> last <= x <= fieldMask && !(x == i || inTail)
  {
  }

  /** One step of the complement walk: the gap before the first value, then the rest. */
  lemma ComplementHead(vals: seq<nat>, last: nat, fieldMask: nat, lsb: nat, x: nat)
    requires |vals| > 0
    ensures InRange(x, ComplementFrom(vals, last, fieldMask, lsb)) <==>
            (vals[0] != last && last <= x <= Sub(vals[0], Pow2(lsb))) ||
            InRange(x, ComplementFrom(vals[1..], vals[0] + Pow2(lsb), fieldMask, lsb))
    ensures x in vals <==> x == vals[0] || x in vals[1..]
  {
    var i := vals[0];
    var rest := ComplementFrom(vals[1..], i + Pow2(lsb), fieldMask, lsb);
    if i != last {
      var r := [Interval(last, Sub(i, Pow2(lsb)))] + rest;
      assert r[1..] == rest;
      InRangeHead(x, r);
    }
    assert vals == [i] + vals[1..];
  }

  /** The entries of an `in` list: one value entry per sorted value. */
  function ValueEntries(s: seq<nat>): (r: seq<RangeEntry>)
    ensures |r| == |s|
    ensures forall k :: 0 <= k < |r| ==> r[k] == Value(s[k])
  {
    seq(|s|, k requires 0 <= k < |s| => Value(s[k]))
  }

  lemma ValueEntriesMeaning(s: seq<nat>, x: nat)
    ensures InRange(x, ValueEntries(s)) <==> x in s
  {
    InRangeMeaning(x, ValueEntries(s));
  }

  /** The entries of a range clause after the check. */
  function SpanEntries(b: nat, u: nat, fieldMask: nat, lsb: nat, notIn: bool): seq<RangeEntry>
  {
    if notIn then
      (if b != 0 then [Interval(0, Sub(b, Pow2(lsb)))] else [])
      + (if u != fieldMask then [Interval(u + Pow2(lsb), fieldMask)] else [])
    else [Interval(b, u)]
  }

  /** Index of the first value above the field mask, or `|s|`. */
  function FirstAbove(s: seq<nat>, fieldMask: nat): (k: nat)
    ensures k <= |s|
    ensures forall i :: 0 <= i < k ==> s[i] <= fieldMask
    ensures k < |s| ==> s[k] > fieldMask
  {
    if |s| == 0 then 0
    else if s[0] > fieldMask then 0
    else 1 + FirstAbove(s[1..], fieldMask)
  }

  /** parse_values, with the range check and the gap starts as intended. */
  function ParseValuesSpec(spec: ValSpec, fieldMask: nat, lsb: nat, notIn: bool): Result<seq<RangeEntry>>
  {
    match spec
    case Span(base, bound) =>
      var b := Shl(base, lsb);
      var u := Shl(bound, lsb);
      if SpanRejected(b, u, fieldMask) then Err(IllegalSpan)
      else Ok(SpanEntries(b, u, fieldMask, lsb, notIn))
    case Listed(vals) =>
      if |vals| == 0 then Err(NotANumber)
      else
        var s := ShiftAll(vals, lsb);
        if FirstAbove(s, fieldMask) < |s| then Err(IllegalList)
        else if notIn then Ok(ComplementFrom(Sort(s), 0, fieldMask, lsb))
        else Ok(ValueEntries(Sort(s)))
  }

  /** The values a clause admits, among the multiples of `2^lsb`. */
  ghost predicate Admits(spec: ValSpec, fieldMask: nat, lsb: nat, notIn: bool, x: nat)
  {
    var listed :=
      if spec.Span? then Shl(spec.base, lsb) <= x <= Shl(spec.bound, lsb)
      else x in ShiftAll(spec.vals, lsb);
    if notIn then x <= fieldMask && !listed else listed
  }

  /** Where parse_values fails: a span end or a listed value above the field mask after the shift, or an empty list. */
  lemma ParseValuesFails(spec: ValSpec, fieldMask: nat, lsb: nat, notIn: bool)
    ensures ParseValuesSpec(spec, fieldMask, lsb, notIn).Err? <==>
      if spec.Span? then Shl(spec.base, lsb) > fieldMask || Shl(spec.bound, lsb) > fieldMask
      else |spec.vals| == 0 || exists k :: 0 <= k < |spec.vals| && Shl(spec.vals[k], lsb) > fieldMask
  {
    match spec
    case Span(_, _) =>
    case Listed(vals) =>
      if |vals| > 0 {
        var s := ShiftAll(vals, lsb);
        var k := FirstAbove(s, fieldMask);
        if k < |s| {
          assert Shl(vals[k], lsb) > fieldMask;
        }
      }
  }

  /**
   * A range clause is exact on aligned values: `in` keeps `[base, bound]`,
   * `not in` keeps the rest of the field.
   */
  lemma SpanMeaning(base: nat, bound: nat, fieldMask: nat, lsb: nat, notIn: bool, x: nat)
    requires Aligned(x, lsb)
    requires ParseValuesSpec(Span(base, bound), fieldMask, lsb, notIn).Ok?
    ensures InRange(x, ParseValuesSpec(Span(base, bound), fieldMask, lsb, notIn).value) <==>
      Admits(Span(base, bound), fieldMask, lsb, notIn, x)
  {
    var b := Shl(base, lsb);
    var u := Shl(bound, lsb);
    var es := SpanEntries(b, u, fieldMask, lsb, notIn);
    if notIn {
      var lowGap: seq<RangeEntry> := if b != 0 then [Interval(0, Sub(b, Pow2(lsb)))] else [];
      var highGap: seq<RangeEntry> := if u != fieldMask then [Interval(u + Pow2(lsb), fieldMask)] else [];
      assert es == lowGap + highGap;
      if b != 0 {
        AlignedPositive(b, lsb);
        assert es[1..] == highGap;
        InRangeHead(x, es);
        if x < b {
          AlignedGap(x, b, lsb);
        }
      }
      if x > u {
        AlignedGap(u, x, lsb);
      }
    }
  }

  /** A value list is exact on aligned values: `in` keeps the shifted values, `not in` the rest of the field. */
  lemma ListedMeaning(vals: seq<nat>, fieldMask: nat, lsb: nat, notIn: bool, x: nat)
    requires Aligned(x, lsb)
    requires ParseValuesSpec(Listed(vals), fieldMask, lsb, notIn).Ok?
    ensures InRange(x, ParseValuesSpec(Listed(vals), fieldMask, lsb, notIn).value) <==>
      Admits(Listed(vals), fieldMask, lsb, notIn, x)
  {
    var s := ShiftAll(vals, lsb);
    var sorted := Sort(s);
    assert forall y :: y in sorted <==> y in s by {
      forall y
        ensures y in sorted <==> y in s
      {
        assert y in sorted <==> y in multiset(sorted);
        assert y in s <==> y in multiset(s);
      }
    }
    if notIn {
      forall i | 0 <= i < |sorted|
        ensures Aligned(sorted[i], lsb) && sorted[i] <= fieldMask
      {
        assert sorted[i] in s;
      }
      AlignedZero(lsb);
      ComplementMeaning(sorted, 0, fieldMask, lsb, x);
    } else {
      ValueEntriesMeaning(sorted, x);
    }
  }

  /** Every entry parse_values emits ends within the field mask. */
  lemma ParseValuesBounded(spec: ValSpec, fieldMask: nat, lsb: nat, notIn: bool)
    requires ParseValuesSpec(spec, fieldMask, lsb, notIn).Ok?
    ensures AllUpTo(ParseValuesSpec(spec, fieldMask, lsb, notIn).value, fieldMask)
  {
    if spec.Listed? {
      var s := ShiftAll(spec.vals, lsb);
      var sorted := Sort(s);
      forall i | 0 <= i < |sorted|
        ensures sorted[i] <= fieldMask
      {
        assert sorted[i] in multiset(s);
        FirstAboveAll(s, fieldMask, sorted[i]);
      }
      if notIn {
        ComplementBounded(sorted, 0, fieldMask, lsb);
      }
    }
  }

  lemma FirstAboveAll(s: seq<nat>, fieldMask: nat, x: nat)
    requires FirstAbove(s, fieldMask) == |s| && x in s
    ensures x <= fieldMask
  {
  }

  /** Every entry ends at or below `bound`. */
  predicate AllUpTo(es: seq<RangeEntry>, bound: nat)
  {
    forall k :: 0 <= k < |es| ==> Upper(es[k]) <= bound
  }

  lemma {:induction false} ComplementBounded(vals: seq<nat>, last: nat, fieldMask: nat, lsb: nat)
    requires forall i :: 0 <= i < |vals| ==> vals[i] <= fieldMask
    ensures AllUpTo(ComplementFrom(vals, last, fieldMask, lsb), fieldMask)
    decreases |vals|
  {
    if |vals| > 0 {
      var rest := ComplementFrom(vals[1..], vals[0] + Pow2(lsb), fieldMask, lsb);
      ComplementBounded(vals[1..], vals[0] + Pow2(lsb), fieldMask, lsb);
      if vals[0] != last {
        var r := [Interval(last, Sub(vals[0], Pow2(lsb)))] + rest;
        assert ComplementFrom(vals, last, fieldMask, lsb) == r;
        forall k | 0 <= k < |r|
          ensures Upper(r[k]) <= fieldMask
        {
          if k > 0 {
            assert r[k] == rest[k - 1];
            assert 0 <= k - 1 < |rest|;
            assert Upper(rest[k - 1]) <= fieldMask;
          } else {
            assert vals[0] <= fieldMask;
            assert r[0] == Interval(last, Sub(vals[0], Pow2(lsb)));
          }
        }
      } else {
        assert ComplementFrom(vals, last, fieldMask, lsb) == rest;
      }
    }
  }

  /**
   * parse_values as a loop, the way the generator runs it (shift and check
   * each value in order, sort, then emit value entries or walk the gaps),
   * with the range check and the gap starts as intended.
   */
  method ParseValues(spec: ValSpec, fieldMask: nat, lsb: nat, notIn: bool) returns (r: Result<seq<RangeEntry>>)
    ensures r == ParseValuesSpec(spec, fieldMask, lsb, notIn)
  {
    match spec
    case Span(base, bound) =>
      var b := Shl(base, lsb);
      var u := Shl(bound, lsb);
      if b > fieldMask || u > fieldMask {
        return Err(IllegalSpan);
      }
      var es: seq<RangeEntry> := [];
      if notIn {
        if b != 0 {
          es := es + [Interval(0, Sub(b, Pow2(lsb)))];
        }
        if u != fieldMask {
          es := es + [Interval(u + Pow2(lsb), fieldMask)];
        }
      } else {
        es := es + [Interval(b, u)];
      }
      assert es == SpanEntries(b, u, fieldMask, lsb, notIn);
      return Ok(es);
    case Listed(vals) =>
      if |vals| == 0 {
        return Err(NotANumber);
      }
      var values := ShiftChecked(vals, fieldMask, lsb);
      if values.None? {
        return Err(IllegalList);
      }
      var sorted := Sort(values.value);
      var es;
      if notIn {
        es := GapWalk(sorted, fieldMask, lsb);
      } else {
        es := ValueWalk(sorted);
      }
      return Ok(es);
  }

  /** The shifting loop: every value shifted by `lsb`, or `None` at the first one above the field mask. */
  method ShiftChecked(vals: seq<nat>, fieldMask: nat, lsb: nat) returns (r: Option<seq<nat>>)
    ensures r.None? <==> FirstAbove(ShiftAll(vals, lsb), fieldMask) < |vals|
    ensures r.Some? ==> r.value == ShiftAll(vals, lsb)
  {
    var values: seq<nat> := [];
    var k := 0;
    while k < |vals|
      invariant 0 <= k <= |vals|
      invariant values == ShiftAll(vals, lsb)[..k]
      invariant FirstAbove(ShiftAll(vals, lsb), fieldMask) >= k
    {
      var i := Shl(vals[k], lsb);
      if i > fieldMask {
        FirstAboveAt(ShiftAll(vals, lsb), fieldMask, k);
        return None;
      }
      values := values + [i];
      k := k + 1;
      FirstAboveNext(ShiftAll(vals, lsb), fieldMask, k);
    }
    assert values == ShiftAll(vals, lsb);
    return Some(values);
  }

  /** The `not in` loop over the sorted values, updating `last`. */
  method GapWalk(values: seq<nat>, fieldMask: nat, lsb: nat) returns (es: seq<RangeEntry>)
    ensures es == ComplementFrom(values, 0, fieldMask, lsb)
  {
    es := [];
    var last: nat := 0;
    var j := 0;
    assert values[j..] == values;
    while j < |values|
      invariant 0 <= j <= |values|
      invariant es + ComplementFrom(values[j..], last, fieldMask, lsb) == ComplementFrom(values, 0, fieldMask, lsb)
    {
      var i := values[j];
      assert values[j..][1..] == values[j + 1..];
      if i != last {
        es := es + [Interval(last, Sub(i, Pow2(lsb)))];
      }
      last := i + Pow2(lsb);
      j := j + 1;
    }
    assert values[j..] == [];
    if last <= fieldMask {
      es := es + [Interval(last, fieldMask)];
    }
  }

  /** The `in` loop: one value entry per sorted value. */
  method ValueWalk(values: seq<nat>) returns (es: seq<RangeEntry>)
    ensures es == ValueEntries(values)
  {
    es := [];
    var j := 0;
    while j < |values|
      invariant 0 <= j <= |values|
      invariant es == ValueEntries(values[..j])
    {
      assert values[..j + 1] == values[..j] + [values[j]];
      es := es + [Value(values[j])];
      j := j + 1;
    }
    assert values[..j] == values;
  }

  lemma FirstAboveAt(s: seq<nat>, fieldMask: nat, k: nat)
    requires k < |s| && s[k] > fieldMask && FirstAbove(s, fieldMask) >= k
    ensures FirstAbove(s, fieldMask) == k
  {
  }

  lemma FirstAboveNext(s: seq<nat>, fieldMask: nat, k: nat)
    requires 0 < k <= |s| && s[k - 1] <= fieldMask && FirstAbove(s, fieldMask) >= k - 1
    ensures FirstAbove(s, fieldMask) >= k
  {
  }

  /** Segments sorted by mask, widest (numerically largest) first. */
  predicate SortedByMask(segs: seq<RangeSegment>)
  {
    forall i, j :: 0 <= i < j < |segs| ==> segs[i].mask >= segs[j].mask
  }

  function InsertByMask(x: RangeSegment, s: seq<RangeSegment>): (r: seq<RangeSegment>)
    requires SortedByMask(s)
    ensures |r| == |s| + 1
    ensures r[0] == if |s| == 0 || x.mask >= s[0].mask then x else s[0]
    ensures SortedByMask(r)
    ensures multiset(r) == multiset(s) + multiset{x}
  {
    if |s| == 0 then [x]
    else if x.mask >= s[0].mask then [x] + s
    else
      var rest := InsertByMask(x, s[1..]);
      assert s == [s[0]] + s[1..];
      [s[0]] + rest
  }

  /** `range_list.sort(key = getMask, reverse=True)`. */
  function SortByMask(s: seq<RangeSegment>): (r: seq<RangeSegment>)
    ensures SortedByMask(r)
    ensures multiset(r) == multiset(s)
  {
    if |s| == 0 then []
    else
      assert s == [s[0]] + s[1..];
      InsertByMask(s[0], SortByMask(s[1..]))
  }

  /** The clause indices are usable: `lsb <= msb` in every clause. */
  predicate PartsWellFormed(parts: seq<LegalPart>)
  {
    forall k :: 0 <= k < |parts| ==> parts[k].lsb <= parts[k].msb
  }

  predicate HasBitmask(parts: seq<LegalPart>)
  {
    exists k :: 0 <= k < |parts| && parts[k].BitmaskPart?
  }

  /** The segment a range clause compiles to. */
  function SegmentOf(part: LegalPart): Result<RangeSegment>
    requires part.RangePart? && part.lsb <= part.msb
  {
    var fm := FieldMask(part.msb, part.lsb);
    var vs := ParseValuesSpec(part.spec, fm, part.lsb, part.notIn);
    if vs.Err? then Err(vs.error) else Ok(RangeSegment(fm, Pow2(part.lsb), vs.value))
  }

  /** A range clause whose values parse. */
  predicate Compiles(part: LegalPart)
  {
    part.RangePart? && part.lsb <= part.msb && SegmentOf(part).Ok?
  }

  predicate AllCompile(parts: seq<LegalPart>)
  {
    forall k :: 0 <= k < |parts| ==> Compiles(parts[k])
  }

  /** The compiled segments of the range clauses, in clause order. */
  function Segments(parts: seq<LegalPart>): (r: seq<RangeSegment>)
    requires AllCompile(parts)
    ensures |r| == |parts|
    ensures forall k :: 0 <= k < |r| ==> r[k] == SegmentOf(parts[k]).value
  {
    seq(|parts|, k requires 0 <= k < |parts| && AllCompile(parts) => SegmentOf(parts[k]).value)
  }

  lemma PrefixSnoc(parts: seq<LegalPart>, k: nat)
    requires k < |parts|
    ensures HasBitmask(parts[..k + 1]) == (HasBitmask(parts[..k]) || parts[k].BitmaskPart?)
    ensures AllCompile(parts[..k + 1]) == (AllCompile(parts[..k]) && Compiles(parts[k]))
    ensures AllCompile(parts[..k + 1]) ==> Segments(parts[..k + 1]) == Segments(parts[..k]) + [SegmentOf(parts[k]).value]
  {
    BitmaskSnoc(parts, k);
    CompileSnoc(parts, k);
    if AllCompile(parts[..k + 1]) {
      SegmentsSnoc(parts, k);
    }
  }

  lemma BitmaskSnoc(parts: seq<LegalPart>, k: nat)
    requires k < |parts|
    ensures HasBitmask(parts[..k + 1]) == (HasBitmask(parts[..k]) || parts[k].BitmaskPart?)
  {
    var a, b := parts[..k + 1], parts[..k];
    assert forall j :: 0 <= j < k ==> a[j] == b[j];
    assert a[k] == parts[k];
    if HasBitmask(a) && !parts[k].BitmaskPart? {
      var j :| 0 <= j < k + 1 && a[j].BitmaskPart?;
      assert b[j].BitmaskPart?;
    }
    if HasBitmask(b) {
      var j :| 0 <= j < k && b[j].BitmaskPart?;
      assert a[j].BitmaskPart?;
    }
  }

  lemma CompileSnoc(parts: seq<LegalPart>, k: nat)
    requires k < |parts|
    ensures AllCompile(parts[..k + 1]) == (AllCompile(parts[..k]) && Compiles(parts[k]))
  {
    var a, b := parts[..k + 1], parts[..k];
    assert forall j :: 0 <= j < k ==> a[j] == b[j];
    assert a[k] == parts[k];
  }

  /** A sequence one longer than another, agreeing with it and ending in `x`, is it with `x` appended. */
  lemma SnocEq<T>(sa: seq<T>, sb: seq<T>, x: T)
    requires |sa| == |sb| + 1 && sa[|sb|] == x
    requires forall j :: 0 <= j < |sb| ==> sa[j] == sb[j]
    ensures sa == sb + [x]
  {
  }

  lemma SegmentsSnoc(parts: seq<LegalPart>, k: nat)
    requires k < |parts| && AllCompile(parts[..k + 1])
    ensures AllCompile(parts[..k])
    ensures Segments(parts[..k + 1]) == Segments(parts[..k]) + [SegmentOf(parts[k]).value]
  {
    var a, b := parts[..k + 1], parts[..k];
    assert forall j :: 0 <= j < k ==> a[j] == b[j];
    assert a[k] == parts[k];
    assert AllCompile(b);
    var sa, sb := Segments(a), Segments(b);
    assert forall j :: 0 <= j < k ==> sa[j] == sb[j];
    SnocEq(sa, sb, SegmentOf(parts[k]).value);
  }

  /**
   * parse_field_range.  A bitmask clause is taken only as the first clause
   * (and ends the walk); a later one is reported as a mix of bitmask and
   * range.  Without a bitmask clause the compiled segments are returned
   * sorted by mask, widest first.
   */
  method ParseFieldRange(parts: seq<LegalPart>) returns (r: Result<Either>)
    requires PartsWellFormed(parts)
    ensures |parts| > 0 && parts[0].BitmaskPart? ==>
      r == Ok(Bitmask(BitmaskSpec(parts[0].mask, parts[0].fixed)))
    ensures HasBitmask(parts) && !(|parts| > 0 && parts[0].BitmaskPart?) ==> r.Err?
    ensures !HasBitmask(parts) ==>
      && (r.Ok? <==> AllCompile(parts))
      && (r.Ok? ==> (r.value.RangeList? && SortedByMask(r.value.segments)
                     && multiset(r.value.segments) == multiset(Segments(parts))))
  {
    var rangeList: seq<RangeSegment> := [];
    var k := 0;
    while k < |parts|
      invariant 0 <= k <= |parts|
      invariant !HasBitmask(parts[..k]) ==> AllCompile(parts[..k]) && rangeList == Segments(parts[..k])
      invariant k > 0 ==> parts[0].RangePart?
    {
      PrefixSnoc(parts, k);
      match parts[k] {
        case RangePart(msb, lsb, notIn, spec) =>
          var fm := FieldMask(msb, lsb);
          var vs := ParseValues(spec, fm, lsb, notIn);
          assert SegmentOf(parts[k]) == if vs.Err? then Err(vs.error) else Ok(RangeSegment(fm, Pow2(lsb), vs.value));
          if vs.Err? {
            NotAllCompile(parts, k);
            return Err(vs.error);
          }
          rangeList := rangeList + [RangeSegment(fm, Pow2(lsb), vs.value)];
        case BitmaskPart(_, _, mask, fixed) =>
          if rangeList == [] && k == 0 {
            return Ok(Bitmask(BitmaskSpec(mask, fixed)));
          }
          // a bitmask after a range clause is only reported
          BitmaskInside(parts, k);
      }
      k := k + 1;
    }
    assert parts[..k] == parts;
    if !HasBitmask(parts) {
      return Ok(RangeList(SortByMask(rangeList)));
    }
    return Err(CannotMix);
  }

  lemma NotAllCompile(parts: seq<LegalPart>, k: nat)
    requires k < |parts| && !Compiles(parts[k])
    ensures !AllCompile(parts)
  {
  }

  lemma BitmaskInside(parts: seq<LegalPart>, k: nat)
    requires k < |parts| && parts[k].BitmaskPart?
    ensures HasBitmask(parts)
  {
  }

  /** What parse_field_range hands back as text, down to its kind. */
  datatype RangeText = BitmaskText(bitmask: BitmaskSpec) | SegmentsText(segments: seq<RangeSegment>) | EmptyText

  /** Every range clause of `parts` compiles (bitmask clauses need not). */
  predicate RangePartsCompile(parts: seq<LegalPart>)
  {
    forall k :: 0 <= k < |parts| && parts[k].RangePart? ==> Compiles(parts[k])
  }

  /**
   * parse_field_range as written: a bitmask clause after a range clause is
   * only printed, the segment list is skipped because the legal string
   * contains 'bitmask', and the empty text is returned; the caller then
   * emits `WARL_bitmask()`, which names no bitmask.
   */
  function FieldRangeAsWritten(parts: seq<LegalPart>): (r: RangeText)
    requires PartsWellFormed(parts) && RangePartsCompile(parts)
    ensures HasBitmask(parts) && !parts[0].BitmaskPart? <==> r.EmptyText?
  {
    if |parts| > 0 && parts[0].BitmaskPart? then BitmaskText(BitmaskSpec(parts[0].mask, parts[0].fixed))
    else if HasBitmask(parts) then EmptyText
    else SegmentsText(SortByMask(Segments(parts)))
  }

  /** `[3:0] in [1]` followed by `[7:4] bitmask [0xF, 0]`: the generator carries on with empty text. */
  lemma MixedClausesEmptyAsWritten()
    ensures FieldRangeAsWritten([RangePart(3, 0, false, Listed([1])), BitmaskPart(7, 4, 0xF, 0)]) == EmptyText
  {
    var parts := [RangePart(3, 0, false, Listed([1])), BitmaskPart(7, 4, 0xF, 0)];
    assert parts[1].BitmaskPart?;
    FieldMaskBits(3, 0, 0);
    assert Pow2(0) == 1;
    assert SegmentOf(parts[0]).Ok?;
  }
}
