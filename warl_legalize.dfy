/**
 * The WARL legalizers that generated CSR write functions call.
 *
 * A CSR field value is a Sail `bits('n)`: a natural number below `2^n`.  A
 * legal-value description is either a list of segments (a bit mask, the
 * mask's lowest set bit `delta`, and the legal values of the masked bits) or
 * a bit mask with a default.  `LegalizeRangeList` walks the segments from the
 * most significant one, ORing each segment's legal field into the result and
 * accumulating in `msmask` the masks already settled.
 */
module WarlLegalize {
  import opened Wrappers
  import opened Bits
  import opened WarlRange

  datatype Mode = Unchanged | Nextup | Nextdown | Nearup | Neardown | Largest | Smallest | Addr

  datatype RangeSegment = RangeSegment(mask: nat, delta: nat, values: seq<RangeEntry>)

  datatype BitmaskSpec = BitmaskSpec(mask: nat, defaultVal: nat)

  datatype Either = RangeList(segments: seq<RangeSegment>) | Bitmask(bitmask: BitmaskSpec)

  /** is_value_in_rangelist: the masked bits of `value` are legal for every segment. */
  function InRangeList(n: nat, value: nat, segs: seq<RangeSegment>): bool
  {
    if |segs| == 0 then true
    else InRange(And(value, Trunc(segs[0].mask, n)), segs[0].values) && InRangeList(n, value, segs[1..])
  }

  lemma {:induction false} InRangeListMeaning(n: nat, value: nat, segs: seq<RangeSegment>)
    ensures InRangeList(n, value, segs) <==>
      forall k :: 0 <= k < |segs| ==> InRange(And(value, Trunc(segs[k].mask, n)), segs[k].values)
  {
    if |segs| > 0 {
      InRangeListMeaning(n, value, segs[1..]);
      assert forall k :: 0 < k < |segs| ==> segs[k] == segs[1..][k - 1];
    }
  }

  /** `written` with bit `n - 1` flipped (the `Addr` mode). */
  function FlipTop(n: nat, written: nat): (r: nat)
    requires n >= 1 && written < Pow2(n)
    ensures r < Pow2(n)
    ensures r == if written < Pow2(n - 1) then written + Pow2(n - 1) else written - Pow2(n - 1)
  {
    XorTopBit(written, n);
    Xor(written, Pow2(n - 1))
  }

  /** legalize_warl_range: resolve one segment. */
  function LegalizeRange(n: nat, current: nat, written: nat, seg: RangeSegment, mode: Mode): (r: Result<nat>)
    requires n >= 1 && current < Pow2(n) && written < Pow2(n)
    ensures r.Err? <==> mode != Unchanged && mode != Addr && |seg.values| == 0
    ensures r.Ok? ==> r.value < Pow2(n)
  {
    match mode
    case Unchanged => Ok(And(current, Trunc(seg.mask, n)))
    case Largest => Trunced(RangeMax(seg.values), n)
    case Smallest => Trunced(RangeMin(seg.values), n)
    case Nextup => Trunced(NextUp(current, seg.values), n)
    case Nextdown => Trunced(NextDown(current, seg.values), n)
    case Nearup => Trunced(NearUp(current, seg.values), n)
    case Neardown => Trunced(NearDown(current, seg.values), n)
    case Addr => Ok(FlipTop(n, written))
  }

  /** A resolver's result cut to `n` bits (Sail `to_bits('n, _)`). */
  function Trunced(r: Result<nat>, n: nat): (t: Result<nat>)
    ensures t.Err? == r.Err?
    ensures t.Ok? ==> t.value < Pow2(n)
  {
    if r.Err? then Err(r.error) else Ok(Trunc(r.value, n))
  }

  /** Only `Addr` looks at the written value; every other mode resolves from the current value. */
  lemma LegalizeRangeIgnoresWritten(n: nat, current: nat, w1: nat, w2: nat, seg: RangeSegment, mode: Mode)
    requires n >= 1 && current < Pow2(n) && w1 < Pow2(n) && w2 < Pow2(n)
    requires mode != Addr
    ensures LegalizeRange(n, current, w1, seg, mode) == LegalizeRange(n, current, w2, seg, mode)
  {
  }

  /** `Unchanged` keeps exactly the current value's bits that lie under the segment mask. */
  lemma LegalizeRangeUnchanged(n: nat, current: nat, written: nat, seg: RangeSegment)
    requires n >= 1 && current < Pow2(n) && written < Pow2(n)
    ensures var r := LegalizeRange(n, current, written, seg, Unchanged);
      r.Ok? && forall i: nat :: Bit(r.value, i) == (i < n && Bit(current, i) && Bit(seg.mask, i))
  {
    var r := LegalizeRange(n, current, written, seg, Unchanged).value;
    forall i: nat
      ensures Bit(r, i) == (i < n && Bit(current, i) && Bit(seg.mask, i))
    {
      AndBit(current, Trunc(seg.mask, n), i);
      TruncBit(seg.mask, n, i);
    }
  }

  /** The searching modes leave a legal current value as it is. */
  lemma LegalizeRangeKeepsLegal(n: nat, current: nat, written: nat, seg: RangeSegment, mode: Mode)
    requires n >= 1 && current < Pow2(n) && written < Pow2(n)
    requires mode in {Nextup, Nextdown, Nearup, Neardown}
    requires InRange(current, seg.values)
    ensures LegalizeRange(n, current, written, seg, mode) == Ok(current)
  {
    TruncFits(current, n);
  }

  /** `Largest` and `Smallest` pick the greatest and a least-ranked legal value of the segment. */
  lemma LegalizeRangeExtremes(n: nat, current: nat, written: nat, seg: RangeSegment)
    requires n >= 1 && current < Pow2(n) && written < Pow2(n)
    requires |seg.values| > 0 && WellFormed(seg.values)
    ensures var hi := RangeMax(seg.values).value;
      hi < Pow2(n) ==>
        LegalizeRange(n, current, written, seg, Largest) == Ok(hi) &&
        InRange(hi, seg.values) && forall x: nat :: InRange(x, seg.values) ==> x <= hi
    ensures var lo := RangeMin(seg.values).value;
      lo < Pow2(n) ==>
        LegalizeRange(n, current, written, seg, Smallest) == Ok(lo) && InRange(lo, seg.values)
  {
    var hi := RangeMax(seg.values).value;
    var lo := RangeMin(seg.values).value;
    if hi < Pow2(n) {
      TruncFits(hi, n);
    }
    if lo < Pow2(n) {
      TruncFits(lo, n);
    }
  }

  function ModeRank(mode: Mode): nat
  {
    if mode == Nearup || mode == Neardown then 2 else 1
  }

  /**
   * legalize_warl_rangelist.  `Unchanged` returns the current value, `Addr`
   * flips the top bit of the written value, the near modes choose between
   * the next-up and next-down legalizations, and the other modes walk the
   * segments (see `Segmented`).
   */
  function LegalizeRangeList(n: nat, current: nat, written: nat, segs: seq<RangeSegment>, mode: Mode, msmask: nat): (r: Result<nat>)
    requires n >= 1 && current < Pow2(n) && written < Pow2(n) && msmask < Pow2(n)
    ensures r.Ok? ==> r.value < Pow2(n)
    ensures r.Err? <==> mode != Unchanged && mode != Addr && HasEmptySegment(segs)
    decreases |segs|, ModeRank(mode), 1
  {
    match mode
    case Unchanged => Ok(current)
    case Addr => Ok(FlipTop(n, written))
    case Nearup => Near(n, current, written, segs, msmask, true)
    case Neardown => Near(n, current, written, segs, msmask, false)
    case Largest => Segmented(n, current, written, segs, mode, msmask)
    case Smallest => Segmented(n, current, written, segs, mode, msmask)
    case Nextup => Segmented(n, current, written, segs, mode, msmask)
    case Nextdown => Segmented(n, current, written, segs, mode, msmask)
  }

  /** Some segment has no legal values, so a resolver throws "Empty WARL range". */
  predicate HasEmptySegment(segs: seq<RangeSegment>)
  {
    exists k :: 0 <= k < |segs| && |segs[k].values| == 0
  }

  lemma HasEmptySegmentHead(segs: seq<RangeSegment>)
    requires |segs| > 0
    ensures HasEmptySegment(segs) == (|segs[0].values| == 0 || HasEmptySegment(segs[1..]))
  {
    if HasEmptySegment(segs) {
      var k :| 0 <= k < |segs| && |segs[k].values| == 0;
      if k > 0 {
        assert |segs[1..][k - 1].values| == 0;
      }
    }
    if HasEmptySegment(segs[1..]) {
      var k :| 0 <= k < |segs[1..]| && |segs[1..][k].values| == 0;
      assert segs[1..][k] == segs[k + 1];
    }
  }

  /** The written value with the already settled (more significant) segments masked off. */
  function Unsettled(n: nat, written: nat, msmask: nat): nat
  {
    And(written, Not(msmask, n))
  }

  /** The `Nearup` (`up` true) and `Neardown` branch of legalize_warl_rangelist. */
  function Near(n: nat, current: nat, written: nat, segs: seq<RangeSegment>, msmask: nat, up: bool): (r: Result<nat>)
    requires n >= 1 && current < Pow2(n) && written < Pow2(n) && msmask < Pow2(n)
    ensures r.Ok? ==> r.value < Pow2(n)
    ensures r.Err? <==> HasEmptySegment(segs)
    decreases |segs|, 2, 0
  {
    var nextup := LegalizeRangeList(n, current, written, segs, Nextup, msmask);
    if nextup.Err? then nextup
    else
      var nextdown := LegalizeRangeList(n, current, written, segs, Nextdown, msmask);
      if nextdown.Err? then nextdown
      else
        var cur := Unsettled(n, written, msmask);
        var u := nextup.value;
        var d := nextdown.value;
        if u == d then Ok(u)
        else if (if up then u - cur <= cur - d else u - cur < cur - d) then Ok(u)
        else Ok(d)
  }

  /**
   * The segment walk of legalize_warl_rangelist for `Largest`, `Smallest`,
   * `Nextup` and `Nextdown`.  The first segment is resolved with
   * `LegalizeRange`; the rest is resolved with the same mode, or, once the
   * first segment's field went above (below) the written field, with
   * `Smallest` (`Largest`).  When the fields tie and the combination does not
   * move in the search direction, the search is retried from the written
   * field plus (minus) `delta`.
   */
  function Segmented(n: nat, current: nat, written: nat, segs: seq<RangeSegment>, mode: Mode, msmask: nat): (r: Result<nat>)
    requires n >= 1 && current < Pow2(n) && written < Pow2(n) && msmask < Pow2(n)
    requires mode in {Largest, Smallest, Nextup, Nextdown}
    ensures r.Ok? ==> r.value < Pow2(n)
    ensures r.Err? <==> HasEmptySegment(segs)
    decreases |segs|, 1, 0
  {
    if |segs| == 0 then Ok(0)
    else
      HasEmptySegmentHead(segs);
      var v := segs[0];
      var fieldMask := Trunc(v.mask, n);
      var cur := And(written, fieldMask);
      var settled := Or(msmask, fieldMask);
      OrBound(msmask, fieldMask, n);
      var ms := LegalizeRange(n, current, cur, v, mode);
      if ms.Err? then ms
      else if mode == Largest || mode == Smallest then
        Combine(ms.value, LegalizeRangeList(n, current, written, segs[1..], mode, settled), n)
      else if mode == Nextup then
        if ms.value > cur then
          Combine(ms.value, LegalizeRangeList(n, current, written, segs[1..], Smallest, settled), n)
        else if ms.value < cur then
          Combine(ms.value, LegalizeRangeList(n, current, written, segs[1..], Largest, settled), n)
        else
          var ls := LegalizeRangeList(n, current, written, segs[1..], mode, settled);
          if ls.Err? then ls
          else
            OrBound(ms.value, ls.value, n);
            var value := Or(ms.value, ls.value);
            if value > Unsettled(n, written, msmask) then Ok(value)
            else
              var retry := LegalizeRange(n, current, Wrap(cur + v.delta, n), v, mode);
              if retry.value >= cur then
                Combine(retry.value, LegalizeRangeList(n, current, written, segs[1..], Smallest, settled), n)
              else Ok(value)
      else
        if ms.value > cur then
          Combine(ms.value, LegalizeRangeList(n, current, written, segs[1..], Smallest, settled), n)
        else if ms.value < cur then
          Combine(ms.value, LegalizeRangeList(n, current, written, segs[1..], Largest, settled), n)
        else
          var ls := LegalizeRangeList(n, current, written, segs[1..], mode, settled);
          if ls.Err? then ls
          else
            OrBound(ms.value, ls.value, n);
            var value := Or(ms.value, ls.value);
            if value < Unsettled(n, written, msmask) then Ok(value)
            else
              var retry := LegalizeRange(n, current, Wrap(cur - v.delta, n), v, mode);
              if retry.value <= cur then
                Combine(retry.value, LegalizeRangeList(n, current, written, segs[1..], Largest, settled), n)
              else Ok(value)
  }

  /** `ms | rest`, passing on a failure of `rest`. */
  function Combine(ms: nat, rest: Result<nat>, n: nat): (r: Result<nat>)
    requires ms < Pow2(n)
    requires rest.Ok? ==> rest.value < Pow2(n)
    ensures r.Err? == rest.Err?
    ensures r.Ok? ==> r.value < Pow2(n) && r.value >= ms
  {
    if rest.Err? then Err(rest.error)
    else
      OrBound(ms, rest.value, n);
      Ok(Or(ms, rest.value))
  }

  /** legalize_warl_bitmask: keep the masked bits of the value and set the default bits. */
  function LegalizeBitmask(n: nat, value: nat, b: BitmaskSpec): (r: nat)
    requires value < Pow2(n)
    ensures r < Pow2(n)
  {
    OrBound(And(value, Trunc(b.mask, n)), Trunc(b.defaultVal, n), n);
    Or(And(value, Trunc(b.mask, n)), Trunc(b.defaultVal, n))
  }

  /** legalize_warl_either: bitmasks legalize the written value; range lists start with nothing settled. */
  function LegalizeEither(n: nat, current: nat, written: nat, e: Either, mode: Mode): (r: Result<nat>)
    requires n >= 1 && current < Pow2(n) && written < Pow2(n)
    ensures r.Ok? ==> r.value < Pow2(n)
    ensures e.Bitmask? ==> r.Ok?
  {
    match e
    case RangeList(segs) => LegalizeRangeList(n, current, written, segs, mode, 0)
    case Bitmask(b) => Ok(LegalizeBitmask(n, written, b))
  }

  /** With no segments every searching mode yields 0. */
  lemma LegalizeRangeListEmpty(n: nat, current: nat, written: nat, mode: Mode, msmask: nat)
    requires n >= 1 && current < Pow2(n) && written < Pow2(n) && msmask < Pow2(n)
    requires mode != Unchanged && mode != Addr
    ensures LegalizeRangeList(n, current, written, [], mode, msmask) == Ok(0)
  {
  }

  /** `Unchanged` returns the current value unmasked, whatever the written value and the segments. */
  lemma LegalizeRangeListUnchanged(n: nat, current: nat, written: nat, segs: seq<RangeSegment>, msmask: nat)
    requires n >= 1 && current < Pow2(n) && written < Pow2(n) && msmask < Pow2(n)
    ensures LegalizeRangeList(n, current, written, segs, Unchanged, msmask) == Ok(current)
  {
  }

  /** `Addr` flips the most significant bit of the written value, whatever the segments. */
  lemma LegalizeRangeListAddr(n: nat, current: nat, written: nat, segs: seq<RangeSegment>, msmask: nat)
    requires n >= 1 && current < Pow2(n) && written < Pow2(n) && msmask < Pow2(n)
    ensures var r := LegalizeRangeList(n, current, written, segs, Addr, msmask);
      r.Ok? && (written < Pow2(n - 1) ==> r.value == written + Pow2(n - 1))
            && (written >= Pow2(n - 1) ==> r.value == written - Pow2(n - 1))
  {
  }

  /**
   * The near modes: both candidates are the next-up and next-down
   * legalizations; equal candidates are returned as they are, otherwise the
   * one nearer to the unsettled written bits wins, ties going up for
   * `Nearup` and down for `Neardown`.
   */
  lemma NearTieBreak(n: nat, current: nat, written: nat, segs: seq<RangeSegment>, mode: Mode, msmask: nat)
    requires n >= 1 && current < Pow2(n) && written < Pow2(n) && msmask < Pow2(n)
    requires mode == Nearup || mode == Neardown
    requires !HasEmptySegment(segs)
    ensures var up := LegalizeRangeList(n, current, written, segs, Nextup, msmask).value;
      var down := LegalizeRangeList(n, current, written, segs, Nextdown, msmask).value;
      var cur := Unsettled(n, written, msmask);
      var r := LegalizeRangeList(n, current, written, segs, mode, msmask).value;
      && (r == up || r == down)
      && (up == down ==> r == up)
      && (up != down && mode == Nearup ==> (r == up <==> up - cur <= cur - down))
      && (up != down && mode == Neardown ==> (r == up <==> up - cur < cur - down))
  {
  }

  /** `Largest` and `Smallest` depend only on the segments, never on the current, written or settled bits. */
  lemma {:induction false} ExtremesIgnoreValues(n: nat, c1: nat, w1: nat, m1: nat, c2: nat, w2: nat, m2: nat,
                                                segs: seq<RangeSegment>, mode: Mode)
    requires n >= 1 && c1 < Pow2(n) && w1 < Pow2(n) && m1 < Pow2(n)
    requires c2 < Pow2(n) && w2 < Pow2(n) && m2 < Pow2(n)
    requires mode == Largest || mode == Smallest
    ensures LegalizeRangeList(n, c1, w1, segs, mode, m1) == LegalizeRangeList(n, c2, w2, segs, mode, m2)
    decreases |segs|
  {
    if |segs| > 0 {
      var f := Trunc(segs[0].mask, n);
      OrBound(m1, f, n);
      OrBound(m2, f, n);
      ExtremesIgnoreValues(n, c1, w1, Or(m1, f), c2, w2, Or(m2, f), segs[1..], mode);
    }
  }

  /** Every endpoint of a segment's legal values uses only bits of the segment's mask. */
  predicate EndpointsWithin(es: seq<RangeEntry>, mask: nat)
  {
    forall i :: 0 <= i < |es| ==> Within(Lower(es[i]), mask) && Within(Upper(es[i]), mask)
  }

  /** A segment the generator can emit: a mask inside the word and legal values under that mask. */
  predicate SegmentFits(n: nat, seg: RangeSegment)
  {
    seg.mask < Pow2(n) && |seg.values| > 0 && WellFormed(seg.values) && EndpointsWithin(seg.values, seg.mask)
  }

  /** Every segment fits and no two segments share a mask bit. */
  predicate SegmentsFit(n: nat, segs: seq<RangeSegment>)
  {
    && (forall k :: 0 <= k < |segs| ==> SegmentFits(n, segs[k]))
    && (forall j, k :: 0 <= j < k < |segs| ==> Disjoint(segs[j].mask, segs[k].mask))
  }

  /** The value `Largest` or `Smallest` puts into a fitting segment. */
  lemma PickFits(n: nat, current: nat, seg: RangeSegment, mode: Mode)
    requires n >= 1 && current < Pow2(n) && SegmentFits(n, seg)
    requires mode == Largest || mode == Smallest
    ensures var p := LegalizeRange(n, current, 0, seg, mode).value;
      Within(p, seg.mask) && InRange(p, seg.values)
  {
    var e := if mode == Largest then RangeMax(seg.values).value else RangeMin(seg.values).value;
    var i :| 0 <= i < |seg.values| && (e == Lower(seg.values[i]) || e == Upper(seg.values[i]));
    assert Within(e, seg.mask);
    assert e <= seg.mask;
    TruncFits(e, n);
  }

  /** A bit of the `Largest`/`Smallest` result is set exactly when it is set in some segment's pick. */
  lemma {:induction false} ExtremesBits(n: nat, current: nat, written: nat, segs: seq<RangeSegment>, mode: Mode, msmask: nat, i: nat)
    requires n >= 1 && current < Pow2(n) && written < Pow2(n) && msmask < Pow2(n)
    requires mode == Largest || mode == Smallest
    requires !HasEmptySegment(segs)
    ensures Bit(LegalizeRangeList(n, current, written, segs, mode, msmask).value, i) <==>
      exists k :: 0 <= k < |segs| && Bit(LegalizeRange(n, current, 0, segs[k], mode).value, i)
    decreases |segs|
  {
    if |segs| == 0 {
      BitOfZero(i);
    } else {
      HasEmptySegmentHead(segs);
      var f := Trunc(segs[0].mask, n);
      OrBound(msmask, f, n);
      var rest := LegalizeRangeList(n, current, written, segs[1..], mode, Or(msmask, f)).value;
      var p0 := LegalizeRange(n, current, 0, segs[0], mode).value;
      assert LegalizeRangeList(n, current, written, segs, mode, msmask).value == Or(p0, rest);
      OrBit(p0, rest, i);
      ExtremesBits(n, current, written, segs[1..], mode, Or(msmask, f), i);
      forall k | 0 <= k < |segs[1..]|
        ensures segs[1..][k] == segs[k + 1]
      {
      }
      if Bit(rest, i) {
        var k :| 0 <= k < |segs[1..]| && Bit(LegalizeRange(n, current, 0, segs[1..][k], mode).value, i);
        assert Bit(LegalizeRange(n, current, 0, segs[k + 1], mode).value, i);
      }
      if exists k :: 0 <= k < |segs| && Bit(LegalizeRange(n, current, 0, segs[k], mode).value, i) {
        var k :| 0 <= k < |segs| && Bit(LegalizeRange(n, current, 0, segs[k], mode).value, i);
        if k > 0 {
          assert Bit(LegalizeRange(n, current, 0, segs[1..][k - 1], mode).value, i);
        }
      }
    }
  }

  /**
   * On segments the generator can emit, `Largest` and `Smallest` always
   * produce a legal value: each segment's masked bits are that segment's pick.
   */
  lemma ExtremesAreLegal(n: nat, current: nat, written: nat, segs: seq<RangeSegment>, mode: Mode)
    requires n >= 1 && current < Pow2(n) && written < Pow2(n)
    requires mode == Largest || mode == Smallest
    requires SegmentsFit(n, segs)
    ensures var r := LegalizeRangeList(n, current, written, segs, mode, 0);
      r.Ok? && InRangeList(n, r.value, segs)
  {
    var r := LegalizeRangeList(n, current, written, segs, mode, 0).value;
    forall k | 0 <= k < |segs|
      ensures InRange(And(r, Trunc(segs[k].mask, n)), segs[k].values)
    {
      var mk := segs[k].mask;
      var pk := LegalizeRange(n, current, 0, segs[k], mode).value;
      PickFits(n, current, segs[k], mode);
      TruncFits(mk, n);
      forall i: nat
        ensures Bit(And(r, mk), i) == Bit(pk, i)
      {
        AndBit(r, mk, i);
        ExtremesBits(n, current, written, segs, mode, 0, i);
        WithinBit(pk, mk, i);
        if Bit(r, i) && Bit(mk, i) {
          var j :| 0 <= j < |segs| && Bit(LegalizeRange(n, current, 0, segs[j], mode).value, i);
          if j != k {
            PickFits(n, current, segs[j], mode);
            WithinBit(LegalizeRange(n, current, 0, segs[j], mode).value, segs[j].mask, i);
            if j < k {
              DisjointBit(segs[j].mask, mk, i);
            } else {
              DisjointBit(mk, segs[j].mask, i);
            }
          }
        }
      }
      Equal(And(r, mk), pk);
    }
    InRangeListMeaning(n, r, segs);
  }

  /**
   * In `Nextup` mode the most significant segment's field is always the
   * next-up search of the current value.  Above the written field the rest
   * is filled with `Smallest`, below it with `Largest`; on a tie the rest is
   * searched with `Nextup` and, if that does not move above the unsettled
   * written bits, filled with `Smallest`.  The retry from the written field
   * plus `delta` never finds a different field, because `LegalizeRange`
   * only looks at the written value in `Addr` mode.
   */
  lemma NextupFirstSegment(n: nat, current: nat, written: nat, segs: seq<RangeSegment>, msmask: nat)
    requires n >= 1 && current < Pow2(n) && written < Pow2(n) && msmask < Pow2(n)
    requires |segs| > 0 && !HasEmptySegment(segs)
    ensures var f := Trunc(segs[0].mask, n);
      var ms := LegalizeRange(n, current, 0, segs[0], Nextup).value;
      var cur := And(written, f);
      var settled := Or(msmask, f);
      settled < Pow2(n) &&
      var smallest := Or(ms, LegalizeRangeList(n, current, written, segs[1..], Smallest, settled).value);
      var largest := Or(ms, LegalizeRangeList(n, current, written, segs[1..], Largest, settled).value);
      var next := Or(ms, LegalizeRangeList(n, current, written, segs[1..], Nextup, settled).value);
      LegalizeRangeList(n, current, written, segs, Nextup, msmask).value ==
        if ms > cur then smallest
        else if ms < cur then largest
        else if next > Unsettled(n, written, msmask) then next
        else smallest
  {
    HasEmptySegmentHead(segs);
    var f := Trunc(segs[0].mask, n);
    OrBound(msmask, f, n);
    var cur := And(written, f);
    LegalizeRangeIgnoresWritten(n, current, 0, cur, segs[0], Nextup);
    LegalizeRangeIgnoresWritten(n, current, 0, Wrap(cur + segs[0].delta, n), segs[0], Nextup);
    assert LegalizeRangeList(n, current, written, segs, Nextup, msmask) == Segmented(n, current, written, segs, Nextup, msmask);
  }

  lemma OrZero(a: nat)
    ensures Or(a, 0) == a
  {
  }

  /**
   * A write to a one-segment field in `Nextup` mode whose current value is
   * legal leaves the current value, whatever was written.
   */
  lemma NextupSingleKeepsCurrent(n: nat, current: nat, written: nat, seg: RangeSegment)
    requires n >= 1 && current < Pow2(n) && written < Pow2(n)
    requires InRange(current, seg.values)
    ensures LegalizeRangeList(n, current, written, [seg], Nextup, 0) == Ok(current)
  {
    assert |seg.values| > 0;
    assert !HasEmptySegment([seg]);
    NextupFirstSegment(n, current, written, [seg], 0);
    LegalizeRangeKeepsLegal(n, current, 0, seg, Nextup);
    assert [seg][1..] == [];
    var settled := Or(0, Trunc(seg.mask, n));
    LegalizeRangeListEmpty(n, current, written, Smallest, settled);
    LegalizeRangeListEmpty(n, current, written, Largest, settled);
    LegalizeRangeListEmpty(n, current, written, Nextup, settled);
    OrZero(current);
  }

  /**
   * A legal write to a one-segment field is dropped in `Nextup` mode: the
   * field keeps its legal current value 1 although 2 was written and is legal.
   */
  lemma NextupIgnoresLegalWrite()
    ensures var seg := RangeSegment(3, 1, [Interval(0, 3)]);
      InRangeList(2, 2, [seg]) && LegalizeRangeList(2, 1, 2, [seg], Nextup, 0) == Ok(1)
  {
    var seg := RangeSegment(3, 1, [Interval(0, 3)]);
    assert Pow2(2) == 4;
    assert InRange(1, seg.values);
    NextupSingleKeepsCurrent(2, 1, 2, seg);
    assert Trunc(3, 2) == 3;
    assert And(2, 3) == 2 by { assert And(1, 1) == 1; }
    assert InRange(2, seg.values);
    assert [seg][1..] == [];
  }

  /** Bit `i` of a bitmask legalization is the value's bit under the mask, or the default's bit. */
  lemma LegalizeBitmaskBits(n: nat, value: nat, b: BitmaskSpec, i: nat)
    requires value < Pow2(n)
    ensures Bit(LegalizeBitmask(n, value, b), i) ==
      (i < n && ((Bit(value, i) && Bit(b.mask, i)) || Bit(b.defaultVal, i)))
  {
    OrBit(And(value, Trunc(b.mask, n)), Trunc(b.defaultVal, n), i);
    AndBit(value, Trunc(b.mask, n), i);
    TruncBit(b.mask, n, i);
    TruncBit(b.defaultVal, n, i);
    BelowPow2(value, n);
  }

  /** Legalizing an already legalized value changes nothing. */
  lemma LegalizeBitmaskIdempotent(n: nat, value: nat, b: BitmaskSpec)
    requires value < Pow2(n)
    ensures LegalizeBitmask(n, LegalizeBitmask(n, value, b), b) == LegalizeBitmask(n, value, b)
  {
    var once := LegalizeBitmask(n, value, b);
    forall i: nat
      ensures Bit(LegalizeBitmask(n, once, b), i) == Bit(once, i)
    {
      LegalizeBitmaskBits(n, value, b, i);
      LegalizeBitmaskBits(n, once, b, i);
    }
    Equal(LegalizeBitmask(n, once, b), once);
  }

  /** The worked example: 0xFF under mask 0x0F with default 0x10 becomes 0x1F. */
  lemma LegalizeBitmaskExample()
    ensures LegalizeBitmask(8, 0xFF, BitmaskSpec(0x0F, 0x10)) == 0x1F
  {
    assert Pow2(8) == 256;
    TruncFits(0x0F, 8);
    TruncFits(0x10, 8);
  }

  /** A bitmask legalization depends on the written value only, never on the current value or the mode. */
  lemma LegalizeEitherBitmask(n: nat, c1: nat, c2: nat, written: nat, b: BitmaskSpec, m1: Mode, m2: Mode)
    requires n >= 1 && c1 < Pow2(n) && c2 < Pow2(n) && written < Pow2(n)
    ensures LegalizeEither(n, c1, written, Bitmask(b), m1) == LegalizeEither(n, c2, written, Bitmask(b), m2)
    ensures LegalizeEither(n, c1, written, Bitmask(b), m1) == Ok(LegalizeBitmask(n, written, b))
  {
  }
}
