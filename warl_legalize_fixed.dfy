/**
 * The WARL range-list legalizer as evidently intended.
 *
 * As written, legalize_warl_range answers the searching modes from the whole
 * current value, while legalize_warl_rangelist compares that answer with the
 * written field of the segment and retries from the written field plus (minus)
 * `delta`.  The written value then plays no part in where the search lands,
 * so a legal write to the field is dropped.  The corrected legalizer
 * below searches every segment from its written field, uses the corrected
 * point resolvers of `WarlRange`, and accepts a composed value that equals the
 * unsettled written bits.  On the segments the generator emits it yields a
 * legal value in every searching mode, and it keeps a legal written value.
 */
module WarlLegalizeFixed {
  import opened Wrappers
  import opened Bits
  import opened WarlRange
  import opened WarlLegalize
  import WarlParse

  /** legalize_warl_range for the searching modes, searching from the written `field`. */
  function PickFixed(n: nat, field: nat, seg: RangeSegment, mode: Mode): (r: Result<nat>)
    requires mode in {Largest, Smallest, Nextup, Nextdown}
    ensures r.Err? <==> |seg.values| == 0
    ensures r.Ok? ==> r.value < Pow2(n)
  {
    if mode == Largest then Trunced(RangeMax(seg.values), n)
    else if mode == Smallest then Trunced(RangeMinFixed(seg.values), n)
    else if mode == Nextup then Trunced(NextUpFixed(field, seg.values), n)
    else Trunced(NextDownFixed(field, seg.values), n)
  }

  /** legalize_warl_rangelist as evidently intended. */
  function LegalizeRangeListFixed(n: nat, current: nat, written: nat, segs: seq<RangeSegment>, mode: Mode, msmask: nat): (r: Result<nat>)
    requires n >= 1 && current < Pow2(n) && written < Pow2(n) && msmask < Pow2(n)
    ensures r.Ok? ==> r.value < Pow2(n)
    ensures r.Err? <==> mode != Unchanged && mode != Addr && HasEmptySegment(segs)
    decreases |segs|, ModeRank(mode), 1
  {
    match mode
    case Unchanged => Ok(current)
    case Addr => Ok(FlipTop(n, written))
    case Nearup => NearFixed(n, current, written, segs, msmask, true)
    case Neardown => NearFixed(n, current, written, segs, msmask, false)
    case Largest => SegmentedFixed(n, current, written, segs, mode, msmask)
    case Smallest => SegmentedFixed(n, current, written, segs, mode, msmask)
    case Nextup => SegmentedFixed(n, current, written, segs, mode, msmask)
    case Nextdown => SegmentedFixed(n, current, written, segs, mode, msmask)
  }

  /** The near modes: the candidate nearer to the unsettled written bits, ties going up for `Nearup`. */
  function NearFixed(n: nat, current: nat, written: nat, segs: seq<RangeSegment>, msmask: nat, up: bool): (r: Result<nat>)
    requires n >= 1 && current < Pow2(n) && written < Pow2(n) && msmask < Pow2(n)
    ensures r.Ok? ==> r.value < Pow2(n)
    ensures r.Err? <==> HasEmptySegment(segs)
    decreases |segs|, 2, 0
  {
    var nextup := LegalizeRangeListFixed(n, current, written, segs, Nextup, msmask);
    if nextup.Err? then nextup
    else
      var nextdown := LegalizeRangeListFixed(n, current, written, segs, Nextdown, msmask);
      if nextdown.Err? then nextdown
      else
        var cur := Unsettled(n, written, msmask);
        var u := nextup.value;
        var d := nextdown.value;
        if u == d then Ok(u)
        else if (if up then u - cur <= cur - d else u - cur < cur - d) then Ok(u)
        else Ok(d)
  }

  /**
   * The segment walk, each segment searched from its written field.  On a
   * tie the composed value is kept when it is at or above (at or below) the
   * unsettled written bits; otherwise the segment is searched again from the
   * written field plus (minus) `delta`.
   */
  function SegmentedFixed(n: nat, current: nat, written: nat, segs: seq<RangeSegment>, mode: Mode, msmask: nat): (r: Result<nat>)
    requires n >= 1 && current < Pow2(n) && written < Pow2(n) && msmask < Pow2(n)
    requires mode in {Largest, Smallest, Nextup, Nextdown}
    ensures r.Ok? ==> r.value < Pow2(n)
    ensures r.Err? <==> HasEmptySegment(segs)
    decreases |segs|, 1, 0
  {
    if |segs| == 0 then Ok(0)
    else
      HasEmptySegmentHead(segs);
      var v := segs[0];
      var fieldMask := Trunc(v.mask, n);
      var cur := And(written, fieldMask);
      var settled := Or(msmask, fieldMask);
      OrBound(msmask, fieldMask, n);
      var ms := PickFixed(n, cur, v, mode);
      if ms.Err? then ms
      else if mode == Largest || mode == Smallest then
        Combine(ms.value, LegalizeRangeListFixed(n, current, written, segs[1..], mode, settled), n)
      else if ms.value > cur then
        Combine(ms.value, LegalizeRangeListFixed(n, current, written, segs[1..], Smallest, settled), n)
      else if ms.value < cur then
        Combine(ms.value, LegalizeRangeListFixed(n, current, written, segs[1..], Largest, settled), n)
      else
        var ls := LegalizeRangeListFixed(n, current, written, segs[1..], mode, settled);
        if ls.Err? then ls
        else
          OrBound(ms.value, ls.value, n);
          var value := Or(ms.value, ls.value);
          if mode == Nextup then
            if value >= Unsettled(n, written, msmask) then Ok(value)
            else
              var retry := PickFixed(n, Retry(n, cur, v, mode), v, mode);
              if retry.value >= cur then
                Combine(retry.value, LegalizeRangeListFixed(n, current, written, segs[1..], Smallest, settled), n)
              else Ok(value)
          else
            if value <= Unsettled(n, written, msmask) then Ok(value)
            else
              var retry := PickFixed(n, Retry(n, cur, v, mode), v, mode);
              if retry.value <= cur then
                Combine(retry.value, LegalizeRangeListFixed(n, current, written, segs[1..], Largest, settled), n)
              else Ok(value)
  }

  /** The field a retry searches from: the written field stepped up (down) by `delta`. */
  function Retry(n: nat, cur: nat, seg: RangeSegment, mode: Mode): nat
  {
    if mode == Nextup then Wrap(cur + seg.delta, n) else Wrap(cur - seg.delta, n)
  }

  // ---------------------------------------------------------------------
  // Bit facts used by the legality proofs.

  lemma AndOrDistrib(p: nat, q: nat, m: nat)
    ensures And(Or(p, q), m) == Or(And(p, m), And(q, m))
  {
    forall i: nat
      ensures Bit(And(Or(p, q), m), i) == Bit(Or(And(p, m), And(q, m)), i)
    {
      AndBit(Or(p, q), m, i);
      OrBit(p, q, i);
      AndBit(p, m, i);
      AndBit(q, m, i);
      OrBit(And(p, m), And(q, m), i);
    }
    Equal(And(Or(p, q), m), Or(And(p, m), And(q, m)));
  }

  lemma WithinDisjoint(a: nat, m: nat, d: nat)
    requires Within(a, m) && Disjoint(m, d)
    ensures Disjoint(a, d) && Disjoint(d, a)
  {
    forall i: nat
      ensures !Bit(And(a, d), i) && !Bit(And(d, a), i)
    {
      AndBit(a, d, i);
      AndBit(d, a, i);
      WithinBit(a, m, i);
      DisjointBit(m, d, i);
    }
    forall i: nat
      ensures Bit(And(a, d), i) == Bit(0, i) && Bit(And(d, a), i) == Bit(0, i)
    {
      BitOfZero(i);
    }
    Equal(And(a, d), 0);
    Equal(And(d, a), 0);
  }

  lemma DisjointUnion(m: nat, a: nat, b: nat)
    requires Disjoint(m, a) && Disjoint(m, b)
    ensures Disjoint(m, Or(a, b))
  {
    forall i: nat
      ensures Bit(And(m, Or(a, b)), i) == Bit(0, i)
    {
      AndBit(m, Or(a, b), i);
      OrBit(a, b, i);
      DisjointBit(m, a, i);
      DisjointBit(m, b, i);
      BitOfZero(i);
    }
    Equal(And(m, Or(a, b)), 0);
  }

  lemma DisjointSym(a: nat, b: nat)
    requires Disjoint(a, b)
    ensures Disjoint(b, a)
  {
    forall i: nat
      ensures Bit(And(b, a), i) == Bit(0, i)
    {
      AndBit(a, b, i);
      AndBit(b, a, i);
      BitOfZero(i);
    }
    Equal(And(b, a), 0);
  }

  lemma WithinOr(p: nat, m1: nat, q: nat, m2: nat)
    requires Within(p, m1) && Within(q, m2)
    ensures Within(Or(p, q), Or(m1, m2))
  {
    forall i: nat
      ensures Bit(And(Or(p, q), Or(m1, m2)), i) == Bit(Or(p, q), i)
    {
      AndBit(Or(p, q), Or(m1, m2), i);
      OrBit(p, q, i);
      OrBit(m1, m2, i);
      WithinBit(p, m1, i);
      WithinBit(q, m2, i);
    }
    Equal(And(Or(p, q), Or(m1, m2)), Or(p, q));
  }

  lemma AndWithin(w: nat, m: nat)
    ensures Within(And(w, m), m)
  {
    forall i: nat
      ensures Bit(And(And(w, m), m), i) == Bit(And(w, m), i)
    {
      AndBit(And(w, m), m, i);
      AndBit(w, m, i);
    }
    Equal(And(And(w, m), m), And(w, m));
  }

  lemma WithinBelow(a: nat, m: nat)
    requires Within(a, m)
    ensures a <= m
  {
  }

  // ---------------------------------------------------------------------
  // Legality of a composed value.

  /** The bits of all segment masks. */
  function MaskUnion(segs: seq<RangeSegment>): (u: nat)
    ensures forall k :: 0 <= k < |segs| ==> Within(segs[k].mask, u)
  {
    if |segs| == 0 then 0
    else
      var rest := MaskUnion(segs[1..]);
      forall k | 0 <= k < |segs|
        ensures Within(segs[k].mask, Or(segs[0].mask, rest))
      {
        if k == 0 {
          AndWithin(segs[0].mask, segs[0].mask);
          OrWithinLeft(segs[0].mask, rest);
        } else {
          assert segs[k] == segs[1..][k - 1];
          WithinOrRight(segs[k].mask, segs[0].mask, rest);
        }
      }
      Or(segs[0].mask, rest)
  }

  lemma OrWithinLeft(a: nat, b: nat)
    ensures Within(a, Or(a, b))
  {
    forall i: nat
      ensures Bit(And(a, Or(a, b)), i) == Bit(a, i)
    {
      AndBit(a, Or(a, b), i);
      OrBit(a, b, i);
    }
    Equal(And(a, Or(a, b)), a);
  }

  lemma WithinOrRight(x: nat, a: nat, b: nat)
    requires Within(x, b)
    ensures Within(x, Or(a, b))
  {
    forall i: nat
      ensures Bit(And(x, Or(a, b)), i) == Bit(x, i)
    {
      AndBit(x, Or(a, b), i);
      OrBit(a, b, i);
      WithinBit(x, b, i);
    }
    Equal(And(x, Or(a, b)), x);
  }

  /** `r` uses only the segments' bits and every segment's field of `r` is legal. */
  predicate FieldsLegal(n: nat, r: nat, segs: seq<RangeSegment>)
  {
    Within(r, MaskUnion(segs)) && InRangeList(n, r, segs)
  }

  /** Stepping the field value `x` by `delta` either way lands on a legal value only inside the field. */
  predicate StepsFrom(n: nat, seg: RangeSegment, x: nat)
  {
    && (InRange(Wrap(x + seg.delta, n), seg.values) ==> Within(Wrap(x + seg.delta, n), seg.mask))
    && (InRange(Wrap(x - seg.delta, n), seg.values) ==> Within(Wrap(x - seg.delta, n), seg.mask))
  }

  /** Every step by `delta` from a field value of the segment stays inside the field or is illegal. */
  ghost predicate StepsStayInField(n: nat, seg: RangeSegment)
  {
    forall x: nat {:trigger StepsFrom(n, seg, x)} :: Within(x, seg.mask) ==> StepsFrom(n, seg, x)
  }

  /** The segments fit and every one steps inside its field. */
  ghost predicate Emitted(n: nat, segs: seq<RangeSegment>)
  {
    SegmentsFit(n, segs) && forall k :: 0 <= k < |segs| ==> StepsStayInField(n, segs[k])
  }

  lemma SegmentsFitTail(n: nat, segs: seq<RangeSegment>)
    requires |segs| > 0 && SegmentsFit(n, segs)
    ensures SegmentsFit(n, segs[1..])
    ensures forall k :: 0 <= k < |segs[1..]| ==> Disjoint(segs[0].mask, segs[1..][k].mask)
  {
    forall j, k | 0 <= j < k < |segs[1..]|
      ensures Disjoint(segs[1..][j].mask, segs[1..][k].mask)
    {
      assert segs[1..][j] == segs[j + 1] && segs[1..][k] == segs[k + 1];
    }
    forall k | 0 <= k < |segs[1..]|
      ensures Disjoint(segs[0].mask, segs[1..][k].mask)
    {
      assert segs[1..][k] == segs[k + 1];
    }
  }

  lemma EmittedTail(n: nat, segs: seq<RangeSegment>)
    requires |segs| > 0 && Emitted(n, segs)
    ensures Emitted(n, segs[1..])
  {
    SegmentsFitTail(n, segs);
    forall k | 0 <= k < |segs[1..]|
      ensures StepsStayInField(n, segs[1..][k])
    {
      assert segs[1..][k] == segs[k + 1];
    }
  }

  lemma UnionDisjoint(m: nat, segs: seq<RangeSegment>)
    requires forall k :: 0 <= k < |segs| ==> Disjoint(m, segs[k].mask)
    ensures Disjoint(m, MaskUnion(segs)) && Disjoint(MaskUnion(segs), m)
    decreases |segs|
  {
    if |segs| == 0 {
      assert And(m, 0) == 0;
    } else {
      forall k | 0 <= k < |segs[1..]|
        ensures Disjoint(m, segs[1..][k].mask)
      {
        assert segs[1..][k] == segs[k + 1];
      }
      UnionDisjoint(m, segs[1..]);
      DisjointUnion(m, segs[0].mask, MaskUnion(segs[1..]));
    }
    DisjointSym(m, MaskUnion(segs));
  }

  /** Bits of `p` outside every segment leave the segments' fields as they are. */
  lemma {:induction false} InRangeListOr(n: nat, p: nat, q: nat, segs: seq<RangeSegment>)
    requires forall k :: 0 <= k < |segs| ==> Disjoint(p, segs[k].mask) && segs[k].mask < Pow2(n)
    ensures InRangeList(n, Or(p, q), segs) == InRangeList(n, q, segs)
    decreases |segs|
  {
    if |segs| > 0 {
      var m := segs[0].mask;
      TruncFits(m, n);
      AndOrDistrib(p, q, m);
      assert And(p, m) == 0;
      forall k | 0 <= k < |segs[1..]|
        ensures Disjoint(p, segs[1..][k].mask) && segs[1..][k].mask < Pow2(n)
      {
        assert segs[1..][k] == segs[k + 1];
      }
      InRangeListOr(n, p, q, segs[1..]);
    }
  }

  /** A legal field value for the first segment ORed with a legal value for the rest is legal. */
  lemma CombineLegal(n: nat, p: nat, q: nat, segs: seq<RangeSegment>)
    requires |segs| > 0 && SegmentsFit(n, segs)
    requires Within(p, segs[0].mask) && InRange(p, segs[0].values)
    requires FieldsLegal(n, q, segs[1..])
    ensures FieldsLegal(n, Or(p, q), segs)
  {
    var m := segs[0].mask;
    var rest := MaskUnion(segs[1..]);
    SegmentsFitTail(n, segs);
    UnionDisjoint(m, segs[1..]);
    WithinDisjoint(q, rest, m);
    TruncFits(m, n);
    AndOrDistrib(p, q, m);
    assert And(Or(p, q), Trunc(m, n)) == p;
    forall k | 0 <= k < |segs[1..]|
      ensures Disjoint(p, segs[1..][k].mask) && segs[1..][k].mask < Pow2(n)
    {
      WithinDisjoint(p, m, segs[1..][k].mask);
    }
    InRangeListOr(n, p, q, segs[1..]);
    assert InRangeList(n, Or(p, q), segs[1..]);
    assert InRangeList(n, Or(p, q), segs);
    WithinOr(p, m, q, rest);
    assert MaskUnion(segs) == Or(m, rest);
  }

  /** The corrected searches return the searched value or a bound of some entry. */
  lemma {:induction false} NextUpFixedLands(value: nat, es: seq<RangeEntry>)
    requires |es| > 0
    ensures var r := NextUpFixed(value, es).value; r == value || IsEndpoint(es, r)
  {
    var r := NextUpFixed(value, es).value;
    if |es| > 1 {
      NextUpFixedLands(value, es[1..]);
      var t := NextUpFixed(value, es[1..]).value;
      if r == t && t != value {
        EndpointOfTail(es, t);
      }
    }
    if r != value && (r == Lower(es[0]) || r == Upper(es[0])) {
      assert IsEndpoint(es, r);
    }
  }

  lemma {:induction false} NextDownFixedLands(value: nat, es: seq<RangeEntry>)
    requires |es| > 0
    ensures var r := NextDownFixed(value, es).value; r == value || IsEndpoint(es, r)
  {
    var r := NextDownFixed(value, es).value;
    if |es| > 1 {
      NextDownFixedLands(value, es[1..]);
      var t := NextDownFixed(value, es[1..]).value;
      if r == t && t != value {
        EndpointOfTail(es, t);
      }
    }
    if r != value && (r == Lower(es[0]) || r == Upper(es[0])) {
      assert IsEndpoint(es, r);
    }
  }

  lemma {:induction false} RangeMinFixedLands(es: seq<RangeEntry>)
    requires |es| > 0
    ensures IsEndpoint(es, RangeMinFixed(es).value)
  {
    var r := RangeMinFixed(es).value;
    if r == Lower(es[0]) {
      assert IsEndpoint(es, r);
    } else {
      RangeMinFixedLands(es[1..]);
      EndpointOfTail(es, r);
    }
  }

  /** A pick of a fitting segment is a legal field value, provided a legal searched value lies inside the field. */
  lemma PickFixedFits(n: nat, field: nat, seg: RangeSegment, mode: Mode)
    requires n >= 1 && SegmentFits(n, seg)
    requires mode in {Largest, Smallest, Nextup, Nextdown}
    requires InRange(field, seg.values) ==> Within(field, seg.mask)
    ensures var p := PickFixed(n, field, seg, mode).value;
      Within(p, seg.mask) && InRange(p, seg.values)
  {
    var es := seg.values;
    var e: nat;
    if mode == Largest {
      e := RangeMax(es).value;
    } else if mode == Smallest {
      e := RangeMinFixed(es).value;
      RangeMinFixedLands(es);
    } else if mode == Nextup {
      e := NextUpFixed(field, es).value;
      NextUpFixedCorrect(field, es);
      NextUpFixedLands(field, es);
    } else {
      e := NextDownFixed(field, es).value;
      NextDownFixedCorrect(field, es);
      NextDownFixedLands(field, es);
    }
    assert InRange(e, es);
    if e != field || !Within(e, seg.mask) {
      var i :| 0 <= i < |es| && (e == Lower(es[i]) || e == Upper(es[i]));
      assert Within(e, seg.mask);
    }
    WithinBelow(e, seg.mask);
    TruncFits(e, n);
  }

  /** The value of a walk over the rest of the segments is legal for them. */
  predicate RestLegal(n: nat, current: nat, written: nat, segs: seq<RangeSegment>, mode: Mode, msmask: nat)
    requires n >= 1 && current < Pow2(n) && written < Pow2(n) && msmask < Pow2(n)
  {
    var r := LegalizeRangeListFixed(n, current, written, segs, mode, msmask);
    r.Ok? && FieldsLegal(n, r.value, segs)
  }

  /**
   * A `Nextup` step: above the written field the rest is filled with
   * `Smallest`, below it with `Largest`; on a tie the composed value is kept
   * when it reaches the unsettled written bits, and otherwise the field
   * stepped up by `delta` is searched and the rest filled with `Smallest`.
   */
  lemma NextupStep(n: nat, current: nat, written: nat, segs: seq<RangeSegment>, msmask: nat)
    requires n >= 1 && current < Pow2(n) && written < Pow2(n) && msmask < Pow2(n)
    requires |segs| > 0 && !HasEmptySegment(segs)
    ensures var f := Trunc(segs[0].mask, n);
      var cur := And(written, f);
      var settled := Or(msmask, f);
      settled < Pow2(n) &&
      var lg := LegalizeRangeListFixed(n, current, written, segs[1..], Largest, settled).value;
      var sm := LegalizeRangeListFixed(n, current, written, segs[1..], Smallest, settled).value;
      var same := LegalizeRangeListFixed(n, current, written, segs[1..], Nextup, settled).value;
      var ms := PickFixed(n, cur, segs[0], Nextup).value;
      var retry := PickFixed(n, Retry(n, cur, segs[0], Nextup), segs[0], Nextup).value;
      LegalizeRangeListFixed(n, current, written, segs, Nextup, msmask).value ==
        if ms > cur then Or(ms, sm)
        else if ms < cur then Or(ms, lg)
        else if Or(ms, same) >= Unsettled(n, written, msmask) then Or(ms, same)
        else if retry >= cur then Or(retry, sm)
        else Or(ms, same)
  {
    HasEmptySegmentHead(segs);
    OrBound(msmask, Trunc(segs[0].mask, n), n);
    assert LegalizeRangeListFixed(n, current, written, segs, Nextup, msmask) == SegmentedFixed(n, current, written, segs, Nextup, msmask);
  }

  /** A `Nextdown` step, the mirror image of `NextupStep`. */
  lemma NextdownStep(n: nat, current: nat, written: nat, segs: seq<RangeSegment>, msmask: nat)
    requires n >= 1 && current < Pow2(n) && written < Pow2(n) && msmask < Pow2(n)
    requires |segs| > 0 && !HasEmptySegment(segs)
    ensures var f := Trunc(segs[0].mask, n);
      var cur := And(written, f);
      var settled := Or(msmask, f);
      settled < Pow2(n) &&
      var lg := LegalizeRangeListFixed(n, current, written, segs[1..], Largest, settled).value;
      var sm := LegalizeRangeListFixed(n, current, written, segs[1..], Smallest, settled).value;
      var same := LegalizeRangeListFixed(n, current, written, segs[1..], Nextdown, settled).value;
      var ms := PickFixed(n, cur, segs[0], Nextdown).value;
      var retry := PickFixed(n, Retry(n, cur, segs[0], Nextdown), segs[0], Nextdown).value;
      LegalizeRangeListFixed(n, current, written, segs, Nextdown, msmask).value ==
        if ms > cur then Or(ms, sm)
        else if ms < cur then Or(ms, lg)
        else if Or(ms, same) <= Unsettled(n, written, msmask) then Or(ms, same)
        else if retry <= cur then Or(retry, lg)
        else Or(ms, same)
  {
    HasEmptySegmentHead(segs);
    OrBound(msmask, Trunc(segs[0].mask, n), n);
    assert LegalizeRangeListFixed(n, current, written, segs, Nextdown, msmask) == SegmentedFixed(n, current, written, segs, Nextdown, msmask);
  }

  /** A `Nextup` or `Nextdown` step is one of four ORs of a first-segment pick with a walk over the rest. */
  lemma SearchStepShape(n: nat, current: nat, written: nat, segs: seq<RangeSegment>, mode: Mode, msmask: nat,
                        lg: nat, sm: nat, same: nat, r: nat)
    requires n >= 1 && current < Pow2(n) && written < Pow2(n) && msmask < Pow2(n)
    requires mode == Nextup || mode == Nextdown
    requires |segs| > 0 && !HasEmptySegment(segs)
    requires var settled := Or(msmask, Trunc(segs[0].mask, n));
      && settled < Pow2(n)
      && lg == LegalizeRangeListFixed(n, current, written, segs[1..], Largest, settled).value
      && sm == LegalizeRangeListFixed(n, current, written, segs[1..], Smallest, settled).value
      && same == LegalizeRangeListFixed(n, current, written, segs[1..], mode, settled).value
    requires r == LegalizeRangeListFixed(n, current, written, segs, mode, msmask).value
    ensures var cur := And(written, Trunc(segs[0].mask, n));
      var ms := PickFixed(n, cur, segs[0], mode).value;
      var p := PickFixed(n, Retry(n, cur, segs[0], mode), segs[0], mode).value;
      || r == Or(ms, sm) || r == Or(ms, lg) || r == Or(ms, same)
      || (mode == Nextup && r == Or(p, sm)) || (mode == Nextdown && r == Or(p, lg))
  {
    if mode == Nextup {
      NextupStep(n, current, written, segs, msmask);
    } else {
      NextdownStep(n, current, written, segs, msmask);
    }
  }

  /** Any of the ORs a step can produce from legal parts is legal. */
  lemma CandidatesLegal(n: nat, segs: seq<RangeSegment>, ms: nat, p: nat, lg: nat, sm: nat, same: nat, r: nat)
    requires |segs| > 0 && SegmentsFit(n, segs)
    requires Within(ms, segs[0].mask) && InRange(ms, segs[0].values)
    requires Within(p, segs[0].mask) && InRange(p, segs[0].values)
    requires FieldsLegal(n, lg, segs[1..]) && FieldsLegal(n, sm, segs[1..]) && FieldsLegal(n, same, segs[1..])
    requires r == Or(ms, sm) || r == Or(ms, lg) || r == Or(ms, same) || r == Or(p, sm) || r == Or(p, lg)
    ensures FieldsLegal(n, r, segs)
  {
    if r == Or(ms, sm) {
      CombineLegal(n, ms, sm, segs);
    } else if r == Or(ms, lg) {
      CombineLegal(n, ms, lg, segs);
    } else if r == Or(ms, same) {
      CombineLegal(n, ms, same, segs);
    } else if r == Or(p, sm) {
      CombineLegal(n, p, sm, segs);
    } else {
      CombineLegal(n, p, lg, segs);
    }
  }

  /** The retry of a step searches from the written field stepped by `delta`, and lands on a legal field value. */
  lemma RetryFitsFrom(n: nat, cur: nat, seg: RangeSegment, mode: Mode)
    requires n >= 1 && SegmentFits(n, seg) && StepsStayInField(n, seg) && Within(cur, seg.mask)
    requires mode == Nextup || mode == Nextdown
    ensures var p := PickFixed(n, Retry(n, cur, seg, mode), seg, mode).value;
      Within(p, seg.mask) && InRange(p, seg.values)
  {
    StepsFromField(n, seg, cur);
    if mode == Nextup {
      PickFixedFits(n, Wrap(cur + seg.delta, n), seg, mode);
    } else {
      PickFixedFits(n, Wrap(cur - seg.delta, n), seg, mode);
    }
  }

  lemma StepsFromField(n: nat, seg: RangeSegment, x: nat)
    requires StepsStayInField(n, seg) && Within(x, seg.mask)
    ensures StepsFrom(n, seg, x)
  {
  }

  /** The written field of a fitting segment lies inside the segment's mask. */
  lemma WrittenField(n: nat, written: nat, seg: RangeSegment)
    requires seg.mask < Pow2(n)
    ensures Within(And(written, Trunc(seg.mask, n)), seg.mask)
  {
    TruncFits(seg.mask, n);
    AndWithin(written, seg.mask);
  }

  /** The first-segment picks of a `Nextup` or `Nextdown` step, from a field value and from its retry, are legal field values. */
  lemma SearchStepParts(n: nat, cur: nat, seg: RangeSegment, mode: Mode)
    requires n >= 1 && Within(cur, seg.mask)
    requires mode == Nextup || mode == Nextdown
    requires SegmentFits(n, seg) && StepsStayInField(n, seg)
    ensures var ms := PickFixed(n, cur, seg, mode).value;
      var p := PickFixed(n, Retry(n, cur, seg, mode), seg, mode).value;
      && Within(ms, seg.mask) && InRange(ms, seg.values)
      && Within(p, seg.mask) && InRange(p, seg.values)
  {
    PickFixedFits(n, cur, seg, mode);
    RetryFitsFrom(n, cur, seg, mode);
  }

  /** A `Nextup` or `Nextdown` step over emitted segments is legal when the three walks over the rest are. */
  lemma SearchStepLegal(n: nat, current: nat, written: nat, segs: seq<RangeSegment>, mode: Mode, msmask: nat)
    requires n >= 1 && current < Pow2(n) && written < Pow2(n) && msmask < Pow2(n)
    requires mode == Nextup || mode == Nextdown
    requires |segs| > 0 && Emitted(n, segs)
    requires var settled := Or(msmask, Trunc(segs[0].mask, n));
      && settled < Pow2(n)
      && RestLegal(n, current, written, segs[1..], Largest, settled)
      && RestLegal(n, current, written, segs[1..], Smallest, settled)
      && RestLegal(n, current, written, segs[1..], mode, settled)
    ensures RestLegal(n, current, written, segs, mode, msmask)
  {
    var v := segs[0];
    assert SegmentFits(n, v) && StepsStayInField(n, v);
    var settled := Or(msmask, Trunc(v.mask, n));
    var rest := segs[1..];
    HasEmptySegmentHead(segs);
    var lg := LegalizeRangeListFixed(n, current, written, rest, Largest, settled).value;
    var sm := LegalizeRangeListFixed(n, current, written, rest, Smallest, settled).value;
    var same := LegalizeRangeListFixed(n, current, written, rest, mode, settled).value;
    var r := LegalizeRangeListFixed(n, current, written, segs, mode, msmask).value;
    SearchStepShape(n, current, written, segs, mode, msmask, lg, sm, same, r);
    var cur := And(written, Trunc(v.mask, n));
    var ms := PickFixed(n, cur, v, mode).value;
    var p := PickFixed(n, Retry(n, cur, v, mode), v, mode).value;
    WrittenField(n, written, v);
    SearchStepParts(n, cur, v, mode);
    CandidatesLegal(n, segs, ms, p, lg, sm, same, r);
  }

  /** Every searching walk over emitted segments produces a value whose every field is legal. */
  lemma {:induction false} SegmentedFixedLegal(n: nat, current: nat, written: nat, segs: seq<RangeSegment>, mode: Mode, msmask: nat)
    requires n >= 1 && current < Pow2(n) && written < Pow2(n) && msmask < Pow2(n)
    requires mode in {Largest, Smallest, Nextup, Nextdown}
    requires Emitted(n, segs)
    ensures RestLegal(n, current, written, segs, mode, msmask)
    decreases |segs|
  {
    if |segs| == 0 {
      assert LegalizeRangeListFixed(n, current, written, segs, mode, msmask) == Ok(0);
    } else {
      var v := segs[0];
      assert SegmentFits(n, v) && StepsStayInField(n, v);
      TruncFits(v.mask, n);
      var settled := Or(msmask, v.mask);
      OrBound(msmask, v.mask, n);
      EmittedTail(n, segs);
      var rest := segs[1..];
      if mode == Largest || mode == Smallest {
        SegmentedFixedLegal(n, current, written, rest, mode, settled);
        var cur := And(written, v.mask);
        AndWithin(written, v.mask);
        PickFixedFits(n, cur, v, mode);
        CombineLegal(n, PickFixed(n, cur, v, mode).value,
                     LegalizeRangeListFixed(n, current, written, rest, mode, settled).value, segs);
        assert LegalizeRangeListFixed(n, current, written, segs, mode, msmask) == SegmentedFixed(n, current, written, segs, mode, msmask);
      } else {
        var tsettled := Or(msmask, Trunc(v.mask, n));
        assert tsettled == settled;
        SegmentedFixedLegal(n, current, written, rest, Largest, tsettled);
        SegmentedFixedLegal(n, current, written, rest, Smallest, tsettled);
        SegmentedFixedLegal(n, current, written, rest, mode, tsettled);
        SearchStepLegal(n, current, written, segs, mode, msmask);
      }
    }
  }

  /**
   * On the segments the generator emits, every searching mode of the
   * corrected legalizer yields a value whose every field is legal.
   */
  lemma FixedSearchIsLegal(n: nat, current: nat, written: nat, segs: seq<RangeSegment>, mode: Mode)
    requires n >= 1 && current < Pow2(n) && written < Pow2(n)
    requires mode in {Largest, Smallest, Nextup, Nextdown, Nearup, Neardown}
    requires Emitted(n, segs)
    ensures var r := LegalizeRangeListFixed(n, current, written, segs, mode, 0);
      r.Ok? && InRangeList(n, r.value, segs)
  {
    SegmentedFixedLegal(n, current, written, segs, Nextup, 0);
    SegmentedFixedLegal(n, current, written, segs, Nextdown, 0);
    if mode in {Largest, Smallest} {
      SegmentedFixedLegal(n, current, written, segs, mode, 0);
    }
    if mode in {Nearup, Neardown} {
      assert LegalizeRangeListFixed(n, current, written, segs, mode, 0) == NearFixed(n, current, written, segs, 0, mode == Nearup);
    }
  }

  /**
   * A legal written value of a one-segment field is what the corrected
   * `Nextup` legalizer keeps, whatever the current value.
   */
  lemma FixedNextupKeepsLegalWrite(n: nat, current: nat, written: nat, seg: RangeSegment)
    requires n >= 1 && current < Pow2(n) && written < Pow2(n)
    requires SegmentFits(n, seg) && Within(written, seg.mask) && InRange(written, seg.values)
    ensures LegalizeRangeListFixed(n, current, written, [seg], Nextup, 0) == Ok(written)
  {
    var segs := [seg];
    assert !HasEmptySegment(segs);
    TruncFits(seg.mask, n);
    var cur := And(written, Trunc(seg.mask, n));
    assert cur == written;
    MemberBounds(written, seg.values);
    NextUpFixedCorrect(written, seg.values);
    TruncFits(NextUpFixed(written, seg.values).value, n);
    assert PickFixed(n, cur, seg, Nextup).value == written;
    NextupStep(n, current, written, segs, 0);
    assert segs[1..] == [];
    var settled := Or(0, Trunc(seg.mask, n));
    assert LegalizeRangeListFixed(n, current, written, [], Nextup, settled) == Ok(0);
    OrZero(written);
  }

  /** The write that the as-written legalizer ignores is kept by the corrected one. */
  lemma FixedNextupTakesWrite()
    ensures var seg := RangeSegment(3, 1, [Interval(0, 3)]);
      LegalizeRangeListFixed(2, 1, 2, [seg], Nextup, 0) == Ok(2)
  {
    var seg := RangeSegment(3, 1, [Interval(0, 3)]);
    assert Pow2(2) == 4;
    assert And(2, 3) == 2 by { assert And(1, 1) == 1; }
    assert InRange(2, seg.values);
    FixedNextupKeepsLegalWrite(2, 1, 2, seg);
  }

  /** The segment of the worked range example: 8 bits, legal values `0..2` and 8. */
  const ExampleSegment := RangeSegment(0xFF, 1, [Interval(0, 2), Value(8)])

  lemma ExampleFacts()
    ensures Pow2(8) == 256 && Trunc(0xFF, 8) == 0xFF && And(5, 0xFF) == 5
    ensures Unsettled(8, 5, 0) == 5
    ensures [ExampleSegment][1..] == []
  {
    assert Pow2(8) == 256;
    TruncFits(0xFF, 8);
    AndLowOnes(5, 8);
    assert Not(0, 8) == 0xFF;
  }

  /** Next-up from 5 in the worked example gives 8. */
  lemma ExampleNextup(current: nat)
    requires current < 256
    ensures LegalizeRangeListFixed(8, current, 5, [ExampleSegment], Nextup, 0) == Ok(8)
  {
    var es := ExampleSegment.values;
    ExampleFacts();
    assert es[1..] == [Value(8)];
    assert NextUpFixed(5, es) == Ok(8);
    TruncFits(8, 8);
    assert PickFixed(8, 5, ExampleSegment, Nextup) == Ok(8);
    assert LegalizeRangeListFixed(8, current, 5, [], Smallest, 0xFF) == Ok(0);
  }

  /** Next-down from 5 in the worked example gives 2. */
  lemma ExampleNextdown(current: nat)
    requires current < 256
    ensures LegalizeRangeListFixed(8, current, 5, [ExampleSegment], Nextdown, 0) == Ok(2)
  {
    var es := ExampleSegment.values;
    ExampleFacts();
    assert es[1..] == [Value(8)];
    assert NextDownFixed(5, es) == Ok(2);
    TruncFits(2, 8);
    assert PickFixed(8, 5, ExampleSegment, Nextdown) == Ok(2);
    assert LegalizeRangeListFixed(8, current, 5, [], Largest, 0xFF) == Ok(0);
  }

  /**
   * The worked range example: one 8-bit segment whose legal values are
   * `0..2` and 8, written 5.  Next-up gives 8, next-down 2, and near-up
   * 8, the tie at distance 3 going up.
   */
  lemma LegalizeRangeListExample(current: nat)
    requires current < 256
    ensures LegalizeRangeListFixed(8, current, 5, [ExampleSegment], Nextup, 0) == Ok(8)
    ensures LegalizeRangeListFixed(8, current, 5, [ExampleSegment], Nextdown, 0) == Ok(2)
    ensures LegalizeRangeListFixed(8, current, 5, [ExampleSegment], Nearup, 0) == Ok(8)
  {
    ExampleFacts();
    ExampleNextup(current);
    ExampleNextdown(current);
    assert NearFixed(8, current, 5, [ExampleSegment], 0, true) == Ok(8);
  }
}
