/**
 * The register half of the CSR generator: how each implemented field of a
 * register is legalized on a CSR write (parse_field), the per-register
 * definitions (parse_reg: reset value, legalizer, read and write entries),
 * and the main loop that lists every accessible register in
 * `is_csr_defined` and the CSR name map.
 *
 * A register legalizer is a sequence of field steps applied to the written
 * value: each step overwrites its own field of `m` and nothing else, so bits
 * outside every implemented field keep the written value.  A whole register
 * (one without sub-fields) is legalized as one field placed at its `lsb`.
 */
module CsrGenerator {
  import opened Wrappers
  import opened Bits
  import opened WarlProcedures

  /** The `priv_mode` of a register. */
  datatype PrivMode = PrivM | PrivS | PrivOther

  /** Sail's `Privilege`. */
  datatype Privilege = Machine | Supervisor | User

  /** A `shadow` entry: `reg` or `reg.field`, and whether `shadow_type` is `rw`. */
  datatype Shadow = Shadow(reg: string, field: Option<string>, rw: bool)

  /** The `type` of a field. */
  datatype FieldType = RoConstant(value: nat) | RoVariable | Warl(spec: WarlSpec) | PlainType

  /** One field node (or the register node itself for a register without sub-fields). */
  datatype FieldYaml = FieldYaml(name: string, msb: nat, lsb: nat, implemented: bool, shadow: Option<Shadow>, ftype: FieldType)

  /** One register of the ISA YAML: its sub-fields in key order, or, when there are none, its own node. */
  datatype RegYaml = RegYaml(name: string, address: nat, priv: PrivMode, accessible: bool, resetVal: nat,
                             fields: seq<FieldYaml>, whole: FieldYaml)

  /** One statement of a generated register legalizer (or getter). */
  datatype FieldStep =
    | KeepOld(lsb: nat, width: nat)                              // update_F(m, o.F())
    | SetConst(lsb: nat, width: nat, value: nat)                 // update_F(m, to_bits(len, c))
    | LegalizeWarl(lsb: nat, width: nat, proc: Procedure)        // update_F(m, legalize_R_F(o.F(), m.F()))
    | WriteShadow(target: string, lsb: nat, width: nat, legalized: bool)  // target = ...v[msb .. lsb]...
    | ReadShadow(source: string, lsb: nat, width: nat)           // update_F(m, source)

  /** The single statement of a whole-register legalizer. */
  datatype WholeKind =
    | WholeShadow(target: string, legalized: bool)
    | WholeKeep
    | WholeConst(value: nat)
    | WholeWarl(proc: Procedure)
    | WholePlain

  datatype Legalizer = FieldSteps(steps: seq<FieldStep>) | WholeSteps(lsb: nat, realLen: nat, kind: WholeKind)

  /** A register's definition, reset value, legalizer and whether reads go through a getter. */
  datatype RegDef = RegDef(name: string, address: nat, width: nat, reset: nat, legalizer: Legalizer, hasGetter: bool)

  datatype NamedProc = NamedProc(reg: string, field: string, proc: Procedure)

  /** One `is_csr_defined` clause. */
  datatype Define = Define(address: nat, mode: PrivMode)

  /** One `csr_name_map` clause. */
  datatype NameEntry = NameEntry(address: nat, name: string)

  const MissingShadow := "please make the shadowed register first"
  const ShadowFormat := "not all arguments converted during string formatting"

  // ---------------------------------------------------------------------
  // is_csr_defined
  // ---------------------------------------------------------------------

  /** The privilege rule of a clause. */
  function Allows(mode: PrivMode, p: Privilege): bool
  {
    match mode
    case PrivM => p == Machine
    case PrivS => p == Machine || p == Supervisor
    case PrivOther => true
  }

  /** `is_csr_defined(csr, p)`: the first clause for the address decides; no clause means not defined. */
  function IsCsrDefined(defs: seq<Define>, csr: nat, p: Privilege): (r: bool)
    ensures r ==> exists k :: 0 <= k < |defs| && defs[k].address == csr
  {
    if |defs| == 0 then false
    else if defs[0].address == csr then
      assert defs[0].address == csr;
      Allows(defs[0].mode, p)
    else
      var r := IsCsrDefined(defs[1..], csr, p);
      if r then
        var k :| 0 <= k < |defs[1..]| && defs[1..][k].address == csr;
        assert defs[k + 1].address == csr;
        r
      else r
  }

  /** The metadata keys of the ISA YAML, which are not registers. */
  predicate IsMetaKey(name: string)
  {
    name in MetaKeys
  }

  const MetaKeys: seq<string> :=
    ["custom_exceptions", "custom_interrupts", "ISA", "supported_xlen", "pmp_granularity",
     "User_Spec_Version", "physical_addr_sz", "Privilege_Spec_Version", "hw_data_misaligned_support"]

  /** The counters, which get a definition and a name but no generated register. */
  predicate IsCounter(name: string)
  {
    name in Counters
  }

  const Counters: seq<string> :=
    ["mcycle", "mcycleh", "time", "timeh", "minstret", "minstreth", "cycle", "cycleh", "instret", "instreth"]

  /** A register the main loop lists. */
  predicate Listed(r: RegYaml)
  {
    !IsMetaKey(r.name) && r.accessible
  }

  /** The clauses and the generated register of one register entry. */
  function DefineOf(r: RegYaml): seq<Define>
  {
    if Listed(r) then [Define(r.address, r.priv)] else []
  }

  function NameOf(r: RegYaml): (e: seq<NameEntry>)
    ensures |e| == |DefineOf(r)|
  {
    if Listed(r) then [NameEntry(r.address, r.name)] else []
  }

  function ParsedOf(r: RegYaml): seq<string>
  {
    if Listed(r) && !IsCounter(r.name) then [r.name] else []
  }

  /** The `is_csr_defined` clauses the main loop emits. */
  function DefineEntries(regs: seq<RegYaml>): (r: seq<Define>)
    ensures |r| <= |regs|
  {
    if |regs| == 0 then []
    else DefineOf(regs[0]) + DefineEntries(regs[1..])
  }

  /** The `csr_name_map` clauses the main loop emits. */
  function NameEntries(regs: seq<RegYaml>): (r: seq<NameEntry>)
    ensures |r| == |DefineEntries(regs)|
  {
    if |regs| == 0 then []
    else NameOf(regs[0]) + NameEntries(regs[1..])
  }

  /** The registers the main loop generates, in order. */
  function ParsedNames(regs: seq<RegYaml>): seq<string>
  {
    if |regs| == 0 then []
    else ParsedOf(regs[0]) + ParsedNames(regs[1..])
  }

  /** Only listed registers that are not counters are generated, and every such register is. */
  lemma {:induction false} ParsedNamesMeaning(regs: seq<RegYaml>, x: string)
    ensures x in ParsedNames(regs) <==> exists k :: 0 <= k < |regs| && regs[k].name == x && Listed(regs[k]) && !IsCounter(x)
  {
    if |regs| > 0 {
      var rest := regs[1..];
      ParsedNamesMeaning(rest, x);
      if exists k :: 0 <= k < |regs| && regs[k].name == x && Listed(regs[k]) && !IsCounter(x) {
        var k :| 0 <= k < |regs| && regs[k].name == x && Listed(regs[k]) && !IsCounter(x);
        if k > 0 {
          assert rest[k - 1] == regs[k];
        }
      }
      if exists k :: 0 <= k < |rest| && rest[k].name == x && Listed(rest[k]) && !IsCounter(x) {
        var k :| 0 <= k < |rest| && rest[k].name == x && Listed(rest[k]) && !IsCounter(x);
        assert regs[k + 1] == rest[k];
      }
    }
  }

  /** No two listed registers share an address. */
  predicate DistinctAddresses(regs: seq<RegYaml>)
  {
    forall j, k :: 0 <= j < k < |regs| && Listed(regs[j]) && Listed(regs[k]) ==> regs[j].address != regs[k].address
  }

  /**
   * With distinct addresses, a listed register is defined exactly for the
   * privileges its mode allows, and an address no listed register has is
   * never defined.
   */
  lemma {:induction false} DefinedMeaning(regs: seq<RegYaml>, csr: nat, p: Privilege)
    requires DistinctAddresses(regs)
    ensures forall k :: 0 <= k < |regs| && Listed(regs[k]) && regs[k].address == csr ==>
      IsCsrDefined(DefineEntries(regs), csr, p) == Allows(regs[k].priv, p)
    ensures (forall k :: 0 <= k < |regs| && Listed(regs[k]) ==> regs[k].address != csr) ==>
      !IsCsrDefined(DefineEntries(regs), csr, p)
  {
    if |regs| > 0 {
      var rest := regs[1..];
      assert forall k :: 1 <= k < |regs| ==> regs[k] == rest[k - 1];
      DefinedMeaning(rest, csr, p);
      var head := if Listed(regs[0]) then [Define(regs[0].address, regs[0].priv)] else [];
      assert DefineEntries(regs) == head + DefineEntries(rest);
      if Listed(regs[0]) {
        assert (head + DefineEntries(rest))[0] == Define(regs[0].address, regs[0].priv);
        assert (head + DefineEntries(rest))[1..] == DefineEntries(rest);
      } else {
        assert head + DefineEntries(rest) == DefineEntries(rest);
      }
    }
  }

  // ---------------------------------------------------------------------
  // Semantics of a register legalizer
  // ---------------------------------------------------------------------

  /** Steps other than a shadow write assign a field of `m`. */
  predicate Touches(s: FieldStep)
  {
    !s.WriteShadow?
  }

  /** Every step has a field of at least one bit and reads only known shadows and dependencies. */
  predicate StepReady(s: FieldStep, dv: seq<nat>, shadows: map<string, nat>)
  {
    && s.width >= 1
    && (s.ReadShadow? ==> s.source in shadows)
    && (s.LegalizeWarl? ==> ProcFits(s.proc, |dv|))
  }

  predicate StepsReady(steps: seq<FieldStep>, dvs: seq<seq<nat>>, shadows: map<string, nat>)
  {
    |dvs| == |steps| && forall k :: 0 <= k < |steps| ==> StepReady(steps[k], dvs[k], shadows)
  }

  /** No two assigning steps share a bit. */
  predicate FieldsDisjoint(steps: seq<FieldStep>)
  {
    forall j, k :: 0 <= j < k < |steps| && Touches(steps[j]) && Touches(steps[k]) ==>
      steps[j].lsb + steps[j].width <= steps[k].lsb || steps[k].lsb + steps[k].width <= steps[j].lsb
  }

  /** Bit `i` lies in no assigned field. */
  predicate Outside(steps: seq<FieldStep>, i: nat)
  {
    forall k :: 0 <= k < |steps| && Touches(steps[k]) ==> !(steps[k].lsb <= i < steps[k].lsb + steps[k].width)
  }

  /** The value an assigning step puts into its field of `m`. */
  function StepValue(s: FieldStep, o: nat, m: nat, dv: seq<nat>, shadows: map<string, nat>): (r: Result<nat>)
    requires Touches(s) && StepReady(s, dv, shadows)
    ensures r.Ok? ==> r.value < Pow2(s.width)
  {
    match s
    case KeepOld(lsb, w) => Ok(Slice(o, lsb, w))
    case SetConst(lsb, w, c) => Ok(Trunc(c, w))
    case LegalizeWarl(lsb, w, proc) => Eval(w, proc, Slice(o, lsb, w), Slice(m, lsb, w), dv)
    case ReadShadow(src, lsb, w) => Ok(Trunc(shadows[src], w))
  }

  function ApplyStep(s: FieldStep, o: nat, m: nat, dv: seq<nat>, shadows: map<string, nat>): (r: Result<nat>)
    requires StepReady(s, dv, shadows)
  {
    if !Touches(s) then Ok(m)
    else
      var e := StepValue(s, o, m, dv, shadows);
      if e.Err? then Err(e.error) else Ok(Place(m, s.lsb, s.width, e.value))
  }

  /** The statements of `legalize_<reg>(o, v)` after `let m = Mk_<Reg>(v)`, in order. */
  function ApplySteps(steps: seq<FieldStep>, o: nat, m: nat, dvs: seq<seq<nat>>, shadows: map<string, nat>): (r: Result<nat>)
    requires StepsReady(steps, dvs, shadows)
    decreases |steps|
  {
    if |steps| == 0 then Ok(m)
    else
      var m1 := ApplyStep(steps[0], o, m, dvs[0], shadows);
      if m1.Err? then m1 else ApplySteps(steps[1..], o, m1.value, dvs[1..], shadows)
  }

  /**
   * What a legalizer's result says about its fields: it succeeds iff every
   * assigning step does; then each assigned field holds what its step
   * computes from the old value and the written value `m`, and every bit
   * outside the assigned fields keeps the written value.
   */
  ghost predicate StepsOutcome(steps: seq<FieldStep>, o: nat, m: nat, dvs: seq<seq<nat>>, shadows: map<string, nat>)
    requires StepsReady(steps, dvs, shadows)
  {
    var r := ApplySteps(steps, o, m, dvs, shadows);
    && (r.Ok? <==> forall k :: 0 <= k < |steps| && Touches(steps[k]) ==> StepValue(steps[k], o, m, dvs[k], shadows).Ok?)
    && (r.Ok? ==> forall k :: 0 <= k < |steps| && Touches(steps[k]) ==>
          Slice(r.value, steps[k].lsb, steps[k].width) == StepValue(steps[k], o, m, dvs[k], shadows).value)
    && (r.Ok? ==> forall i: nat :: Outside(steps, i) ==> Bit(r.value, i) == Bit(m, i))
  }

  /**
   * With disjoint fields, each assigned field of the result holds exactly
   * what its step computes from the old value and the written field, every
   * bit outside the assigned fields keeps the written value, and the
   * legalizer aborts only when some field's legalizer does.
   */
  lemma {:induction false} StepsResult(steps: seq<FieldStep>, o: nat, m: nat, dvs: seq<seq<nat>>, shadows: map<string, nat>)
    requires StepsReady(steps, dvs, shadows) && FieldsDisjoint(steps)
    ensures StepsOutcome(steps, o, m, dvs, shadows)
    decreases |steps|
  {
    if |steps| > 0 {
      StepsTail(steps, dvs, shadows);
      var m1 := ApplyStep(steps[0], o, m, dvs[0], shadows);
      if m1.Ok? {
        StepsResult(steps[1..], o, m1.value, dvs[1..], shadows);
        StepsResultStep(steps, o, m, dvs, shadows);
      } else {
        assert !StepValue(steps[0], o, m, dvs[0], shadows).Ok?;
      }
    }
  }

  /** The steps after the first are ready and disjoint too. */
  lemma StepsTail(steps: seq<FieldStep>, dvs: seq<seq<nat>>, shadows: map<string, nat>)
    requires |steps| > 0 && StepsReady(steps, dvs, shadows) && FieldsDisjoint(steps)
    ensures StepsReady(steps[1..], dvs[1..], shadows) && FieldsDisjoint(steps[1..])
  {
    assert forall k :: 1 <= k < |steps| ==> steps[k] == steps[1..][k - 1] && dvs[k] == dvs[1..][k - 1];
  }

  /** The inductive step of `StepsResult`: the first step succeeded and the claim holds for the rest. */
  lemma StepsResultStep(steps: seq<FieldStep>, o: nat, m: nat, dvs: seq<seq<nat>>, shadows: map<string, nat>)
    requires |steps| > 0 && StepsReady(steps, dvs, shadows) && FieldsDisjoint(steps)
    requires StepsReady(steps[1..], dvs[1..], shadows)
    requires ApplyStep(steps[0], o, m, dvs[0], shadows).Ok?
    requires StepsOutcome(steps[1..], o, ApplyStep(steps[0], o, m, dvs[0], shadows).value, dvs[1..], shadows)
    ensures StepsOutcome(steps, o, m, dvs, shadows)
  {
    var s := steps[0];
    var rest := steps[1..];
    assert forall k :: 1 <= k < |steps| ==> steps[k] == rest[k - 1] && dvs[k] == dvs[1..][k - 1];
    var m1 := ApplyStep(s, o, m, dvs[0], shadows);
    // the later fields see the same slices in m1 as in m
    forall k | 0 <= k < |rest| && Touches(rest[k])
      ensures StepValue(rest[k], o, m1.value, dvs[1..][k], shadows) == StepValue(rest[k], o, m, dvs[1..][k], shadows)
    {
      if Touches(s) {
        SliceElsewhere(m, s.lsb, s.width, StepValue(s, o, m, dvs[0], shadows).value, rest[k].lsb, rest[k].width);
      }
    }
    var r := ApplySteps(rest, o, m1.value, dvs[1..], shadows);
    if r.Ok? {
      if Touches(s) {
        FirstFieldKept(steps, o, m, dvs[0], shadows, r.value);
      }
      OutsideKept(steps, o, m, dvs[0], shadows, r.value);
    }
  }

  /** The field of the first step is left alone by the later, disjoint steps. */
  lemma FirstFieldKept(steps: seq<FieldStep>, o: nat, m: nat, dv: seq<nat>, shadows: map<string, nat>, rv: nat)
    requires |steps| > 0 && FieldsDisjoint(steps) && Touches(steps[0]) && StepReady(steps[0], dv, shadows)
    requires ApplyStep(steps[0], o, m, dv, shadows).Ok?
    requires forall i: nat :: Outside(steps[1..], i) ==> Bit(rv, i) == Bit(ApplyStep(steps[0], o, m, dv, shadows).value, i)
    ensures Slice(rv, steps[0].lsb, steps[0].width) == StepValue(steps[0], o, m, dv, shadows).value
  {
    var s := steps[0];
    var m1 := ApplyStep(s, o, m, dv, shadows).value;
    var e := StepValue(s, o, m, dv, shadows).value;
    assert forall k :: 1 <= k < |steps| ==> steps[k] == steps[1..][k - 1];
    forall i: nat | s.lsb <= i < s.lsb + s.width
      ensures Bit(rv, i) == Bit(m1, i)
    {
      assert Outside(steps[1..], i);
    }
    SliceAgree(rv, m1, s.lsb, s.width);
    SlicePlace(m, s.lsb, s.width, e);
    TruncFits(e, s.width);
  }

  /** A bit outside every assigned field is untouched by the first step and, by assumption, by the rest. */
  lemma OutsideKept(steps: seq<FieldStep>, o: nat, m: nat, dv: seq<nat>, shadows: map<string, nat>, rv: nat)
    requires |steps| > 0 && StepReady(steps[0], dv, shadows)
    requires ApplyStep(steps[0], o, m, dv, shadows).Ok?
    requires forall i: nat :: Outside(steps[1..], i) ==> Bit(rv, i) == Bit(ApplyStep(steps[0], o, m, dv, shadows).value, i)
    ensures forall i: nat :: Outside(steps, i) ==> Bit(rv, i) == Bit(m, i)
  {
    var s := steps[0];
    assert forall k :: 1 <= k < |steps| ==> steps[k] == steps[1..][k - 1];
    forall i: nat | Outside(steps, i)
      ensures Bit(rv, i) == Bit(m, i)
    {
      assert Outside(steps[1..], i);
      if Touches(s) {
        assert !(s.lsb <= i < s.lsb + s.width);
        PlaceBit(m, s.lsb, s.width, StepValue(s, o, m, dv, shadows).value, i);
      }
    }
  }

  /** The statement of a whole-register legalizer; `o` is the register's old value. */
  function WholeLegalize(lsb: nat, realLen: nat, kind: WholeKind, o: nat, v: nat, dv: seq<nat>, shadows: map<string, nat>): (r: Result<nat>)
    requires realLen >= 1
    requires kind.WholeWarl? ==> ProcFits(kind.proc, |dv|)
    requires kind.WholeShadow? ==> kind.target in shadows
    ensures r.Ok? && !kind.WholeKeep? ==> r.value < Pow2(lsb + realLen) && forall i: nat :: i < lsb ==> !Bit(r.value, i)
  {
    var field :=
      match kind
      case WholeShadow(t, _) => Ok(Trunc(shadows[t], realLen))
      case WholeKeep => Ok(0)
      case WholeConst(c) => Ok(Trunc(c, realLen))
      case WholeWarl(proc) => Eval(realLen, proc, Slice(o, lsb, realLen), Slice(v, lsb, realLen), dv)
      case WholePlain => Ok(Slice(v, lsb, realLen));
    if kind.WholeKeep? then Ok(o)
    else if field.Err? then field
    else
      PlaceZeroFacts(lsb, realLen, field.value);
      Ok(Place(0, lsb, realLen, field.value))
  }

  /** A field placed over zeros fits and has its low bits clear. */
  lemma PlaceZeroFacts(lsb: nat, w: nat, f: nat)
    ensures Place(0, lsb, w, f) < Pow2(lsb + w)
    ensures forall i: nat :: i < lsb ==> !Bit(Place(0, lsb, w, f), i)
  {
    PlaceBound(0, lsb, w, f, lsb + w);
    forall i: nat | i < lsb
      ensures !Bit(Place(0, lsb, w, f), i)
    {
      PlaceBit(0, lsb, w, f, i);
      BitOfZero(i);
    }
  }

  /** A plain whole register keeps exactly the written bits `msb .. lsb`. */
  lemma WholePlainKeepsWritten(lsb: nat, realLen: nat, o: nat, v: nat, dv: seq<nat>, shadows: map<string, nat>)
    requires realLen >= 1
    ensures var r := WholeLegalize(lsb, realLen, WholePlain, o, v, dv, shadows);
      r.Ok? && Slice(r.value, lsb, realLen) == Slice(v, lsb, realLen)
  {
    SlicePlace(0, lsb, realLen, Slice(v, lsb, realLen));
    TruncFits(Slice(v, lsb, realLen), realLen);
  }

  /** A whole WARL register holds its field legalizer's result in bits `msb .. lsb`. */
  lemma WholeWarlField(lsb: nat, realLen: nat, proc: Procedure, o: nat, v: nat, dv: seq<nat>, shadows: map<string, nat>)
    requires realLen >= 1 && ProcFits(proc, |dv|)
    ensures var e := Eval(realLen, proc, Slice(o, lsb, realLen), Slice(v, lsb, realLen), dv);
      var r := WholeLegalize(lsb, realLen, WholeWarl(proc), o, v, dv, shadows);
      (r.Ok? <==> e.Ok?) && (r.Ok? ==> Slice(r.value, lsb, realLen) == e.value)
  {
    var e := Eval(realLen, proc, Slice(o, lsb, realLen), Slice(v, lsb, realLen), dv);
    if e.Ok? {
      SlicePlace(0, lsb, realLen, e.value);
      TruncFits(e.value, realLen);
    }
  }

  // ---------------------------------------------------------------------
  // The generator
  // ---------------------------------------------------------------------

  /** What parse_field makes of an implemented sub-field: getter statements and legalizer statements. */
  datatype FieldOut = FieldOut(get: seq<FieldStep>, assign: seq<FieldStep>)

  function LowerChar(c: char): char
  {
    if 'A' <= c <= 'Z' then (c as int + 32) as char else c
  }

  /** `str.lower()` on ASCII text: upper-case letters become lower-case, every other character stays. */
  function Lower(s: string): (r: string)
    ensures |r| == |s|
    ensures forall i :: 0 <= i < |s| ==> !('A' <= r[i] <= 'Z')
    ensures forall i :: 0 <= i < |s| && !('A' <= s[i] <= 'Z') ==> r[i] == s[i]
  {
    seq(|s|, i requires 0 <= i < |s| => LowerChar(s[i]))
  }

  /** Lower-casing twice is lower-casing once. */
  lemma LowerIdempotent(s: string)
    ensures Lower(Lower(s)) == Lower(s)
  {
  }

  /** The name a read-write shadow's statements use: the shadow entry, lower-cased. */
  function ShadowSource(sh: Shadow): string
  {
    if sh.field.Some? then Lower(sh.reg) + "." + Lower(sh.field.value) else Lower(sh.reg)
  }

  /**
   * The statements parse_field gives an implemented sub-field: a read-write
   * shadow writes the shadowed register and reads it back into the field, a
   * read-only shadow or a read-only variable keeps the old field, a constant
   * sets it, a WARL field runs its legalizer, and a plain field keeps the
   * written bits.
   */
  predicate OutOf(f: FieldYaml, out: FieldOut)
  {
    var w: nat := if f.lsb <= f.msb then f.msb - f.lsb + 1 else 0;
    if f.shadow.Some? then
      if f.shadow.value.rw then
        var src := ShadowSource(f.shadow.value);
        && out.get == [ReadShadow(src, f.lsb, w)]
        && |out.assign| == 2 && out.assign[1] == ReadShadow(src, f.lsb, w)
        && out.assign[0].WriteShadow? && out.assign[0].target == src
        && out.assign[0].lsb == f.lsb && out.assign[0].width == w
      else out == FieldOut([], [KeepOld(f.lsb, w)])
    else
      match f.ftype
      case RoConstant(c) => out == FieldOut([], [SetConst(f.lsb, w, c)])
      case RoVariable => out == FieldOut([], [KeepOld(f.lsb, w)])
      case Warl(spec) =>
        && out.get == [] && |out.assign| == 1 && out.assign[0].LegalizeWarl?
        && out.assign[0].lsb == f.lsb && out.assign[0].width == w
        && ProcFits(out.assign[0].proc, |spec.dependencyFields|)
      case PlainType => out == FieldOut([], [])
  }

  /** The implemented fields of a register, last first, the order parse_reg visits them in. */
  function ImplRev(fs: seq<FieldYaml>): seq<FieldYaml>
  {
    if fs == [] then [] else ImplRev(fs[1..]) + (if fs[0].implemented then [fs[0]] else [])
  }

  /** The legalizer statements of the fields, in order. */
  function Assigns(outs: seq<FieldOut>): seq<FieldStep>
  {
    if outs == [] then [] else Assigns(outs[..|outs| - 1]) + outs[|outs| - 1].assign
  }

  /** The getter statements of the fields, in order. */
  function Gets(outs: seq<FieldOut>): seq<FieldStep>
  {
    if outs == [] then [] else Gets(outs[..|outs| - 1]) + outs[|outs| - 1].get
  }

  /** The getter statements are empty exactly when every field's are. */
  lemma {:induction false} GetsEmpty(outs: seq<FieldOut>)
    ensures Gets(outs) == [] <==> forall j :: 0 <= j < |outs| ==> outs[j].get == []
  {
    if outs != [] {
      var n := |outs| - 1;
      GetsEmpty(outs[..n]);
      assert forall j :: 0 <= j < n ==> outs[..n][j] == outs[j];
    }
  }

  /** A register gets a getter exactly when one of its implemented fields has a read-write shadow. */
  lemma GetterIffShadow(fs: seq<FieldYaml>, outs: seq<FieldOut>)
    requires |outs| == |fs| && forall j :: 0 <= j < |fs| ==> OutOf(fs[j], outs[j])
    ensures Gets(outs) != [] <==> exists j :: 0 <= j < |fs| && fs[j].shadow.Some? && fs[j].shadow.value.rw
  {
    GetsEmpty(outs);
    forall j | 0 <= j < |fs|
      ensures outs[j].get != [] <==> fs[j].shadow.Some? && fs[j].shadow.value.rw
    {
      assert OutOf(fs[j], outs[j]);
    }
  }

  /** The state the generator accumulates while it walks the ISA YAML. */
  class Generator {
    var parsedRegs: seq<string>
    var parsedWarlFields: seq<string>
    var procedures: seq<NamedProc>
    var regDefs: seq<RegDef>
    var defines: seq<Define>
    var nameMap: seq<NameEntry>

    constructor ()
      ensures parsedRegs == [] && parsedWarlFields == [] && procedures == []
      ensures regDefs == [] && defines == [] && nameMap == []
    {
      parsedRegs := [];
      parsedWarlFields := [];
      procedures := [];
      regDefs := [];
      defines := [];
      nameMap := [];
    }

    /** parse_field for a sub-field of `reg`: the kind decides, the shadow first. */
    method ParseField(reg: string, f: FieldYaml) returns (r: Result<FieldOut>)
      requires f.lsb <= f.msb
      requires f.ftype.Warl? ==> SpecWellFormed(f.ftype.spec)
      modifies this
      ensures parsedRegs == old(parsedRegs) && regDefs == old(regDefs)
      ensures defines == old(defines) && nameMap == old(nameMap)
      ensures var w := f.msb - f.lsb + 1;
        && (f.shadow.Some? && f.shadow.value.rw && f.shadow.value.field.Some? && Lower(f.shadow.value.reg) !in old(parsedRegs) ==> r.Err?)
        && (r.Ok? ==> OutOf(f, r.value))
        && (f.shadow.Some? && !f.shadow.value.rw ==> r == Ok(FieldOut([], [KeepOld(f.lsb, w)])))
        && (f.shadow.None? && f.ftype.RoConstant? ==> r == Ok(FieldOut([], [SetConst(f.lsb, w, f.ftype.value)])))
        && (f.shadow.None? && f.ftype.RoVariable? ==> r == Ok(FieldOut([], [KeepOld(f.lsb, w)])))
        && (f.shadow.None? && f.ftype.PlainType? ==> r == Ok(FieldOut([], [])))
        && (f.shadow.None? && f.ftype.Warl? && r.Ok? ==>
              && |r.value.assign| == 1 && r.value.assign[0].LegalizeWarl? && r.value.get == []
              && ProcFits(r.value.assign[0].proc, |f.ftype.spec.dependencyFields|)
              && parsedWarlFields == old(parsedWarlFields) + [Lower(reg) + "." + Lower(f.name)]
              && procedures == old(procedures) + [NamedProc(reg, f.name, r.value.assign[0].proc)])
        && (!(f.shadow.None? && f.ftype.Warl?) ==> parsedWarlFields == old(parsedWarlFields) && procedures == old(procedures))
        && (r.Ok? ==> forall k :: 0 <= k < |r.value.assign| ==> r.value.assign[k].lsb == f.lsb && r.value.assign[k].width == w)
        && (r.Ok? ==> forall j, k :: 0 <= j < k < |r.value.assign| ==> !(Touches(r.value.assign[j]) && Touches(r.value.assign[k])))
    {
      var w := f.msb - f.lsb + 1;
      if f.shadow.Some? {
        var sh := f.shadow.value;
        if sh.rw {
          var source: string;
          var write: FieldStep;
          source := ShadowSource(sh);
          if sh.field.Some? {
            if Lower(sh.reg) !in parsedRegs {
              return Err(MissingShadow);
            }
            write := WriteShadow(source, f.lsb, w, source in parsedWarlFields);
          } else {
            write := WriteShadow(source, f.lsb, w, true);
          }
          var get := [ReadShadow(source, f.lsb, w)];
          return Ok(FieldOut(get, [write] + get));
        }
        return Ok(FieldOut([], [KeepOld(f.lsb, w)]));
      }
      match f.ftype {
        case RoConstant(c) =>
          return Ok(FieldOut([], [SetConst(f.lsb, w, c)]));
        case RoVariable =>
          return Ok(FieldOut([], [KeepOld(f.lsb, w)]));
        case Warl(spec) =>
          var proc := ParseWarlValue(spec);
          if proc.Err? {
            return Err(proc.error);
          }
          parsedWarlFields := parsedWarlFields + [Lower(reg) + "." + Lower(f.name)];
          procedures := procedures + [NamedProc(reg, f.name, proc.value)];
          return Ok(FieldOut([], [LegalizeWarl(f.lsb, w, proc.value)]));
        case PlainType =>
          return Ok(FieldOut([], []));
      }
    }

    /** parse_field for a register without sub-fields (`total`). */
    method ParseWhole(reg: string, f: FieldYaml) returns (r: Result<WholeKind>)
      requires f.lsb <= f.msb
      requires f.ftype.Warl? ==> SpecWellFormed(f.ftype.spec)
      modifies this
      ensures parsedRegs == old(parsedRegs) && regDefs == old(regDefs)
      ensures defines == old(defines) && nameMap == old(nameMap)
      ensures f.shadow.Some? && f.shadow.value.rw && f.lsb > 0 ==> r.Err?
      ensures f.shadow.Some? && f.shadow.value.rw && f.shadow.value.field.Some? && Lower(f.shadow.value.reg) !in old(parsedRegs) ==> r.Err?
      ensures f.shadow.Some? && f.shadow.value.rw && r.Ok? ==> r.value.WholeShadow? && r.value.target == ShadowSource(f.shadow.value)
      ensures f.shadow.Some? && !f.shadow.value.rw ==> r == Ok(WholeKeep)
      ensures f.shadow.None? && f.ftype.RoConstant? ==> r == Ok(WholeConst(f.ftype.value))
      ensures f.shadow.None? && f.ftype.RoVariable? ==> r == Ok(WholeKeep)
      ensures f.shadow.None? && f.ftype.PlainType? ==> r == Ok(WholePlain)
      ensures f.shadow.None? && f.ftype.Warl? && r.Ok? ==>
        && r.value.WholeWarl? && ProcFits(r.value.proc, |f.ftype.spec.dependencyFields|)
        && parsedWarlFields == old(parsedWarlFields) + [Lower(reg)]
        && procedures == old(procedures) + [NamedProc(reg, "total", r.value.proc)]
      ensures !(f.shadow.None? && f.ftype.Warl?) ==> parsedWarlFields == old(parsedWarlFields) && procedures == old(procedures)
    {
      if f.shadow.Some? {
        var sh := f.shadow.value;
        if sh.rw {
          var source := ShadowSource(sh);
          var legalized := true;
          if sh.field.Some? {
            if Lower(sh.reg) !in parsedRegs {
              return Err(MissingShadow);
            }
            legalized := source in parsedWarlFields;
          }
          if f.lsb > 0 {
            // the getter's format string has one conversion for three arguments
            return Err(ShadowFormat);
          }
          return Ok(WholeShadow(source, legalized));
        }
        return Ok(WholeKeep);
      }
      match f.ftype {
        case RoConstant(c) =>
          return Ok(WholeConst(c));
        case RoVariable =>
          return Ok(WholeKeep);
        case Warl(spec) =>
          var proc := ParseWarlValue(spec);
          if proc.Err? {
            return Err(proc.error);
          }
          parsedWarlFields := parsedWarlFields + [Lower(reg)];
          procedures := procedures + [NamedProc(reg, "total", proc.value)];
          return Ok(WholeWarl(proc.value));
        case PlainType =>
          return Ok(WholePlain);
      }
    }

    /**
     * parse_reg: a register with sub-fields gets the statements of its
     * implemented fields, last field first; a register without sub-fields
     * gets one whole-register statement.
     */
    method ParseReg(reg: RegYaml, xlen: nat) returns (r: Result<RegDef>, ghost outs: seq<FieldOut>)
      requires RegWellFormed(reg)
      modifies this
      ensures parsedRegs == old(parsedRegs) && defines == old(defines) && nameMap == old(nameMap)
      ensures r.Ok? ==> regDefs == old(regDefs) + [r.value]
      ensures r.Ok? ==> r.value.name == reg.name && r.value.address == reg.address
      ensures r.Ok? && |reg.fields| > 0 ==>
        && r.value.width == xlen && r.value.reset == Trunc(reg.resetVal, xlen)
        && r.value.legalizer.FieldSteps?
        && |outs| == |ImplRev(reg.fields)|
        && (forall j :: 0 <= j < |outs| ==> OutOf(ImplRev(reg.fields)[j], outs[j]))
        && r.value.legalizer.steps == Assigns(outs)
        && (r.value.hasGetter <==> Gets(outs) != [])
        && (ImplementedDisjoint(reg.fields) ==> FieldsDisjoint(r.value.legalizer.steps))
        && (forall k :: 0 <= k < |r.value.legalizer.steps| ==> r.value.legalizer.steps[k].width >= 1)
      ensures r.Ok? && |reg.fields| == 0 ==>
        && r.value.width == reg.whole.msb + 1 && r.value.reset == Trunc(reg.resetVal, reg.whole.msb + 1)
        && r.value.legalizer.WholeSteps?
        && r.value.legalizer.lsb == reg.whole.lsb && r.value.legalizer.realLen == reg.whole.msb - reg.whole.lsb + 1
    {
      outs := [];
      if |reg.fields| > 0 {
        var res;
        res, outs := ParseFields(reg);
        if res.Err? {
          return Err(res.error), outs;
        }
        var (steps, getter) := res.value;
        var d := RegDef(reg.name, reg.address, xlen, Trunc(reg.resetVal, xlen), FieldSteps(steps), getter != []);
        regDefs := regDefs + [d];
        return Ok(d), outs;
      }
      var f := reg.whole;
      var kind := ParseWhole(reg.name, f);
      if kind.Err? {
        return Err(kind.error), outs;
      }
      var len := f.msb + 1;
      var d := RegDef(reg.name, reg.address, len, Trunc(reg.resetVal, len),
                      WholeSteps(f.lsb, f.msb - f.lsb + 1, kind.value), kind.value.WholeShadow?);
      regDefs := regDefs + [d];
      return Ok(d), outs;
    }

    /** The field loop of parse_reg. */
    method ParseFields(reg: RegYaml) returns (r: Result<(seq<FieldStep>, seq<FieldStep>)>, ghost outs: seq<FieldOut>)
      requires RegWellFormed(reg)
      modifies this
      ensures parsedRegs == old(parsedRegs) && defines == old(defines) && nameMap == old(nameMap) && regDefs == old(regDefs)
      ensures r.Ok? ==>
        && |outs| == |ImplRev(reg.fields)|
        && (forall j :: 0 <= j < |outs| ==> OutOf(ImplRev(reg.fields)[j], outs[j]))
        && r.value.0 == Assigns(outs) && r.value.1 == Gets(outs)
      ensures r.Ok? ==> ImplementedDisjoint(reg.fields) ==> FieldsDisjoint(r.value.0)
      ensures r.Ok? ==> forall k :: 0 <= k < |r.value.0| ==> r.value.0[k].width >= 1
    {
      var steps: seq<FieldStep> := [];
      var getter: seq<FieldStep> := [];
      ghost var origin: seq<nat> := [];
      outs := [];
      var k := |reg.fields|;
      while k > 0
        invariant 0 <= k <= |reg.fields|
        invariant OutsFor(reg.fields, k, steps, getter, outs)
        invariant OriginFor(reg.fields, k, steps, origin)
        invariant parsedRegs == old(parsedRegs) && defines == old(defines) && nameMap == old(nameMap) && regDefs == old(regDefs)
      {
        k := k - 1;
        var f := reg.fields[k];
        if f.implemented {
          var out := ParseImplemented(reg.name, f);
          if out.Err? {
            return Err(out.error), outs;
          }
          OutsStep(reg.fields, k, steps, getter, outs, out.value);
          OriginStep(reg.fields, k, steps, origin, out.value.assign);
          steps := steps + out.value.assign;
          origin := origin + seq(|out.value.assign|, _ => k);
          getter := getter + out.value.get;
          outs := outs + [out.value];
        } else {
          OutsSkip(reg.fields, k, steps, getter, outs);
        }
      }
      assert reg.fields[0..] == reg.fields;
      if ImplementedDisjoint(reg.fields) {
        OriginsApart(reg.fields, steps, origin);
      }
      return Ok((steps, getter)), outs;
    }

    /** One pass of the field loop of parse_reg, for an implemented field. */
    method ParseImplemented(regName: string, f: FieldYaml) returns (r: Result<FieldOut>)
      requires FieldWellFormed(f)
      modifies this
      ensures parsedRegs == old(parsedRegs) && defines == old(defines) && nameMap == old(nameMap) && regDefs == old(regDefs)
      ensures r.Ok? ==> OutOf(f, r.value)
      ensures r.Ok? ==> forall k :: 0 <= k < |r.value.assign| ==>
        r.value.assign[k].lsb == f.lsb && r.value.assign[k].width == f.msb - f.lsb + 1
      ensures r.Ok? ==> forall j, k :: 0 <= j < k < |r.value.assign| ==> !(Touches(r.value.assign[j]) && Touches(r.value.assign[k]))
    {
      r := ParseField(regName, f);
    }

    /** The main loop: every accessible register gets a definition and a name; all but the counters are generated. */
    method Run(regs: seq<RegYaml>, xlen: nat) returns (r: Result<()>)
      requires forall k :: 0 <= k < |regs| ==> RegWellFormed(regs[k])
      modifies this
      ensures r.Ok? ==> parsedRegs == old(parsedRegs) + ParsedNames(regs)
      ensures r.Ok? ==> defines == old(defines) + DefineEntries(regs)
      ensures r.Ok? ==> nameMap == old(nameMap) + NameEntries(regs)
      ensures r.Ok? ==> |regDefs| == |old(regDefs)| + |ParsedNames(regs)|
    {
      var k := 0;
      while k < |regs|
        invariant 0 <= k <= |regs|
        invariant parsedRegs == old(parsedRegs) + ParsedNames(regs[..k])
        invariant defines == old(defines) + DefineEntries(regs[..k])
        invariant nameMap == old(nameMap) + NameEntries(regs[..k])
        invariant |regDefs| == |old(regDefs)| + |ParsedNames(regs[..k])|
      {
        var res := Visit(regs[k], xlen);
        if res.Err? {
          return res;
        }
        EntriesSnoc(regs, k);
        Assoc(old(parsedRegs), ParsedNames(regs[..k]), ParsedOf(regs[k]));
        Assoc(old(defines), DefineEntries(regs[..k]), DefineOf(regs[k]));
        Assoc(old(nameMap), NameEntries(regs[..k]), NameOf(regs[k]));
        k := k + 1;
      }
      assert regs[..k] == regs;
      return Ok(());
    }

    /** One iteration of the main loop. */
    method Visit(reg: RegYaml, xlen: nat) returns (r: Result<()>)
      requires RegWellFormed(reg)
      modifies this
      ensures r.Ok? ==> parsedRegs == old(parsedRegs) + ParsedOf(reg)
      ensures r.Ok? ==> defines == old(defines) + DefineOf(reg)
      ensures r.Ok? ==> nameMap == old(nameMap) + NameOf(reg)
      ensures r.Ok? ==> |regDefs| == |old(regDefs)| + |ParsedOf(reg)|
    {
      if Listed(reg) {
        if !IsCounter(reg.name) {
          var d;
          ghost var outs;
          d, outs := ParseReg(reg, xlen);
          if d.Err? {
            return Err(d.error);
          }
          parsedRegs := parsedRegs + [reg.name];
        }
        defines := defines + [Define(reg.address, reg.priv)];
        nameMap := nameMap + [NameEntry(reg.address, reg.name)];
      }
      return Ok(());
    }
  }

  /** The indices of every field are usable and every WARL node is well formed. */
  predicate FieldWellFormed(f: FieldYaml)
  {
    f.lsb <= f.msb && (f.ftype.Warl? ==> SpecWellFormed(f.ftype.spec))
  }

  predicate RegWellFormed(reg: RegYaml)
  {
    (forall k :: 0 <= k < |reg.fields| ==> FieldWellFormed(reg.fields[k])) && FieldWellFormed(reg.whole)
  }

  predicate FieldsApart(a: FieldYaml, b: FieldYaml)
  {
    a.msb < b.lsb || b.msb < a.lsb
  }

  /** No two implemented fields of a register share a bit. */
  predicate ImplementedDisjoint(fields: seq<FieldYaml>)
  {
    forall j, k :: 0 <= j < k < |fields| && fields[j].implemented && fields[k].implemented ==> FieldsApart(fields[j], fields[k])
  }

  /** The field loop of parse_reg after visiting `fields[k..]`, last first: `outs` are the fields' statements. */
  ghost predicate OutsFor(fields: seq<FieldYaml>, k: nat, steps: seq<FieldStep>, getter: seq<FieldStep>, outs: seq<FieldOut>)
    requires k <= |fields|
  {
    && |outs| == |ImplRev(fields[k..])|
    && (forall j :: 0 <= j < |outs| ==> OutOf(ImplRev(fields[k..])[j], outs[j]))
    && steps == Assigns(outs) && getter == Gets(outs)
  }

  /** `origin` gives the field in `fields[k..]` each step came from. */
  ghost predicate OriginFor(fields: seq<FieldYaml>, k: nat, steps: seq<FieldStep>, origin: seq<nat>)
  {
    && |origin| == |steps|
    && (forall j :: 0 <= j < |steps| ==>
          && k <= origin[j] < |fields| && fields[origin[j]].implemented
          && steps[j].lsb == fields[origin[j]].lsb
          && steps[j].width == fields[origin[j]].msb - fields[origin[j]].lsb + 1)
    && (forall i, j :: 0 <= i < j < |steps| && Touches(steps[i]) && Touches(steps[j]) ==> origin[i] != origin[j])
  }

  /** Visiting an implemented field appends its statements. */
  lemma OutsStep(fields: seq<FieldYaml>, k: nat, steps: seq<FieldStep>, getter: seq<FieldStep>, outs: seq<FieldOut>, out: FieldOut)
    requires k < |fields| && fields[k].implemented
    requires OutsFor(fields, k + 1, steps, getter, outs)
    requires OutOf(fields[k], out)
    ensures OutsFor(fields, k, steps + out.assign, getter + out.get, outs + [out])
  {
    ImplRevStep(fields, k);
    OutsSnoc(outs, out);
    var fs := ImplRev(fields[k..]);
    assert fs == ImplRev(fields[k + 1..]) + [fields[k]];
    assert forall j :: 0 <= j < |outs| ==> fs[j] == ImplRev(fields[k + 1..])[j] && (outs + [out])[j] == outs[j];
  }

  /** The steps of an implemented field come from it. */
  lemma OriginStep(fields: seq<FieldYaml>, k: nat, steps: seq<FieldStep>, origin: seq<nat>, assign: seq<FieldStep>)
    requires k < |fields| && fields[k].implemented
    requires OriginFor(fields, k + 1, steps, origin)
    requires forall j :: 0 <= j < |assign| ==>
      assign[j].lsb == fields[k].lsb && assign[j].width == fields[k].msb - fields[k].lsb + 1
    requires forall i, j :: 0 <= i < j < |assign| ==> !(Touches(assign[i]) && Touches(assign[j]))
    ensures OriginFor(fields, k, steps + assign, origin + seq(|assign|, _ => k))
  {
    var steps', origin' := steps + assign, origin + seq(|assign|, _ => k);
    assert forall j :: |steps| <= j < |steps'| ==> origin'[j] == k && steps'[j] == assign[j - |steps|];
    assert forall j :: 0 <= j < |steps| ==> origin'[j] == origin[j] && steps'[j] == steps[j];
  }

  /** Visiting a field that is not implemented changes nothing. */
  lemma OutsSkip(fields: seq<FieldYaml>, k: nat, steps: seq<FieldStep>, getter: seq<FieldStep>, outs: seq<FieldOut>)
    requires k < |fields| && !fields[k].implemented
    requires OutsFor(fields, k + 1, steps, getter, outs)
    ensures OutsFor(fields, k, steps, getter, outs)
  {
    ImplRevStep(fields, k);
  }

  /** Steps that come from different, apart fields do not share a bit. */
  lemma OriginsApart(fields: seq<FieldYaml>, steps: seq<FieldStep>, origin: seq<nat>)
    requires ImplementedDisjoint(fields) && |origin| == |steps|
    requires forall j :: 0 <= j < |steps| ==>
      && origin[j] < |fields| && fields[origin[j]].implemented
      && steps[j].lsb == fields[origin[j]].lsb
      && steps[j].width == fields[origin[j]].msb - fields[origin[j]].lsb + 1
    requires forall i, j :: 0 <= i < j < |steps| && Touches(steps[i]) && Touches(steps[j]) ==> origin[i] != origin[j]
    ensures FieldsDisjoint(steps)
  {
    forall i, j | 0 <= i < j < |steps| && Touches(steps[i]) && Touches(steps[j])
      ensures steps[i].lsb + steps[i].width <= steps[j].lsb || steps[j].lsb + steps[j].width <= steps[i].lsb
    {
      if origin[i] < origin[j] {
        assert FieldsApart(fields[origin[i]], fields[origin[j]]);
      } else {
        assert FieldsApart(fields[origin[j]], fields[origin[i]]);
      }
    }
  }

  /** One field more, at the front of the visited suffix, comes last in the visiting order. */
  lemma ImplRevStep(fs: seq<FieldYaml>, k: nat)
    requires k < |fs|
    ensures ImplRev(fs[k..]) == ImplRev(fs[k + 1..]) + (if fs[k].implemented then [fs[k]] else [])
  {
    assert fs[k..][1..] == fs[k + 1..];
  }

  lemma OutsSnoc(outs: seq<FieldOut>, out: FieldOut)
    ensures Assigns(outs + [out]) == Assigns(outs) + out.assign
    ensures Gets(outs + [out]) == Gets(outs) + out.get
  {
    assert (outs + [out])[..|outs|] == outs;
  }

  lemma Assoc<T>(a: seq<T>, b: seq<T>, c: seq<T>)
    ensures a + (b + c) == (a + b) + c
  {
  }

  /** One more register: its entries follow those of the registers before it. */
  lemma EntriesSnoc(regs: seq<RegYaml>, k: nat)
    requires k < |regs|
    ensures DefineEntries(regs[..k + 1]) == DefineEntries(regs[..k]) + DefineOf(regs[k])
    ensures NameEntries(regs[..k + 1]) == NameEntries(regs[..k]) + NameOf(regs[k])
    ensures ParsedNames(regs[..k + 1]) == ParsedNames(regs[..k]) + ParsedOf(regs[k])
  {
    EntriesAppend(regs[..k], [regs[k]]);
    assert regs[..k + 1] == regs[..k] + [regs[k]];
    assert [regs[k]][1..] == [];
    assert DefineEntries([regs[k]]) == DefineOf(regs[k]) + [];
    assert NameEntries([regs[k]]) == NameOf(regs[k]) + [];
    assert ParsedNames([regs[k]]) == ParsedOf(regs[k]) + [];
  }

  lemma EntriesAppend(a: seq<RegYaml>, b: seq<RegYaml>)
    ensures DefineEntries(a + b) == DefineEntries(a) + DefineEntries(b)
    ensures NameEntries(a + b) == NameEntries(a) + NameEntries(b)
    ensures ParsedNames(a + b) == ParsedNames(a) + ParsedNames(b)
  {
    DefineAppend(a, b);
    NameAppend(a, b);
    ParsedAppend(a, b);
  }

  lemma {:induction false} DefineAppend(a: seq<RegYaml>, b: seq<RegYaml>)
    ensures DefineEntries(a + b) == DefineEntries(a) + DefineEntries(b)
  {
    if |a| == 0 {
      assert a + b == b;
    } else {
      assert (a + b)[0] == a[0] && (a + b)[1..] == a[1..] + b;
      DefineAppend(a[1..], b);
      var h, x, y := DefineOf(a[0]), DefineEntries(a[1..]), DefineEntries(b);
      assert DefineEntries(a + b) == h + (x + y);
      assert h + (x + y) == (h + x) + y;
    }
  }


  lemma {:induction false} NameAppend(a: seq<RegYaml>, b: seq<RegYaml>)
    ensures NameEntries(a + b) == NameEntries(a) + NameEntries(b)
  {
    if |a| == 0 {
      assert a + b == b;
    } else {
      assert (a + b)[0] == a[0] && (a + b)[1..] == a[1..] + b;
      NameAppend(a[1..], b);
      var h, x, y := NameOf(a[0]), NameEntries(a[1..]), NameEntries(b);
      assert NameEntries(a + b) == h + (x + y);
      assert h + (x + y) == (h + x) + y;
    }
  }


  lemma {:induction false} ParsedAppend(a: seq<RegYaml>, b: seq<RegYaml>)
    ensures ParsedNames(a + b) == ParsedNames(a) + ParsedNames(b)
  {
    if |a| == 0 {
      assert a + b == b;
    } else {
      assert (a + b)[0] == a[0] && (a + b)[1..] == a[1..] + b;
      ParsedAppend(a[1..], b);
      var h, x, y := ParsedOf(a[0]), ParsedNames(a[1..]), ParsedNames(b);
      assert ParsedNames(a + b) == h + (x + y);
      assert h + (x + y) == (h + x) + y;
    }
  }

}
