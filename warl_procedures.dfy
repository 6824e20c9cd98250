/**
 * The legalize functions the generator writes for WARL fields, and the
 * generator passes that produce them.
 *
 * A field without dependency fields gets a `Simple` procedure: one legal
 * entry (a range list or a bitmask) and, for an illegal written value, the
 * `wr_illegal` rules in order.  A field with dependency fields gets a
 * `Dependent` procedure: each legal entry is guarded by tests on the
 * dependency fields; a range entry whose guard holds and which rejects the
 * written value raises the `illegal` flag, a bitmask entry whose guard holds
 * rewrites the value; with the flag raised the rules run in order.  The
 * rules of a dependent procedure see the empty range list the procedure
 * declares before its clauses (the list each clause declares is local to
 * that clause), so a searching mode there yields 0.
 */
module WarlProcedures {
  import opened Wrappers
  import opened Bits
  import opened WarlRange
  import opened WarlLegalize
  import opened WarlParse

  /** One entry of `dependency_fields`: a register, or `register::field`. */
  datatype DepName = DepName(reg: string, field: Option<string>)

  /** One `name[msb:lsb] op [values]` test of a dependency string. */
  datatype DepClause = DepClause(name: string, msb: nat, lsb: nat, isBitmask: bool, spec: ValSpec)

  /** A compiled test: the bits `msb .. lsb` of dependency `source` lie in `values`. */
  datatype DepTest = DepTest(source: nat, msb: nat, lsb: nat, values: seq<RangeEntry>)

  /** What a `wr_illegal` rule does: write a literal, or call `legalize_warl_either` in a mode. */
  datatype Action = SetLiteral(value: nat) | Resolve(mode: Mode)

  /** A `wr_illegal` entry: dependency tests, an optional `wr_val in [...]` guard and the action. */
  datatype IllegalSpec = IllegalSpec(deps: seq<DepClause>, wrVal: Option<ValSpec>, action: Action)

  /** A `legal` entry: the dependency tests before `->` (if any) and the clauses after it. */
  datatype LegalSpec = LegalSpec(deps: Option<seq<DepClause>>, parts: seq<LegalPart>)

  /** The `type.warl` node of a field. */
  datatype WarlSpec = WarlSpec(dependencyFields: seq<DepName>, legal: seq<LegalSpec>, wrIllegal: seq<IllegalSpec>)

  datatype Rule = Rule(deps: seq<DepTest>, wrVal: Option<seq<RangeEntry>>, action: Action)
  datatype Clause = Clause(deps: Option<seq<DepTest>>, body: Either)

  /** The body of a generated `legalize_<reg>_<FIELD>` function. */
  datatype Procedure =
    | Simple(segments: seq<RangeSegment>, rules: seq<Rule>)
    | SimpleBitmask(bitmask: BitmaskSpec)
    | Dependent(clauses: seq<Clause>, rules: seq<Rule>)

  const MissingDependency := "cannot find dependency field"
  const BitmaskDependency := "cannot support bitmask in dependency list"
  const TooManyLegal := "warl without dependence can only have one legal entry"
  const NoLegal := "list index out of range"

  /** The 64-bit mask a `wr_val` list is checked against. */
  const WrValMask: nat := Pow2(64) - 1

  // ---------------------------------------------------------------------
  // Dependency tests
  // ---------------------------------------------------------------------

  /** The name a dependency is referred to by: its field, or the register itself. */
  function Leaf(d: DepName): string
  {
    if d.field.Some? then d.field.value else d.reg
  }

  /** `leaf_dependencies.index(field)`: the first dependency with that leaf name. */
  function FindLeaf(names: seq<DepName>, field: string): (r: Option<nat>)
    ensures r.Some? ==> r.value < |names| && Leaf(names[r.value]) == field
    ensures r.Some? ==> forall j :: 0 <= j < r.value ==> Leaf(names[j]) != field
    ensures r.None? <==> forall j :: 0 <= j < |names| ==> Leaf(names[j]) != field
  {
    if |names| == 0 then None
    else if Leaf(names[0]) == field then Some(0)
    else
      var t := FindLeaf(names[1..], field);
      if t.None? then
        assert forall j :: 1 <= j < |names| ==> Leaf(names[j]) == Leaf(names[1..][j - 1]);
        None
      else Some(t.value + 1)
  }

  /** search_dependency_field: the index of the named dependency, or an abort. */
  function SearchDependencyField(field: string, names: seq<DepName>): (r: Result<nat>)
    ensures r.Err? <==> forall j :: 0 <= j < |names| ==> Leaf(names[j]) != field
    ensures r.Ok? ==> r.value < |names| && Leaf(names[r.value]) == field
    ensures r.Ok? ==> forall j :: 0 <= j < r.value ==> Leaf(names[j]) != field
  {
    var k := FindLeaf(names, field);
    if k.None? then Err(MissingDependency) else Ok(k.value)
  }

  /** One dependency test as parse_dependency compiles it: values are neither shifted nor sorted. */
  function CompileDep(c: DepClause, names: seq<DepName>): (r: Result<DepTest>)
    ensures r.Ok? <==> !c.isBitmask && exists j :: 0 <= j < |names| && Leaf(names[j]) == c.name
    ensures r.Ok? ==> r.value.source < |names| && Leaf(names[r.value.source]) == c.name
    ensures r.Ok? ==> r.value.msb == c.msb && r.value.lsb == c.lsb
  {
    var s := SearchDependencyField(c.name, names);
    if s.Err? then Err(s.error)
    else if c.isBitmask then Err(BitmaskDependency)
    else
      var es := if c.spec.Span? then [Interval(c.spec.base, c.spec.bound)] else ValueEntries(c.spec.vals);
      Ok(DepTest(s.value, c.msb, c.lsb, es))
  }

  /** The values a compiled test accepts are exactly the ones written. */
  lemma CompileDepValues(c: DepClause, names: seq<DepName>, x: nat)
    requires CompileDep(c, names).Ok?
    ensures InRange(x, CompileDep(c, names).value.values) <==>
      if c.spec.Span? then c.spec.base <= x <= c.spec.bound else x in c.spec.vals
  {
    if c.spec.Listed? {
      ValueEntriesMeaning(c.spec.vals, x);
    }
  }

  predicate DepsCompile(cs: seq<DepClause>, names: seq<DepName>)
  {
    forall k :: 0 <= k < |cs| ==> CompileDep(cs[k], names).Ok?
  }

  /** `ts` are the tests compiled from `cs`, in order. */
  predicate DepsCompiled(cs: seq<DepClause>, names: seq<DepName>, ts: seq<DepTest>)
  {
    |ts| == |cs| && forall k :: 0 <= k < |cs| ==> CompileDep(cs[k], names) == Ok(ts[k])
  }

  /** parse_dependency: compile each test; the tests are conjoined. */
  method ParseDependency(cs: seq<DepClause>, names: seq<DepName>) returns (r: Result<seq<DepTest>>)
    ensures r.Ok? <==> DepsCompile(cs, names)
    ensures r.Ok? ==> DepsCompiled(cs, names, r.value)
  {
    var tests: seq<DepTest> := [];
    var k := 0;
    while k < |cs|
      invariant 0 <= k <= |cs|
      invariant DepsCompile(cs[..k], names) && DepsCompiled(cs[..k], names, tests)
    {
      var t := CompileDep(cs[k], names);
      if t.Err? {
        return Err(t.error);
      }
      tests := tests + [t.value];
      k := k + 1;
      assert cs[..k] == cs[..k - 1] + [cs[k - 1]];
    }
    assert cs[..k] == cs;
    return Ok(tests);
  }

  // ---------------------------------------------------------------------
  // Semantics of a generated procedure
  // ---------------------------------------------------------------------

  predicate TestFits(t: DepTest, numDeps: nat)
  {
    t.source < numDeps && t.lsb <= t.msb
  }

  predicate TestsFit(ts: seq<DepTest>, numDeps: nat)
  {
    forall k :: 0 <= k < |ts| ==> TestFits(ts[k], numDeps)
  }

  /** A procedure refers only to the dependency fields it was compiled against. */
  predicate ProcFits(p: Procedure, numDeps: nat)
  {
    && (!p.SimpleBitmask? ==> forall k :: 0 <= k < |p.rules| ==> TestsFit(p.rules[k].deps, numDeps))
    && (p.Dependent? ==> forall k :: 0 <= k < |p.clauses| ==>
          p.clauses[k].deps.Some? ==> TestsFit(p.clauses[k].deps.value, numDeps))
  }

  /** `is_value_in_range(unsigned(dep[msb .. lsb]), values)`. */
  predicate Holds(t: DepTest, depVals: seq<nat>)
    requires TestFits(t, |depVals|)
  {
    InRange(Slice(depVals[t.source], t.lsb, t.msb - t.lsb + 1), t.values)
  }

  predicate AllHold(ts: seq<DepTest>, depVals: seq<nat>)
    requires TestsFit(ts, |depVals|)
  {
    forall k :: 0 <= k < |ts| ==> Holds(ts[k], depVals)
  }

  /** A rule fires when its dependency tests hold and the written value passes its `wr_val` guard. */
  predicate Fires(rule: Rule, v: nat, depVals: seq<nat>)
    requires TestsFit(rule.deps, |depVals|)
  {
    AllHold(rule.deps, depVals) && (rule.wrVal.None? || InRange(v, rule.wrVal.value))
  }

  /**
   * `m = <literal>` or `m = legalize_warl_either(o, m, WARL_range_list(segs), mode)`.
   * The literal is taken modulo the field's width.
   */
  function Apply(n: nat, o: nat, m: nat, a: Action, segs: seq<RangeSegment>): (r: Result<nat>)
    requires n >= 1 && o < Pow2(n) && m < Pow2(n)
    ensures r.Ok? ==> r.value < Pow2(n)
  {
    match a
    case SetLiteral(c) => Ok(Trunc(c, n))
    case Resolve(mode) => LegalizeEither(n, o, m, RangeList(segs), mode)
  }

  /** The rules, in order, each on the value the previous one left; a `throw` aborts. */
  function RunRules(n: nat, o: nat, v: nat, m: nat, rules: seq<Rule>, segs: seq<RangeSegment>, depVals: seq<nat>): (r: Result<nat>)
    requires n >= 1 && o < Pow2(n) && m < Pow2(n)
    requires forall k :: 0 <= k < |rules| ==> TestsFit(rules[k].deps, |depVals|)
    ensures r.Ok? ==> r.value < Pow2(n)
    decreases |rules|
  {
    if |rules| == 0 then Ok(m)
    else if Fires(rules[0], v, depVals) then
      var m1 := Apply(n, o, m, rules[0].action, segs);
      if m1.Err? then m1 else RunRules(n, o, v, m1.value, rules[1..], segs, depVals)
    else RunRules(n, o, v, m, rules[1..], segs, depVals)
  }

  /** A clause applies when it has no guard or its dependency tests hold. */
  predicate Applies(c: Clause, depVals: seq<nat>)
    requires c.deps.Some? ==> TestsFit(c.deps.value, |depVals|)
  {
    c.deps.None? || AllHold(c.deps.value, depVals)
  }

  predicate ClausesFit(clauses: seq<Clause>, numDeps: nat)
  {
    forall k :: 0 <= k < |clauses| ==> clauses[k].deps.Some? ==> TestsFit(clauses[k].deps.value, numDeps)
  }

  /** The clause blocks: the `illegal` flag and the value after the bitmask clauses. */
  function RunClauses(n: nat, v: nat, m: nat, clauses: seq<Clause>, illegal: bool, depVals: seq<nat>): (r: (bool, nat))
    requires n >= 1 && v < Pow2(n) && m < Pow2(n)
    requires ClausesFit(clauses, |depVals|)
    ensures r.1 < Pow2(n)
    ensures illegal ==> r.0
    decreases |clauses|
  {
    if |clauses| == 0 then (illegal, m)
    else
      var c := clauses[0];
      if !Applies(c, depVals) then RunClauses(n, v, m, clauses[1..], illegal, depVals)
      else if c.body.RangeList? then
        RunClauses(n, v, m, clauses[1..], illegal || !InRangeList(n, v, c.body.segments), depVals)
      else RunClauses(n, v, LegalizeBitmask(n, m, c.body.bitmask), clauses[1..], illegal, depVals)
  }

  /** `legalize_<reg>_<FIELD>(o, v)` with the dependency fields' current values. */
  function Eval(n: nat, p: Procedure, o: nat, v: nat, depVals: seq<nat>): (r: Result<nat>)
    requires n >= 1 && o < Pow2(n) && v < Pow2(n)
    requires ProcFits(p, |depVals|)
    ensures r.Ok? ==> r.value < Pow2(n)
    ensures p.SimpleBitmask? ==> r.Ok?
  {
    match p
    case Simple(segs, rules) =>
      if InRangeList(n, v, segs) then Ok(v) else RunRules(n, o, v, v, rules, segs, depVals)
    case SimpleBitmask(b) => LegalizeEither(n, o, v, Bitmask(b), Unchanged)
    case Dependent(clauses, rules) =>
      var (illegal, m) := RunClauses(n, v, v, clauses, false, depVals);
      if illegal then RunRules(n, o, v, m, rules, [], depVals) else Ok(m)
  }

  // ---------------------------------------------------------------------
  // Properties of the procedures
  // ---------------------------------------------------------------------

  /** A legal written value of a simple range procedure is kept whatever the rules say. */
  lemma SimpleKeepsLegal(n: nat, segs: seq<RangeSegment>, rules: seq<Rule>, o: nat, v: nat, depVals: seq<nat>)
    requires n >= 1 && o < Pow2(n) && v < Pow2(n)
    requires ProcFits(Simple(segs, rules), |depVals|)
    requires forall k :: 0 <= k < |segs| ==> InRange(And(v, Trunc(segs[k].mask, n)), segs[k].values)
    ensures Eval(n, Simple(segs, rules), o, v, depVals) == Ok(v)
  {
    InRangeListMeaning(n, v, segs);
  }

  /** When no rule fires, the value is left as it is. */
  lemma {:induction false} RunRulesNoneFire(n: nat, o: nat, v: nat, m: nat, rules: seq<Rule>, segs: seq<RangeSegment>, depVals: seq<nat>)
    requires n >= 1 && o < Pow2(n) && m < Pow2(n)
    requires forall k :: 0 <= k < |rules| ==> TestsFit(rules[k].deps, |depVals|)
    requires forall k :: 0 <= k < |rules| ==> !Fires(rules[k], v, depVals)
    ensures RunRules(n, o, v, m, rules, segs, depVals) == Ok(m)
  {
    if |rules| > 0 {
      RunRulesNoneFire(n, o, v, m, rules[1..], segs, depVals);
    }
  }

  /** Running two rule lists one after the other is running their concatenation. */
  lemma {:induction false} RunRulesAppend(n: nat, o: nat, v: nat, m: nat, r1: seq<Rule>, r2: seq<Rule>, segs: seq<RangeSegment>, depVals: seq<nat>)
    requires n >= 1 && o < Pow2(n) && m < Pow2(n)
    requires forall k :: 0 <= k < |r1| ==> TestsFit(r1[k].deps, |depVals|)
    requires forall k :: 0 <= k < |r2| ==> TestsFit(r2[k].deps, |depVals|)
    ensures var first := RunRules(n, o, v, m, r1, segs, depVals);
      RunRules(n, o, v, m, r1 + r2, segs, depVals) ==
        if first.Err? then first else RunRules(n, o, v, first.value, r2, segs, depVals)
    decreases |r1|
  {
    if |r1| > 0 {
      assert (r1 + r2)[0] == r1[0] && (r1 + r2)[1..] == r1[1..] + r2;
      if Fires(r1[0], v, depVals) {
        var m1 := Apply(n, o, m, r1[0].action, segs);
        if m1.Ok? {
          RunRulesAppend(n, o, v, m1.value, r1[1..], r2, segs, depVals);
        }
      } else {
        RunRulesAppend(n, o, v, m, r1[1..], r2, segs, depVals);
      }
    } else {
      assert r1 + r2 == r2;
    }
  }

  /** Rules that pick the largest or smallest legal value leave either the value they got or a legal one. */
  lemma {:induction false} RunRulesExtremes(n: nat, o: nat, v: nat, m: nat, rules: seq<Rule>, segs: seq<RangeSegment>, depVals: seq<nat>)
    requires n >= 1 && o < Pow2(n) && m < Pow2(n)
    requires forall k :: 0 <= k < |rules| ==> TestsFit(rules[k].deps, |depVals|)
    requires forall k :: 0 <= k < |rules| ==> rules[k].action == Resolve(Largest) || rules[k].action == Resolve(Smallest)
    requires SegmentsFit(n, segs)
    ensures var r := RunRules(n, o, v, m, rules, segs, depVals);
      && r.Ok?
      && (r.value == m || InRangeList(n, r.value, segs))
      && ((exists k :: 0 <= k < |rules| && Fires(rules[k], v, depVals)) ==> InRangeList(n, r.value, segs))
    decreases |rules|
  {
    if |rules| > 0 {
      var rest := rules[1..];
      assert forall k :: 1 <= k < |rules| ==> rules[k] == rest[k - 1];
      if Fires(rules[0], v, depVals) {
        ExtremesAreLegal(n, o, m, segs, rules[0].action.mode);
        var m1 := Apply(n, o, m, rules[0].action, segs).value;
        RunRulesExtremes(n, o, v, m1, rest, segs, depVals);
      } else {
        RunRulesExtremes(n, o, v, m, rest, segs, depVals);
        if exists k :: 0 <= k < |rules| && Fires(rules[k], v, depVals) {
          var k :| 0 <= k < |rules| && Fires(rules[k], v, depVals);
          assert Fires(rest[k - 1], v, depVals);
        }
      }
    }
  }

  /**
   * A simple range procedure whose rules all pick the largest or smallest
   * legal value returns a legal value whenever a rule fires for an illegal
   * written value, and otherwise the written value itself.
   */
  lemma SimpleExtremesLegal(n: nat, segs: seq<RangeSegment>, rules: seq<Rule>, o: nat, v: nat, depVals: seq<nat>)
    requires n >= 1 && o < Pow2(n) && v < Pow2(n)
    requires ProcFits(Simple(segs, rules), |depVals|)
    requires forall k :: 0 <= k < |rules| ==> rules[k].action == Resolve(Largest) || rules[k].action == Resolve(Smallest)
    requires SegmentsFit(n, segs)
    ensures var r := Eval(n, Simple(segs, rules), o, v, depVals);
      && r.Ok?
      && (r.value == v || InRangeList(n, r.value, segs))
      && ((exists k :: 0 <= k < |rules| && Fires(rules[k], v, depVals)) ==> InRangeList(n, r.value, segs))
  {
    if !InRangeList(n, v, segs) {
      RunRulesExtremes(n, o, v, v, rules, segs, depVals);
    }
  }

  /** The `illegal` flag is raised exactly when some applying range clause rejects the written value. */
  lemma {:induction false} IllegalFlag(n: nat, v: nat, m: nat, clauses: seq<Clause>, illegal: bool, depVals: seq<nat>)
    requires n >= 1 && v < Pow2(n) && m < Pow2(n)
    requires ClausesFit(clauses, |depVals|)
    ensures RunClauses(n, v, m, clauses, illegal, depVals).0 <==>
      illegal || exists k :: 0 <= k < |clauses| && Applies(clauses[k], depVals) && clauses[k].body.RangeList?
                                && !InRangeList(n, v, clauses[k].body.segments)
    decreases |clauses|
  {
    if |clauses| > 0 {
      var c := clauses[0];
      var rest := clauses[1..];
      assert forall k :: 1 <= k < |clauses| ==> clauses[k] == rest[k - 1];
      var illegal1 := if Applies(c, depVals) && c.body.RangeList? then illegal || !InRangeList(n, v, c.body.segments) else illegal;
      var m1 := if Applies(c, depVals) && c.body.Bitmask? then LegalizeBitmask(n, m, c.body.bitmask) else m;
      IllegalFlag(n, v, m1, rest, illegal1, depVals);
      if exists k :: 0 <= k < |rest| && Applies(rest[k], depVals) && rest[k].body.RangeList?
                       && !InRangeList(n, v, rest[k].body.segments) {
        var k :| 0 <= k < |rest| && Applies(rest[k], depVals) && rest[k].body.RangeList?
                   && !InRangeList(n, v, rest[k].body.segments);
        assert clauses[k + 1] == rest[k];
      }
    }
  }

  /** Without bitmask clauses the clause blocks never change the value. */
  lemma {:induction false} RangeClausesKeepValue(n: nat, v: nat, m: nat, clauses: seq<Clause>, illegal: bool, depVals: seq<nat>)
    requires n >= 1 && v < Pow2(n) && m < Pow2(n)
    requires ClausesFit(clauses, |depVals|)
    requires forall k :: 0 <= k < |clauses| ==> clauses[k].body.RangeList?
    ensures RunClauses(n, v, m, clauses, illegal, depVals).1 == m
    decreases |clauses|
  {
    if |clauses| > 0 {
      var c := clauses[0];
      var illegal1 := if Applies(c, depVals) then illegal || !InRangeList(n, v, c.body.segments) else illegal;
      RangeClausesKeepValue(n, v, m, clauses[1..], illegal1, depVals);
    }
  }

  /**
   * A dependent procedure with range clauses only keeps a written value that
   * every applying clause accepts; the rules are not consulted.
   */
  lemma DependentKeepsLegal(n: nat, clauses: seq<Clause>, rules: seq<Rule>, o: nat, v: nat, depVals: seq<nat>)
    requires n >= 1 && o < Pow2(n) && v < Pow2(n)
    requires ProcFits(Dependent(clauses, rules), |depVals|)
    requires forall k :: 0 <= k < |clauses| ==> clauses[k].body.RangeList?
    requires forall k :: 0 <= k < |clauses| && Applies(clauses[k], depVals) ==> InRangeList(n, v, clauses[k].body.segments)
    ensures Eval(n, Dependent(clauses, rules), o, v, depVals) == Ok(v)
  {
    IllegalFlag(n, v, v, clauses, false, depVals);
    RangeClausesKeepValue(n, v, v, clauses, false, depVals);
  }

  /**
   * A dependent procedure whose written value some applying range clause
   * rejects runs its rules on the value the bitmask clauses left.
   */
  lemma DependentRejects(n: nat, clauses: seq<Clause>, rules: seq<Rule>, o: nat, v: nat, depVals: seq<nat>, k: nat)
    requires n >= 1 && o < Pow2(n) && v < Pow2(n)
    requires ProcFits(Dependent(clauses, rules), |depVals|)
    requires k < |clauses| && Applies(clauses[k], depVals) && clauses[k].body.RangeList?
    requires !InRangeList(n, v, clauses[k].body.segments)
    ensures Eval(n, Dependent(clauses, rules), o, v, depVals) ==
      RunRules(n, o, v, RunClauses(n, v, v, clauses, false, depVals).1, rules, [], depVals)
  {
    IllegalFlag(n, v, v, clauses, false, depVals);
  }

  /**
   * In a dependent procedure a rule's action sees the empty range list: a
   * searching mode yields 0, `Unchanged` the current value and `Addr` the
   * value with its top bit flipped.
   */
  lemma DependentActionOnEmptyList(n: nat, o: nat, m: nat, mode: Mode)
    requires n >= 1 && o < Pow2(n) && m < Pow2(n)
    ensures Apply(n, o, m, Resolve(mode), []) ==
      if mode == Unchanged then Ok(o)
      else if mode == Addr then Ok(FlipTop(n, m))
      else Ok(0)
  {
    if mode == Unchanged {
      LegalizeRangeListUnchanged(n, o, m, [], 0);
    } else if mode != Addr {
      LegalizeRangeListEmpty(n, o, m, mode, 0);
    }
  }

  // ---------------------------------------------------------------------
  // The generator passes
  // ---------------------------------------------------------------------

  /**
   * The `wr_val in [...]` guard, parsed as intended: with the mask
   * 0xffffffffffffffff and the values unshifted (lsb 0), since the guard
   * is tested against the written field value itself.
   */
  function GuardOf(wrVal: Option<ValSpec>): Result<Option<seq<RangeEntry>>>
  {
    if wrVal.None? then Ok(None)
    else
      var es := ParseValuesSpec(wrVal.value, WrValMask, 0, false);
      if es.Err? then Err(es.error) else Ok(Some(es.value))
  }

  /** The intended guard accepts exactly the written values it lists: `base..bound`, or the listed values. */
  lemma GuardMeaning(spec: ValSpec, x: nat)
    requires GuardOf(Some(spec)).Ok?
    ensures InRange(x, GuardOf(Some(spec)).value.value) <==>
      if spec.Span? then spec.base <= x <= spec.bound else x in spec.vals
  {
    assert Aligned(x, 0);
    if spec.Span? {
      SpanMeaning(spec.base, spec.bound, WrValMask, 0, false, x);
    } else {
      ListedMeaning(spec.vals, WrValMask, 0, false, x);
      assert forall y :: y in ShiftAll(spec.vals, 0) <==> y in spec.vals by {
        forall y ensures y in ShiftAll(spec.vals, 0) <==> y in spec.vals {
          if y in spec.vals {
            var k :| 0 <= k < |spec.vals| && spec.vals[k] == y;
            assert ShiftAll(spec.vals, 0)[k] == y;
          }
        }
      }
    }
  }

  /**
   * The guard with the lsb argument 1 that both legalize passes write:
   * every listed value is doubled before it is compared with the written
   * value, so `wr_val in [1:2]` would admit 4 and not 1.
   */
  lemma GuardDoubledAsWritten()
    ensures ParseValuesSpec(Span(1, 2), WrValMask, 1, false) == Ok([Interval(2, 4)])
    ensures InRange(4, [Interval(2, 4)]) && !InRange(1, [Interval(2, 4)])
    ensures GuardOf(Some(Span(1, 2))) == Ok(Some([Interval(1, 2)]))
  {
    Pow2Of64();
    assert Shl(1, 1) == 2 && Shl(2, 1) == 4;
  }

  const UndefinedName := "name 'Oxffffffffffffffff' is not defined"

  /**
   * The `wr_val in [...]` guard as both legalize passes write it: the mask
   * argument is the undefined name `Oxffffffffffffffff`, so the generator
   * stops with a NameError at the first rule that has a guard.
   */
  function GuardOfAsWritten(wrVal: Option<ValSpec>): (r: Result<Option<seq<RangeEntry>>>)
    ensures r.Err? <==> wrVal.Some?
    ensures r.Ok? ==> r == GuardOf(wrVal)
  {
    if wrVal.None? then Ok(None) else Err(UndefinedName)
  }

  /** `wr_val in [1:2]`: the generator stops as written, while the intended guard is the span `1..2`. */
  lemma GuardStopsAsWritten()
    ensures GuardOfAsWritten(Some(Span(1, 2))) == Err(UndefinedName)
    ensures GuardOf(Some(Span(1, 2))) == Ok(Some([Interval(1, 2)]))
  {
    Pow2Of64();
  }

  /** The segments of a legal entry compile, or it is a bitmask entry. */
  predicate BodyCompiles(parts: seq<LegalPart>)
  {
    (|parts| > 0 && parts[0].BitmaskPart?) || (!HasBitmask(parts) && AllCompile(parts))
  }

  /** `e` is what parse_field_range makes of `parts`. */
  predicate BodyOf(parts: seq<LegalPart>, e: Either)
  {
    if |parts| > 0 && parts[0].BitmaskPart? then e == Bitmask(BitmaskSpec(parts[0].mask, parts[0].fixed))
    else
      && AllCompile(parts) && e.RangeList? && SortedByMask(e.segments)
      && multiset(e.segments) == multiset(Segments(parts))
  }

  method CompileBody(parts: seq<LegalPart>) returns (r: Result<Either>)
    requires PartsWellFormed(parts)
    ensures r.Ok? <==> BodyCompiles(parts)
    ensures r.Ok? ==> BodyOf(parts, r.value)
  {
    r := ParseFieldRange(parts);
  }

  /** A rule of a field without dependencies: its dependency part is not parsed. */
  predicate RuleWithout(s: IllegalSpec, rule: Rule)
  {
    rule.deps == [] && GuardOf(s.wrVal) == Ok(rule.wrVal) && rule.action == s.action
  }

  /** A rule of a field with dependencies. */
  predicate RuleWith(s: IllegalSpec, names: seq<DepName>, rule: Rule)
  {
    DepsCompiled(s.deps, names, rule.deps) && GuardOf(s.wrVal) == Ok(rule.wrVal) && rule.action == s.action
  }

  predicate RuleCompiles(s: IllegalSpec, names: seq<DepName>)
  {
    DepsCompile(s.deps, names) && GuardOf(s.wrVal).Ok?
  }

  predicate ClauseOf(l: LegalSpec, names: seq<DepName>, c: Clause)
  {
    && (l.deps.None? <==> c.deps.None?)
    && (l.deps.Some? ==> c.deps.Some? && DepsCompiled(l.deps.value, names, c.deps.value))
    && BodyOf(l.parts, c.body)
  }

  predicate ClauseCompiles(l: LegalSpec, names: seq<DepName>)
  {
    (l.deps.Some? ==> DepsCompile(l.deps.value, names)) && BodyCompiles(l.parts)
  }

  /** The clause indices of every entry are usable. */
  predicate SpecWellFormed(w: WarlSpec)
  {
    && (forall k :: 0 <= k < |w.legal| ==> PartsWellFormed(w.legal[k].parts))
    && (forall k :: 0 <= k < |w.legal| ==> w.legal[k].deps.Some? ==> DepsWellFormed(w.legal[k].deps.value))
    && (forall k :: 0 <= k < |w.wrIllegal| ==> DepsWellFormed(w.wrIllegal[k].deps))
  }

  predicate DepsWellFormed(cs: seq<DepClause>)
  {
    forall k :: 0 <= k < |cs| ==> cs[k].lsb <= cs[k].msb
  }

  lemma CompiledFit(cs: seq<DepClause>, names: seq<DepName>, ts: seq<DepTest>)
    requires DepsWellFormed(cs) && DepsCompiled(cs, names, ts)
    ensures TestsFit(ts, |names|)
  {
    forall k | 0 <= k < |ts|
      ensures TestFits(ts[k], |names|)
    {
      assert CompileDep(cs[k], names) == Ok(ts[k]);
    }
  }

  /** legalize_without_dependencies. */
  method LegalizeWithoutDependencies(w: WarlSpec) returns (r: Result<Procedure>)
    requires SpecWellFormed(w)
    ensures |w.legal| != 1 ==> r.Err?
    ensures |w.legal| == 1 && r.Ok? ==> ProcFits(r.value, 0)
    ensures |w.legal| == 1 && |w.legal[0].parts| > 0 && w.legal[0].parts[0].BitmaskPart? ==>
      r == Ok(SimpleBitmask(BitmaskSpec(w.legal[0].parts[0].mask, w.legal[0].parts[0].fixed)))
    ensures |w.legal| == 1 && !(|w.legal[0].parts| > 0 && w.legal[0].parts[0].BitmaskPart?) ==>
      && (r.Ok? <==> BodyCompiles(w.legal[0].parts) && forall k :: 0 <= k < |w.wrIllegal| ==> GuardOf(w.wrIllegal[k].wrVal).Ok?)
      && (r.Ok? ==> r.value.Simple? && BodyOf(w.legal[0].parts, RangeList(r.value.segments))
                    && |r.value.rules| == |w.wrIllegal|
                    && forall k :: 0 <= k < |w.wrIllegal| ==> RuleWithout(w.wrIllegal[k], r.value.rules[k]))
  {
    if |w.legal| > 1 {
      return Err(TooManyLegal);
    }
    if |w.legal| == 0 {
      return Err(NoLegal);
    }
    var parts := w.legal[0].parts;
    var body := CompileBody(parts);
    if body.Err? {
      return Err(body.error);
    }
    if body.value.Bitmask? {
      return Ok(SimpleBitmask(body.value.bitmask));
    }
    var rules := CompileRulesWithout(w);
    if rules.Err? {
      return Err(rules.error);
    }
    return Ok(Simple(body.value.segments, rules.value));
  }

  /** The rule loop of legalize_without_dependencies. */
  method CompileRulesWithout(w: WarlSpec) returns (r: Result<seq<Rule>>)
    ensures r.Ok? <==> forall k :: 0 <= k < |w.wrIllegal| ==> GuardOf(w.wrIllegal[k].wrVal).Ok?
    ensures r.Ok? ==>
      && |r.value| == |w.wrIllegal|
      && forall k :: 0 <= k < |w.wrIllegal| ==> RuleWithout(w.wrIllegal[k], r.value[k])
  {
    var rules: seq<Rule> := [];
    var k := 0;
    while k < |w.wrIllegal|
      invariant 0 <= k <= |w.wrIllegal|
      invariant |rules| == k
      invariant forall j :: 0 <= j < k ==> GuardOf(w.wrIllegal[j].wrVal).Ok?
      invariant forall j :: 0 <= j < k ==> RuleWithout(w.wrIllegal[j], rules[j])
    {
      var s := w.wrIllegal[k];
      var guard: Option<seq<RangeEntry>> := None;
      if s.wrVal.Some? {
        var es := ParseValues(s.wrVal.value, WrValMask, 0, false);
        if es.Err? {
          return Err(es.error);
        }
        guard := Some(es.value);
      }
      rules := rules + [Rule([], guard, s.action)];
      k := k + 1;
    }
    return Ok(rules);
  }

  // ---------------------------------------------------------------------
  // The braces of the rule block of legalize_without_dependencies
  // ---------------------------------------------------------------------

  /** The generated text of a block, down to its braces and statements. */
  datatype Token = Open | Close | Stmt

  /** How many braces are open at the end of `ts`. */
  function Depth(ts: seq<Token>): int
  {
    if ts == [] then 0
    else Depth(ts[..|ts| - 1]) + (match ts[|ts| - 1] case Open => 1 case Close => -1 case Stmt => 0)
  }

  /** No prefix closes more braces than it opened, and the whole closes them all. */
  predicate Balanced(ts: seq<Token>)
  {
    Depth(ts) == 0 && forall i :: 0 <= i <= |ts| ==> Depth(ts[..i]) >= 0
  }

  /** Every statement lies inside a brace. */
  predicate StmtsInside(ts: seq<Token>)
  {
    forall i :: 0 <= i < |ts| && ts[i] == Stmt ==> Depth(ts[..i]) >= 1
  }

  /**
   * The `if (~(is_value_in_rangelist(v, warl_range_list))) then {` block as
   * legalize_without_dependencies writes it: every rule is its statement
   * followed by `};`.
   */
  function RuleBlockAsWritten(k: nat): (ts: seq<Token>)
    ensures |ts| == 1 + 2 * k && ts[0] == Open
  {
    if k == 0 then [Open] else RuleBlockAsWritten(k - 1) + [Stmt, Close]
  }

  function Stmts(k: nat): (ts: seq<Token>)
    ensures |ts| == k && forall i :: 0 <= i < k ==> ts[i] == Stmt
  {
    if k == 0 then [] else Stmts(k - 1) + [Stmt]
  }

  /** The block with all the rules inside one pair of braces, as `Eval` runs a `Simple` procedure. */
  function RuleBlock(k: nat): seq<Token>
  {
    [Open] + Stmts(k) + [Close]
  }

  /** Each rule as written closes one more brace than the block opened. */
  lemma {:induction false} RuleBlockAsWrittenDepth(k: nat)
    ensures Depth(RuleBlockAsWritten(k)) == 1 - k
  {
    if k > 0 {
      RuleBlockAsWrittenDepth(k - 1);
      var p := RuleBlockAsWritten(k - 1);
      var ts := RuleBlockAsWritten(k);
      assert ts[..|ts| - 1] == p + [Stmt];
      assert (p + [Stmt])[..|p|] == p;
    }
  }

  /** As written, the block's braces match only when the field has exactly one `wr_illegal` rule. */
  lemma RuleBlockBalancedAsWritten(k: nat)
    ensures Balanced(RuleBlockAsWritten(k)) <==> k == 1
  {
    RuleBlockAsWrittenDepth(k);
    if k == 1 {
      var ts := RuleBlockAsWritten(1);
      assert ts == [Open, Stmt, Close];
      assert ts[..0] == [] && ts[..1] == [Open] && ts[..2] == [Open, Stmt] && ts[..3] == ts;
      assert [Open, Stmt][..1] == [Open] && [Open][..0] == [];
    }
  }

  /** With two rules the second statement already lies outside the block. */
  lemma SecondRuleOutsideAsWritten()
    ensures RuleBlockAsWritten(2)[3] == Stmt && Depth(RuleBlockAsWritten(2)[..3]) == 0
    ensures !StmtsInside(RuleBlockAsWritten(2))
  {
    var ts := RuleBlockAsWritten(2);
    assert ts == [Open, Stmt, Close, Stmt, Close];
    assert ts[..3] == [Open, Stmt, Close];
    assert [Open, Stmt, Close][..2] == [Open, Stmt];
    assert [Open, Stmt][..1] == [Open] && [Open][..0] == [];
  }

  lemma {:induction false} OpenStmtsDepth(j: nat)
    ensures Depth([Open] + Stmts(j)) == 1
  {
    if j > 0 {
      OpenStmtsDepth(j - 1);
      assert ([Open] + Stmts(j))[..j] == [Open] + Stmts(j - 1);
    } else {
      assert [Open] + Stmts(0) == [Open];
      assert [Open][..0] == [];
    }
  }

  /** With one closing brace after the rules the braces match and every rule lies inside the block. */
  lemma RuleBlockBalanced(k: nat)
    ensures Balanced(RuleBlock(k)) && StmtsInside(RuleBlock(k))
    ensures RuleBlock(1) == RuleBlockAsWritten(1)
  {
    var ts := RuleBlock(k);
    OpenStmtsDepth(k);
    assert ts[..|ts| - 1] == [Open] + Stmts(k);
    forall i | 0 <= i <= |ts|
      ensures Depth(ts[..i]) >= 0
      ensures 1 <= i <= k + 1 ==> Depth(ts[..i]) == 1
    {
      if i == 0 {
        assert ts[..0] == [];
      } else if i <= k + 1 {
        assert ts[..i] == [Open] + Stmts(i - 1);
        OpenStmtsDepth(i - 1);
      } else {
        assert ts[..i] == ts;
      }
    }
    assert RuleBlock(1) == [Open, Stmt, Close];
  }

  /** legalize_with_dependencies. */
  method LegalizeWithDependencies(w: WarlSpec) returns (r: Result<Procedure>)
    requires SpecWellFormed(w)
    ensures r.Ok? <==>
      && (forall k :: 0 <= k < |w.legal| ==> ClauseCompiles(w.legal[k], w.dependencyFields))
      && (forall k :: 0 <= k < |w.wrIllegal| ==> RuleCompiles(w.wrIllegal[k], w.dependencyFields))
    ensures r.Ok? ==> r.value.Dependent? && ProcFits(r.value, |w.dependencyFields|)
    ensures r.Ok? ==>
      && |r.value.clauses| == |w.legal|
      && forall k :: 0 <= k < |w.legal| ==> ClauseOf(w.legal[k], w.dependencyFields, r.value.clauses[k])
    ensures r.Ok? ==>
      && |r.value.rules| == |w.wrIllegal|
      && forall k :: 0 <= k < |w.wrIllegal| ==> RuleWith(w.wrIllegal[k], w.dependencyFields, r.value.rules[k])
  {
    var names := w.dependencyFields;
    var clauses: seq<Clause> := [];
    var k := 0;
    while k < |w.legal|
      invariant 0 <= k <= |w.legal| && |clauses| == k
      invariant forall j :: 0 <= j < k ==> ClauseCompiles(w.legal[j], names) && ClauseOf(w.legal[j], names, clauses[j])
      invariant ClausesFit(clauses, |names|)
    {
      var l := w.legal[k];
      var guard: Option<seq<DepTest>> := None;
      if l.deps.Some? {
        var ts := ParseDependency(l.deps.value, names);
        if ts.Err? {
          return Err(ts.error);
        }
        CompiledFit(l.deps.value, names, ts.value);
        guard := Some(ts.value);
      }
      var body := CompileBody(l.parts);
      if body.Err? {
        return Err(body.error);
      }
      clauses := clauses + [Clause(guard, body.value)];
      k := k + 1;
    }
    var rules := CompileRulesWith(w);
    if rules.Err? {
      return Err(rules.error);
    }
    return Ok(Dependent(clauses, rules.value));
  }

  /** The rule loop of legalize_with_dependencies. */
  method CompileRulesWith(w: WarlSpec) returns (r: Result<seq<Rule>>)
    requires SpecWellFormed(w)
    ensures r.Ok? <==> forall k :: 0 <= k < |w.wrIllegal| ==> RuleCompiles(w.wrIllegal[k], w.dependencyFields)
    ensures r.Ok? ==>
      && |r.value| == |w.wrIllegal|
      && (forall k :: 0 <= k < |w.wrIllegal| ==> RuleWith(w.wrIllegal[k], w.dependencyFields, r.value[k]))
      && (forall k :: 0 <= k < |w.wrIllegal| ==> TestsFit(r.value[k].deps, |w.dependencyFields|))
  {
    var names := w.dependencyFields;
    var rules: seq<Rule> := [];
    var k := 0;
    while k < |w.wrIllegal|
      invariant 0 <= k <= |w.wrIllegal| && |rules| == k
      invariant forall j :: 0 <= j < k ==> RuleCompiles(w.wrIllegal[j], names) && RuleWith(w.wrIllegal[j], names, rules[j])
      invariant forall j :: 0 <= j < k ==> TestsFit(rules[j].deps, |names|)
    {
      var rule := CompileRuleWith(w.wrIllegal[k], names);
      if rule.Err? {
        return Err(rule.error);
      }
      rules := rules + [rule.value];
      k := k + 1;
    }
    return Ok(rules);
  }

  /** One pass of that loop: the dependency tests first, then the write-value guard. */
  method CompileRuleWith(s: IllegalSpec, names: seq<DepName>) returns (r: Result<Rule>)
    requires DepsWellFormed(s.deps)
    ensures r.Ok? <==> RuleCompiles(s, names)
    ensures r.Ok? ==> RuleWith(s, names, r.value) && TestsFit(r.value.deps, |names|)
  {
    var ts := ParseDependency(s.deps, names);
    if ts.Err? {
      return Err(ts.error);
    }
    CompiledFit(s.deps, names, ts.value);
    var guard: Option<seq<RangeEntry>> := None;
    if s.wrVal.Some? {
      var es := ParseValues(s.wrVal.value, WrValMask, 0, false);
      if es.Err? {
        return Err(es.error);
      }
      guard := Some(es.value);
    }
    return Ok(Rule(ts.value, guard, s.action));
  }

  /** parse_warl_value: fields without dependency fields get a simple procedure. */
  method ParseWarlValue(w: WarlSpec) returns (r: Result<Procedure>)
    requires SpecWellFormed(w)
    ensures r.Ok? ==> ProcFits(r.value, |w.dependencyFields|)
    ensures r.Ok? ==> (r.value.Dependent? <==> w.dependencyFields != [])
    ensures w.dependencyFields == [] && |w.legal| != 1 ==> r.Err?
  {
    if w.dependencyFields == [] {
      r := LegalizeWithoutDependencies(w);
    } else {
      r := LegalizeWithDependencies(w);
    }
  }
}
