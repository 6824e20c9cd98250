# sail-riscv: WARL legalizer generator and emulator support code, in Dafny

This project models the parts of the sail-riscv RISC-V model that are not the
Sail specification itself:

- **The WARL CSR generator** (`config2sail.py`). WARL means "write any values,
  reads legal values"; such fields are defined in section 2.3 of the RISC-V
  Privileged Architecture. The generator's Sail legalizers are modelled as
  functions over naturals: range membership, the point resolvers
  (min/max/next-up/next-down/near-up/near-down), the per-segment and
  segmented legalizers, and the bitmask legalizer. The Python passes are
  modelled by the structured values they produce, not by their text: the
  legal-value parser, the field and register legalizer procedures, and the
  `is_csr_defined` and CSR-name tables.
- **The C/C++ emulator's self-contained cores:**
  - the GDB remote-protocol buffers, hex codecs, checksum and breakpoint
    table;
  - the JTAG TAP/DTM state machine and the OpenOCD remote_bitbang decoder
    that drives it;
  - the ELF symbol table;
  - the HPM event bookkeeping and the example platform's opcode classifier;
  - the LR/SC reservation, kept both by the model object and by the platform
    externs;
  - the snapshot encoders and decoders, sparse-memory block list, dump and
    restore;
  - the checkpoint conditions;
  - the semihosting file table;
  - the reset ROM, the configuration merge, the JSON-lines trace, the step,
    wait and tick counters of the main loop, and the signature dump;
  - small option helpers and the VLEN/ELEN script (`gen_vlen.py`).

Code that changes state in place is modelled as classes or as methods with
loops. Each is proved against a specification function, and the
properties that relate several calls are lemmas. Where the source does
something other than what it evidently intends, the model has both: a member
for the code as written, with a concrete input showing the discrepancy, and
the corrected member (see "## Findings"). Which half the rest of the model
builds on depends on what it describes. The WARL procedures
(`WarlProcedures.Apply`, `WarlProcedures.Eval`) model the Sail text the
generator emits, so they call the as-written legalizer; `HpmEvents.Hpm`,
`CheckpointManager.Manager`, `SnapshotManager.DumpMemory` and
`GenVlen.GenerateVlen` also follow the code as written. Everywhere else the
corrected member is the one used: the `wr_val` guard and the value parser,
the vector-register decoder and the trace value writer, the semihosting,
remote-bitbang and reset-ROM classes, the reservation mask, the GDB integer
reader and the signature dump.

Values are natural numbers. Fixed widths, wrap-around and C's undefined
shifts are written out explicitly. Host effects are parameters: file and
socket I/O, allocation failure, the debug module behind the DTM, and the
Sail model's answers.

## Model

| member | source | states |
|---|---|---|
| WarlRange.InRangeMeaning | config2sail.py:63-70 | is_value_in_range holds exactly when some entry equals the value or is an interval containing it |
| WarlRange.MemberBounds | config2sail.py:63-70 | a legal value lies at or below some entry's upper end and at or above some entry's lower end |
| WarlRange.RangeMax | config2sail.py:78-93 | an empty range is the "Empty WARL range" error; otherwise the result bounds every legal value, is a value or bound of an entry, and is legal on a well-formed range |
| WarlRange.RangeMin | config2sail.py:95-109 | as written: empty range is an error; the result is at most the last entry's lower end and at most every other entry's upper bound, and is legal on a well-formed range |
| WarlRange.RangeMinFixed | config2sail.py:95-109 | corrected minimum: empty range is an error; the result is at most every legal value and is itself legal on a well-formed range |
| WarlRange.RangeMinFinding | config2sail.py:107 | on `[0..5, 3]` the written minimum is 3 while 0 is legal; the corrected minimum is 0 |
| WarlRange.NextUp | config2sail.py:111-139 | as written: empty range is an error; a legal value is returned unchanged; on a well-formed range the result is legal |
| WarlRange.NextDown | config2sail.py:141-169 | as written: empty range is an error; a legal value is returned unchanged; on a well-formed range the result is legal |
| WarlRange.NextUpFixed | config2sail.py:111-139 | corrected next-up search: errors exactly on the empty range |
| WarlRange.NextDownFixed | config2sail.py:141-169 | corrected next-down search: errors exactly on the empty range |
| WarlRange.NextUpFixedCorrect | config2sail.py:111-139 | the corrected search yields the least legal value at or above the input, or the greatest legal value when none lies above |
| WarlRange.NextDownFixedCorrect | config2sail.py:141-169 | the corrected search yields the greatest legal value at or below the input, or the least legal value when none lies below |
| WarlRange.NextUpFinding | config2sail.py:131-136 | from 5 over `[10..20, 3]` the written search returns 3 while 10 is the least legal value above 5, which the corrected search returns |
| WarlRange.NextDownFinding | config2sail.py:161-166 | from 15 over `[0..10, 20]` the written search returns 20 while 10 is the greatest legal value below 15, which the corrected search returns |
| WarlRange.NearUp | config2sail.py:171-179 | as written both candidates come from the next-up search, so near-up always equals next-up |
| WarlRange.NearDown | config2sail.py:181-189 | as written near-down always equals next-up |
| WarlRange.NearUpFixed | config2sail.py:171-179 | corrected near-up: errors exactly on the empty range |
| WarlRange.NearDownFixed | config2sail.py:181-189 | corrected near-down: errors exactly on the empty range |
| WarlRange.NearCandidates | config2sail.py:171-189 | the corrected up and down candidates are legal and bracket every legal value as a nearest search needs |
| WarlRange.NearUpFixedCorrect | config2sail.py:171-179 | the corrected near-up result is a legal value nearest the input, ties broken upwards |
| WarlRange.NearDownFixedCorrect | config2sail.py:181-189 | the corrected near-down result is a legal value nearest the input, ties broken downwards |
| WarlRange.NearUpFinding | config2sail.py:173-174 | from 2 over `[0, 10]` the written near-up gives 10 although 0 is nearer; the corrected one gives 0 |
| WarlLegalize.InRangeListMeaning | config2sail.py:72-76 | is_value_in_rangelist holds exactly when, for every segment, the value's bits under the segment mask are legal for that segment (true for no segments) |
| WarlLegalize.FlipTop | config2sail.py:200 | `written ^ (1 << (n-1))`: adds or removes the top bit and stays below `2^n` |
| WarlLegalize.LegalizeRange | config2sail.py:191-202 | errors exactly in a searching mode on an empty segment; every result fits in `n` bits |
| WarlLegalize.LegalizeRangeIgnoresWritten | config2sail.py:191-202 | every mode but Addr resolves from the current value only: two written values give the same result |
| WarlLegalize.LegalizeRangeUnchanged | config2sail.py:194 | Unchanged keeps exactly the current value's bits under the segment mask |
| WarlLegalize.LegalizeRangeKeepsLegal | config2sail.py:197-200 | the searching modes return a legal current value unchanged |
| WarlLegalize.LegalizeRangeExtremes | config2sail.py:195-196 | Largest yields the greatest legal value and Smallest a legal value, when they fit in `n` bits |
| WarlLegalize.LegalizeRangeList | config2sail.py:205-271 | errors exactly in a searching mode when some segment is empty; every result fits in `n` bits |
| WarlLegalize.Near | config2sail.py:209-224 | the near modes error exactly when some segment is empty; results fit in `n` bits |
| WarlLegalize.Segmented | config2sail.py:227-266 | the segment walk errors exactly when some segment is empty; results fit in `n` bits |
| WarlLegalize.Combine | config2sail.py:233-234 | ORing a segment's field with the rest's result keeps the field's bits, propagates the rest's error and fits in `n` bits |
| WarlLegalize.LegalizeBitmask | config2sail.py:273-275 | the value ANDed with the mask, ORed with the default and cut to `n` bits, fits in `n` bits |
| WarlLegalize.LegalizeEither | config2sail.py:277-282 | bitmasks always succeed; range lists go to the segment legalizer; results fit in `n` bits |
| WarlLegalize.LegalizeRangeListEmpty | config2sail.py:229 | with no segments every searching mode yields 0 |
| WarlLegalize.LegalizeRangeListUnchanged | config2sail.py:208 | Unchanged returns the current value unmasked, whatever the segments |
| WarlLegalize.LegalizeRangeListAddr | config2sail.py:225 | Addr flips the top bit of the written value, whatever the segments |
| WarlLegalize.NearTieBreak | config2sail.py:209-224 | near modes return one of the next-up/next-down results; equal candidates are returned; otherwise Nearup wins ties upwards and Neardown only on strictly nearer, measured from `written & ~msmask` |
| WarlLegalize.ExtremesIgnoreValues | config2sail.py:233-234 | Largest and Smallest depend only on the segments, not on the current, written or settled bits |
| WarlLegalize.PickFits | config2sail.py:195-196 | on a fitting segment the Largest/Smallest pick lies within the segment mask and is legal |
| WarlLegalize.ExtremesBits | config2sail.py:233-234 | a bit of the Largest/Smallest result is set exactly when some segment's pick sets it |
| WarlLegalize.ExtremesAreLegal | config2sail.py:205-234 | on fitting, disjoint segments Largest and Smallest produce a value that is_value_in_rangelist accepts |
| WarlLegalize.NextupFirstSegment | config2sail.py:235-250 | Nextup takes the next-up pick of the current value for the first segment and fills the rest with Smallest above the written field, Largest below it, and on a tie keeps the composed value only when strictly above the unsettled written bits |
| WarlLegalize.NextupSingleKeepsCurrent | config2sail.py:235-250 | on a one-segment field a legal current value is kept whatever was written |
| WarlLegalize.NextupIgnoresLegalWrite | config2sail.py:235-250 | with current 1, a legal write of 2 to a `0..3` field comes out as 1 |
| WarlLegalize.LegalizeBitmaskBits | config2sail.py:273-275 | bit `i` of the result is the value's bit under the mask or the default's bit, for `i < n` |
| WarlLegalize.LegalizeBitmaskIdempotent | config2sail.py:273-275 | legalizing a bitmask-legalized value again changes nothing |
| WarlLegalize.LegalizeBitmaskExample | config2sail.py:273-275 | 0xFF with mask 0x0F and default 0x10 gives 0x1F |
| WarlLegalize.LegalizeEitherBitmask | config2sail.py:277-282 | for a bitmask the result ignores the current value and the mode and is the written value legalized |
| WarlLegalizeFixed.PickFixed | config2sail.py:191-202 | the corrected per-segment resolver errors exactly on an empty segment and fits in `n` bits |
| WarlLegalizeFixed.LegalizeRangeListFixed | config2sail.py:205-271 | the corrected legalizer errors exactly in a searching mode when some segment is empty; results fit in `n` bits |
| WarlLegalizeFixed.NearFixed | config2sail.py:209-224 | the corrected near modes error exactly when some segment is empty |
| WarlLegalizeFixed.SegmentedFixed | config2sail.py:226-268 | the corrected segment walk errors exactly when some segment is empty |
| WarlLegalizeFixed.InRangeListOr | config2sail.py:72-76 | bits outside every segment mask do not change is_value_in_rangelist |
| WarlLegalizeFixed.CombineLegal | config2sail.py:233-234 | a legal field ORed with a value whose other fields are legal gives a value whose every field is legal |
| WarlLegalizeFixed.NextUpFixedLands | config2sail.py:111-139 | the corrected next-up answer is the value itself or an interval endpoint |
| WarlLegalizeFixed.NextDownFixedLands | config2sail.py:141-169 | the corrected next-down answer is the value itself or an interval endpoint |
| WarlLegalizeFixed.RangeMinFixedLands | config2sail.py:95-109 | the corrected minimum is an interval endpoint |
| WarlLegalizeFixed.PickFixedFits | config2sail.py:191-202 | on a fitting segment every pick lies inside the field mask and is legal for the segment |
| WarlLegalizeFixed.NextupStep | config2sail.py:234-249 | one corrected `Nextup` step: Smallest above, Largest below, the tie kept at or above the unsettled written bits, else a retry from the field plus `delta` |
| WarlLegalizeFixed.NextdownStep | config2sail.py:250-265 | one corrected `Nextdown` step, the mirror image of `NextupStep` |
| WarlLegalizeFixed.RetryFitsFrom | config2sail.py:240-246 | the retry from the written field stepped by `delta` lands inside the field and is legal |
| WarlLegalizeFixed.SearchStepLegal | config2sail.py:234-265 | if the walks over the remaining segments are legal, one searching step gives a value whose every field is legal |
| WarlLegalizeFixed.SegmentedFixedLegal | config2sail.py:226-268 | on segments satisfying `Emitted` (they fit in `n` bits, have disjoint fields, and a step by `delta` from a field value is legal only inside the field) the corrected walk succeeds and every field of its value is legal, in every searching mode |
| WarlLegalizeFixed.FixedSearchIsLegal | config2sail.py:205-271 | on segments satisfying `Emitted` every searching mode, near modes included, returns a value is_value_in_rangelist accepts |
| WarlLegalizeFixed.FixedNextupKeepsLegalWrite | config2sail.py:234-249 | on a one-segment field a legal written value is what `Nextup` returns, whatever the current value |
| WarlLegalizeFixed.ExampleNextup | config2sail.py:234-249 | corrected: next-up from a write of 5 over legal values `0..2` and 8 gives 8, the least legal value above it |
| WarlLegalizeFixed.ExampleNextdown | config2sail.py:250-265 | corrected: next-down from a write of 5 over legal values `0..2` and 8 gives 2, the greatest legal value below it |
| WarlLegalizeFixed.LegalizeRangeListExample | config2sail.py:205-271 | corrected: on one 8-bit segment with legal values `0..2` and 8, a write of 5 gives 8 for next-up, 2 for next-down and 8 for near-up, the distance-3 tie going up |
| WarlLegalizeFixed.FixedNextupTakesWrite | config2sail.py:234-249 | the write of 2 to a `0..3` field that the as-written legalizer drops is kept |
| WarlParse.FieldMask | config2sail.py:355 | `(1 << (msb+1)) - (1 << lsb)` lies below `2^(msb+1)` |
| WarlParse.FieldMaskBits | config2sail.py:355 | the field mask sets exactly bits `lsb..msb` and is a multiple of the delta `2^lsb` |
| WarlParse.ShiftAll | config2sail.py:314 | every listed value shifted left by `lsb`, in order |
| WarlParse.Sort | config2sail.py:320 | `values.sort()` yields a sorted permutation of its input |
| WarlParse.Insert | config2sail.py:320 | inserting into a sorted list keeps it sorted and adds exactly the one element |
| WarlParse.SpanRejected | config2sail.py:298 | the intended range check: a span that passes has both ends within the field mask |
| WarlParse.SpanCheckFinding | config2sail.py:298 | the chained comparison as written lets the span `0:0x1F` through for field mask 0xF, though its end lies above the field |
| WarlParse.Sub | config2sail.py:302 | the difference of two values, exact when the first is not smaller |
| WarlParse.DoubleShiftFinding | config2sail.py:325-326 | the as-written `last << lsb` gap start makes the `not in [1,3]` clause of field `[3:1]` reject the legal value 4 that the intended walk accepts |
| WarlParse.ComplementMeaning | config2sail.py:322-332 | the `not in` gap walk covers an aligned value exactly when it lies between the walk's start and the field mask and is not listed |
| WarlParse.ComplementStep | config2sail.py:323-327 | one gap of the walk, given the claim for the remaining values |
| WarlParse.ComplementCases | config2sail.py:323-327 | the case split of one gap against the first value |
| WarlParse.ComplementHead | config2sail.py:323-327 | the walk emits the gap before the first value, then walks the rest |
| WarlParse.ValueEntries | config2sail.py:328-329 | an `in` list yields one value entry per sorted value |
| WarlParse.ValueEntriesMeaning | config2sail.py:328-329 | a value lies in the entries of an `in` list exactly when it is listed |
| WarlParse.FirstAbove | config2sail.py:313-317 | the index of the first shifted value above the field mask: every earlier value lies within the mask |
| WarlParse.ParseValuesFails | config2sail.py:288-333 | parse_values stops exactly when a span end or a listed value lies above the field mask after the shift, or the list is empty |
| WarlParse.SpanMeaning | config2sail.py:291-308 | a range clause is exact on aligned values: `in` admits `[base, bound]`, `not in` the rest of the field |
| WarlParse.ListedMeaning | config2sail.py:309-333 | a value list is exact on aligned values: `in` admits the shifted values, `not in` the rest of the field |
| WarlParse.ParseValuesBounded | config2sail.py:288-333 | every entry parse_values emits ends within the field mask |
| WarlParse.ComplementBounded | config2sail.py:322-332 | every gap of the walk ends within the field mask |
| WarlParse.ParseValues | config2sail.py:288-333 | the imperative walk (shift and check each value, sort, emit entries or gaps) computes the intended parse_values result |
| WarlParse.ShiftChecked | config2sail.py:310-318 | the shifting loop returns all shifted values, or nothing exactly when one lies above the field mask |
| WarlParse.GapWalk | config2sail.py:322-332 | the `not in` loop over the sorted values emits exactly the gap walk from 0 |
| WarlParse.ValueWalk | config2sail.py:328-329 | the `in` loop emits exactly one value entry per value |
| WarlParse.SortByMask | config2sail.py:378 | `range_list.sort(key=getMask, reverse=True)` yields a permutation ordered by mask, widest first |
| WarlParse.InsertByMask | config2sail.py:378 | inserting into a mask-ordered list keeps the order and adds exactly the one segment |
| WarlParse.Segments | config2sail.py:351-362 | one compiled segment per range clause, in clause order |
| WarlParse.SegmentsSnoc | config2sail.py:351-362 | the segments of one more clause are the old segments plus that clause's segment |
| WarlParse.ParseFieldRange | config2sail.py:338-382 | a leading bitmask clause gives that bitmask; a later bitmask clause is an error (the intended reading of the mix message); otherwise the result exists exactly when every clause parses and is its segments sorted widest first |
| WarlParse.FieldRangeAsWritten | config2sail.py:364-382 | as written, a bitmask clause after a range clause is only printed and the empty text is returned |
| WarlParse.MixedClausesEmptyAsWritten | config2sail.py:364-382 | `[3:0] in [1]` then `[7:4] bitmask [0xF, 0]` yields the empty text |
| WarlProcedures.FindLeaf | config2sail.py:432-438 | `leaf_dependencies.index(field)`: the first dependency whose leaf name is the field, or none exactly when no leaf matches |
| WarlProcedures.SearchDependencyField | config2sail.py:431-444 | search_dependency_field aborts exactly when no dependency has that leaf name, and otherwise refers to the first one that does |
| WarlProcedures.CompileDep | config2sail.py:450-476 | a dependency test compiles exactly when it is not a bitmask and its field is found; it keeps the test's `msb`/`lsb` |
| WarlProcedures.CompileDepValues | config2sail.py:456-472 | a compiled dependency test accepts exactly the values written, unshifted: `base..bound` or the listed values |
| WarlProcedures.ParseDependency | config2sail.py:446-477 | parse_dependency succeeds exactly when every test compiles, and yields the tests compiled in order |
| WarlProcedures.Apply | config2sail.py:420-423 | `m = <literal>` or `m = legalize_warl_either(o, m, ...)`: the result fits the field's width |
| WarlProcedures.RunRules | config2sail.py:409-424 | the rules run in order on the value the previous one left; results fit the field's width |
| WarlProcedures.RunClauses | config2sail.py:495-512 | the legal-entry blocks keep the `illegal` flag once raised and fit the field's width |
| WarlProcedures.Eval | config2sail.py:386-390 | the generated `legalize_<reg>_<FIELD>(o, v)` fits the field's width and never fails for a bitmask field |
| WarlProcedures.SimpleKeepsLegal | config2sail.py:406-408 | a legal written value of a field without dependencies is returned unchanged, whatever the rules |
| WarlProcedures.RunRulesNoneFire | config2sail.py:409-424 | when no rule fires the value is left as it is |
| WarlProcedures.RunRulesAppend | config2sail.py:409-424 | running two rule lists one after the other equals running their concatenation |
| WarlProcedures.RunRulesExtremes | config2sail.py:409-424 | rules that pick the largest or smallest legal value leave the value they got or a legal one, and a legal one once any fires |
| WarlProcedures.SimpleExtremesLegal | config2sail.py:406-424 | such a procedure returns the written value or a legal one, and a legal one whenever a rule fires |
| WarlProcedures.IllegalFlag | config2sail.py:495-512 | the `illegal` flag is raised exactly when some applying range entry rejects the written value |
| WarlProcedures.RangeClausesKeepValue | config2sail.py:507-510 | range-only entries never change `m` |
| WarlProcedures.DependentKeepsLegal | config2sail.py:479-540 | a field with dependencies and range entries only keeps a written value that every applying entry accepts |
| WarlProcedures.DependentRejects | config2sail.py:514-538 | when an applying range entry rejects the written value, the rules run on the value the bitmask entries left |
| WarlProcedures.DependentActionOnEmptyList | config2sail.py:491-538 | with dependencies, a rule's action sees the outer empty range list: searching modes give 0, `Unchanged` the current value, `Addr` the flipped top bit |
| WarlProcedures.GuardOfAsWritten | config2sail.py:412-415 | as written, every `wr_val in [...]` guard stops the generator (the undefined name `Oxffffffffffffffff`); rules without a guard pass |
| WarlProcedures.GuardStopsAsWritten | config2sail.py:413 | `wr_val in [1:2]` stops the generator as written, while the intended guard is the span `1..2` (also lines 526) |
| WarlProcedures.GuardMeaning | config2sail.py:410-415 | corrected: the intended guard accepts exactly the written values it lists, `base..bound` or the listed values, unshifted (also lines 523-527) |
| WarlProcedures.GuardDoubledAsWritten | config2sail.py:413 | with the lsb argument 1 as written, `wr_val in [1:2]` parses to `2..4`, which admits 4 and not 1; the intended guard is `1..2` (also lines 526) |
| WarlProcedures.CompileBody | config2sail.py:404 | a legal entry's body compiles exactly when parse_field_range succeeds on it, and is what that call makes of it (also lines 506) |
| WarlProcedures.CompiledFit | config2sail.py:446-477 | compiled dependency tests refer only to existing dependency fields |
| WarlProcedures.LegalizeWithoutDependencies | config2sail.py:384-429 | more than one legal entry aborts; a bitmask entry gives a bitmask procedure; otherwise the procedure exists exactly when the entry and every guard compile, and holds the entry's segments and one rule per `wr_illegal` line, in order |
| WarlProcedures.CompileRulesWithout | config2sail.py:409-424 | corrected: the rule loop yields one compiled rule per `wr_illegal` line, in order, each guard parsed as intended, or fails exactly when a guard does not parse |
| WarlProcedures.RuleBlockAsWritten | config2sail.py:408-424 | the block as emitted: an opening brace, then each rule's statement followed by `};` |
| WarlProcedures.Stmts | config2sail.py:409-423 | `k` rule statements |
| WarlProcedures.RuleBlockAsWrittenDepth | config2sail.py:408-424 | as emitted, the block's depth ends at `1 - k` for `k` rules |
| WarlProcedures.RuleBlockBalancedAsWritten | config2sail.py:408-424 | as emitted, the braces match exactly when the field has one `wr_illegal` rule |
| WarlProcedures.SecondRuleOutsideAsWritten | config2sail.py:408-424 | with two rules the second statement lies outside the block |
| WarlProcedures.RuleBlockBalanced | config2sail.py:408-424 | with one closing brace after all the rules, the braces match and every rule lies inside; for one rule this is the emitted text |
| WarlProcedures.LegalizeWithDependencies | config2sail.py:479-540 | the procedure exists exactly when every legal entry and every rule compiles, and holds one block per legal entry and one rule per `wr_illegal` line, in order |
| WarlProcedures.CompileRulesWith | config2sail.py:514-538 | the rule loop yields one compiled rule per `wr_illegal` line, in order, or fails exactly when one does not compile |
| WarlProcedures.CompileRuleWith | config2sail.py:515-533 | corrected: one rule: its dependency tests, then its write-value guard parsed as intended; it compiles exactly when both do |
| WarlProcedures.ParseWarlValue | config2sail.py:542-548 | fields without dependency fields get a simple procedure, the others a dependent one; several legal entries without dependencies abort |
| CsrGenerator.IsCsrDefined | config2sail.py:779-782 | `is_csr_defined(csr, p)` holds only for an address some emitted clause names |
| CsrGenerator.DefineEntries | config2sail.py:804-816 | the main loop emits at most one `is_csr_defined` clause per register |
| CsrGenerator.NameOf | config2sail.py:816 | one `csr_name_map` clause for each `is_csr_defined` clause of a register |
| CsrGenerator.NameEntries | config2sail.py:804-816 | one `csr_name_map` clause per defined register |
| CsrGenerator.ParsedNamesMeaning | config2sail.py:804-809 | exactly the accessible, listed registers that are not counters are generated |
| CsrGenerator.DefinedMeaning | config2sail.py:810-815 | with distinct addresses, a listed register is defined exactly for the privileges its mode allows (M: Machine; S: Machine or Supervisor; else all), and any other address is never defined |
| CsrGenerator.StepValue | config2sail.py:565-622 | the value an assigning statement puts into its field fits the field's width |
| CsrGenerator.StepsResult | config2sail.py:647-651 | with disjoint fields, the legalizer succeeds exactly when every field statement does; each assigned field then holds its statement's value and every other bit keeps the written value |
| CsrGenerator.StepsTail | config2sail.py:647-651 | the statements after the first are still ready and disjoint |
| CsrGenerator.StepsResultStep | config2sail.py:647-651 | the inductive step of `StepsResult` |
| CsrGenerator.FirstFieldKept | config2sail.py:647-651 | later, disjoint statements leave the first statement's field alone |
| CsrGenerator.OutsideKept | config2sail.py:647-651 | a bit outside every assigned field keeps the written value |
| CsrGenerator.WholeLegalize | config2sail.py:576-628 | a whole register's statement fits `lsb + realLen` bits with the bits below `lsb` zero (the `@ 0b0...` padding) |
| CsrGenerator.PlaceZeroFacts | config2sail.py:578-626 | a field placed above `lsb` zero bits fits and leaves those bits clear |
| CsrGenerator.WholePlainKeepsWritten | config2sail.py:624-628 | a plain whole register keeps exactly the written bits `msb .. lsb` |
| CsrGenerator.WholeWarlField | config2sail.py:610-618 | a whole WARL register holds in bits `msb .. lsb` its field legalizer's result on the old and written bits, and fails exactly when that does |
| CsrGenerator.Lower | config2sail.py:557 | `str.lower()` on ASCII: no upper-case letter remains and every other character stays |
| CsrGenerator.LowerIdempotent | config2sail.py:557 | lower-casing twice is lower-casing once |
| CsrGenerator.GetsEmpty | config2sail.py:674-686 | a register's getter text is empty exactly when every field's is |
| CsrGenerator.GetterIffShadow | config2sail.py:576-585 | a register gets a getter exactly when one of its implemented fields has a read-write shadow (also lines 686-690) |
| CsrGenerator.Generator.constructor | config2sail.py:743-751 | the generator starts with no parsed registers, WARL fields, procedures, definitions or name clauses |
| CsrGenerator.Generator.ParseField | config2sail.py:550-629 | the shadow decides first (an unparsed shadow register aborts; read-only shadows keep the old field), then constant, variable, WARL and plain fields give their statements; only the WARL field list grows |
| CsrGenerator.Generator.ParseWhole | config2sail.py:550-629 | parse_field for `total`: a read-write shadow needs `lsb` 0, read-only shadows and variables keep `o`, constants and plain registers give their whole-register statement |
| CsrGenerator.Generator.ParseReg | config2sail.py:631-719 | a register with fields gets the statements of its implemented fields, last field first, an `xlen`-bit reset value and a getter exactly when a field has a read-write shadow; one without gets its whole-register statement and an `msb+1`-bit reset value; its definition is appended |
| CsrGenerator.Generator.ParseFields | config2sail.py:668-682 | the field loop yields the statements of the implemented fields, last first; with disjoint fields the statements are disjoint |
| CsrGenerator.Generator.ParseImplemented | config2sail.py:671-682 | one implemented field: its statements all sit at the field's position and width, at most one of them assigns |
| CsrGenerator.Generator.Run | config2sail.py:804-816 | the main loop appends exactly the generated registers, definition clauses and name clauses of the listed registers, in order |
| CsrGenerator.Generator.Visit | config2sail.py:805-816 | one register: its generation, definition clause and name clause are appended |
| CsrGenerator.OutsStep | config2sail.py:671-682 | visiting an implemented field appends its statements |
| CsrGenerator.OutsSkip | config2sail.py:671 | visiting a field that is not implemented changes nothing |
| CsrGenerator.OriginStep | config2sail.py:671-682 | the statements of an implemented field come from it |
| CsrGenerator.OriginsApart | config2sail.py:668-682 | statements from different, non-overlapping fields share no bit |
| CsrGenerator.ImplRevStep | config2sail.py:669 | `reversed(...)`: one more field at the front of the visited suffix comes last in the visiting order |
| CsrGenerator.EntriesSnoc | config2sail.py:804-816 | one more register: its entries follow those of the registers before it |
| CheckpointManager.Without | c_emulator/checkpoint_manager.cpp:48-56 | `remove_if` on the name never lengthens the list |
| CheckpointManager.WithoutMembers | c_emulator/checkpoint_manager.cpp:48-56 | removal keeps exactly the conditions with another name |
| CheckpointManager.WithoutNone | c_emulator/checkpoint_manager.cpp:48-56 | removing a name no condition has changes nothing |
| CheckpointManager.WithoutTwice | c_emulator/checkpoint_manager.cpp:48-56 | removing a name twice is removing it once |
| CheckpointManager.WithoutDistinct | c_emulator/checkpoint_manager.cpp:48-56 | removal keeps the names distinct |
| CheckpointManager.Names | c_emulator/checkpoint_manager.cpp:63-70 | every condition's name is among the names |
| CheckpointManager.Stats | c_emulator/checkpoint_manager.cpp:63-70 | the statistics have exactly the conditions' names as keys |
| CheckpointManager.StatsOfDistinct | c_emulator/checkpoint_manager.cpp:63-70 | with distinct names every condition's trigger count is its own entry |
| CheckpointManager.Pad6 | c_emulator/checkpoint_manager.cpp:352 | `setw(6)` with `setfill('0')`: at least six characters, the digits at the end, zeros before them |
| CheckpointManager.ZeroFill | c_emulator/checkpoint_manager.cpp:352 | `k` zero characters |
| CheckpointManager.FileName | c_emulator/checkpoint_manager.cpp:341-358 | the file name starts with the prefix (or `checkpoint_<name>`) and ends in `.snapshot` |
| CheckpointManager.ZerosValue | c_emulator/checkpoint_manager.cpp:352 | leading zeros do not change a decimal's value |
| CheckpointManager.ZerosOnly | c_emulator/checkpoint_manager.cpp:352 | a run of zeros reads as 0 |
| CheckpointManager.PadValue | c_emulator/checkpoint_manager.cpp:352 | the padded trigger count reads back as the count |
| CheckpointManager.FileNamesDistinct | c_emulator/checkpoint_manager.cpp:341-358 | with auto-increment, two trigger counts give the same file name exactly when they are equal; without it every checkpoint of a condition has the same name |
| CheckpointManager.JoinPath | c_emulator/checkpoint_manager.cpp:327-335 | `dir / filename` starts with the directory and ends with the file name; no directory gives the bare name |
| CheckpointManager.FireAll | c_emulator/checkpoint_manager.cpp:293-317 | `check_conditions` handles every condition on its own, in place |
| CheckpointManager.FireRequests | c_emulator/checkpoint_manager.cpp:293-317 | at most one snapshot request per condition |
| CheckpointManager.Requested | c_emulator/checkpoint_manager.cpp:293-317 | the first `n` conditions make at most `n` requests |
| CheckpointManager.Created | c_emulator/checkpoint_manager.cpp:312-314 | the snapshots created are at most the requests |
| CheckpointManager.CreatedAppend | c_emulator/checkpoint_manager.cpp:312-314 | the count of created snapshots adds up over concatenated request lists |
| CheckpointManager.Watch | c_emulator/checkpoint_manager.cpp:114-270 | the `check_conditions` call a condition makes for an event carries the condition's own type |
| CheckpointManager.WatchedMatches | c_emulator/checkpoint_manager.cpp:114-270 | a watching condition always matches the call it makes (also lines 293-306) |
| CheckpointManager.WatchTriggers | c_emulator/checkpoint_manager.cpp:124-135 | the outer loop makes at most one call per condition |
| CheckpointManager.WatchStep | c_emulator/checkpoint_manager.cpp:124-135 | one more condition visited adds its call, if it watches the event |
| CheckpointManager.Scan | c_emulator/checkpoint_manager.cpp:293-317 | a run of calls keeps the number of conditions |
| CheckpointManager.Hits | c_emulator/checkpoint_manager.cpp:293-306 | a condition matches at most every call |
| CheckpointManager.ScanEffect | c_emulator/checkpoint_manager.cpp:293-317 | after a run of calls each condition keeps its setup and its count rises by the number of calls it matches |
| CheckpointManager.ScanSnoc | c_emulator/checkpoint_manager.cpp:293-317 | one more call extends the run by firing every condition on it |
| CheckpointManager.CrossFire | c_emulator/checkpoint_manager.cpp:124-128 | as written, a PC-value condition at 0x200 fires when the PC reaches another condition's 0x100 (also lines 300-306) |
| CheckpointManager.DoubleFire | c_emulator/checkpoint_manager.cpp:265-269 | as written, two trap conditions each fire twice on one trap |
| CheckpointManager.TwoTraps | c_emulator/checkpoint_manager.cpp:265-269 | each of two trap conditions makes a call for a trap |
| CheckpointManager.TwoHits | c_emulator/checkpoint_manager.cpp:293-309 | a condition matching a call is counted twice by two such calls |
| CheckpointManager.RespondFixed | c_emulator/checkpoint_manager.cpp:124-135 | the intended event response keeps the number of conditions |
| CheckpointManager.RespondFixedEffect | c_emulator/checkpoint_manager.cpp:124-135 | intended: a condition's count rises by one exactly when it watches the event |
| CheckpointManager.RespondFixedRequests | c_emulator/checkpoint_manager.cpp:124-135 | intended: one request per watching condition |
| CheckpointManager.PreStepUpTo | c_emulator/checkpoint_manager.cpp:79-87 | the pre-step loop keeps the number of conditions |
| CheckpointManager.DueCount | c_emulator/checkpoint_manager.cpp:81-82 | at most `n` of the first `n` conditions are due |
| CheckpointManager.CountConditions | c_emulator/checkpoint_manager.cpp:80 | at most every condition counts instructions |
| CheckpointManager.RequestedCount | c_emulator/checkpoint_manager.cpp:84 | every INSTRUCTION_COUNT condition matches the pre-step's call and nothing else does (also lines 293-306) |
| CheckpointManager.PreStepUpToEffect | c_emulator/checkpoint_manager.cpp:79-87 | after `n` conditions: due ones record the count as their last firing; every INSTRUCTION_COUNT condition is counted once per due one; setup is unchanged |
| CheckpointManager.PreStepUpToRequests | c_emulator/checkpoint_manager.cpp:79-87 | each due condition asks for one snapshot per INSTRUCTION_COUNT condition |
| CheckpointManager.DueRequests | c_emulator/checkpoint_manager.cpp:81-85 | one due condition adds one request per INSTRUCTION_COUNT condition |
| CheckpointManager.KindsCount | c_emulator/checkpoint_manager.cpp:80 | lists of the same kinds count the same INSTRUCTION_COUNT conditions |
| CheckpointManager.PreStepStep | c_emulator/checkpoint_manager.cpp:80-86 | one more condition visited by the pre-step loop: record the count and fire everything, when due |
| CheckpointManager.PreStepEffect | c_emulator/checkpoint_manager.cpp:72-88 | the whole pre-step: the above for every condition, and due-count times INSTRUCTION_COUNT-count requests |
| CheckpointManager.FireLoop | c_emulator/checkpoint_manager.cpp:293-317 | the loop's conditions and requests are those of `check_conditions`, and it creates the requests not in `failing` |
| CheckpointManager.Manager.constructor | c_emulator/checkpoint_manager.cpp:22-28 | enabled, no conditions, both counters 0 |
| CheckpointManager.Manager.AddCondition | c_emulator/checkpoint_manager.cpp:30-46 | a duplicate name is an error and changes nothing; otherwise a copy with both counters 0 is appended |
| CheckpointManager.Manager.RemoveCondition | c_emulator/checkpoint_manager.cpp:48-56 | every condition with the name goes, the others keep their order |
| CheckpointManager.Manager.ClearConditions | c_emulator/checkpoint_manager.cpp:58-61 | no conditions are left; nothing else changes |
| CheckpointManager.Manager.SetEnabled | c_emulator/checkpoint_manager.h:92 | only the enabled flag changes |
| CheckpointManager.Manager.ConditionStats | c_emulator/checkpoint_manager.cpp:63-70 | every condition's name maps to its trigger count, and only those names appear |
| CheckpointManager.Manager.CheckConditions | c_emulator/checkpoint_manager.cpp:288-318 | every matching condition is counted and asks for a snapshot; the total rises by the snapshots created |
| CheckpointManager.Manager.OnEvent | c_emulator/checkpoint_manager.cpp:114-270 | disabled: nothing happens; enabled: each watching condition, in list order, makes its `check_conditions` call |
| CheckpointManager.Manager.Scanning | c_emulator/checkpoint_manager.cpp:124-135 | the outer loop's effect is the composed calls of the watching conditions |
| CheckpointManager.Manager.PreStepCallback | c_emulator/checkpoint_manager.cpp:72-88 | disabled or waiting: nothing happens; otherwise due INSTRUCTION_COUNT conditions record the count and make their call |
| CheckpointManager.Manager.PreStepVisit | c_emulator/checkpoint_manager.cpp:80-86 | one pass of the pre-step loop on the condition at `i` |
| CheckpointManager.Manager.PostStepCallback | c_emulator/checkpoint_manager.cpp:90-112 | on an enabled, non-waiting step the instruction count rises by one modulo `2^64`, then the PC conditions respond |
| ConfigUtils.KeypathToStr | c_emulator/config_utils.cpp:16-27 | `keypath_to_str` is the parts joined by dots, empty for the empty path |
| ConfigUtils.JoinSnoc | c_emulator/config_utils.cpp:21-25 | one more part is appended after a dot, unless it is the first |
| ConfigUtils.KeypathRoundTrip | c_emulator/config_utils.cpp:16-27 | cutting the dotted form at the dots gives the path back when no part holds a dot |
| ConfigUtils.KeypathEmpty | c_emulator/config_utils.cpp:16-27 | the dotted form is empty exactly for the empty path and for one empty part |
| ConfigUtils.ConfigGetU64Default | c_emulator/config_utils.cpp:114-129 | the option's value when present, an integer, not negative and below `2^64`; the default in every other case |
| ConfigUtils.DefaultOnlyWhenUnusable | c_emulator/config_utils.cpp:114-129 | two lookups with different defaults agree exactly when the option holds a usable value |
| GdbUtils.IntOfHex | c_emulator/gdb_remote/gdb_utils.c:15-20 | a hex digit of either case reads as its value below 16; any other character reads as 0 |
| GdbUtils.HexOfInt | c_emulator/gdb_remote/gdb_utils.c:22-26 | a value below 16 gives a lower-case digit that int_of_hex reads back as the value |
| GdbUtils.HexCaseInsensitive | c_emulator/gdb_remote/gdb_utils.c:17-18 | an upper-case letter names the same digit as its lower-case form |
| GdbUtils.HexOfIntOfHex | c_emulator/gdb_remote/gdb_utils.c:15-26 | every lower-case digit is the one hex_of_int writes for its value |
| GdbUtils.PushHexByte | c_emulator/gdb_remote/gdb_utils.c:28-31 | two lower-case digits, the high nibble first: `16 * high + low` is the byte |
| GdbUtils.PushHexByteInjective | c_emulator/gdb_remote/gdb_utils.c:28-31 | distinct bytes give distinct digit pairs |
| GdbUtils.FindTerminator | c_emulator/gdb_remote/gdb_utils.c:37-43 | the first terminator at or after `i`, or none when no character from `i` on is the terminator |
| GdbUtils.BeValue | c_emulator/gdb_remote/gdb_utils.c:40-41 | the big-endian value of `k` digits lies below `16^k` |
| GdbUtils.LeValue | c_emulator/gdb_remote/gdb_utils.c:58-66 | the little-endian value of `k` digits lies below `16^k` |
| GdbUtils.ShiftInDigit | c_emulator/gdb_remote/gdb_utils.c:40-41 | shifting a 64-bit value up a nibble and ORing a digit is `16 x + d` modulo `2^64` |
| GdbUtils.ExtractHexIntegerBe | c_emulator/gdb_remote/gdb_utils.c:34-46 | returns 0 with the terminator's index and the big-endian value of the digits modulo `2^64` exactly when a terminator lies before the end of the buffer, and -1 leaving the offset otherwise |
| GdbUtils.PairByte | c_emulator/gdb_remote/gdb_utils.c:58-64 | a digit pair spells a byte below 256 |
| GdbUtils.LeValueSnoc | c_emulator/gdb_remote/gdb_utils.c:66-67 | one more digit pair adds its byte at the next byte position |
| GdbUtils.LeValueSplit | c_emulator/gdb_remote/gdb_utils.c:66-67 | a little-endian string splits at a pair boundary into its low and high parts |
| GdbUtils.LeValueLow | c_emulator/gdb_remote/gdb_utils.c:66 | only the first eight pairs matter modulo `2^64` |
| GdbUtils.ScanStep | c_emulator/gdb_remote/gdb_utils.c:54-67 | one more whole pair read adds its byte, while it fits in 64 bits |
| GdbUtils.ScanMid | c_emulator/gdb_remote/gdb_utils.c:61-62 | a terminator or the end met inside a pair leaves an odd number of digits |
| GdbUtils.ScanEnd | c_emulator/gdb_remote/gdb_utils.c:55-56 | a terminator or the end met at a pair boundary leaves whole pairs, whose value is read |
| GdbUtils.ReadPair | c_emulator/gdb_remote/gdb_utils.c:58-64 | one digit pair, cut short exactly when the next character is the terminator or the end |
| GdbUtils.ScanPairs | c_emulator/gdb_remote/gdb_utils.c:53-68 | the pair loop stops at the end or the first terminator, telling whether inside a pair; with whole pairs `val` holds their bytes that fit in 64 bits |
| GdbUtils.ExtractHexIntegerLe | c_emulator/gdb_remote/gdb_utils.c:49-71 | returns 0 with the terminator's index and the little-endian value exactly when whole pairs precede a terminator before the end of the buffer, and -1 leaving the offset otherwise |
| GdbUtils.LeShiftDefinedIffAsWritten | c_emulator/gdb_remote/gdb_utils.c:66 | the `int` shift as written is defined exactly for the first three pairs and for the fourth when the byte is below 0x80, and then equals the 64-bit shift |
| GdbUtils.FifthPairUndefinedAsWritten | c_emulator/gdb_remote/gdb_utils.c:66 | "0000000001#" shifts the fifth pair by 32, undefined as written; the 64-bit reading is `2^32` |
| GdbUtils.StrLen | c_emulator/gdb_remote/gdb_utils.c:104 | `strlen`: the length of the prefix before the first NUL |
| GdbUtils.RspBuf.Contents | c_emulator/gdb_remote/gdb_utils.c:94-101 | the message held has `bufofs` characters |
| GdbUtils.RspBuf.constructor | c_emulator/gdb_remote/gdb_utils.c:75-76 | a buffer `{ NULL, 0, 0 }` with an empty message |
| GdbUtils.RspBuf.Grow | c_emulator/gdb_remote/gdb_utils.c:75-92 | a missing buffer gets `BUFSZ` characters and an empty message; an existing one doubles, keeping its contents |
| GdbUtils.RspBuf.AppendBytes | c_emulator/gdb_remote/gdb_utils.c:94-101 | the message becomes the old one followed by `msg`, with a NUL after it inside the buffer |
| GdbUtils.RspBuf.AppendMsg | c_emulator/gdb_remote/gdb_utils.c:103-105 | the message becomes the old one followed by `msg` up to its NUL |
| GdbUtils.RspBuf.AppendHexByte | c_emulator/gdb_remote/gdb_utils.c:107-113 | the message becomes the old one followed by the byte's two hex digits |
| GdbUtils.ModelState.constructor | c_emulator/gdb_remote/gdb_utils.h:23-28 | a model state with `MAX_BREAKPOINTS` slots |
| GdbUtils.ModelState.InitGdbModel | c_emulator/gdb_remote/gdb_utils.c:118-122 | the run state is START, the step count 0 and every breakpoint slot inactive and zero |
| GdbRsp.FirstFree | c_emulator/gdb_remote/gdb_rsp.c:72-79 | the lowest inactive slot at or after `i`, or none when every such slot is active |
| GdbRsp.FirstAt | c_emulator/gdb_remote/gdb_rsp.c:85-87 | the lowest active slot at or after `i` holding `addr`, or none when no such slot exists |
| GdbRsp.Insert | c_emulator/gdb_remote/gdb_rsp.c:70-82 | status 0 exactly when some slot is inactive, and then the lowest such slot takes `(addr, kind)`; otherwise -1 and no change |
| GdbRsp.Remove | c_emulator/gdb_remote/gdb_rsp.c:84-97 | status 0 deactivates the first active slot holding `addr`, whose kind matched; -1 leaves the slots as they were, and follows when no active slot holds `addr` |
| GdbRsp.InsertBreakpoint | c_emulator/gdb_remote/gdb_rsp.c:70-82 | the slot array after the loop and the returned status are those of `Insert` |
| GdbRsp.FreeAt | c_emulator/gdb_remote/gdb_rsp.c:72-79 | a slot that is the first inactive one is where the search lands |
| GdbRsp.HeldAt | c_emulator/gdb_remote/gdb_rsp.c:85-87 | a slot that is the first active one holding `addr` is where the search lands |
| GdbRsp.RemoveBreakpoint | c_emulator/gdb_remote/gdb_rsp.c:84-97 | the slot array after the loop and the returned status are those of `Remove` |
| GdbRsp.MatchBreakpoint | c_emulator/gdb_remote/gdb_rsp.c:99-105 | 1 exactly when some active slot holds `addr`, else 0 |
| GdbRsp.InsertThenMatch | c_emulator/gdb_remote/gdb_rsp.c:70-105 | a successful insert makes a later match of that address succeed |
| GdbRsp.AfterInit | c_emulator/gdb_remote/gdb_utils.c:118-122 | after init_gdb_model no address matches and the first insert takes slot 0 |
| GdbRsp.InsertThenRemove | c_emulator/gdb_remote/gdb_rsp.c:70-97 | inserting at an address that had no breakpoint and removing with the same kind succeeds and restores every slot's active flag |
| GdbRsp.RemoveMismatchKeeps | c_emulator/gdb_remote/gdb_rsp.c:88-92 | a kind mismatch at the first matching slot returns -1 and keeps the breakpoint |
| GdbRsp.Payload | c_emulator/gdb_remote/gdb_rsp.c:571 | the packet data is everything after the first '$' |
| GdbRsp.Checksum | c_emulator/gdb_remote/gdb_rsp.c:572-574 | the checksum lies below 256 |
| GdbRsp.PrepareResp | c_emulator/gdb_remote/gdb_rsp.c:179-185 | the response starts "+$" while acknowledgements are on and "$" once they are off |
| GdbRsp.MakeOkResp | c_emulator/gdb_remote/gdb_rsp.c:188-190 | appends "OK" |
| GdbRsp.MakeErrorResp | c_emulator/gdb_remote/gdb_rsp.c:191-197 | appends 'E' and the two hex digits of the error code |
| GdbRsp.HandleSetContext | c_emulator/gdb_remote/gdb_rsp.c:254-263 | "OK" when the thread id at `cmd_buf[2]` of an 'H' request is "0" or "-1", "E01" otherwise |
| GdbRsp.SetContextExamples | c_emulator/gdb_remote/gdb_rsp.c:254-263 | "Hg0" and "Hc-1" are accepted; "Hg1" and "Hc-2" are not |
| GdbRsp.HandleStopReply | c_emulator/gdb_remote/gdb_rsp.c:265-288 | "S02" before the model has run, "S05" at a breakpoint; in any other state the server exits and nothing is appended |
| GdbRsp.LeHex | c_emulator/gdb_remote/gdb_rsp.c:292-297 | `n` bytes give `2n` digits |
| GdbRsp.LeHexDigits | c_emulator/gdb_remote/gdb_rsp.c:292-297 | every digit sent is a lower-case hex digit |
| GdbRsp.SendRegVal | c_emulator/gdb_remote/gdb_rsp.c:290-298 | appends the register's 4 (RV32) or 8 (RV64) low bytes, least significant first |
| GdbRsp.LeHexSnoc | c_emulator/gdb_remote/gdb_rsp.c:293-296 | each loop pass sends the low byte of what is left after the bytes already sent |
| GdbRsp.LeValueOfLeHex | c_emulator/gdb_remote/gdb_rsp.c:290-298 | the digits sent spell the low `n` bytes of the register; the rest lies above them |
| GdbRsp.SendRegValRoundTrip | c_emulator/gdb_remote/gdb_rsp.c:290-298 | a register sent and terminated by a non-digit is read back by extract_hex_integer_le as the register (its low 32 bits on RV32), the terminator right after the digits |
| GdbRsp.LeHexValue32 | c_emulator/gdb_remote/gdb_rsp.c:292 | four bytes sent carry the value modulo `2^32` |
| GdbRsp.LeHexValue64 | c_emulator/gdb_remote/gdb_rsp.c:292 | eight bytes sent carry the whole 64-bit value |
| GdbRsp.SumSnoc | c_emulator/gdb_remote/gdb_rsp.c:573-575 | one more character adds its code to the sum |
| GdbRsp.FirstDollar | c_emulator/gdb_remote/gdb_rsp.c:571 | the scan stops at the first '$' |
| GdbRsp.SumMod256 | c_emulator/gdb_remote/gdb_rsp.c:572-575 | the `unsigned char` accumulator is the modulo-256 sum of the characters scanned |
| GdbRsp.RespSetChecksum | c_emulator/gdb_remote/gdb_rsp.c:568-581 | appends '#' and the two lower-case hex digits of the modulo-256 sum of everything after the first '$' |
| GdbRsp.AppendTrailer | c_emulator/gdb_remote/gdb_rsp.c:576-580 | grows until three more characters fit, then appends '#' and the two digits |
| GdbRsp.ChecksumAccepted | c_emulator/gdb_remote/gdb_rsp.c:568-581 | a packet closed by resp_set_checksum passes the receiver's check of the modulo-256 sum |
| GdbRsp.AckDoesNotChangeChecksum | c_emulator/gdb_remote/gdb_rsp.c:179-185 | the acknowledgement '+' before the '$' does not enter the checksum (also lines 571) |
| GenVlen.ClampedVlen | gen_vlen.py:10-15 | VLEN after the checks is even and at least 128: 128 below that, otherwise the value or one less |
| GenVlen.ClampedElen | gen_vlen.py:18-23 | ELEN after the checks is even and at least 8: 8 below that, otherwise the value or one less |
| GenVlen.GenerateVlen | gen_vlen.py:5-36 | VLEN and ELEN are the clamped values, `vlen_bytes` is VLEN divided by 8 and truncated, and each warning is printed exactly when its check changes a value, in the script's order |
| GenVlen.NotPowerOfTwoAsWritten | gen_vlen.py:13-15 | the "not a power of 2" check only enforces evenness: 131 becomes 130 and 192 passes, neither a power of two |
| GenVlen.NotPow2Between | gen_vlen.py:13-15 | no power of two lies strictly between `2^k` and `2^(k+1)` |
| GenVlen.Log2Floor | gen_vlen.py:32 | the exponent of the largest power of two not above `n` |
| GenVlen.GenerateVlenPow2 | gen_vlen.py:10-32 | intended: VLEN and ELEN are raised to their minimum and brought down to a power of two within a factor of two of the argument; `vlen_bytes` is exact and `vstart_int` is the exact logarithm of VLEN |
| HpmEvents.Registered | c_emulator/riscv_hpmevents.c:79-88 | the event map init_platform_events builds has one record per model event |
| HpmEvents.WalkFixedActsOnSignalled | c_emulator/riscv_hpmevents.c:122-136 | intended: the loop acts on exactly the signalled events that have a platform id, each once, in increasing order |
| HpmEvents.WalkAgrees | c_emulator/riscv_hpmevents.c:122-136 | as written, the loop agrees with the intended one whenever every signalled event has a platform id |
| HpmEvents.SkippedShiftMisfires | c_emulator/riscv_hpmevents.c:128-135 | as written, the `continue` skips `acc >>= 1`: with event 1 signalled and undefined, event 2, never signalled, is acted on |
| HpmEvents.SelectingUpdate | c_emulator/riscv_hpmevents.c:39-55 | moving one selector changes the number of selectors naming an id by the one left and the one joined |
| HpmEvents.SelectingNone | c_emulator/riscv_hpmevents.c:39-55 | an id no selector names is not any counter's selector |
| HpmEvents.SelectingOne | c_emulator/riscv_hpmevents.c:39-55 | an id one selector names is named by no other counter |
| HpmEvents.SelectingSome | c_emulator/riscv_hpmevents.c:39-55 | an id some counter selects has a count of at least one |
| HpmEvents.SelectingTwo | c_emulator/riscv_hpmevents.c:39-55 | two selectors naming platform id 3 count as two |
| HpmEvents.FastMatchesSlow | c_emulator/riscv_hpmevents.c:129-133 | with the bookkeeping right and the map usable, the fast path increments exactly the counters the slow path does |
| HpmEvents.ReselectKeepsCounts | c_emulator/riscv_hpmevents.c:42-55 | as written, moving a selector keeps every event's count equal to the number of selectors naming it |
| HpmEvents.StaleRegidx | c_emulator/riscv_hpmevents.c:46-55 | as written, counters 0 and 1 both select platform id 3, counter 1 moves to id 4, and the fast path then counts the event in counter 1 instead of counter 0 (also lines 130) |
| HpmEvents.Remaining | c_emulator/riscv_hpmevents.c:42-55 | the selector other than `skip` that names `id`, or none when no other does |
| HpmEvents.RemainingFound | c_emulator/riscv_hpmevents.c:42-55 | an event left with one selector after another moved away is still named by that one |
| HpmEvents.SelectingAbsent | c_emulator/riscv_hpmevents.c:42-55 | an id no selector names has count 0 |
| HpmEvents.ReselectFixedTracks | c_emulator/riscv_hpmevents.c:42-55 | intended: moving `regidx` to the remaining selector keeps the whole bookkeeping the fast path relies on |
| HpmEvents.SignalSetsBit | c_emulator/riscv_hpmevents.c:35 | ORing `1 << id` into `hpm_eventset` sets bit `id` and no other |
| HpmEvents.Hpm.constructor | c_emulator/riscv_hpmevents.c:21-31 | static storage starts zero: nothing registered, nothing signalled, the map not yet usable |
| HpmEvents.Hpm.SignalEvent | c_emulator/riscv_hpmevents.c:34-36 | only the signalled set changes, gaining bit `id` |
| HpmEvents.Hpm.WriteMhpmevent | c_emulator/riscv_hpmevents.c:39-67 | the event map becomes the as-written reselection and the fast-path flag is recomputed; an unchanged selector changes nothing |
| HpmEvents.Hpm.InitPlatformEvents | c_emulator/riscv_hpmevents.c:70-89 | nothing signalled, the map usable, and the map holds the table's platform ids (or is cleared for a null table) |
| HpmEvents.Hpm.ResetPlatformEvents | c_emulator/riscv_hpmevents.c:91-99 | every record keeps its platform id with `regidx` and count zeroed; nothing signalled; the map usable |
| HpmEvents.Hpm.IncrementHpmCounter | c_emulator/riscv_hpmevents.c:103-110 | counter `regidx` rises by one modulo `2^64` unless bit `regidx + 3` of mcountinhibit is set; nothing else changes |
| HpmEvents.Hpm.SlowProcessSelector | c_emulator/riscv_hpmevents.c:112-120 | every uninhibited counter whose selector names the platform id rises by one; the others keep their values |
| HpmEvents.Hpm.FireEvent | c_emulator/riscv_hpmevents.c:126-133 | one signalled, registered event counted by the fast or the slow path |
| HpmEvents.Hpm.ProcessHpmEvents | c_emulator/riscv_hpmevents.c:122-138 | the counters after the as-written walk's events in order, then the signalled set cleared |
| JtagDtm.TmsHighResets | c_emulator/jtag_dtm.cpp:59-92 | five or more rising edges with TMS high reach Test-Logic-Reset from every state of the next-state table |
| JtagDtm.StaysInReset | c_emulator/jtag_dtm.cpp:61 | Test-Logic-Reset is kept while TMS stays high |
| JtagDtm.FourEdgesNotEnough | c_emulator/jtag_dtm.cpp:59-92 | four edges do not suffice: from Shift-DR they end in Select-IR-Scan |
| JtagDtm.RisingEdgeMoves | c_emulator/jtag_dtm.cpp:94-144 | a rising TCK edge moves the TAP by the TMS latched on the previous call, and the new pins are latched |
| JtagDtm.OtherCallsStay | c_emulator/jtag_dtm.cpp:110-136 | a call that is not a rising edge never moves the TAP, except a dmihardreset written in Update-DR |
| JtagDtm.ActionStateOrReset | c_emulator/jtag_dtm.cpp:110-136 | a call that is not a rising edge keeps the state or resets the TAP (also lines 186-187) |
| JtagDtm.FiveEdgesReset | c_emulator/jtag_dtm.cpp:57-145 | five clock pulses with TMS high, through set_pins itself, reach Test-Logic-Reset |
| JtagDtm.ShiftDrBits | c_emulator/jtag_dtm.cpp:98-100 | in Shift-DR a rising edge moves DR right by one and puts the latched TDI at bit `dr_length - 1`, every other bit shifted down |
| JtagDtm.TdoIsBitZero | c_emulator/jtag_dtm.cpp:124-131 | outside a rising edge, Shift-DR and Shift-IR drive bit 0 of DR or IR on TDO |
| JtagDtm.IdleCountsDown | c_emulator/jtag_dtm.cpp:113-116 | Run-Test/Idle counts `rti_remaining` down to zero and no further |
| JtagDtm.CaptureBusy | c_emulator/jtag_dtm.cpp:158-165 | a DBUS capture while an access is pending loads BUSY, makes it stick, and sets `dr_length` to `abits + 34` |
| JtagDtm.DbusStatus | c_emulator/jtag_dtm.cpp:191-239 | after a DBUS access `dmi[1:0]` is 0 on success and 2 on failure, and the idle count restarts at `required_rti_cycles` |
| JtagDtm.DbusReadData | c_emulator/jtag_dtm.cpp:199-225 | a successful read asks for the address in `dr[40:34]` and puts the low 32 bits of the value in `dmi[33:2]` |
| JtagDtm.DtmControlWrite | c_emulator/jtag_dtm.cpp:182-188 | on dtmcs, dmireset or dmihardreset clear BUSY, dmihardreset resets the TAP, and with neither nothing changes |
| JtagDtm.ZeroLengthShiftReachable | c_emulator/jtag_dtm.cpp:94-173 | from power-on, a first rising edge with TMS low and then TMS 1, 0, 0 reach Shift-DR with IR 0 and `dr_length` 0, so the next rising edge shifts in with length 0 |
| JtagDtm.ShiftInFits | c_emulator/jtag_dtm.cpp:99-104 | shifting a bit into a register of at most `w` bits keeps it below `2^w` |
| JtagDtm.CaptureKeeps | c_emulator/jtag_dtm.cpp:147-176 | capture_dr keeps every register inside its C type and `dr_length` one of 0 (before any capture, or after a capture with an unsupported IR), 1, 32, 41 |
| JtagDtm.UpdateKeeps | c_emulator/jtag_dtm.cpp:178-244 | update_dr keeps the same invariant |
| JtagDtm.DbusKeeps | c_emulator/jtag_dtm.cpp:191-243 | the DBUS access keeps the same invariant |
| JtagDtm.DmiAccessFits | c_emulator/jtag_dtm.cpp:206-235 | the new `dmi` of an access fits in 64 bits |
| JtagDtm.RisingKeeps | c_emulator/jtag_dtm.cpp:94-109 | a rising edge keeps the same invariant, so `uint64_t` DR and 5-bit IR never wrap |
| JtagDtm.ActionKeeps | c_emulator/jtag_dtm.cpp:110-136 | every other call keeps the same invariant |
| JtagDtm.SetPinsKeeps | c_emulator/jtag_dtm.cpp:57-145 | every call to set_pins keeps the same invariant |
| JtagDtm.Dtm.constructor | c_emulator/jtag_dtm.cpp:43-47 | fields start at their in-class initialisers: zero, the TAP in Test-Logic-Reset, `required_rti_cycles` and the model stored |
| JtagDtm.Dtm.Reset | c_emulator/jtag_dtm.cpp:49-55 | state Test-Logic-Reset, BUSY cleared, idle count and `dmi` zero; the other fields unchanged |
| JtagDtm.Dtm.CaptureDr | c_emulator/jtag_dtm.cpp:147-176 | DR and its length loaded from the register IR selects; an unsupported IR changes nothing |
| JtagDtm.Dtm.UpdateDr | c_emulator/jtag_dtm.cpp:178-244 | the new fields are those of the update the IR selects: dtmcs resets, bypass store, or a DBUS access |
| JtagDtm.Dtm.DbusAccess | c_emulator/jtag_dtm.cpp:191-243 | the access through the debug-module callbacks, with its status in `dmi[1:0]` |
| JtagDtm.Dtm.SetPins | c_emulator/jtag_dtm.cpp:57-145 | one call: rising-edge shift and move, or the state's action, then the pins latched; the invariant is kept |
| JtagDtm.Dtm.ClockEdge | c_emulator/jtag_dtm.cpp:94-109 | the rising-edge branch: shift DR or IR, move along the latched TMS |
| JtagDtm.Dtm.StateAction | c_emulator/jtag_dtm.cpp:110-136 | the other branch: count idle down, select IDCODE, capture, drive TDO, or update |
| JsonMerge.MergeJson | c_emulator/riscv_sim.cpp:105-115 | the merge fails (the library throws) exactly when the override is not an object, or has fields and the base is not an object |
| JsonMerge.DeepMergeFields | c_emulator/riscv_sim.cpp:106-114 | the key-by-key loop yields the merged map: each override key replaces the base's entry or recurses into it |
| JsonMerge.DeepMerge | c_emulator/riscv_sim.cpp:105-115 | the method on whole documents agrees with the merge, failures included |
| JsonMerge.MergedAt | c_emulator/riscv_sim.cpp:109-113 | a key is in the result iff it is in the base or the override; override keys take their merged entry, the others keep the base's value |
| JsonMerge.MergedFields | c_emulator/riscv_sim.cpp:101-113 | the result's keys are the union; objects on both sides merge recursively, every other override value replaces the base's, base-only keys are kept |
| JsonMerge.MergeEmpty | c_emulator/riscv_sim.cpp:106 | an empty override changes nothing |
| JsonMerge.MergeSelf | c_emulator/riscv_sim.cpp:105-115 | merging an object into itself gives it back |
| JsonMerge.MergeTwice | c_emulator/riscv_sim.cpp:105-115 | the merge is idempotent: applying the same override twice equals applying it once |
| JsonMerge.MergeJsonTwice | c_emulator/riscv_sim.cpp:657-661 | the same for whole documents, so repeating an override file on the command line changes nothing |
| ModelImpl.Without | c_emulator/riscv_model_impl.cpp:24 | erase-remove never lengthens the list |
| ModelImpl.WithoutMembers | c_emulator/riscv_model_impl.cpp:24 | an observer survives the erase exactly when it is not the one removed |
| ModelImpl.WithoutNoDup | c_emulator/riscv_model_impl.cpp:17-25 | removal keeps the list free of duplicates |
| ModelImpl.WithoutAbsent | c_emulator/riscv_model_impl.cpp:24 | removing an observer that is not registered changes nothing |
| ModelImpl.RegisterThenRemove | c_emulator/riscv_model_impl.cpp:17-25 | removing a freshly registered observer undoes the registration |
| ModelImpl.CallsInOrder | c_emulator/riscv_model_impl.cpp:27-37 | one call per observer, the i-th call going to the i-th registered observer |
| ModelImpl.OnesShifted | c_emulator/riscv_model_impl.cpp:44 | `k` ones shifted up by `e` are `2^(k+e) - 2^e` |
| ModelImpl.OnesValue | c_emulator/riscv_model_impl.cpp:44 | the ones from bit `e` to bit `w - 1` make `2^w - 2^e` |
| ModelImpl.OnesOnlyBit | c_emulator/riscv_model_impl.cpp:44 | those ones have exactly bits `e` to `w - 1` set |
| ModelImpl.BlockMask | c_emulator/riscv_model_impl.cpp:44 | the intended 64-bit block mask fits in 64 bits |
| ModelImpl.BlockMaskBit | c_emulator/riscv_model_impl.cpp:44 | the intended block mask has exactly bits `e` to 63 set |
| ModelImpl.BlockMaskValue | c_emulator/riscv_model_impl.cpp:44 | the intended block mask is `2^64 - 2^e` |
| ModelImpl.IntMaskDefinedIff | c_emulator/riscv_model_impl.cpp:44 | as written, `1 << exponent` on `int` is defined iff the exponent is at most 30, and there it equals the intended mask |
| ModelImpl.IntMaskSmall | c_emulator/riscv_model_impl.cpp:44 | for exponents up to 30 the 32-bit evaluation, sign-extended, is the intended mask |
| ModelImpl.IntMaskAt31 | c_emulator/riscv_model_impl.cpp:44 | as written, exponent 31 overflows `INT_MIN - 1`, which is undefined |
| ModelImpl.NegMod | c_emulator/riscv_model_impl.cpp:44 | a negative value sign-extended to 64 bits is `2^64 - p` |
| ModelImpl.AndBlockMaskBit | c_emulator/riscv_model_impl.cpp:175 | masking keeps exactly the bits at `e` and above |
| ModelImpl.AndBlockMask | c_emulator/riscv_model_impl.cpp:175 | `addr & mask` is `(addr >> e) << e`, the start of the block |
| ModelImpl.SameBlock | c_emulator/riscv_model_impl.cpp:184-187 | two addresses agree under the mask exactly when they lie in the same `2^e`-byte block |
| ModelImpl.AndTwice | c_emulator/riscv_model_impl.cpp:186 | masking twice is masking once, so re-masking the stored reservation is harmless |
| ModelImpl.ReservedBlockMatches | c_emulator/riscv_model_impl.cpp:174-187 | after a load-reserved, every reserved byte matches the reservation, and so does every address of the block and no other |
| ModelImpl.Model.constructor | c_emulator/riscv_model_impl.h:107-112 | no observers, reservation 0 and invalid, mask 0 |
| ModelImpl.Model.RegisterCallback | c_emulator/riscv_model_impl.cpp:17-21 | `cb` appended unless already present; no duplicates; the reservation untouched |
| ModelImpl.Model.RemoveCallback | c_emulator/riscv_model_impl.cpp:23-25 | the list becomes the erase of `cb`, which is then absent; no duplicates; the reservation untouched |
| ModelImpl.Model.CallPreStepCallbacks | c_emulator/riscv_model_impl.cpp:27-31 | the pre-step calls go to every observer in registration order |
| ModelImpl.Model.CallPostStepCallbacks | c_emulator/riscv_model_impl.cpp:33-37 | the post-step calls go to every observer in registration order |
| ModelImpl.Model.SetReservationSetSizeExp | c_emulator/riscv_model_impl.cpp:43-45 | corrected: the mask becomes the 64-bit block mask; nothing else changes |
| ModelImpl.Model.LoadReservation | c_emulator/riscv_model_impl.cpp:174-182 | the reservation becomes the block of `addr`, valid; the assertion that the reserved bytes stay in the block is the precondition |
| ModelImpl.Model.MatchReservation | c_emulator/riscv_model_impl.cpp:184-187 | true iff the reservation is valid and `addr` lies in its block |
| ModelImpl.Model.CancelReservation | c_emulator/riscv_model_impl.cpp:189-192 | the reservation becomes invalid; nothing else changes |
| ModelImpl.Model.ValidReservation | c_emulator/riscv_model_impl.cpp:194-196 | returns the valid flag |
| PlatformEvents.PlatformTableShape | c_emulator/platform/riscv_events_example.c:12-32 | the table ends with `{E_last, 0}`; before it every model event appears once with a distinct nonzero selector value |
| PlatformEvents.AnyMatchSome | c_emulator/platform/riscv_events_example.c:60-118 | a group matches iff one of its `WHEN_IS_` tests matches |
| PlatformEvents.SignalledWhen | c_emulator/platform/riscv_events_example.c:196-333 | an event is signalled exactly when some test that signals it matches |
| PlatformEvents.SignalledByOne | c_emulator/platform/riscv_events_example.c:196-333 | an event one group signals is signalled exactly when that group matches |
| PlatformEvents.SignalledByTwo | c_emulator/platform/riscv_events_example.c:241-258 | an event two groups signal is signalled exactly when one of them matches |
| PlatformEvents.SignalledByHit | c_emulator/platform/riscv_events_example.c:196-333 | a matching test signals its events |
| PlatformEvents.GroupsSignalling | c_emulator/platform/riscv_events_example.c:196-267 | which groups signal branch, load, store, fence, lr, sc and amo |
| PlatformEvents.SplitIsb | c_emulator/platform/riscv_events_example.c:57 | `inst & 0x707f` is the opcode plus funct3 |
| PlatformEvents.BranchIff | c_emulator/platform/riscv_events_example.c:60-65 | the branch event is signalled iff the opcode is 0x63 and funct3 is not 2 or 3 (also lines 196-201) |
| PlatformEvents.BranchesMatch | c_emulator/platform/riscv_events_example.c:60-65 | the six branch tests match exactly those encodings |
| PlatformEvents.LoadIff | c_emulator/platform/riscv_events_example.c:69-75 | the load event is signalled iff the opcode is 0x03 and funct3 is at most 6 (also lines 205-211) |
| PlatformEvents.LoadsMatch | c_emulator/platform/riscv_events_example.c:69-75 | the seven load tests match exactly those encodings |
| PlatformEvents.StoreIff | c_emulator/platform/riscv_events_example.c:76-79 | the store event is signalled iff the opcode is 0x23 and funct3 is at most 3 (also lines 212-215) |
| PlatformEvents.StoresMatch | c_emulator/platform/riscv_events_example.c:76-79 | the four store tests match exactly those encodings |
| PlatformEvents.FenceIff | c_emulator/platform/riscv_events_example.c:86-88 | the fence event is signalled iff the instruction is FENCE or FENCE.I under the ISB mask (also lines 222-224) |
| PlatformEvents.FencesMatch | c_emulator/platform/riscv_events_example.c:86-88 | the two fence tests match exactly those encodings |
| PlatformEvents.LrIsAtomic | c_emulator/platform/riscv_events_example.c:241-256 | every instruction that signals lr also signals amo |
| PlatformEvents.ScIsAtomic | c_emulator/platform/riscv_events_example.c:243-258 | every instruction that signals sc also signals amo |
| PlatformEvents.LrWordChecksRs2 | c_emulator/platform/riscv_events_example.c:105 | LR.W with rs2 = 1 does not signal lr, because the test demands rs2 = 0 |
| PlatformEvents.LrDoubleIgnoresRs2 | c_emulator/platform/riscv_events_example.c:117 | LR.D with rs2 = 1 still signals lr, because its test has no rs2 check |
| PlatformEvents.Elems | c_emulator/platform/riscv_events_example.c:241-244 | the ids of one test, as a set |
| PlatformEvents.SignalAll | c_emulator/platform/riscv_events_example.c:241-242 | the calls of one matching test raise exactly their events' bits, leaving the counters and map alone |
| PlatformEvents.SignalGroup | c_emulator/platform/riscv_events_example.c:196-201 | a run of tests raises exactly the bits of the events its matching tests signal |
| PlatformEvents.SignalPlatformEvents | c_emulator/platform/riscv_events_example.c:36-334 | afterwards bit `i` of the event set is its old bit or `i` is signalled for `inst`; counters, map and selectors unchanged |
| PlatformReservation.CheckMask | c_emulator/riscv_platform.cpp:38-41 | the mask is a 64-bit value |
| PlatformReservation.CheckMaskCompares | c_emulator/riscv_platform.cpp:38-46 | under the mask two addresses agree iff their low 32 bits agree on RV32, or they are equal otherwise |
| PlatformReservation.TermByte | c_emulator/riscv_platform.cpp:65-70 | the character written is `s & 0xff` |
| PlatformReservation.SpeculateConditional | c_emulator/riscv_platform.c:174-177 | a store-conditional is always allowed to proceed |
| PlatformReservation.Platform.constructor | c_emulator/riscv_platform.cpp:16-17 | reservation 0 and invalid |
| PlatformReservation.Platform.LoadReservation | c_emulator/riscv_platform.cpp:30-36 | the whole address is stored and the reservation made valid |
| PlatformReservation.Platform.MatchReservation | c_emulator/riscv_platform.cpp:43-51 | true iff valid and the address agrees with the reservation on 32 (RV32) or 64 bits |
| PlatformReservation.Platform.CancelReservation | c_emulator/riscv_platform.cpp:53-58 | the reservation becomes invalid, the address kept |
| PlatformReservation.Platform.ValidReservation | c_emulator/riscv_platform.cpp:60-63 | returns the valid flag |
| PlatformReservation.LoadThenMatch | c_emulator/riscv_platform.cpp:25-58 | load-reserved then a match on the same address succeeds, unless a cancel came between |
| RemoteBitbang.PinsAreBits | c_emulator/remote_bitbang.cpp:152-175 | the digits '0' to '7' are exactly the pin commands, encoding TCK, TMS, TDI as bits 2, 1, 0 |
| RemoteBitbang.CommandEffect | c_emulator/remote_bitbang.cpp:144-185 | 'R' answers one byte, '1' iff TDO is high, every other command none; only 'Q' quits; 'B', 'b' and unknown bytes leave the TAP alone |
| RemoteBitbang.ReadCount | c_emulator/remote_bitbang.cpp:176-177 | there are never more 'R' answers than command bytes, so `send_buf` cannot overflow |
| RemoteBitbang.RunBatch | c_emulator/remote_bitbang.cpp:142-193 | the inner loop stops inside the buffer |
| RemoteBitbang.BatchReplies | c_emulator/remote_bitbang.cpp:142-193 | a batch answers one byte per 'R' it ran, and has quit iff it ran a 'Q' or had already quit |
| RemoteBitbang.BatchBounds | c_emulator/remote_bitbang.cpp:142-193 | a batch runs at least one command, and stops before the end of the buffer only by entering Run-Test/Idle |
| RemoteBitbang.BatchStopsInIdle | c_emulator/remote_bitbang.cpp:137-192 | a batch runs up to the first command after which the TAP is in Run-Test/Idle (not the first command when it already was) and no further |
| RemoteBitbang.BatchStep | c_emulator/remote_bitbang.cpp:143-192 | one pass of the inner loop keeps its invariant; `stop` is the `break` test |
| RemoteBitbang.BatchDone | c_emulator/remote_bitbang.cpp:142-193 | when the loop exits, its state is the batch function's result |
| RemoteBitbang.Execute | c_emulator/remote_bitbang.cpp:133-236 | one call: yielding with commands left means the TAP is in Run-Test/Idle; disconnecting or running out of input leaves nothing buffered |
| RemoteBitbang.ExecuteContinues | c_emulator/remote_bitbang.cpp:206-235 | when no test ends the call and the read brings bytes, the call goes on with them |
| RemoteBitbang.ExecuteStops | c_emulator/remote_bitbang.cpp:206-234 | with the quit test placed as intended, a quit disconnects and the budget or Run-Test/Idle yields with the rest buffered |
| RemoteBitbang.ExecuteAwaits | c_emulator/remote_bitbang.cpp:211-234 | otherwise the read decides: EAGAIN yields, zero bytes disconnects, data goes on |
| RemoteBitbang.ExecuteEnds | c_emulator/remote_bitbang.cpp:206-234 | a call that does not go on counts only this batch's commands |
| RemoteBitbang.BoundedWork | c_emulator/remote_bitbang.cpp:206-208 | one call runs at most twice `buf_size` commands, so it cannot starve the simulation |
| RemoteBitbang.QuitKeepsConnection | c_emulator/remote_bitbang.cpp:206-234 | as written, a call that ran a 'Q' leaves at the budget test before reaching the close, so the connection stays open |
| RemoteBitbang.QuitDisconnects | c_emulator/remote_bitbang.cpp:224-234 | intended: a call that ran a 'Q' closes the connection |
| RemoteBitbang.WireAsWritten | c_emulator/remote_bitbang.cpp:194-203 | as written, each `write` starts at `sent` but asks for `send_offset` bytes: the socket gets the reply's prefix and then bytes past it |
| RemoteBitbang.PartialWriteResends | c_emulator/remote_bitbang.cpp:196 | as written, a partial first write of a two-byte reply puts a third, stale byte on the socket |
| RemoteBitbang.Bitbang.Pending | c_emulator/remote_bitbang.cpp:140-142 | the buffered commands `recv_buf[recv_start..recv_end]` fit the buffer |
| RemoteBitbang.Bitbang.constructor | c_emulator/remote_bitbang.cpp:22-28 | a server for `tap` with empty buffers and no client |
| RemoteBitbang.Bitbang.Perform | c_emulator/remote_bitbang.cpp:144-185 | the TAP and quit flag become those of the command's effect; an 'R' answer is appended at `send_buf[send_offset]` |
| RemoteBitbang.Bitbang.ProcessBatch | c_emulator/remote_bitbang.cpp:141-193 | the inner loop's TAP, answers, flags and consumed count are those of the batch function |
| RemoteBitbang.Bitbang.RunCommand | c_emulator/remote_bitbang.cpp:143-192 | one command run, `recv_start` advanced, Run-Test/Idle entry tested |
| RemoteBitbang.Bitbang.Flush | c_emulator/remote_bitbang.cpp:194-203 | intended: with each write asking for the bytes not yet sent, the socket gets the reply once, in order |
| RemoteBitbang.Bitbang.Receive | c_emulator/remote_bitbang.cpp:211-212 | a successful read makes the buffered commands exactly the bytes read |
| RemoteBitbang.Bitbang.Round | c_emulator/remote_bitbang.cpp:140-204 | one pass of the outer loop runs the buffered commands as one batch |
| RemoteBitbang.Bitbang.Refill | c_emulator/remote_bitbang.cpp:211-234 | the read at the end of a pass refills the buffer, yields on EAGAIN, or closes on zero bytes |
| RemoteBitbang.Bitbang.ExecuteCommands | c_emulator/remote_bitbang.cpp:133-236 | with the quit test placed as intended, the call's TAP, answers, outcome and commands run are those of `Execute` |
| ResetRom.ResetVector | c_emulator/sim_utils.cpp:8-18 | eight 32-bit code words, the last two the halves of the entry point |
| ResetRom.WordBytes | c_emulator/sim_utils.cpp:20 | a word is four bytes |
| ResetRom.WordsBytes | c_emulator/sim_utils.cpp:20-21 | a list of words is four bytes per word |
| ResetRom.WordRoundTrip | c_emulator/sim_utils.cpp:20 | a word's little-endian bytes read back as the word |
| ResetRom.WordsRoundTrip | c_emulator/sim_utils.cpp:20-21 | word `k` reads back at byte offset `4 k` |
| ResetRom.RoundUp | c_emulator/sim_utils.cpp:27-28 | the round-up is a page multiple in `[n, n + 0x1000)` |
| ResetRom.RoundUpLeast | c_emulator/sim_utils.cpp:27-28 | it is the least page multiple at or above `n` |
| ResetRom.ResetRomLayout | c_emulator/sim_utils.cpp:5-30 | the ROM is whole pages: the code words, then the device tree (a null or empty one copies nothing), then zeros |
| ResetRom.ResetRomLeast | c_emulator/sim_utils.cpp:26-28 | no smaller whole number of pages holds the code and the device tree |
| ResetRom.ResetRomWords | c_emulator/sim_utils.cpp:9-18 | read back, the code is auipc, addi, csrr, `lw` on RV32 and `ld` otherwise, jr; words 6 and 7 make the entry point |
| ResetRom.RomWord | c_emulator/sim_utils.cpp:9-21 | the ROM's word `k` is the reset vector's word `k` |
| ResetRom.StoreAt | c_emulator/riscv_sim.c:618-619 | stored bytes are in place and every other address is unchanged |
| ResetRom.StoreAppend | c_emulator/riscv_sim.c:617-624 | storing two runs back to back with `addr++` stores their concatenation |
| ResetRom.RoundUpShift | c_emulator/riscv_sim.c:651 | from a page-aligned base, the page round-up shifts with the base |
| ResetRom.Int32Of | c_emulator/riscv_sim.c:652 | `(int)addr` lies in the signed 32-bit range |
| ResetRom.ZeroFillSkippedAsWritten | c_emulator/riscv_sim.c:651-653 | as written, at reset address 0x80000000 `int i = addr` is negative and converts to a huge unsigned value, so no zero is written |
| ResetRom.RomLoader.constructor | c_emulator/riscv_sim.c:602 | memory given, ROM base, size and PC zero |
| ResetRom.RomLoader.WriteBytes | c_emulator/riscv_sim.c:618-623 | memory is the old memory with `bs` stored from `addr`, and `addr` advanced past them |
| ResetRom.RomLoader.InitResetVector | c_emulator/riscv_sim.c:602-659 | intended: code, device tree and zeros up to the page boundary stored from the reset address; ROM size to that boundary; PC at the base |
| ResetRom.LoadedRomIsResetRom | c_emulator/riscv_sim.c:602-659 | for a page-aligned reset address the loaded bytes are exactly the image `make_reset_rom` builds |
| RunLoop.Retired | c_emulator/riscv_sim.cpp:526-533 | no more instructions retire than steps run |
| RunLoop.RetiredSnoc | c_emulator/riscv_sim.cpp:526-533 | a further step retires one instruction unless the hart was waiting |
| RunLoop.RetiredAllWaiting | c_emulator/riscv_sim.cpp:526-533 | a run of waiting steps retires nothing |
| RunLoop.WaitRunsOut | c_emulator/riscv_sim.cpp:513-518 | `k` waiting steps from `remaining` leave `remaining - k`, so a hart that keeps waiting is told to leave after `remaining` steps |
| RunLoop.WaitRestarts | c_emulator/riscv_sim.cpp:514-515 | a wait with no budget left restarts from `max_steps_to_wait`, and runs out again after that many further steps |
| RunLoop.WaitsAfterShift | c_emulator/riscv_sim.cpp:513-518 | `k + 1` waiting steps are one step followed by `k` |
| RunLoop.Runner.constructor | c_emulator/riscv_sim.cpp:466-475 | counters zero, not waiting, the two configuration values and the limit stored |
| RunLoop.Runner.Step | c_emulator/riscv_sim.cpp:494-559 | the model is told to leave the wait iff no budget remains; the budget restarts, counts down or clears; counters move only on a retired instruction; the clock ticks every `instructions_per_tick` instructions and on every step of a bounded wait |
| RunLoop.Runner.Run | c_emulator/riscv_sim.cpp:479-560 | the loop counts exactly the consumed steps that retired, stops early only at the instruction limit, and never passes a non-zero limit |
| Semihosting.RetError | c_emulator/semihosting.h:46-49 | an error result is `(uint64_t)-1` with the given errno |
| Semihosting.RetOk | c_emulator/semihosting.h:50-53 | a success result carries the value and errno 0 |
| Semihosting.FeatureBytes | c_emulator/semihosting.cpp:120-126 | a read at `pos` yields the next `min(size, 5 - pos)` feature bytes, none past the end |
| Semihosting.FeatureReadsCompose | c_emulator/semihosting.cpp:120-126 | two reads in a row yield what one read of both sizes yields |
| Semihosting.FeatureReadWhole | c_emulator/semihosting.cpp:29-32 | a read of five or more bytes from the start yields the magic "SHFB" and the feature byte 3 (also lines 120-126) |
| Semihosting.FeaturesFile.constructor | c_emulator/semihosting.cpp:113-118 | the position starts at 0 |
| Semihosting.FeaturesFile.Read | c_emulator/semihosting.cpp:120-126 | the copied bytes are the feature bytes from the old position, and the position moves past them |
| Semihosting.FeaturesFile.Seek | c_emulator/semihosting.cpp:128-136 | a position inside the five bytes is taken; any other returns `-ENXIO` and keeps the position |
| Semihosting.FeaturesFile.FLen | c_emulator/semihosting.cpp:137-140 | the length is 5 |
| Semihosting.JoinPath | c_emulator/semihosting.cpp:153 | the joined path starts with the directory and ends with the name |
| Semihosting.FullPath | c_emulator/semihosting.cpp:149-157 | empty, absolute, `:tt` and `:semihosting-features` names pass through; other names are joined to the working directory |
| Semihosting.FullPathResolves | c_emulator/semihosting.cpp:149-157 | a resolved name starts with the working directory, ends with the name, and resolves to itself |
| Semihosting.TtOpen | c_emulator/semihosting.cpp:36-47 | `:tt` opens for a mode starting with r, w or a, and is EINVAL otherwise |
| Semihosting.ModesOpenConsole | c_emulator/semihosting.h:13-15 | every one of the twelve guest modes opens `:tt` |
| Semihosting.HostMode | c_emulator/semihosting.cpp:49-51 | a leading 'w' becomes 'a'; the rest of the mode is unchanged |
| Semihosting.HostModesAppend | c_emulator/semihosting.h:13-15 | no guest mode reaches the host as a truncating write mode |
| Semihosting.HandleCheckAsWritten | c_emulator/semihosting.cpp:219 | as written, the check `handle > files.size()` reads `files[handle]` out of bounds exactly for `handle == files.size()` (also lines 275, 304, 317, 330) |
| Semihosting.EndHandleReadsOutsideAsWritten | c_emulator/semihosting.cpp:219 | as written, the handle one past the table reaches that read; the corrected check refuses it |
| Semihosting.HandleCheckAgrees | c_emulator/semihosting.cpp:219 | wherever the as-written check is defined it agrees with the corrected one |
| Semihosting.OpenIsInRange | c_emulator/semihosting.cpp:219 | intended: only open slots inside the table pass, and the two checks differ only at the end handle or a closed slot |
| Semihosting.HostFLen | c_emulator/semihosting.cpp:81-99 | intended: the measured length is reported, or `-errno` exactly on failure |
| Semihosting.FLenOfHostFile | c_emulator/semihosting.cpp:98 | as written, a 10-byte host file reports length 0; corrected, 10 |
| Semihosting.CloseTwiceAsWritten | c_emulator/semihosting.cpp:194-209 | as written, closing a handle twice calls `close` through a null pointer |
| Semihosting.ExactBufferRefused | c_emulator/semihosting.cpp:425 | as written, a buffer exactly as long as the terminated command line is refused |
| Semihosting.CmdLine | c_emulator/semihosting.cpp:424 | the command line is the name, a space and the arguments |
| Semihosting.CmdLineFitsExactly | c_emulator/semihosting.cpp:425 | intended: a buffer is accepted iff the terminated command line fits; the as-written test accepts only such buffers |
| Semihosting.Halves | c_emulator/semihosting.cpp:474-476 | the two 32-bit words are the low and high halves of the tick |
| Semihosting.RiscvSemihosting.constructor | c_emulator/semihosting.h:406-407 | no files, errno 0, not exited |
| Semihosting.RiscvSemihosting.CallOpen | c_emulator/semihosting.cpp:169-192 | unknown mode or null name is EINVAL, an unreadable name ERANGE; otherwise the resolved name opens and is appended, its handle the old table size, or the open's errno is returned |
| Semihosting.RiscvSemihosting.CallClose | c_emulator/semihosting.cpp:194-209 | corrected: a handle not open is EBADF; an open slot is emptied and its handle is not reused |
| Semihosting.RiscvSemihosting.CallWrite | c_emulator/semihosting.cpp:216-232 | the value is the bytes not written: all on EBADF, all for the magic file, the host's shortfall otherwise |
| Semihosting.RiscvSemihosting.CallRead | c_emulator/semihosting.cpp:272-289 | the value is the bytes not read; the magic file reads from its position; a host error keeps `size` with its errno; no other magic file moves |
| Semihosting.RiscvSemihosting.CallIsTty | c_emulator/semihosting.cpp:101-104 | 1 exactly for an open console handle, EBADF for a handle not open (also lines 302-313) |
| Semihosting.RiscvSemihosting.CallSeek | c_emulator/semihosting.cpp:315-326 | the magic file takes positions inside it or reports ENXIO; a host file reports what `fseek` returned |
| Semihosting.RiscvSemihosting.CallFLen | c_emulator/semihosting.cpp:328-339 | corrected: 5 for the magic file, the measured length or its errno for a host file, EBADF for a handle not open |
| Semihosting.RiscvSemihosting.CallIsError | c_emulator/semihosting.cpp:297-300 | 1 exactly for a negative status, 0 otherwise |
| Semihosting.RiscvSemihosting.CallErrno | c_emulator/semihosting.cpp:416-419 | returns the previous call's errno as value and errno, and keeps it |
| Semihosting.RiscvSemihosting.CallExit32 | c_emulator/semihosting.cpp:241-246 | the run ends with exit code 0 |
| Semihosting.RiscvSemihosting.CallExit64 | c_emulator/semihosting.cpp:253-270 | the run ends; the exit code is the subcode for an application exit and 1 otherwise |
| Semihosting.RiscvSemihosting.CallElapsed32 | c_emulator/semihosting.cpp:471-478 | the low and high words written recombine to the tick |
| Semihosting.RiscvSemihosting.CallGetCmdLine | c_emulator/semihosting.cpp:421-432 | corrected: when the terminated command line fits, it is written and the size becomes its length; otherwise errno 0 and nothing written |
| Signature.Digit | c_emulator/riscv_sim.cpp:418 | a value below 16 prints as a lower-case hexadecimal digit |
| Signature.DigitValue | c_emulator/riscv_sim.cpp:418 | a digit's value is below 16 |
| Signature.DigitRoundTrip | c_emulator/riscv_sim.cpp:418 | digits and values are inverse to each other |
| Signature.Hex2 | c_emulator/riscv_sim.cpp:418 | `%02x` of a byte is exactly two hexadecimal digits |
| Signature.Hex2RoundTrip | c_emulator/riscv_sim.cpp:418 | the two digits read back as the byte |
| Signature.ByteAt | c_emulator/riscv_sim.cpp:417 | `(uint8_t)read_mem(addr)` is below 256 |
| Signature.WordHexFrom | c_emulator/riscv_sim.cpp:416-419 | the digits of bytes `g - 1` down to `i` are two per byte |
| Signature.WordHex | c_emulator/riscv_sim.cpp:416-420 | a word's line has two digits per byte |
| Signature.WordHexAt | c_emulator/riscv_sim.cpp:415-419 | byte `j` of a word is printed in digit pair `g - 1 - j`: the highest address first |
| Signature.WriteWord | c_emulator/riscv_sim.cpp:416-419 | the inner loop prints the word's line |
| Signature.SignatureAddrAsWritten | c_emulator/riscv_sim.cpp:414 | with a positive granularity the `k`th address is at least `start + k`, so the loop ends |
| Signature.ZeroGranularityNeverEndsAsWritten | c_emulator/riscv_sim.cpp:414 | as written, granularity 0 keeps the address at the start, below the end, so the loop never ends |
| Signature.WriteSignature | c_emulator/riscv_sim.cpp:397-423 | no file for an empty or inverted region, an unopened file, or (corrected) granularity 0; otherwise the fewest lines covering the region, line `j` the word at `start + j g` |
| SimOptions.Pow2Injective | c_emulator/riscv_sim.c:249-250 | distinct shifts of 1 give distinct values |
| SimOptions.ILog2 | c_emulator/riscv_sim.c:246-255 | the result is in `[-1, 64)`: `i` with `x == 1 << i`, or -1 exactly when `x` is no power of two |
| SimOptions.ILog2Unique | c_emulator/riscv_sim.c:246-255 | the exponent found is the only one |
| SimOptions.TraceConfig.constructor | c_emulator/riscv_sim.c:91-96 | instructions, registers, memory and platform traced; RVFI and step markers not |
| SimOptions.TraceConfig.Set | c_emulator/riscv_sim.c:98-123 | no name or "all" sets every category but step; a known name sets that category alone; an unknown name is refused and changes nothing |
| SimOptions.ToU64 | c_emulator/riscv_sim.c:321 | `atol` stored as `uint64_t` is the value modulo `2^64` (also lines 330, 437) |
| SimOptions.PmpCount | c_emulator/riscv_sim.c:320-327 | only 0, 16 and 64 are accepted, as given |
| SimOptions.PmpGrain | c_emulator/riscv_sim.c:329-336 | only 0 to 63 are accepted; a negative argument wraps and is refused |
| SimOptions.CacheBlockSizeExp | c_emulator/riscv_sim.c:436-447 | accepted iff the size is `2^e` with `e <= 12`, and the exponent is kept |
| SnapshotFormat.HexVal | c_emulator/snapshot_format.cpp:23 | a hexadecimal digit's value is below 16 |
| SnapshotFormat.UpperDigit | c_emulator/snapshot_format.cpp:14 | `std::uppercase` prints a value below 16 as a digit of that value, never `a`-`f` |
| SnapshotFormat.LowerDigit | c_emulator/snapshot_format.cpp:75-76 | the default stream prints a value below 16 as a digit of that value, never `A`-`F` |
| SnapshotFormat.UpperHex | c_emulator/snapshot_format.cpp:14 | `std::hex << std::uppercase << v` is at least one upper-case hexadecimal digit |
| SnapshotFormat.UpperHexValue | c_emulator/snapshot_format.cpp:14 | its digits denote `v` |
| SnapshotFormat.UpperHexNoLeadingZero | c_emulator/snapshot_format.cpp:14 | it starts with `0` only for zero |
| SnapshotFormat.HexValueLeadingZero | c_emulator/snapshot_format.cpp:88 | a leading zero does not change a digit run's value |
| SnapshotFormat.HexValueZeros | c_emulator/snapshot_format.cpp:88 | `setw(3)` zero padding does not change the value |
| SnapshotFormat.HexRun | c_emulator/snapshot_format.cpp:23 | `strtoull` reads the longest run of leading hexadecimal digits |
| SnapshotFormat.Uint64ToHex | c_emulator/snapshot_format.cpp:12-16 | the text is "0x" and at least one digit |
| SnapshotFormat.HexToUint64 | c_emulator/snapshot_format.cpp:19-24 | a value read is below `2^64`; digits past 64 bits throw |
| SnapshotFormat.ReadDigits | c_emulator/snapshot_format.cpp:23 | `std::stoull` gives a value below `2^64` or throws |
| SnapshotFormat.HexNeedsPrefix | c_emulator/snapshot_format.cpp:20-22 | text without the "0x"/"0X" prefix reads as 0 |
| SnapshotFormat.HexReadsDigits | c_emulator/snapshot_format.cpp:19-24 | after the prefix, the digits up to the first non-digit are the value read |
| SnapshotFormat.HexRoundTrip | c_emulator/snapshot_format.cpp:12-24 | every 64-bit value survives `uint64_to_hex` then `hex_to_uint64` |
| SnapshotFormat.CsrKey | c_emulator/snapshot_format.cpp:87-89 | a CSR's member name is "0x" and at least three digits, and reads back as the address |
| SnapshotFormat.CsrAddr | c_emulator/snapshot_format.cpp:215 | the address read back is below `2^16` |
| SnapshotFormat.CsrKeyRoundTrip | c_emulator/snapshot_format.cpp:86-91 | distinct CSR addresses get distinct member names, each reading back as its address (also lines 214-218) |
| SnapshotFormat.DigitVal | c_emulator/snapshot_format.cpp:53 | a decimal digit's value is below 10 |
| SnapshotFormat.Decimal | c_emulator/snapshot_format.cpp:53 | `std::to_string(n)` is a non-empty run of decimal digits denoting `n` |
| SnapshotFormat.RegName | c_emulator/snapshot_format.cpp:53-70 | a register's member name is its file letter followed by its index in decimal |
| SnapshotFormat.RegNameInjective | c_emulator/snapshot_format.cpp:53-70 | member names are distinct across indices and files |
| SnapshotFormat.RegFileUpToMembers | c_emulator/snapshot_format.cpp:52-55 | after `n` registers are written, exactly their names are present, each with its value in hex |
| SnapshotFormat.RegFileMembers | c_emulator/snapshot_format.cpp:51-56 | the members present are exactly the first `min(n, 32)` registers |
| SnapshotFormat.RegValues | c_emulator/snapshot_format.cpp:167-175 | reading back yields exactly `n` registers |
| SnapshotFormat.Padded | c_emulator/snapshot_format.cpp:167-168 | a register file cut or padded with zeros to 32 entries |
| SnapshotFormat.RegValuesPrefix | c_emulator/snapshot_format.cpp:167-175 | the first `n` registers read back are the written ones, then zeros |
| SnapshotFormat.RegFileRoundTrip | c_emulator/snapshot_format.cpp:51-56 | writing then reading a register file yields 32 registers: the written ones, then zeros (also lines 167-175) |
| SnapshotFormat.LowerPair | c_emulator/snapshot_format.cpp:75-76 | a byte is written as two digits that read back as the byte |
| SnapshotFormat.HexBytesRev | c_emulator/snapshot_format.cpp:74-77 | the bytes are written last to first, two digits each |
| SnapshotFormat.Reverse | c_emulator/snapshot_format.cpp:74 | the reversed bytes |
| SnapshotFormat.ReverseReverse | c_emulator/snapshot_format.cpp:74 | reversing twice gives the bytes back |
| SnapshotFormat.ParseByte | c_emulator/snapshot_format.cpp:202-203 | a one- or two-character piece reads as a byte or throws |
| SnapshotFormat.HexPairsOfReversed | c_emulator/snapshot_format.cpp:201-205 | reading the digit pairs of reversed bytes gives the reversed bytes |
| SnapshotFormat.VregRoundTripReverses | c_emulator/snapshot_format.cpp:74-77 | as written, a vector register read back has its bytes reversed (also lines 198-205) |
| SnapshotFormat.VregTwoBytes | c_emulator/snapshot_format.cpp:74-77 | as written, {1, 2} is written "0x0201" and read back as {2, 1} (also lines 198-205) |
| SnapshotFormat.VregRoundTrip | c_emulator/snapshot_format.cpp:74-77 | corrected: with the bytes put back in the writer's order, every vector register survives a round trip (also lines 198-205) |
| SnapshotMemory.BlockKey | c_emulator/snapshot_memory.c:118 | `block_id & ~MASK` is at most the address |
| SnapshotMemory.KeyOfKey | c_emulator/snapshot_memory.c:118 | the key keeps exactly the address bits outside `MASK` below bit 64, so the key of a key is itself |
| SnapshotMemory.Copies | c_emulator/snapshot_memory.c:47-92 | one copy per block, in list order, with its id, size `MASK + 1` and contents |
| SnapshotMemory.FindBlock | c_emulator/snapshot_memory.c:121-127 | the search finds the first block with the key, or reports that none has it |
| SnapshotMemory.Overwrite | c_emulator/snapshot_memory.c:147 | `memcpy` replaces the first `n` bytes and keeps the rest |
| SnapshotMemory.Zeroes | c_emulator/snapshot_memory.c:136 | `calloc` gives `n` zero bytes |
| SnapshotMemory.Restored | c_emulator/snapshot_memory.c:111-148 | every block stays `MASK + 1` bytes long |
| SnapshotMemory.RestoreEffect | c_emulator/snapshot_memory.c:111-148 | an existing block with the key gets the first `min(size, MASK + 1)` bytes of the data and keeps the rest; otherwise a zeroed block is put at the head with them, or nothing changes when allocation fails; other blocks unchanged |
| SnapshotMemory.FindFirst | c_emulator/snapshot_memory.c:124-127 | a block with the key and none before it is the one found |
| SnapshotMemory.RestoreTwice | c_emulator/snapshot_memory.c:111-148 | restoring the same block twice adds at most one block |
| SnapshotMemory.SailMemory.constructor | c_emulator/snapshot_memory.c:23-25 | both lists empty, `MASK` given |
| SnapshotMemory.SailMemory.GetMemoryBlocks | c_emulator/snapshot_memory.c:37-96 | a NULL `blocks_out` gives 0; a failed allocation discards the copies and gives 0 and NULL; otherwise a copy of every block in list order and their number |
| SnapshotMemory.SailMemory.RestoreMemoryBlock | c_emulator/snapshot_memory.c:111-148 | the block list becomes the restored list; tags unchanged |
| SnapshotMemory.SailMemory.ClearMemory | c_emulator/snapshot_memory.c:151-166 | both lists become empty |
| SnapshotManager.RestoreCsrs | c_emulator/snapshot_manager.cpp:230-249 | every captured CSR except mvendorid, marchid, mimpid, mhartid and mconfigptr is written; all other hart CSRs are kept |
| SnapshotManager.RestoreRegisters | c_emulator/snapshot_manager.cpp:205-223 | fails iff there are not exactly 32 xregs; fregs and vregs are written only when there are exactly 32 |
| SnapshotManager.RestoreState | c_emulator/snapshot_manager.cpp:277-297 | the pc is always set; a failed register restore leaves the old registers; otherwise registers and writable CSRs are restored |
| SnapshotManager.DumpBytes | c_emulator/snapshot_manager.cpp:325 | the dump file is as long as the blocks together |
| SnapshotManager.DumpIndex | c_emulator/snapshot_manager.cpp:314-339 | one index entry per block, total size the sum of the block sizes |
| SnapshotManager.DumpMemory | c_emulator/snapshot_manager.cpp:299-344 | fails iff the list is NULL with a non-zero count, the file does not open, or a write fails; otherwise index and file are those of the block list |
| SnapshotManager.DumpStep | c_emulator/snapshot_manager.cpp:319-337 | one more block: its bytes follow the others' and its entry records where they start |
| SnapshotManager.DumpAfterFailedCopy | c_emulator/snapshot_manager.cpp:300-305 | as written, a failed copy (count 0, NULL list) passes the check: the dump succeeds with an empty index although memory is not empty |
| SnapshotManager.DumpMemoryFixed | c_emulator/snapshot_manager.cpp:299-344 | corrected: a NULL list fails whatever the count; success writes every block; a write failure fails |
| SnapshotManager.DumpOffsets | c_emulator/snapshot_manager.cpp:322-339 | block `i` starts where block `i - 1` ends; the total is where the last ends |
| SnapshotManager.DumpChunk | c_emulator/snapshot_manager.cpp:322-325 | in the dump file, block `i`'s bytes sit at its recorded offset |
| SnapshotManager.RestoreFrom | c_emulator/snapshot_manager.cpp:356-365 | restoring entries in turn keeps every block `MASK + 1` bytes long |
| SnapshotManager.RestoreMemory | c_emulator/snapshot_manager.cpp:346-369 | memory is cleared first; an unopened file fails with memory empty; otherwise success iff every entry's bytes can be read, and then memory is the restored list |
| SnapshotManager.RevBlocks | c_emulator/snapshot_memory.c:141-142 | reversal keeps the length |
| SnapshotManager.DumpLaidOut | c_emulator/snapshot_manager.cpp:314-337 | a dump lays out each block at the offset its index entry records |
| SnapshotManager.RestoreLaidOut | c_emulator/snapshot_manager.cpp:356-365 | restoring laid-out blocks with distinct ids puts each at the head in turn |
| SnapshotManager.DumpEntry | c_emulator/snapshot_manager.cpp:320-333 | entry `i` records block `i` at the running offset, where its bytes are |
| SnapshotManager.RestoreFromFresh | c_emulator/snapshot_manager.cpp:357-364 | a block whose id is new goes to the head |
| SnapshotManager.DumpRestore | c_emulator/snapshot_manager.cpp:299-369 | dumping aligned, distinct blocks and restoring into cleared memory gives back the same blocks with the same bytes, in reverse list order |
| SnapshotManager.LastDot | c_emulator/snapshot_manager.cpp:77 | the position of the last '.', or none when there is no dot |
| SnapshotManager.Stem | c_emulator/snapshot_manager.cpp:77 | `stem()` is a prefix of the file name |
| SnapshotManager.StemDropsExtension | c_emulator/snapshot_manager.cpp:77 | a non-empty base name with an extension loses exactly the extension |
| SnapshotManager.CreateLayout | c_emulator/snapshot_manager.cpp:75-83 | the dump and the index are two different files in the snapshot's directory, and the snapshot records their names |
| SnapshotManager.CreateThenValidate | c_emulator/snapshot_manager.cpp:62-102 | a snapshot just created validates iff both files it wrote exist (also lines 150-173) |
| SnapshotManager.ValidateRejects | c_emulator/snapshot_manager.cpp:150-159 | a snapshot that does not deserialize or has another version never validates |
| SnapshotManager.CreateThenRestore | c_emulator/snapshot_manager.cpp:104-128 | restored where it was created, a snapshot reads the files creating it wrote |
| SnapshotManager.RenamedSnapshot | c_emulator/snapshot_manager.cpp:118-168 | as written, a renamed snapshot validates, but the restore looks for a dump named after the new stem, which does not exist |
| SnapshotManager.ValidThenRestoreFixed | c_emulator/snapshot_manager.cpp:121-168 | corrected: following the recorded names, every valid snapshot names two existing files, and a fresh one reads the files it wrote |
| SnapshotState.EncodeRegFile | c_emulator/snapshot_format.cpp:51-56 | the loop writes member `x<i>` (or `f<i>`) holding register `i`'s hex for every `i < min(n, 32)`, and no other member |
| SnapshotState.RegValuesErr | c_emulator/snapshot_format.cpp:170-175 | a register that fails to read makes every longer read fail with the same error |
| SnapshotState.DecodeRegFile | c_emulator/snapshot_format.cpp:167-175 | the loop reads the 32 registers the register-file reader defines: a missing member leaves 0 |
| SnapshotState.VregFileUpToMembers | c_emulator/snapshot_format.cpp:69-79 | after `n` iterations member `v<i>` exists iff `i < n`, and holds register `i`'s hex |
| SnapshotState.VregFileMembers | c_emulator/snapshot_format.cpp:67-81 | the vector object has member `v<i>` iff `i < min(n, 32)`, holding register `i`'s hex |
| SnapshotState.VregValues | c_emulator/snapshot_format.cpp:189-209 | corrected: with the vector bytes put back in the writer's order, a successful read yields exactly `n` registers |
| SnapshotState.PaddedVregs | c_emulator/snapshot_format.cpp:190-191 | 32 registers: the given ones, then empty ones |
| SnapshotState.VregValuesPrefix | c_emulator/snapshot_format.cpp:193-208 | corrected: with the vector bytes put back in the writer's order, reading the first `n` members of a written vector object gives the first `n` padded registers |
| SnapshotState.VregValuesStep | c_emulator/snapshot_format.cpp:193-205 | corrected: one more present member adds its decoded bytes, put back in the writer's order, at the end |
| SnapshotState.VregFileRoundTrip | c_emulator/snapshot_format.cpp:67-81 | writing vector registers and reading them back (bytes put back in place) gives the registers padded to 32 (also lines 189-209) |
| SnapshotState.HexBytesRevCons | c_emulator/snapshot_format.cpp:74-77 | the first byte's two digits come last |
| SnapshotState.EncodeVreg | c_emulator/snapshot_format.cpp:72-78 | the loop writes "0x" and then two lower-case digits per byte, last byte first |
| SnapshotState.DecodeVregPairs | c_emulator/snapshot_format.cpp:199-205 | the loop reads the digits two at a time, the last piece possibly one, and fails as soon as a piece is not hex |
| SnapshotState.HexPairsStep | c_emulator/snapshot_format.cpp:201-204 | a piece of two digits, or one at the end, is read off the front: its byte comes first, or its error ends the read |
| SnapshotState.PrependPrepend | c_emulator/snapshot_format.cpp:204 | bytes pushed in two goes are the bytes pushed in one |
| SnapshotState.EncodeRegisters | c_emulator/snapshot_format.cpp:47-82 | "fregs" is written iff there are fregs, "vregs" iff there are vregs |
| SnapshotState.DecodeRegisters | c_emulator/snapshot_format.cpp:163-209 | corrected: vector bytes are put back in the writer's order; a successful read has 32 xregs; without a "fregs" or "vregs" member the state keeps its old fregs or vregs |
| SnapshotState.RegistersRoundTrip | c_emulator/snapshot_format.cpp:47-82 | corrected: with the vector bytes put back in the writer's order, registers that fit their C++ types come back with the same pc and next_pc, xregs padded to 32 with zeros, and fregs/vregs padded to 32 when written and otherwise as the state held them (also lines 163-209) |
| SnapshotState.EncodeCsrsMembers | c_emulator/snapshot_format.cpp:85-92 | the CSR object has a member iff some CSR's padded address names it, holding that CSR's value |
| SnapshotState.DecodeCsrs | c_emulator/snapshot_format.cpp:212-218 | every CSR read has a 16-bit address and a 64-bit value |
| SnapshotState.CsrsNamedStep | c_emulator/snapshot_format.cpp:214-217 | reading one more member stores that CSR |
| SnapshotState.DecodeCsrsPrefix | c_emulator/snapshot_format.cpp:212-218 | reading some members of a written CSR object gives exactly the CSRs they name |
| SnapshotState.CsrsRoundTrip | c_emulator/snapshot_format.cpp:85-92 | writing the CSRs and reading them back, in any member order, gives the same map (also lines 212-218) |
| SnapshotState.CsrsAllNamed | c_emulator/snapshot_format.cpp:85-92 | when every member is visited, every CSR is named |
| SnapshotState.DecodeCsrsErr | c_emulator/snapshot_format.cpp:214-217 | a member that fails to read makes the whole read fail with the same error |
| SnapshotState.DecodeCsrObject | c_emulator/snapshot_format.cpp:212-218 | the loop clears the map and reads members in visiting order, as the CSR reader defines |
| SnapshotState.EncodePlatform | c_emulator/snapshot_format.cpp:95-105 | privilege, hart state, HTIF done flag and reservation flag are written unchanged |
| SnapshotState.DecodePlatform | c_emulator/snapshot_format.cpp:221-231 | the same four fields are read back unchanged |
| SnapshotState.PlatformRoundTrip | c_emulator/snapshot_format.cpp:95-105 | the platform state survives a round trip when its 64-bit fields fit (also lines 221-231) |
| SnapshotState.EncodeBlock | c_emulator/snapshot_format.cpp:257-260 | offset and size are written unchanged |
| SnapshotState.EncodeIndex | c_emulator/snapshot_format.cpp:250-263 | the total size and one object per block, in order |
| SnapshotState.EncodeBlocks | c_emulator/snapshot_format.cpp:255-262 | one object per block, in order |
| SnapshotState.DecodeBlocks | c_emulator/snapshot_format.cpp:291-297 | a successful read has one block per object, with the same offset and size |
| SnapshotState.DecodeIndex | c_emulator/snapshot_format.cpp:288-297 | a successful read keeps the total size and the number of blocks |
| SnapshotState.DecodeBlocksRoundTrip | c_emulator/snapshot_format.cpp:255-297 | blocks whose ids fit 64 bits survive a round trip |
| SnapshotState.IndexRoundTrip | c_emulator/snapshot_format.cpp:250-303 | every block id, offset and size and the total size survive a round trip of the index |
| SnapshotState.SerializeMemoryIndex | c_emulator/snapshot_format.cpp:250-263 | the loop builds the index object |
| SnapshotState.DecodeBlocksErr | c_emulator/snapshot_format.cpp:291-297 | a block that fails to read makes the whole read fail with the same error |
| SnapshotState.DeserializeMemoryIndex | c_emulator/snapshot_format.cpp:288-297 | the loop clears the blocks and reads the index the index reader defines |
| SymbolTable.ReverseSymbolTable | c_emulator/symbol_table.cpp:4-13 | one store per entry in iteration order; the keys are exactly the symbol values |
| SymbolTable.ReversedKeys | c_emulator/symbol_table.cpp:8-11 | the reversed table's keys are exactly the symbol values |
| SymbolTable.ReversedKeepsLast | c_emulator/symbol_table.cpp:8-11 | each value maps to the name of the last entry having it |
| SymbolTable.AlphabeticallyLastWins | c_emulator/symbol_table.cpp:9 | when names share a value, the one kept is an entry of the table and every other name with that value is alphabetically before it |
| SymbolTable.LastWith | c_emulator/symbol_table.cpp:8-11 | from an index holding `v`, there is a last index holding it |
| SymbolTable.Floor | c_emulator/symbol_table.cpp:20-27 | none iff every key is above the address; otherwise the greatest key not above it |
| SymbolTable.SymbolizeAddress | c_emulator/symbol_table.cpp:15-29 | nothing iff every symbol lies above the address (an empty table included); otherwise the symbol with the greatest value not above it, with its name |
| SymbolTable.SymbolizeExact | c_emulator/symbol_table.cpp:15-29 | an address that is a symbol's value is named by that symbol |
| TraceJsonl.DecDigit | c_emulator/trace_output_jsonl.cpp:174 | a digit below 10 is a character '0'..'9' |
| TraceJsonl.Dec | c_emulator/trace_output_jsonl.cpp:174 | `std::to_string` gives at least one character, all decimal digits |
| TraceJsonl.DecRoundTrip | c_emulator/trace_output_jsonl.cpp:174 | the decimal string reads back as the number |
| TraceJsonl.AddJoins | c_emulator/trace_output_jsonl.cpp:171-174 | putting a comma before a record only when the accumulator is not empty keeps it the comma-joined list of records |
| TraceJsonl.DecList | c_emulator/trace_output_jsonl.cpp:133-139 | one decimal string per byte, in order |
| TraceJsonl.ValuesRoundTrip | c_emulator/trace_output_jsonl.cpp:133-139 | with separators the value array reads back as the bytes |
| TraceJsonl.DecListPieces | c_emulator/trace_output_jsonl.cpp:138 | each decimal string is non-empty and has no comma |
| TraceJsonl.ValuesRunTogetherAsWritten | c_emulator/trace_output_jsonl.cpp:132-139 | as written, the bytes 1, 2 and the byte 12 print the same |
| TraceJsonl.WriteValuesAsWritten | c_emulator/trace_output_jsonl.cpp:132-139 | as written, the loop never sets the flag, so it writes the numbers with no separator |
| TraceJsonl.WriteValues | c_emulator/trace_output_jsonl.cpp:132-139 | corrected: with the flag set after the first value, the loop writes the comma-joined decimal bytes |
| TraceJsonl.EmptyAccumulates | c_emulator/trace_output_jsonl.cpp:100-105 | an empty accumulator holds the empty list |
| TraceJsonl.AddAccumulates | c_emulator/trace_output_jsonl.cpp:171-174 | adding a non-empty record keeps the accumulator the joined list of its records |
| TraceJsonl.TraceOutputJsonl.constructor | c_emulator/trace_output_jsonl.h:34-43 | no output, all six accumulators empty |
| TraceJsonl.TraceOutputJsonl.PreStep | c_emulator/trace_output_jsonl.cpp:69-75 | a waiting step writes nothing; otherwise `{"pc":` and the pc; accumulators unchanged |
| TraceJsonl.TraceOutputJsonl.PostStep | c_emulator/trace_output_jsonl.cpp:76-108 | a waiting step changes nothing; otherwise the non-empty lists x, f, v, csr, loads, stores in that order, then `}` and a newline, and all six accumulators emptied |
| TraceJsonl.TraceOutputJsonl.Clear | c_emulator/trace_output_jsonl.cpp:100-105 | all six accumulators emptied |
| TraceJsonl.TraceOutputJsonl.Fetch | c_emulator/trace_output_jsonl.cpp:110-112 | appends `,"opcode":` and the opcode |
| TraceJsonl.TraceOutputJsonl.PcWrite | c_emulator/trace_output_jsonl.cpp:211-215 | appends `,"next_pc":` and the pc |
| TraceJsonl.TraceOutputJsonl.Redirect | c_emulator/trace_output_jsonl.cpp:217-219 | appends `,"redirect":true` |
| TraceJsonl.TraceOutputJsonl.Trap | c_emulator/trace_output_jsonl.cpp:221-227 | appends the cause under "interrupt" for an interrupt and "exception" otherwise |
| TraceJsonl.TraceOutputJsonl.XRegWrite | c_emulator/trace_output_jsonl.cpp:170-175 | the x accumulator gains `[reg,value]` after a comma when not empty, and stays the joined list of its records |
| TraceJsonl.TraceOutputJsonl.FRegWrite | c_emulator/trace_output_jsonl.cpp:177-182 | the same for the f accumulator |
| TraceJsonl.TraceOutputJsonl.CsrWrite | c_emulator/trace_output_jsonl.cpp:184-189 | the same for the csr accumulator |
| TraceJsonl.TraceOutputJsonl.VRegWrite | c_emulator/trace_output_jsonl.cpp:191-209 | corrected: the v accumulator gains `[reg,[bytes]]`, bytes least significant first, comma-separated by the corrected value writer |
| TraceJsonl.TraceOutputJsonl.MemRead | c_emulator/trace_output_jsonl.cpp:143-168 | corrected: the loads accumulator gains the paddr, width and value bytes of the access, the bytes comma-separated by the corrected value writer |
| TraceJsonl.TraceOutputJsonl.MemWrite | c_emulator/trace_output_jsonl.cpp:114-141 | corrected: the stores accumulator gains the paddr, width and value bytes of the access, the bytes comma-separated by the corrected value writer |

## Left out

- Host I/O is left out, because it has no logic of its own to verify. This covers YAML loading, the command line and file writes of `config2sail.py`, and the file streams of the snapshot code, the signature dump and the trace. It also covers socket set-up and the `read`/`write` calls of the GDB server and remote_bitbang (`make`/`accept_connection`/`tick` in `remote_bitbang.cpp`, and the exit on a read error), and the rvfi, HTIF and exception paths of `run_sail`. Where such a call decides a branch, its outcome is a parameter.
- Floating point is left out: SoftFloat, the instructions-per-second report, and `math.log` in `gen_vlen.py`. The as-written `vstart_int` is that floating-point logarithm. `GenVlen.GenerateVlen` does not return it, and only the corrected `GenVlen.GenerateVlenPow2` has an exact logarithm.
- The Sail model, Spike, ELFIO, jsoncons, GMP and libfyaml are not part of this model. Their answers are parameters: whether the hart waits, the debug module behind `dmi_read`/`dmi_write`, `zwrite_CSR`, `mpz_export` and the configuration lookup. `get_config_uint64` and `validate_config_schema` are left out for the same reason.
- The Sail text that `config2sail.py` prints is left out. The generator is modelled by the procedures and tables it emits, not by their characters, except where the text itself is wrong: the `};` placement and the empty text of a mixed bitmask/range field.
- CsrGenerator.ApplySteps: a read-write shadow field's write step does not change `m`. The model keeps no state for the shadowed register that the generated function assigns. The source also lower-cases the shadow name (config2sail.py:557), while the model uses the name as given.
- CsrGenerator.Generator.ParseReg: the read and write functions `parse_reg` generates appear only as whether a register gets a getter. Their bodies are Sail text.
- HpmEvents.Hpm.WriteMhpmevent: the source's `assert` that no selector count drops below zero becomes a `requires`.
- HpmEvents.Hpm.InitPlatformEvents: the source's `assert`s on the platform table (at most 64 entries, ids in range) become a `requires`.
- ModelImpl.Model.LoadReservation: the source's `assert` that the reserved bytes lie in one reservation block becomes a `requires`.
- PlatformEvents.SignalPlatformEvents: the ids of the model events come from a generated enumeration that is not part of this model. The model numbers them 1 to 13, in the order of the platform table.
- `snapshot_free_memory_blocks` is left out, because the model has no heap to free.
- SnapshotState.DecodeRegisters: a failed read yields only an error. The source leaves the snapshot state partly updated, which the model does not describe, and likewise for the configuration, metadata and memory-file members it reads and copies unchanged.
- SnapshotManager.RestoreMemory: after a short read, the source keeps the blocks restored so far in memory. The model states only that the restore fails.
- `capture_state`, the `capture_*` functions and `get_metadata` are left out: they copy Sail registers field by field.
- JtagDtm.ShiftIn: a shift with `dr_length` 0 is reachable (`JtagDtm.ZeroLengthShiftReachable`: the first rising edge leaves Test-Logic-Reset before IDCODE is loaded, and a capture with IR 0 sets no length). C then shifts by `dr_length - 1`, which is `UINT_MAX` and undefined behaviour. In that case the model only shifts DR right by one.
- WarlProcedures.Apply: a `m = <literal>` action is modelled as the literal's value modulo the field's width. Sail gives a hex literal the width of its digits, so a literal whose width differs from the field's makes the generated Sail fail to type-check; the model does not describe that failure.
- WarlLegalizeFixed.FixedSearchIsLegal: legality is proved on segments satisfying `Emitted`. It is not derived from parse_field_range's output, because a span written high to low or two overlapping clause fields parse without error and break it.
- WarlParse.SortByMask: the contract states the widest-first order and that the segments are a permutation. It does not state the stability that Python's `sort` also gives.
- Semihosting: results are written to `a0` as full 64-bit values. The truncation to 32 bits on RV32 harts is not modelled.
- Semihosting: the calls WriteC, Write0, ReadC, TmpNam, Remove, Rename, System, HeapInfo, Clock, Time, Elapsed64 and TickFreq are left out. They are host effects or a wall clock. The register-level dispatcher `call()` and `is_semihosting` are left out too, because they move arguments between registers and memory.
- CheckpointManager: CSR addresses are naturals, not 16-bit values. Creating the checkpoint directory (`create_directories`) is a host effect and is left out.
- ResetRom.RomLoader.InitResetVector: the Spike device-tree branch is left out.
- ModelImpl: only the callback list and the reservation are modelled. The memory accessors, the other callbacks, the random generator, the print hooks and the configuration getters are not.
- GdbRsp: the request handlers other than the context, stop-reply, breakpoint and register-value replies are left out. They read or write the Sail model's state.
- Signature.WriteSignature: the corrected member refuses granularity 0, the case where the as-written loop never ends (see Findings).

## Findings

| source | as written | input that shows it | evidently intended | confidence | as-written member | corrected member |
|---|---|---|---|---|---|---|
| config2sail.py:95-109 | `WARL_range_min` takes an interval's upper bound, not its lower bound, unless the interval is the last entry | the range `[0..5, 3]` gives 3 | the least legal value, 0 | not executed | WarlRange.RangeMinFinding | WarlRange.RangeMinFixed |
| config2sail.py:111-139 | `WARL_range_nextup` lets the tail's answer win even when that answer lies below the value and an entry above it exists | 5 over `[10..20, 3]` gives 3 | the least legal value at or above 5, which is 10 | not executed | WarlRange.NextUpFinding | WarlRange.NextUpFixedCorrect |
| config2sail.py:141-169 | `WARL_range_nextdown` has the same fault, mirrored | 15 over `[0..10, 20]` gives 20 | the greatest legal value at or below 15, which is 10 | not executed | WarlRange.NextDownFinding | WarlRange.NextDownFixedCorrect |
| config2sail.py:171-189 | near-up and near-down compute their down candidate with the next-up search | 2 over `[0, 10]` gives 10 | the nearest legal value, 0 | not executed | WarlRange.NearUpFinding | WarlRange.NearUpFixedCorrect |
| config2sail.py:234-249 | the Nextup branch of `legalize_warl_rangelist` searches from the current value, not the written one | current 1, write 2 to a `0..3` field gives 1 | the legal write 2 is kept | not executed | WarlLegalize.NextupIgnoresLegalWrite | WarlLegalizeFixed.FixedNextupTakesWrite |
| config2sail.py:298 | the bitwise or on line 298 binds tighter than `>`, so the range test is a chained comparison that lets a span run past the field | `[3:0] in [0:0x1F]` passes | a span whose end lies above the field is rejected | not executed | WarlParse.SpanCheckFinding | WarlParse.SpanRejected |
| config2sail.py:325-327 | the `not in` gap walk shifts `last` by `lsb` a second time | `[3:1] not in [1, 3]` rejects the legal value 4 | the complement of the listed values inside the field | not executed | WarlParse.DoubleShiftFinding | WarlParse.ComplementMeaning |
| config2sail.py:376-382 | mixing bitmask and range clauses only prints a message, and generation carries on with empty text | `[3:0] in [1]` then `[7:4] bitmask [0xF, 0]` gives the empty text | generation stops with an error | not executed | WarlParse.MixedClausesEmptyAsWritten | WarlParse.ParseFieldRange |
| config2sail.py:413, 526 | a `wr_val in [...]` guard is parsed with the undefined name `Oxffffffffffffffff`, and the formatted result is discarded | `wr_val in [1:2]` stops the generator | the guard is parsed as a value list | not executed | WarlProcedures.GuardStopsAsWritten | WarlProcedures.CompileRulesWithout |
| config2sail.py:413 | the guard's values are parsed with lsb 1, so each is doubled before it is compared with the written value | `wr_val in [1:2]` admits 4 and not 1 | the listed values, unshifted, as the dependency tests compare them | not executed | WarlProcedures.GuardDoubledAsWritten | WarlProcedures.GuardMeaning |
| config2sail.py:424 | `};` is appended after every `wr_illegal` rule, which closes the illegal-value block after the first rule | with two rules, the second lies outside the block | one closing brace after all the rules | not executed | WarlProcedures.SecondRuleOutsideAsWritten | WarlProcedures.RuleBlockBalanced |
| c_emulator/gdb_remote/gdb_utils.c:66 | each byte is shifted as an `int` | `"0000000001#"` shifts by 32, which is undefined | a 64-bit shift giving `2^32` | not executed | GdbUtils.FifthPairUndefinedAsWritten | GdbUtils.ExtractHexIntegerLe |
| c_emulator/remote_bitbang.cpp:206-209 | the budget test returns before the quit handling closes the connection | a call that ran 'Q' leaves the connection open | 'Q' closes the connection | not executed | RemoteBitbang.QuitKeepsConnection | RemoteBitbang.QuitDisconnects |
| c_emulator/remote_bitbang.cpp:196 | each `write` starts at `sent` but asks for `send_offset` bytes | a partial first write of a two-byte reply sends a third, stale byte | only the bytes not yet sent | not executed | RemoteBitbang.PartialWriteResends | RemoteBitbang.Bitbang.Flush |
| c_emulator/riscv_hpmevents.c:46-55 | moving a selector leaves `regidx` naming the moved counter while another counter still selects the event | counters 0 and 1 select id 3, then counter 1 moves to id 4: the event is counted in counter 1 | the event is counted in counter 0 | not executed | HpmEvents.StaleRegidx | HpmEvents.ReselectFixedTracks |
| c_emulator/riscv_hpmevents.c:128, 135 | the `continue` for an undefined event skips `acc >>= 1` | with event 1 signalled and undefined, event 2 is acted on | only signalled events are acted on | not executed | HpmEvents.SkippedShiftMisfires | HpmEvents.WalkFixedActsOnSignalled |
| c_emulator/riscv_model_impl.cpp:44 | the mask is computed as `1 << exponent` on `int` | exponent 31 overflows, which is undefined | the 64-bit block mask | not executed | ModelImpl.IntMaskAt31 | ModelImpl.Model.SetReservationSetSizeExp |
| c_emulator/snapshot_format.cpp:74-77, 198-205 | the writer puts the vector bytes last first, and the reader appends them in text order | the register {1, 2} is read back as {2, 1} | every vector register survives a round trip | not executed | SnapshotFormat.VregTwoBytes | SnapshotFormat.VregRoundTrip |
| c_emulator/snapshot_manager.cpp:303-305 | a failed block copy (count 0, NULL list) passes the NULL check | non-empty memory with a failed allocation dumps an empty index and succeeds | the dump fails | not executed | SnapshotManager.DumpAfterFailedCopy | SnapshotManager.DumpMemoryFixed |
| c_emulator/snapshot_manager.cpp:128 | restore reads the memory dump named after the snapshot's current stem, not the recorded name | a renamed snapshot validates but its restore opens a dump that does not exist | restore follows the recorded names | not executed | SnapshotManager.RenamedSnapshot | SnapshotManager.ValidThenRestoreFixed |
| c_emulator/checkpoint_manager.cpp:124-128 | `check_conditions` does not compare PC values, so a PC that matches one PC-value condition fires all of them | conditions at 0x200 and 0x100: reaching 0x100 fires the 0x200 one too | a condition fires only on its own value | not executed | CheckpointManager.CrossFire | CheckpointManager.RespondFixedEffect |
| c_emulator/checkpoint_manager.cpp:265-269 | the trap loop calls `check_conditions` once per trap condition, and each call fires every trap condition | with two trap conditions, one trap fires each twice | each fires once | not executed | CheckpointManager.DoubleFire | CheckpointManager.RespondFixedRequests |
| c_emulator/semihosting.cpp:219 | the handle check is `handle > files.size()` | the handle `files.size()` reads past the table | handles outside the table, or closed, give EBADF | not executed | Semihosting.EndHandleReadsOutsideAsWritten | Semihosting.OpenIsInRange |
| c_emulator/semihosting.cpp:98 | `File::flen` returns 0 after measuring the file | a 10-byte host file reports length 0 | 10 | not executed | Semihosting.FLenOfHostFile | Semihosting.RiscvSemihosting.CallFLen |
| c_emulator/semihosting.cpp:425 | the command line is accepted only if `cmd.size() + 1 < size` | a buffer exactly as long as the terminated command line is refused | accepted when it fits | not executed | Semihosting.ExactBufferRefused | Semihosting.CmdLineFitsExactly |
| c_emulator/semihosting.cpp:194-209 | close does not check for a handle that is already closed | closing a handle twice calls `close` through a null pointer | EBADF | not executed | Semihosting.CloseTwiceAsWritten | Semihosting.RiscvSemihosting.CallClose |
| c_emulator/trace_output_jsonl.cpp:132-139 | the `comma` flag is set only inside the branch it guards, so it is never set | the bytes 1, 2 print as `12`, the same as the byte 12 | comma-separated bytes | not executed | TraceJsonl.ValuesRunTogetherAsWritten | TraceJsonl.WriteValues |
| c_emulator/riscv_sim.c:652 | the zero fill counts with `int i` from the 64-bit address | at reset address 0x80000000, `i` is negative and no zero is written | the ROM is zero-filled to the page boundary | not executed | ResetRom.ZeroFillSkippedAsWritten | ResetRom.LoadedRomIsResetRom |
| gen_vlen.py:13-15 | the "not a power of 2" check tests only evenness | 192 passes unchanged and 131 becomes 130 | VLEN brought to a power of two | not executed | GenVlen.NotPowerOfTwoAsWritten | GenVlen.GenerateVlenPow2 |
| c_emulator/riscv_sim.cpp:414 | the address advances by the granularity, and 0 is accepted | granularity 0 never leaves the start address, so the loop never ends | a zero granularity is refused | not executed | Signature.ZeroGranularityNeverEndsAsWritten | Signature.WriteSignature |
