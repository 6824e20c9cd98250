/**
 * The JSON-lines execution trace (`trace_output_jsonl` in
 * `trace_output_jsonl.cpp`): one JSON object per retired instruction.
 * The step callbacks write the object's opening and closing to the output
 * stream, the model's callbacks write scalar fields straight to the stream
 * and collect register writes and memory accesses in six accumulator
 * strings, each a comma-separated list of records, which the end of the
 * step emits and clears. The stream is the string `out`; opening and
 * closing the file are left out.
 */
module TraceJsonl {
  import opened Separated

  /** A decimal digit. */
  function DecDigit(d: nat): (c: char)
    requires d < 10
    ensures '0' <= c <= '9'
  {
    ('0' as int + d) as char
  }

  /** `std::to_string` of an unsigned number. */
  function Dec(n: nat): (s: string)
    ensures |s| >= 1 && forall i :: 0 <= i < |s| ==> '0' <= s[i] <= '9'
  {
    if n < 10 then [DecDigit(n)] else Dec(n / 10) + [DecDigit(n % 10)]
  }

  /** The number a string of decimal digits spells. */
  function ParseDec(s: string): nat
  {
    if s == [] then 0 else 10 * ParseDec(s[..|s| - 1]) + (if '0' <= s[|s| - 1] <= '9' then (s[|s| - 1] - '0') as nat else 0)
  }

  lemma {:induction false} DecRoundTrip(n: nat)
    ensures ParseDec(Dec(n)) == n
  {
    var s := Dec(n);
    if n >= 10 {
      DecRoundTrip(n / 10);
      assert s[..|s| - 1] == Dec(n / 10);
    }
  }

  /** Appending a record to an accumulator: a comma first unless it is empty. */
  function Add(acc: string, rec: string): string
  {
    acc + (if acc == [] then "" else ",") + rec
  }

  /** Adding a record to the joined list joins the longer list. */
  lemma AddJoins(ss: seq<string>, rec: string)
    requires Join(ss, ',') == [] <==> ss == []
    ensures Join(ss + [rec], ',') == Add(Join(ss, ','), rec)
  {
    assert (ss + [rec])[..|ss|] == ss;
  }

  /** The decimal strings of a list of byte values. */
  function DecList(data: seq<nat>): (ss: seq<string>)
    ensures |ss| == |data| && forall i :: 0 <= i < |data| ==> ss[i] == Dec(data[i])
  {
    seq(|data|, i requires 0 <= i < |data| => Dec(data[i]))
  }

  /** Reading a value array back. */
  function ParseValues(s: string): seq<nat>
  {
    if s == [] then [] else var p := Split(s, ','); seq(|p|, i requires 0 <= i < |p| => ParseDec(p[i]))
  }

  /** A value array, written with separators, reads back as the values. */
  lemma ValuesRoundTrip(data: seq<nat>)
    ensures ParseValues(Join(DecList(data), ',')) == data
  {
    var ss := DecList(data);
    if |data| > 0 {
      DecListPieces(data);
      SplitJoin(ss, ',');
      JoinNonEmpty(ss, ',');
      var p := Split(Join(ss, ','), ',');
      assert |p| == |data|;
      forall i | 0 <= i < |data|
        ensures ParseDec(p[i]) == data[i]
      {
        DecRoundTrip(data[i]);
      }
    }
  }

  /** Decimal numbers are non-empty and hold no comma. */
  lemma DecListPieces(data: seq<nat>)
    ensures forall i :: 0 <= i < |data| ==> NoSep(DecList(data)[i], ',') && DecList(data)[i] != []
  {
  }

  /** The value array as written: the separator flag is never set, so the numbers run together. */
  function ValuesAsWritten(data: seq<nat>): string
  {
    if data == [] then "" else ValuesAsWritten(data[..|data| - 1]) + Dec(data[|data| - 1])
  }

  /** The bytes 1 and 2 print as the single byte 12 does. */
  lemma ValuesRunTogetherAsWritten()
    ensures ValuesAsWritten([1, 2]) == ValuesAsWritten([12]) == "12"
  {
    assert [1, 2][..1] == [1];
    assert Dec(12) == Dec(1) + [DecDigit(2)];
  }

  /** The value array loop as written. */
  method WriteValuesAsWritten(data: seq<nat>) returns (s: string)
    ensures s == ValuesAsWritten(data)
  {
    s := "";
    var comma := false;
    var i := 0;
    while i < |data|
      invariant i <= |data|
      invariant !comma
      invariant s == ValuesAsWritten(data[..i])
    {
      if comma {
        s := s + ",";
        comma := true;
      }
      assert data[..i + 1][..i] == data[..i];
      s := s + Dec(data[i]);
      i := i + 1;
    }
    assert data[..i] == data;
  }

  /** The value array loop with the separator flag set after the first value. */
  method WriteValues(data: seq<nat>) returns (s: string)
    ensures s == Join(DecList(data), ',')
  {
    s := "";
    var comma := false;
    var i := 0;
    while i < |data|
      invariant i <= |data|
      invariant comma <==> i > 0
      invariant s == Join(DecList(data[..i]), ',')
    {
      if comma {
        s := s + ",";
      }
      comma := true;
      assert DecList(data[..i + 1]) == DecList(data[..i]) + [Dec(data[i])];
      assert DecList(data[..i + 1])[..i] == DecList(data[..i]);
      s := s + Dec(data[i]);
      i := i + 1;
    }
    assert data[..i] == data;
  }

  /** `[reg,value]`: one x, f or csr register write. */
  function RegRecord(reg: nat, value: nat): string
  {
    "[" + Dec(reg) + "," + Dec(value) + "]"
  }

  /** `{"paddr":..,"width":..,"value":[..]}`: one load or store. */
  function MemRecord(paddr: nat, width: nat, data: seq<nat>): string
  {
    "{\"paddr\":" + Dec(paddr) + ",\"width\":" + Dec(width) + ",\"value\":[" + Join(DecList(data), ',') + "]}"
  }

  /** `[reg,[bytes]]`: one vector register write. */
  function VRecord(reg: nat, data: seq<nat>): string
  {
    "[" + Dec(reg) + ",[" + Join(DecList(data), ',') + "]]"
  }

  /** The key and array for one accumulator, or nothing when it is empty. */
  function Section(key: string, acc: string): string
  {
    if acc == [] then "" else ",\"" + key + "\":[" + acc + "]"
  }

  /** The non-empty lists of a step, in the order x, f, v, csr, loads, stores. */
  function Lists(x: string, f: string, v: string, csr: string, loads: string, stores: string): string
  {
    Section("x", x) + Section("f", f) + Section("v", v) + Section("csr", csr) +
    Section("loads", loads) + Section("stores", stores)
  }

  /** An accumulator holds the comma-separated list of its records. */
  ghost predicate Accumulates(acc: string, recs: seq<string>)
  {
    acc == Join(recs, ',') && (|acc| == 0 <==> |recs| == 0)
  }

  lemma EmptyAccumulates()
    ensures Accumulates([], [])
  {
  }

  lemma AddAccumulates(acc: string, recs: seq<string>, rec: string)
    requires Accumulates(acc, recs) && rec != []
    ensures Accumulates(Add(acc, rec), recs + [rec])
  {
    AddJoins(recs, rec);
  }

  class TraceOutputJsonl {
    var out: string
    var xWrites: string
    var fWrites: string
    var vWrites: string
    var csrWrites: string
    var loads: string
    var stores: string
    /** The records collected in each accumulator since the last step ended. */
    ghost var xRecs: seq<string>
    ghost var fRecs: seq<string>
    ghost var vRecs: seq<string>
    ghost var csrRecs: seq<string>
    ghost var loadRecs: seq<string>
    ghost var storeRecs: seq<string>

    ghost predicate Valid()
      reads this
    {
      Accumulates(xWrites, xRecs) && Accumulates(fWrites, fRecs) && Accumulates(vWrites, vRecs) &&
      Accumulates(csrWrites, csrRecs) && Accumulates(loads, loadRecs) && Accumulates(stores, storeRecs)
    }

    constructor()
      ensures Valid() && out == []
      ensures xRecs == [] && fRecs == [] && vRecs == [] && csrRecs == [] && loadRecs == [] && storeRecs == []
    {
      out := "";
      EmptyAccumulates();
      xWrites, fWrites, vWrites, csrWrites, loads, stores := "", "", "", "", "", "";
      xRecs, fRecs, vRecs, csrRecs, loadRecs, storeRecs := [], [], [], [], [], [];
    }

    /** `pre_step_callback`: a step that is waiting writes nothing; any other opens its object with the pc. */
    method PreStep(pc: nat, waiting: bool)
      requires Valid()
      modifies this
      ensures Valid()
      ensures out == old(out) + (if waiting then "" else "{\"pc\":" + Dec(pc))
      ensures xWrites == old(xWrites) && fWrites == old(fWrites) && vWrites == old(vWrites)
      ensures csrWrites == old(csrWrites) && loads == old(loads) && stores == old(stores)
      ensures xRecs == old(xRecs) && fRecs == old(fRecs) && vRecs == old(vRecs)
      ensures csrRecs == old(csrRecs) && loadRecs == old(loadRecs) && storeRecs == old(storeRecs)
    {
      if !waiting {
        out := out + "{\"pc\":" + Dec(pc);
      }
    }

    /**
     * `post_step_callback`: a step that is waiting writes and clears
     * nothing. Any other emits the non-empty lists in the order x, f, v,
     * csr, loads, stores, closes the object and its line, and empties all
     * six accumulators.
     */
    method PostStep(waiting: bool)
      requires Valid()
      modifies this
      ensures Valid()
      ensures waiting ==> unchanged(this)
      ensures !waiting ==> out == old(out) + Lists(old(xWrites), old(fWrites), old(vWrites),
                                                   old(csrWrites), old(loads), old(stores)) + "}\n"
      ensures !waiting ==> xWrites == [] && fWrites == [] && vWrites == [] && csrWrites == [] && loads == [] && stores == []
      ensures !waiting ==> xRecs == [] && fRecs == [] && vRecs == [] && csrRecs == [] && loadRecs == [] && storeRecs == []
    {
      if waiting {
        return;
      }
      var lists := Section("x", xWrites) + Section("f", fWrites) + Section("v", vWrites) +
                   Section("csr", csrWrites) + Section("loads", loads) + Section("stores", stores);
      assert lists == Lists(xWrites, fWrites, vWrites, csrWrites, loads, stores);
      Clear();
      out := out + lists + "}\n";
    }

    /** Empties the six accumulators. */
    method Clear()
      modifies this`xWrites, this`fWrites, this`vWrites, this`csrWrites, this`loads, this`stores
      modifies this`xRecs, this`fRecs, this`vRecs, this`csrRecs, this`loadRecs, this`storeRecs
      ensures Valid()
      ensures xWrites == [] && fWrites == [] && vWrites == [] && csrWrites == [] && loads == [] && stores == []
      ensures xRecs == [] && fRecs == [] && vRecs == [] && csrRecs == [] && loadRecs == [] && storeRecs == []
    {
      ClearText();
      ClearRecords();
      EmptyAccumulates();
    }

    method ClearText()
      modifies this`xWrites, this`fWrites, this`vWrites, this`csrWrites, this`loads, this`stores
      ensures xWrites == [] && fWrites == [] && vWrites == [] && csrWrites == [] && loads == [] && stores == []
    {
      xWrites, fWrites, vWrites, csrWrites, loads, stores := [], [], [], [], [], [];
    }

    ghost method ClearRecords()
      modifies this`xRecs, this`fRecs, this`vRecs, this`csrRecs, this`loadRecs, this`storeRecs
      ensures xRecs == [] && fRecs == [] && vRecs == [] && csrRecs == [] && loadRecs == [] && storeRecs == []
    {
      xRecs, fRecs, vRecs, csrRecs, loadRecs, storeRecs := [], [], [], [], [], [];
    }

    /** `fetch_callback`. */
    method Fetch(opcode: nat)
      modifies this`out
      ensures out == old(out) + ",\"opcode\":" + Dec(opcode)
    {
      out := out + ",\"opcode\":" + Dec(opcode);
    }

    /** `pc_write_callback`. */
    method PcWrite(newPc: nat)
      modifies this`out
      ensures out == old(out) + ",\"next_pc\":" + Dec(newPc)
    {
      out := out + ",\"next_pc\":" + Dec(newPc);
    }

    /** `redirect_callback`. */
    method Redirect()
      modifies this`out
      ensures out == old(out) + ",\"redirect\":true"
    {
      out := out + ",\"redirect\":true";
    }

    /** `trap_callback`: the cause goes under "interrupt" or "exception". */
    method Trap(isInterrupt: bool, cause: nat)
      modifies this`out
      ensures out == old(out) + "," + (if isInterrupt then "\"interrupt\":" else "\"exception\":") + Dec(cause)
    {
      if isInterrupt {
        out := out + ",\"interrupt\":" + Dec(cause);
      } else {
        out := out + ",\"exception\":" + Dec(cause);
      }
    }

    /** `xreg_full_write_callback`: one more record in the x list. */
    method XRegWrite(reg: nat, value: nat)
      requires Valid()
      modifies this`xWrites, this`xRecs
      ensures Valid()
      ensures xWrites == Add(old(xWrites), RegRecord(reg, value))
      ensures xRecs == old(xRecs) + [RegRecord(reg, value)]
    {
      var rec := "[" + Dec(reg) + "," + Dec(value) + "]";
      assert rec == RegRecord(reg, value);
      AddAccumulates(xWrites, xRecs, rec);
      ghost var before := xWrites;
      if xWrites != [] {
        xWrites := xWrites + ",";
      }
      xWrites := xWrites + rec;
      assert xWrites == Add(before, rec);
      xRecs := xRecs + [rec];
    }

    /** `freg_write_callback`: one more record in the f list. */
    method FRegWrite(reg: nat, value: nat)
      requires Valid()
      modifies this`fWrites, this`fRecs
      ensures Valid()
      ensures fWrites == Add(old(fWrites), RegRecord(reg, value))
      ensures fRecs == old(fRecs) + [RegRecord(reg, value)]
    {
      var rec := "[" + Dec(reg) + "," + Dec(value) + "]";
      assert rec == RegRecord(reg, value);
      AddAccumulates(fWrites, fRecs, rec);
      ghost var before := fWrites;
      if fWrites != [] {
        fWrites := fWrites + ",";
      }
      fWrites := fWrites + rec;
      assert fWrites == Add(before, rec);
      fRecs := fRecs + [rec];
    }

    /** `csr_full_write_callback`: one more record in the csr list. */
    method CsrWrite(reg: nat, value: nat)
      requires Valid()
      modifies this`csrWrites, this`csrRecs
      ensures Valid()
      ensures csrWrites == Add(old(csrWrites), RegRecord(reg, value))
      ensures csrRecs == old(csrRecs) + [RegRecord(reg, value)]
    {
      var rec := "[" + Dec(reg) + "," + Dec(value) + "]";
      assert rec == RegRecord(reg, value);
      AddAccumulates(csrWrites, csrRecs, rec);
      ghost var before := csrWrites;
      if csrWrites != [] {
        csrWrites := csrWrites + ",";
      }
      csrWrites := csrWrites + rec;
      assert csrWrites == Add(before, rec);
      csrRecs := csrRecs + [rec];
    }

    /** `vreg_write_callback`: the register's bytes, least significant first. */
    method VRegWrite(reg: nat, data: seq<nat>)
      requires Valid()
      modifies this`vWrites, this`vRecs
      ensures Valid()
      ensures vWrites == Add(old(vWrites), VRecord(reg, data))
      ensures vRecs == old(vRecs) + [VRecord(reg, data)]
    {
      ghost var before := vWrites;
      if vWrites != [] {
        vWrites := vWrites + ",";
      }
      var values := WriteValues(data);
      var rec := "[" + Dec(reg) + ",[" + values + "]]";
      assert rec == VRecord(reg, data);
      AddAccumulates(before, vRecs, rec);
      vWrites := vWrites + rec;
      assert vWrites == Add(before, rec);
      vRecs := vRecs + [rec];
    }

    /** `mem_read_callback`: the value's bytes, least significant first. */
    method MemRead(paddr: nat, width: nat, data: seq<nat>)
      requires Valid()
      modifies this`loads, this`loadRecs
      ensures Valid()
      ensures loads == Add(old(loads), MemRecord(paddr, width, data))
      ensures loadRecs == old(loadRecs) + [MemRecord(paddr, width, data)]
    {
      ghost var before := loads;
      if loads != [] {
        loads := loads + ",";
      }
      var values := WriteValues(data);
      var rec := "{\"paddr\":" + Dec(paddr) + ",\"width\":" + Dec(width) + ",\"value\":[" + values + "]}";
      assert rec == MemRecord(paddr, width, data);
      AddAccumulates(before, loadRecs, rec);
      loads := loads + rec;
      assert loads == Add(before, rec);
      loadRecs := loadRecs + [rec];
    }

    /** `mem_write_callback`: the value's bytes, least significant first. */
    method MemWrite(paddr: nat, width: nat, data: seq<nat>)
      requires Valid()
      modifies this`stores, this`storeRecs
      ensures Valid()
      ensures stores == Add(old(stores), MemRecord(paddr, width, data))
      ensures storeRecs == old(storeRecs) + [MemRecord(paddr, width, data)]
    {
      ghost var before := stores;
      if stores != [] {
        stores := stores + ",";
      }
      var values := WriteValues(data);
      var rec := "{\"paddr\":" + Dec(paddr) + ",\"width\":" + Dec(width) + ",\"value\":[" + values + "]}";
      assert rec == MemRecord(paddr, width, data);
      AddAccumulates(before, storeRecs, rec);
      stores := stores + rec;
      assert stores == Add(before, rec);
      storeRecs := storeRecs + [rec];
    }
  }
}
