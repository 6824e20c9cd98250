/**
 * The ELF symbol table of the emulator: reversing name -> value into
 * value -> name, and naming an address by the closest symbol at or below it.
 *
 * A `std::map<std::string, uint64_t>` is iterated in key order; it is
 * modelled as the sequence of its entries, names strictly increasing in the
 * byte-wise order of `std::string`.  A `std::map<uint64_t, std::string>` is a
 * Dafny `map`, whose order-based queries are stated through the keys.
 */
module SymbolTable {
  import opened Wrappers

  datatype Symbol = Symbol(name: string, value: nat)

  /** `a < b` for `std::string`: the first differing character decides, and a proper prefix comes first. */
  predicate NameLess(a: string, b: string)
    decreases |a|
  {
    if a == [] then b != []
    else if b == [] then false
    else if a[0] != b[0] then a[0] < b[0]
    else NameLess(a[1..], b[1..])
  }

  /** The entries of a `std::map` keyed by name, in iteration order. */
  ghost predicate ByName(symbols: seq<Symbol>)
  {
    forall i, j :: 0 <= i < j < |symbols| ==> NameLess(symbols[i].name, symbols[j].name)
  }

  /** The value -> name table from storing every entry in order, a later entry overwriting an earlier one with the same value. */
  function Reversed(symbols: seq<Symbol>): map<nat, string>
  {
    if symbols == [] then map[]
    else var last := symbols[|symbols| - 1];
      Reversed(symbols[..|symbols| - 1])[last.value := last.name]
  }

  /** reverse_symbol_table: one store per entry, in iteration order. */
  method ReverseSymbolTable(symbols: seq<Symbol>) returns (reversed: map<nat, string>)
    ensures reversed == Reversed(symbols)
    ensures reversed.Keys == set i | 0 <= i < |symbols| :: symbols[i].value
  {
    reversed := map[];
    for n := 0 to |symbols|
      invariant reversed == Reversed(symbols[..n])
    {
      assert symbols[..n + 1][..n] == symbols[..n];
      reversed := reversed[symbols[n].value := symbols[n].name];
    }
    assert symbols[..|symbols|] == symbols;
    ReversedKeys(symbols);
  }

  /** The keys of the reversed table are exactly the symbol values. */
  lemma {:induction false} ReversedKeys(symbols: seq<Symbol>)
    ensures Reversed(symbols).Keys == set i | 0 <= i < |symbols| :: symbols[i].value
  {
    if symbols != [] {
      var init := symbols[..|symbols| - 1];
      ReversedKeys(init);
      var all := set i | 0 <= i < |symbols| :: symbols[i].value;
      var before := set i | 0 <= i < |init| :: init[i].value;
      assert all == before + {symbols[|symbols| - 1].value} by {
        forall v | v in all ensures v in before + {symbols[|symbols| - 1].value} {
          var i :| 0 <= i < |symbols| && symbols[i].value == v;
          if i < |init| {
            assert init[i] == symbols[i];
          }
        }
        forall v | v in before ensures v in all {
          var i :| 0 <= i < |init| && init[i].value == v;
          assert symbols[i] == init[i];
        }
      }
    }
  }

  /** Each value maps to the name of the last entry, in iteration order, that has it. */
  lemma {:induction false} ReversedKeepsLast(symbols: seq<Symbol>, i: nat)
    requires i < |symbols|
    requires forall j :: i < j < |symbols| ==> symbols[j].value != symbols[i].value
    ensures symbols[i].value in Reversed(symbols) && Reversed(symbols)[symbols[i].value] == symbols[i].name
  {
    var init := symbols[..|symbols| - 1];
    if i < |symbols| - 1 {
      forall j | i < j < |init| ensures init[j].value != init[i].value {
        assert init[j] == symbols[j];
      }
      ReversedKeepsLast(init, i);
    }
  }

  /** When several names share a value, the alphabetically last one is kept. */
  lemma AlphabeticallyLastWins(symbols: seq<Symbol>, v: nat)
    requires ByName(symbols)
    requires v in Reversed(symbols)
    ensures exists i :: 0 <= i < |symbols| && symbols[i] == Symbol(Reversed(symbols)[v], v)
    ensures forall j :: 0 <= j < |symbols| && symbols[j].value == v && symbols[j].name != Reversed(symbols)[v] ==>
      NameLess(symbols[j].name, Reversed(symbols)[v])
  {
    ReversedKeys(symbols);
    var k :| 0 <= k < |symbols| && symbols[k].value == v;
    var i := LastWith(symbols, v, k);
    ReversedKeepsLast(symbols, i);
    forall j | 0 <= j < |symbols| && symbols[j].value == v && symbols[j].name != Reversed(symbols)[v]
      ensures NameLess(symbols[j].name, Reversed(symbols)[v])
    {
      assert j != i && j <= i;
    }
  }

  /** The last index holding `v`, found from one that does. */
  lemma LastWith(symbols: seq<Symbol>, v: nat, k: nat) returns (i: nat)
    requires k < |symbols| && symbols[k].value == v
    ensures k <= i < |symbols| && symbols[i].value == v
    ensures forall j :: i < j < |symbols| ==> symbols[j].value != v
    decreases |symbols| - k
  {
    if j :| k < j < |symbols| && symbols[j].value == v {
      i := LastWith(symbols, v, j);
    } else {
      i := k;
    }
  }

  /** The greatest key of `keys` that is at most `address`, if any: a search down from `address`. */
  function Floor(keys: set<nat>, address: nat): (r: Option<nat>)
    ensures r.None? <==> forall k :: k in keys ==> k > address
    ensures r.Some? ==> r.value in keys && r.value <= address && forall k :: k in keys && k <= address ==> k <= r.value
  {
    if address in keys then Some(address)
    else if address == 0 then None
    else Floor(keys, address - 1)
  }

  /**
   * symbolize_address: the entry with the greatest value not above
   * `address`, or nothing when every symbol lies above it (as for an empty
   * table).
   */
  function SymbolizeAddress(symbols: map<nat, string>, address: nat): (r: Option<(nat, string)>)
    ensures r.None? <==> forall k :: k in symbols ==> k > address
    ensures r.Some? ==> var (k, name) := r.value;
      && k in symbols && symbols[k] == name && k <= address
      && forall k' :: k' in symbols && k' <= address ==> k' <= k
  {
    var f := Floor(symbols.Keys, address);
    if f.None? then None else Some((f.value, symbols[f.value]))
  }

  /** An address that is itself a symbol value is named by exactly that symbol. */
  lemma SymbolizeExact(symbols: map<nat, string>, address: nat)
    requires address in symbols
    ensures SymbolizeAddress(symbols, address) == Some((address, symbols[address]))
  {
  }
}
