/**
 * Merging configuration overrides into the base configuration
 * (`deep_merge_json` in `riscv_sim.cpp`). Every field of the override
 * replaces or adds the base's field of that name, except that when both
 * are objects the merge recurses into them; arrays and scalars are
 * replaced whole. The override is walked one key at a time and the base
 * is updated in place.
 */
module JsonMerge {
  import opened Wrappers

  datatype Json =
    | Null
    | Bool(b: bool)
    | Num(n: int)
    | Str(s: string)
    | Arr(items: seq<Json>)
    | Obj(fields: map<string, Json>)

  /** The merged value of one override key `k`. */
  function Entry(base: map<string, Json>, over: map<string, Json>, k: string): Json
    requires k in over
    decreases Obj(over), 0
  {
    if k in base && base[k].Obj? && over[k].Obj? then
      Obj(Merged(base[k].fields, over[k].fields))
    else
      over[k]
  }

  /** The base after the override keys in `done` have been merged in. */
  function Partial(base: map<string, Json>, over: map<string, Json>, done: set<string>): map<string, Json>
    requires done <= over.Keys
    decreases Obj(over), 1
  {
    map k | k in base.Keys + done :: if k in done then Entry(base, over, k) else base[k]
  }

  /** The base after every override key has been merged in. */
  function Merged(base: map<string, Json>, over: map<string, Json>): map<string, Json>
    decreases Obj(over), 2
  {
    Partial(base, over, over.Keys)
  }

  /**
   * The whole call: walking the fields of a value that is not an object
   * fails, and so does adding a field to a base that is not an object.
   */
  function MergeJson(base: Json, over: Json): (r: Option<Json>)
    ensures r.Some? <==> over.Obj? && (base.Obj? || over.fields == map[])
  {
    if !over.Obj? then None
    else if over.fields == map[] then Some(base)
    else if !base.Obj? then None
    else Some(Obj(Merged(base.fields, over.fields)))
  }

  /**
   * `deep_merge_json` on the fields of two objects: the keys of the
   * override are visited one by one, each replacing or merging into the
   * base's entry.
   */
  method DeepMergeFields(base: map<string, Json>, over: map<string, Json>) returns (r: map<string, Json>)
    ensures r == Merged(base, over)
    decreases Obj(over)
  {
    r := base;
    var todo := over.Keys;
    while todo != {}
      invariant todo <= over.Keys
      invariant r == Partial(base, over, over.Keys - todo)
      decreases todo
    {
      var k :| k in todo;
      if k in r && r[k].Obj? && over[k].Obj? {
        assert r[k] == base[k];
        var sub := DeepMergeFields(r[k].fields, over[k].fields);
        r := r[k := Obj(sub)];
      } else {
        r := r[k := over[k]];
      }
      todo := todo - {k};
    }
  }

  /** `deep_merge_json` on two parsed documents; `None` is the exception that ends the program. */
  method DeepMerge(base: Json, over: Json) returns (r: Option<Json>)
    ensures r == MergeJson(base, over)
  {
    if !over.Obj? {
      return None;
    }
    if over.fields == map[] {
      return Some(base);
    }
    if !base.Obj? {
      return None;
    }
    var fields := DeepMergeFields(base.fields, over.fields);
    return Some(Obj(fields));
  }

  /** One key of a merge: an override key takes its `Entry`, any other key keeps the base's value. */
  lemma MergedAt(base: map<string, Json>, over: map<string, Json>, k: string)
    ensures k in Merged(base, over) <==> k in base || k in over
    ensures k in over ==> Merged(base, over)[k] == Entry(base, over, k)
    ensures k in base && k !in over ==> Merged(base, over)[k] == base[k]
  {
    assert Merged(base, over) == Partial(base, over, over.Keys);
  }

  /**
   * After a merge the keys are those of the base and the override; every
   * override key holds the override's value, or the recursive merge when
   * both values are objects; every key only in the base keeps its value.
   */
  lemma MergedFields(base: map<string, Json>, over: map<string, Json>)
    ensures Merged(base, over).Keys == base.Keys + over.Keys
    ensures forall k :: k in over && !(k in base && base[k].Obj? && over[k].Obj?) ==>
              Merged(base, over)[k] == over[k]
    ensures forall k :: k in over && k in base && base[k].Obj? && over[k].Obj? ==>
              Merged(base, over)[k] == Obj(Merged(base[k].fields, over[k].fields))
    ensures forall k :: k in base && k !in over ==> Merged(base, over)[k] == base[k]
  {
    forall k | k in base || k in over {
      MergedAt(base, over, k);
    }
  }

  /** An empty override changes nothing. */
  lemma MergeEmpty(base: Json)
    ensures MergeJson(base, Obj(map[])) == Some(base)
  {
  }

  /** Merging an object into itself gives it back. */
  lemma {:induction false} MergeSelf(m: map<string, Json>)
    ensures Merged(m, m) == m
    decreases Obj(m)
  {
    forall k ensures k in Merged(m, m) <==> k in m {
      MergedAt(m, m, k);
    }
    forall k | k in m
      ensures Merged(m, m)[k] == m[k]
    {
      MergedAt(m, m, k);
      if m[k].Obj? {
        MergeSelf(m[k].fields);
      }
    }
  }

  /** Merging the same override a second time changes nothing. */
  lemma {:induction false} MergeTwice(base: map<string, Json>, over: map<string, Json>)
    ensures Merged(Merged(base, over), over) == Merged(base, over)
    decreases Obj(over)
  {
    var once := Merged(base, over);
    forall k ensures k in Merged(once, over) <==> k in once {
      MergedAt(base, over, k);
      MergedAt(once, over, k);
    }
    forall k | k in once
      ensures Merged(once, over)[k] == once[k]
    {
      MergedAt(base, over, k);
      MergedAt(once, over, k);
      if k in over && over[k].Obj? {
        if k in base && base[k].Obj? {
          MergeTwice(base[k].fields, over[k].fields);
        } else {
          MergeSelf(over[k].fields);
        }
      }
    }
  }

  /** The same, for whole documents. */
  lemma MergeJsonTwice(base: Json, over: Json)
    requires MergeJson(base, over).Some?
    ensures MergeJson(MergeJson(base, over).value, over) == MergeJson(base, over)
  {
    if over.fields != map[] {
      MergeTwice(base.fields, over.fields);
    }
  }
}
