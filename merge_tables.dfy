/** The recursive merge of the embedded base configuration with the
    project's ruccofile (`merge_tables` in src/main.rs). */
module MergeTables {
  import opened Wrappers
  import opened Toml

  /** The value `merge_tables` stores under `key`: the recursive merge when
      both sides hold a table, otherwise custom's value, otherwise base's. */
  function MergedEntry(base: Table, custom: Table, key: string): Value
    requires key in base || key in custom
    decreases Table(custom), 0
  {
    if key in base && key in custom && base[key].Table? && custom[key].Table? then
      Table(Merged(base[key].entries, custom[key].entries))
    else if key in custom then custom[key]
    else base[key]
  }

  /** Reference definition of the merge: one entry per key of either table. */
  function Merged(base: Table, custom: Table): Table
    decreases Table(custom), 1
  {
    map key | key in base.Keys + custom.Keys :: MergedEntry(base, custom, key)
  }

  /** `merge_tables`: visits the union of both key sets once each (in an
      unspecified order, as the source's `HashSet` does) and inserts the
      merged value of each key. */
  method MergeTables(base: Table, custom: Table) returns (merged: Table)
    ensures merged == Merged(base, custom)
    ensures merged.Keys == base.Keys + custom.Keys
    ensures forall key | key in custom && !(key in base && base[key].Table? && custom[key].Table?) ::
              merged[key] == custom[key]
    ensures forall key | key in base && key !in custom :: merged[key] == base[key]
    ensures forall key | key in base && key in custom && base[key].Table? && custom[key].Table? ::
              merged[key] == Table(Merged(base[key].entries, custom[key].entries))
    decreases Table(custom)
  {
    merged := map[];
    var keys := base.Keys + custom.Keys;
    ghost var done: set<string> := {};
    while keys != {}
      invariant keys !! done && keys + done == base.Keys + custom.Keys
      invariant merged.Keys == done
      invariant forall k :: k in done ==> merged[k] == MergedEntry(base, custom, k)
      decreases keys
    {
      var key :| key in keys;
      var val: Value;
      match (Get(base, key), Get(custom, key)) {
        case (Some(Table(basetable)), Some(Table(customtable))) =>
          var sub := MergeTables(basetable, customtable);
          val := Table(sub);
        case (_, Some(customval)) =>
          val := customval;
        case (Some(baseval), _) =>
          val := baseval;
        case (None, None) =>
          // every key comes from one of the two tables: the panic is unreachable
          assert false;
      }
      merged := merged[key := val];
      keys := keys - {key};
      done := done + {key};
    }
  }

  /** Merging an empty ruccofile leaves the base configuration unchanged. */
  lemma MergeEmptyCustom(base: Table)
    ensures Merged(base, map[]) == base
  {
  }

  /** Merging into an empty base yields the custom configuration. */
  lemma MergeEmptyBase(custom: Table)
    ensures Merged(map[], custom) == custom
  {
  }

  /** Merging a table with itself yields the same table, at every depth. */
  lemma {:induction false} MergeIdempotent(t: Table)
    ensures Merged(t, t) == t
    decreases Table(t)
  {
    forall key | key in t && t[key].Table?
      ensures Merged(t[key].entries, t[key].entries) == t[key].entries
    {
      MergeIdempotent(t[key].entries);
    }
    assert forall key | key in t :: MergedEntry(t, t, key) == t[key];
  }

  /** Merging is right-biased all the way down: a custom table whose nested
      tables merge into base's leaves nothing of base behind where custom
      speaks, so a second merge with the same custom table changes nothing. */
  lemma {:induction false} MergeAbsorbsCustom(base: Table, custom: Table)
    ensures Merged(Merged(base, custom), custom) == Merged(base, custom)
    decreases Table(custom)
  {
    var m := Merged(base, custom);
    forall key | key in m.Keys + custom.Keys
      ensures MergedEntry(m, custom, key) == m[key]
    {
      if key in custom && m[key].Table? && custom[key].Table? {
        assert m[key] == MergedEntry(base, custom, key);
        if key in base && base[key].Table? {
          assert m[key] == Table(Merged(base[key].entries, custom[key].entries));
          MergeAbsorbsCustom(base[key].entries, custom[key].entries);
        } else {
          assert m[key] == custom[key];
          MergeIdempotent(custom[key].entries);
        }
      }
    }
  }
}
