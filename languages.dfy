/** The per-language cache of compiled comment matchers
    (rucco_lib/src/languages.rs). The matcher compiler `compute_regex` is
    not part of this model: it is the function `compute`, fixed when the
    cache is created; `M` stands for a compiled matcher. */
module Languages {
  import opened Wrappers
  import opened Toml

  class Languages<M> {
    /** The matchers computed so far, `None` for a language without one. */
    var computed: map<string, Option<M>>
    /** The `languages` table of the configuration, never changed. */
    const raw: Table
    /** `compute_regex`. */
    const compute: Value -> Option<M>
    /** The languages for which `compute` has run, in order. */
    ghost var computeLog: seq<string>

    /** Every cached entry is what `compute` gives for the raw language
        (or `None` when there is none), and `compute` has run exactly once
        for each cached key and never for any other. */
    ghost predicate Valid()
      reads this
    {
      && (forall l :: l in computed <==> l in computeLog)
      && (forall i, j | 0 <= i < j < |computeLog| :: computeLog[i] != computeLog[j])
      && (forall l | l in computed :: computed[l] == Expected(l))
    }

    /** What `get` yields for `l`: the compiled raw entry, or `None`. */
    ghost function Expected(l: string): Option<M>
    {
      if l in raw then compute(raw[l]) else None
    }

    /** `Languages::new`: an empty cache over the raw table. */
    constructor (raw: Table, compute: Value -> Option<M>)
      ensures Valid()
      ensures this.raw == raw && this.compute == compute
      ensures computed == map[] && computeLog == []
    {
      this.raw := raw;
      this.compute := compute;
      computed := map[];
      computeLog := [];
    }

    /** `Languages::get`: the cached matcher for `l`, computed and cached on
        first use (`None` included), and returned from the cache after. */
    method Get(l: string) returns (r: Option<M>)
      requires Valid()
      modifies this
      ensures Valid()
      ensures l in computed && r == computed[l] && r == Expected(l)
      ensures l in old(computed) ==> computed == old(computed) && computeLog == old(computeLog)
      ensures l !in old(computed) ==>
        computed == old(computed)[l := r] && computeLog == old(computeLog) + [l]
      ensures forall k | k != l :: (k in computed <==> k in old(computed)) &&
                                   (k in computed ==> computed[k] == old(computed)[k])
    {
      var langRawValue := Toml.Get(raw, l);
      if l !in computed {
        var v := match langRawValue
          case Some(lang) => compute(lang)
          case None => None;
        computed := computed[l := v];
        computeLog := computeLog + [l];
      }
      r := computed[l];
    }
  }

  /** A client: asking twice for the same language computes it once and
      gives the same answer both times. */
  method GetTwice<M>(langs: Languages<M>, l: string) returns (first: Option<M>, second: Option<M>)
    requires langs.Valid()
    modifies langs
    ensures langs.Valid()
    ensures first == second == langs.Expected(l)
    ensures multiset(langs.computeLog)[l] == 1
  {
    first := langs.Get(l);
    second := langs.Get(l);
    CachedOnce(langs.computeLog, l);
  }

  /** A key of a duplicate-free log occurs in it exactly once. */
  lemma {:induction false} CachedOnce(log: seq<string>, l: string)
    requires l in log
    requires forall i, j | 0 <= i < j < |log| :: log[i] != log[j]
    ensures multiset(log)[l] == 1
    decreases |log|
  {
    if log[0] == l {
      assert l !in log[1..];
      assert log == [log[0]] + log[1..];
    } else {
      CachedOnce(log[1..], l);
      assert log == [log[0]] + log[1..];
    }
  }
}
