/** Merging a group's recommended settings into the workspace
    `.vscode/settings.json` (vscode/scripts/install_extensions.py lines
    191-202). JSON values are opaque: the merge only moves them around, so
    they are a type parameter. */
module Settings {

  /** The result of the loop: every existing and every incoming key; an
      incoming value replaces an existing one only under `force`. */
  function Merged<V>(existing: map<string, V>, incoming: map<string, V>, force: bool): (r: map<string, V>)
    ensures r.Keys == existing.Keys + incoming.Keys
    ensures forall k :: k in existing && k !in incoming ==> r[k] == existing[k]
    ensures forall k :: k in incoming && k !in existing ==> r[k] == incoming[k]
    ensures forall k :: k in existing && k in incoming ==> r[k] == (if force then incoming[k] else existing[k])
  {
    if force then existing + incoming else incoming + existing
  }

  /** The part of `m` whose keys are in `keys`. */
  function Restrict<V>(m: map<string, V>, keys: set<string>): (r: map<string, V>)
    ensures r.Keys == m.Keys * keys
    ensures forall k :: k in r ==> r[k] == m[k]
  {
    map k | k in m && k in keys :: m[k]
  }

  /** The loop over `settings.items()`: a key already present is
      overwritten only under `force` (otherwise skipped), a new key is
      added. Dict keys are distinct, so each key is handled once and the
      order of the items does not matter; the model takes them in any
      order. */
  method MergeSettings<V>(existing: map<string, V>, incoming: map<string, V>, force: bool)
    returns (merged: map<string, V>)
    ensures merged == Merged(existing, incoming, force)
  {
    merged := existing;
    var remaining := incoming.Keys;
    while remaining != {}
      invariant remaining <= incoming.Keys
      invariant merged == Merged(existing, Restrict(incoming, incoming.Keys - remaining), force)
      decreases remaining
    {
      var key :| key in remaining;
      ghost var done := Restrict(incoming, incoming.Keys - remaining);
      MergedStep(existing, done, key, incoming[key], force);
      if key in merged {
        if force {
          merged := merged[key := incoming[key]];
        }
      } else {
        merged := merged[key := incoming[key]];
      }
      RestrictStep(incoming, remaining, key);
      remaining := remaining - {key};
    }
    assert Restrict(incoming, incoming.Keys) == incoming;
  }

  /** One more incoming key, not merged before. */
  lemma MergedStep<V>(existing: map<string, V>, done: map<string, V>, k: string, v: V, force: bool)
    requires k !in done
    ensures k in Merged(existing, done, force) <==> k in existing
    ensures Merged(existing, done[k := v], force)
         == if k in existing && !force then Merged(existing, done, force) else Merged(existing, done, force)[k := v]
  {
    if force {
      assert existing + done[k := v] == (existing + done)[k := v];
    } else if k in existing {
      assert done[k := v] + existing == done + existing;
    } else {
      assert done[k := v] + existing == (done + existing)[k := v];
    }
  }

  lemma RestrictStep<V>(m: map<string, V>, remaining: set<string>, k: string)
    requires k in remaining && remaining <= m.Keys
    ensures k !in Restrict(m, m.Keys - remaining)
    ensures Restrict(m, m.Keys - (remaining - {k})) == Restrict(m, m.Keys - remaining)[k := m[k]]
  {
  }

  /** Merging the same settings a second time changes nothing. */
  lemma MergeTwiceIsOnce<V>(existing: map<string, V>, incoming: map<string, V>, force: bool)
    ensures Merged(Merged(existing, incoming, force), incoming, force) == Merged(existing, incoming, force)
  {
    var once := Merged(existing, incoming, force);
    var twice := Merged(once, incoming, force);
    assert twice.Keys == once.Keys;
    forall k | k in once ensures twice[k] == once[k] {
    }
  }

  /** Without force the existing file wins on every key it has: the merge
      only adds keys. */
  lemma MergeWithoutForceOnlyAdds<V>(existing: map<string, V>, incoming: map<string, V>)
    ensures forall k :: k in existing ==> k in Merged(existing, incoming, false) && Merged(existing, incoming, false)[k] == existing[k]
    ensures Merged(existing, incoming, false) - existing.Keys == Restrict(incoming, incoming.Keys - existing.Keys)
  {
    var r := Merged(existing, incoming, false);
    assert (r - existing.Keys).Keys == (Restrict(incoming, incoming.Keys - existing.Keys)).Keys;
  }

  /** `{"a": 1}` into `{"a": 0}` leaves `a` at 0 without force and sets it to
      1 with force; `{"b": 2}` into `{"a": 0}` gives `{"a": 0, "b": 2}`. */
  lemma MergeExamples()
    ensures Merged(map["a" := 0], map["a" := 1], false) == map["a" := 0]
    ensures Merged(map["a" := 0], map["a" := 1], true) == map["a" := 1]
    ensures Merged(map["a" := 0], map["b" := 2], false) == map["a" := 0, "b" := 2]
  {
    assert "a" != "b";
  }
}
