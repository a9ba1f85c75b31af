/**
  The metric registry: a published map from key to `(id, handle)` and an
  append-only table of `(key, handle)` pairs indexed by id.  Locks, atomic
  snapshot swapping and leaked allocations are left out; what remains is
  the sequential state machine they protect.

  `Snapshot` and `Step` give that state machine as values, so that
  properties of several registrations in a row can be stated as lemmas;
  the class `Registry` holds the same state in fields that its methods
  update in place.
*/
module Registry {
  import opened Wrappers

  /** The registry's two structures, as values. */
  datatype Snapshot<K, H> = Snapshot(mappings: map<K, (nat, H)>, handles: seq<(K, H)>)

  /** The registry in its initial state. */
  function Empty<K, H>(): (s: Snapshot<K, H>)
    ensures Consistent(s)
    ensures |s.handles| == 0 && s.mappings.Keys == {}
  {
    Snapshot(map[], [])
  }

  /**
    The map and the table agree: every key points at the table slot that
    holds it and its handle, and every slot of the table is pointed at by
    its own key.
  */
  ghost predicate Consistent<K, H>(s: Snapshot<K, H>)
  {
    && (forall k :: k in s.mappings ==>
          s.mappings[k].0 < |s.handles| && s.handles[s.mappings[k].0] == (k, s.mappings[k].1))
    && (forall i :: 0 <= i < |s.handles| ==>
          s.handles[i].0 in s.mappings && s.mappings[s.handles[i].0].0 == i)
  }

  /**
    One call of `get_or_create_handle`: a hit returns the stored pair and
    changes nothing; a miss takes the table length as the id, calls the
    factory once with that id and the key, appends the pair to the table
    and adds the key to the map.  The result is the new state, the id and
    the handle.
  */
  function Step<K, H>(s: Snapshot<K, H>, key: K, f: (nat, K) -> H): (r: (Snapshot<K, H>, nat, H))
    ensures Consistent(s) ==> Consistent(r.0)
    ensures key in r.0.mappings && r.0.mappings[key] == (r.1, r.2)
    ensures key in s.mappings ==> r.0 == s
    ensures key !in s.mappings ==>
      && r.1 == |s.handles|
      && r.2 == f(r.1, key)
      && r.0.handles == s.handles + [(key, r.2)]
      && r.0.mappings.Keys == s.mappings.Keys + {key}
    ensures forall k :: k in s.mappings ==> k in r.0.mappings && r.0.mappings[k] == s.mappings[k]
  {
    if key in s.mappings then
      (s, s.mappings[key].0, s.mappings[key].1)
    else
      var id := |s.handles|;
      var h := f(id, key);
      (Snapshot(s.mappings[key := (id, h)], s.handles + [(key, h)]), id, h)
  }

  /** Registering the same key again returns the same pair and changes nothing. */
  lemma StepIdempotent<K, H>(s: Snapshot<K, H>, key: K, f: (nat, K) -> H, g: (nat, K) -> H)
    ensures var (s1, id, h) := Step(s, key, f);
      Step(s1, key, g) == (s1, id, h)
  {
  }

  /** A key maps to `(i, h)` exactly when slot `i` of the table holds `(key, h)`. */
  lemma ConsistentIff<K, H>(s: Snapshot<K, H>, key: K, i: nat, h: H)
    requires Consistent(s)
    ensures (key in s.mappings && s.mappings[key] == (i, h)) <==> (i < |s.handles| && s.handles[i] == (key, h))
  {
    if i < |s.handles| && s.handles[i] == (key, h) {
      assert s.handles[i].0 in s.mappings;
    }
  }

  /** No key appears twice in the table. */
  lemma ConsistentNoDuplicates<K, H>(s: Snapshot<K, H>)
    requires Consistent(s)
    ensures forall i, j :: 0 <= i < |s.handles| && 0 <= j < |s.handles| && s.handles[i].0 == s.handles[j].0 ==> i == j
  {
  }

  /** The keys of the table, in id order. */
  function TableKeys<K, H>(t: seq<(K, H)>): (r: seq<K>)
    ensures |r| == |t|
    ensures forall i :: 0 <= i < |t| ==> r[i] == t[i].0
  {
    if t == [] then [] else [t[0].0] + TableKeys(t[1..])
  }

  /** The set of elements of a sequence. */
  function Elements<T>(xs: seq<T>): set<T>
  {
    set i | 0 <= i < |xs| :: xs[i]
  }

  /** No element occurs twice. */
  ghost predicate Distinct<T>(xs: seq<T>)
  {
    forall i, j :: 0 <= i < j < |xs| ==> xs[i] != xs[j]
  }

  /** Appending an element adds it to the elements. */
  lemma ElementsSnoc<T>(xs: seq<T>, x: T)
    ensures Elements(xs + [x]) == Elements(xs) + {x}
  {
    var ys := xs + [x];
    assert ys[|xs|] == x;
    forall y | y in Elements(xs) ensures y in Elements(ys) {
      var j :| 0 <= j < |xs| && xs[j] == y;
      assert ys[j] == y;
    }
  }

  /** A sequence without repetitions has as many elements as its length. */
  lemma {:induction false} DistinctCard<T>(xs: seq<T>)
    requires Distinct(xs)
    ensures |Elements(xs)| == |xs|
  {
    if xs != [] {
      var init := xs[..|xs| - 1];
      DistinctCard(init);
      assert Elements(xs) == Elements(init) + {xs[|xs| - 1]};
      assert xs[|xs| - 1] !in Elements(init);
    }
  }

  /** The map holds exactly the keys of the table, so both have the same size. */
  lemma ConsistentSize<K, H>(s: Snapshot<K, H>)
    requires Consistent(s)
    ensures s.mappings.Keys == Elements(TableKeys(s.handles))
    ensures |s.mappings| == |s.handles|
  {
    var ks := TableKeys(s.handles);
    forall k | k in s.mappings ensures k in Elements(ks) {
      assert ks[s.mappings[k].0] == k;
    }
    assert Distinct(ks);
    DistinctCard(ks);
  }

  /** The ids that the map hands out. */
  ghost function IdsInUse<K, H>(s: Snapshot<K, H>): set<nat>
  {
    set k | k in s.mappings :: s.mappings[k].0
  }

  /** The ids in use are exactly `0 .. |handles|`. */
  lemma ConsistentDenseIds<K, H>(s: Snapshot<K, H>)
    requires Consistent(s)
    ensures forall i: nat :: i in IdsInUse(s) <==> i < |s.handles|
  {
    forall i | 0 <= i < |s.handles| ensures i in IdsInUse(s) {
      var k := s.handles[i].0;
      assert k in s.mappings && s.mappings[k].0 == i;
    }
    forall i | i in IdsInUse(s) ensures i < |s.handles| {
      var k :| k in s.mappings && s.mappings[k].0 == i;
    }
  }

  // ------------------------------------------------ several registrations

  /** Registering `keys` from left to right, each with factory `f`. */
  function Replay<K, H>(s: Snapshot<K, H>, keys: seq<K>, f: (nat, K) -> H): Snapshot<K, H>
    decreases |keys|
  {
    if keys == [] then s
    else Step(Replay(s, keys[..|keys| - 1], f), keys[|keys| - 1], f).0
  }

  /** The keys of `keys` in the order of their first occurrence. */
  ghost function FirstOccurrences<K>(keys: seq<K>): seq<K>
    decreases |keys|
  {
    if keys == [] then []
    else
      var d := FirstOccurrences(keys[..|keys| - 1]);
      var k := keys[|keys| - 1];
      if k in d then d else d + [k]
  }

  /** `FirstOccurrences` has no repetitions and holds every key. */
  lemma {:induction false} FirstOccurrencesDistinct<K>(keys: seq<K>)
    ensures Distinct(FirstOccurrences(keys))
    ensures Elements(FirstOccurrences(keys)) == Elements(keys)
  {
    if keys != [] {
      var init := keys[..|keys| - 1];
      var d, k := FirstOccurrences(init), keys[|keys| - 1];
      FirstOccurrencesDistinct(init);
      assert keys == init + [k];
      assert Elements(keys) == Elements(init) + {k};
      if k in d {
        var j :| 0 <= j < |d| && d[j] == k;
        assert k in Elements(d);
      } else {
        ElementsSnoc(d, k);
      }
    }
  }

  /** Slot i of the table holds the i-th key of `d` and the handle `f` made for it with id i. */
  ghost predicate TableFollows<K, H>(s: Snapshot<K, H>, d: seq<K>, f: (nat, K) -> H)
  {
    && |s.handles| == |d|
    && (forall i :: 0 <= i < |d| ==> s.handles[i] == (d[i], f(i, d[i])))
  }

  /**
    One registration extends the table by the key exactly when the key was
    not among the keys seen so far.
  */
  lemma StepFollows<K, H>(s: Snapshot<K, H>, d: seq<K>, key: K, f: (nat, K) -> H)
    requires Consistent(s) && TableFollows(s, d, f)
    ensures TableFollows(Step(s, key, f).0, if key in d then d else d + [key], f)
  {
    ConsistentSize(s);
    assert TableKeys(s.handles) == d;
    if key in d {
      var j :| 0 <= j < |d| && d[j] == key;
      assert key in Elements(d);
    }
  }

  /** Registering `keys` adds exactly those keys to the map. */
  lemma {:induction false} ReplayKeys<K, H>(s: Snapshot<K, H>, keys: seq<K>, f: (nat, K) -> H)
    ensures Replay(s, keys, f).mappings.Keys == s.mappings.Keys + Elements(keys)
  {
    if keys != [] {
      var init, k := keys[..|keys| - 1], keys[|keys| - 1];
      ReplayKeys(s, init, f);
      assert keys == init + [k];
      ElementsSnoc(init, k);
    }
  }

  /** Any run of registrations keeps the invariant. */
  lemma {:induction false} ReplayConsistent<K, H>(s: Snapshot<K, H>, keys: seq<K>, f: (nat, K) -> H)
    requires Consistent(s)
    ensures Consistent(Replay(s, keys, f))
  {
    if keys != [] {
      ReplayConsistent(s, keys[..|keys| - 1], f);
    }
  }

  /** From a new registry, slot i holds the i-th distinct key registered. */
  lemma {:induction false} ReplayFollows<K, H>(keys: seq<K>, f: (nat, K) -> H)
    ensures TableFollows(Replay(Empty<K, H>(), keys, f), FirstOccurrences(keys), f)
  {
    if keys != [] {
      var init, k := keys[..|keys| - 1], keys[|keys| - 1];
      ReplayFollows(init, f);
      ReplayConsistent(Empty<K, H>(), init, f);
      var s0, d0 := Replay(Empty<K, H>(), init, f), FirstOccurrences(init);
      assert Replay(Empty<K, H>(), keys, f) == Step(s0, k, f).0;
      assert FirstOccurrences(keys) == if k in d0 then d0 else d0 + [k];
      StepFollows(s0, d0, k, f);
    }
  }

  /**
    Starting from the empty registry, registering `keys` gives the i-th
    distinct key id i and the handle the factory made for it with id i:
    ids are dense and granted in the order of first registration.
  */
  lemma {:induction false} ReplayFromEmpty<K, H>(keys: seq<K>, f: (nat, K) -> H)
    ensures var s, d := Replay(Empty<K, H>(), keys, f), FirstOccurrences(keys);
      && Consistent(s)
      && |s.handles| == |d|
      && (forall i :: 0 <= i < |d| ==> s.handles[i] == (d[i], f(i, d[i])))
      && s.mappings.Keys == Elements(keys)
  {
    ReplayConsistent(Empty<K, H>(), keys, f);
    ReplayFollows(keys, f);
    ReplayKeys(Empty<K, H>(), keys, f);
  }

  /** Later registrations never change an earlier slot of the table. */
  lemma {:induction false} ReplayAppendOnly<K, H>(s: Snapshot<K, H>, keys: seq<K>, more: seq<K>, f: (nat, K) -> H)
    ensures var t0, t1 := Replay(s, keys, f).handles, Replay(s, keys + more, f).handles;
      |t0| <= |t1| && t1[..|t0|] == t0
  {
    if more == [] {
      assert keys + more == keys;
    } else {
      var init := more[..|more| - 1];
      ReplayAppendOnly(s, keys, init, f);
      assert (keys + more)[..|keys + more| - 1] == keys + init;
    }
  }

  // ------------------------------------------------------------ the class

  /** Over the registry's whole life, the factory is called at most once per key. */
  lemma FactoryOncePerKey<K, H>(reg: Registry<K, H>)
    requires reg.Valid()
    ensures forall i, j ::
      0 <= i < |reg.factoryCalls| && 0 <= j < |reg.factoryCalls| && reg.factoryCalls[i].1 == reg.factoryCalls[j].1
      ==> i == j
  {
    ConsistentNoDuplicates(reg.State());
  }

  /**
    `Registry`: the published map `mappings`, the table `handles`, and, as
    ghost state, the `(id, key)` arguments of every factory call made so far.
  */
  class Registry<K(==), H> {
    var mappings: map<K, (nat, H)>
    var handles: seq<(K, H)>
    ghost var factoryCalls: seq<(nat, K)>

    /** The registry's state as a value. */
    function State(): Snapshot<K, H>
      reads this
    {
      Snapshot(mappings, handles)
    }

    /**
      The map and the table agree, and the factory has been called exactly
      once for every slot of the table, with that slot's id and key.
    */
    ghost predicate Valid()
      reads this
    {
      && Consistent(State())
      && |factoryCalls| == |handles|
      && (forall i :: 0 <= i < |handles| ==> factoryCalls[i] == (i, handles[i].0))
    }

    /** `Registry::new`: an empty map and an empty table. */
    constructor ()
      ensures Valid()
      ensures State() == Empty()
      ensures factoryCalls == []
    {
      mappings := map[];
      handles := [];
      factoryCalls := [];
    }

    /**
      `Registry::get_or_create_handle`.  On a hit the stored pair is
      returned and nothing changes (the factory is not called); on a miss
      the id is the old table length, the factory is called once with
      `(id, key)`, `(key, handle)` is appended to the table and the map
      gains `key -> (id, handle)`.
    */
    method GetOrCreateHandle(key: K, f: (nat, K) -> H) returns (id: nat, handle: H)
      requires Valid()
      modifies this
      ensures Valid()
      ensures (State(), id, handle) == Step(old(State()), key, f)
      ensures key in old(mappings) ==>
        && (id, handle) == old(mappings)[key]
        && mappings == old(mappings) && handles == old(handles)
        && factoryCalls == old(factoryCalls)
      ensures key !in old(mappings) ==>
        && id == |old(handles)|
        && handle == f(id, key)
        && handles == old(handles) + [(key, handle)]
        && mappings == old(mappings)[key := (id, handle)]
        && factoryCalls == old(factoryCalls) + [(id, key)]
    {
      if key in mappings {
        id, handle := mappings[key].0, mappings[key].1;
        return;
      }
      id := |handles|;
      handle := f(id, key);
      factoryCalls := factoryCalls + [(id, key)];
      handles := handles + [(key, handle)];
      mappings := mappings[key := (id, handle)];
    }

    /**
      `Registry::with_handle`: the accessor applied to the slot `id`, or
      nothing when `id` is past the end of the table.  An id that no key
      maps to gives nothing.
    */
    method WithHandle<V>(id: nat, f: (K, H) -> V) returns (r: Option<V>)
      ensures id < |handles| ==> r == Some(f(handles[id].0, handles[id].1))
      ensures id >= |handles| ==> r == None
      ensures Valid() ==> (r == None <==> forall k :: k in mappings ==> mappings[k].0 != id)
    {
      if id < |handles| {
        r := Some(f(handles[id].0, handles[id].1));
        assert Valid() ==> handles[id].0 in mappings;
      } else {
        r := None;
      }
    }

    /**
      `Registry::get_handles`: every registered key sent to its handle,
      the id dropped.  Each pair of the result is a slot of the table.
    */
    method GetHandles() returns (r: map<K, H>)
      ensures r.Keys == mappings.Keys
      ensures forall k :: k in r ==> r[k] == mappings[k].1
      ensures Valid() ==> forall k :: k in r ==> exists i :: 0 <= i < |handles| && handles[i] == (k, r[k])
    {
      r := map k | k in mappings :: mappings[k].1;
    }
  }
}
