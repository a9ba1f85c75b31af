/**
  Clients of the registry keyed by metric keys: what a caller can conclude
  from the contracts of `Registry` alone.
*/
module Scenarios {
  import opened Wrappers
  import opened Keys
  import Registry

  /**
    Registering `requests` with one factory and then again with another
    gives id 0 both times and the first factory's handle; the second
    factory is never called.
  */
  method ReregisterKeepsFirstHandle<H>(f1: (nat, Key) -> H, f2: (nat, Key) -> H)
    returns (id1: nat, h1: H, id2: nat, h2: H, ghost calls: seq<(nat, Key)>)
    ensures id1 == 0 && id2 == 0
    ensures h1 == f1(0, FromName("requests")) && h2 == h1
    ensures calls == [(0, FromName("requests"))]
  {
    var reg := new Registry.Registry<Key, H>();
    var key := FromName("requests");
    id1, h1 := reg.GetOrCreateHandle(key, f1);
    id2, h2 := reg.GetOrCreateHandle(key, f2);
    calls := reg.factoryCalls;
  }

  /**
    Registering `a`, `b`, then `a` again yields ids 0, 1, 0 and a table of
    two entries; id 0 names `a`, id 2 names nothing, and the snapshot of
    handles holds exactly `a` and `b`.
  */
  method RegisterTwoKeys<H>(f: (nat, Key) -> H)
    returns (ids: seq<nat>, size: nat, at0: Option<string>, at2: Option<string>, names: set<Key>)
    ensures ids == [0, 1, 0] && size == 2
    ensures at0 == Some("a") && at2 == None
    ensures names == {FromName("a"), FromName("b")}
  {
    var reg := new Registry.Registry<Key, H>();
    var a, b := FromName("a"), FromName("b");
    var i, j, k;
    var h;
    i, h := reg.GetOrCreateHandle(a, f);
    j, h := reg.GetOrCreateHandle(b, f);
    k, h := reg.GetOrCreateHandle(a, f);
    ids, size := [i, j, k], |reg.handles|;
    at0 := reg.WithHandle(0, (key: Key, _: H) => Name(key));
    at2 := reg.WithHandle(2, (key: Key, _: H) => Name(key));
    var snapshot := reg.GetHandles();
    names := snapshot.Keys;
  }

  /**
    A bare key, the same name with a label, and the same name with two
    labels in either order are four distinct entries.
  */
  method LabelsDistinguishEntries<H>(f: (nat, Key) -> H) returns (ids: seq<nat>, size: nat)
    ensures ids == [0, 1, 2, 3] && size == 4
  {
    var reg := new Registry.Registry<Key, H>();
    var x, y := NewLabel("x", "1"), NewLabel("y", "2");
    var i0, i1, i2, i3;
    var h;
    i0, h := reg.GetOrCreateHandle(FromName("a"), f);
    i1, h := reg.GetOrCreateHandle(FromNameAndLabels("a", [NewLabel("region", "us")]), f);
    i2, h := reg.GetOrCreateHandle(FromNameAndLabels("a", [x, y]), f);
    i3, h := reg.GetOrCreateHandle(FromNameAndLabels("a", [y, x]), f);
    ids, size := [i0, i1, i2, i3], |reg.handles|;
  }
}
