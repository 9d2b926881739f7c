/**
 * The heating index (app.js addHeatingDevices and helpers): which zones hold a
 * heating-capable device, directly or through a descendant, and which device
 * ids each zone holds. The walk up the hierarchy searches the whole tree for
 * the zone named by each parent id, as the source does.
 */
module HeatingIndex {
  import opened Types
  import opened Forest

  predicate Within(top: seq<Zone>, zs: seq<Zone>)
  {
    forall z :: z in zs ==> z in Flat(top)
  }

  lemma ChildrenWithin(top: seq<Zone>, z: Zone)
    requires z in Flat(top)
    ensures Within(top, z.children)
  {
    forall c | c in z.children ensures c in Flat(top) {
      ChildInFlat(top, z, c);
    }
  }

  lemma TopWithin(top: seq<Zone>)
    ensures Within(top, top)
  {
    forall z | z in top ensures z in Flat(top) {
      TopInFlat(top, z);
    }
  }

  /**
   * The zone ids that addDeviceToParentZones(p, device, zs) registers the device
   * under, in order: inside each zone of `zs` it first searches the children,
   * then, when the zone's id is `p`, registers the zone and walks on from the
   * zone's own parent through the whole tree `top`.
   */
  function Walk(top: seq<Zone>, p: Option<ZoneId>, zs: seq<Zone>): seq<ZoneId>
    requires WellFormed(top) && Within(top, zs)
    decreases Rank(top, p), zs
  {
    if !Truthy(p) || zs == [] then []
    else
      var z := zs[0];
      var below := if z.children != [] then ChildrenWithin(top, z); Walk(top, p, z.children) else [];
      var here := if z.id == p.value then RankStep(top, z); [z.id] + Walk(top, z.parent, top) else [];
      below + here + Walk(top, p, zs[1..])
  }

  /** Reference definition: follow parent ids through the tree until one is falsy or unknown. */
  function Ancestors(top: seq<Zone>, p: Option<ZoneId>): seq<ZoneId>
    requires WellFormed(top)
    decreases Rank(top, p)
  {
    if !Truthy(p) then []
    else match Find(Flat(top), p.value)
      case None => []
      case Some(z) => RankStep(top, z); [z.id] + Ancestors(top, z.parent)
  }

  /** The zones a heating device is registered under: its own zone, then the walk from its parent. */
  function Chain(top: seq<Zone>, d: Device): seq<ZoneId>
    requires WellFormed(top)
  {
    [d.zone.id] + Walk(top, d.zone.parent, top)
  }

  function Get(m: map<ZoneId, seq<DeviceId>>, z: ZoneId): seq<DeviceId>
  {
    if z in m then m[z] else []
  }

  /** addToZone: push the device id onto the zone's list, creating the list on first use. */
  function AddToZone(m: map<ZoneId, seq<DeviceId>>, z: ZoneId, d: DeviceId): (r: map<ZoneId, seq<DeviceId>>)
    ensures r.Keys == m.Keys + {z}
    ensures r[z] == Get(m, z) + [d]
    ensures forall y :: y in m && y != z ==> r[y] == m[y]
  {
    m[z := Get(m, z) + [d]]
  }

  /** The device list after registering `d` under each zone of `zs` in turn. */
  function Register(m: map<ZoneId, seq<DeviceId>>, zs: seq<ZoneId>, d: DeviceId): map<ZoneId, seq<DeviceId>>
    decreases zs
  {
    if zs == [] then m else Register(AddToZone(m, zs[0], d), zs[1..], d)
  }

  /** The state of the index: zone2devices and heating_zone_ids. */
  datatype Index = Index(zoneDevices: map<ZoneId, seq<DeviceId>>, heatingZones: seq<ZoneId>)

  /** addHeatingDevices: register every heating-capable device, in device order. */
  function IndexDevices(top: seq<Zone>, ix: Index, devs: seq<Device>): Index
    requires WellFormed(top)
    decreases devs
  {
    if devs == [] then ix
    else
      var d := devs[0];
      var next := if IsHeating(d) then
                    var c := Chain(top, d);
                    Index(Register(ix.zoneDevices, c, d.id), ix.heatingZones + c)
                  else ix;
      IndexDevices(top, next, devs[1..])
  }

  // ---------------------------------------------------------------------------
  // Lemmas

  lemma {:induction false} RegisterConcat(m: map<ZoneId, seq<DeviceId>>, a: seq<ZoneId>, b: seq<ZoneId>, d: DeviceId)
    ensures Register(m, a + b, d) == Register(Register(m, a, d), b, d)
    decreases a
  {
    if a != [] {
      assert (a + b)[0] == a[0] && (a + b)[1..] == a[1..] + b;
      RegisterConcat(AddToZone(m, a[0], d), a[1..], b, d);
    } else {
      assert a + b == b;
    }
  }

  /** What the walk registers for one zone of the forest: its subtree's matches, then itself. */
  function WalkAt(top: seq<Zone>, p: Option<ZoneId>, z: Zone): seq<ZoneId>
    requires WellFormed(top) && z in Flat(top) && Truthy(p)
  {
    (if z.children != [] then ChildrenWithin(top, z); Walk(top, p, z.children) else [])
    + (if z.id == p.value then [z.id] + Walk(top, z.parent, top) else [])
  }

  /** One step of the walk over a forest: the zone at `i`, then the zones after it. */
  lemma WalkUnfold(top: seq<Zone>, p: Option<ZoneId>, zs: seq<Zone>, i: int)
    requires 0 <= i < |zs| && WellFormed(top) && Within(top, zs[i..]) && Truthy(p)
    ensures zs[i] in Flat(top) && Within(top, zs[i + 1..])
    ensures Walk(top, p, zs[i..]) == WalkAt(top, p, zs[i]) + Walk(top, p, zs[i + 1..])
  {
    assert zs[i..][0] == zs[i] && zs[i..][1..] == zs[i + 1..];
    assert zs[i] in zs[i..];
  }

  /** Registration only appends: a zone's list grows by `d` exactly when the zone is among `zs`. */
  lemma {:induction false} RegisterSpec(m: map<ZoneId, seq<DeviceId>>, zs: seq<ZoneId>, d: DeviceId, z: ZoneId)
    ensures Get(m, z) <= Get(Register(m, zs, d), z)
    ensures z in Register(m, zs, d) <==> z in m || z in zs
    ensures forall y :: y in Get(Register(m, zs, d), z) <==> y in Get(m, z) || (y == d && z in zs)
    decreases zs
  {
    if zs != [] {
      var m' := AddToZone(m, zs[0], d);
      RegisterSpec(m', zs[1..], d, z);
      assert zs == [zs[0]] + zs[1..];
    }
  }

  /** The walk registers nothing when no zone of the forest has the id `p`. */
  lemma {:induction false} WalkMisses(top: seq<Zone>, p: Option<ZoneId>, zs: seq<Zone>)
    requires WellFormed(top) && Within(top, zs) && Truthy(p)
    requires forall z :: z in Flat(zs) ==> z.id != p.value
    ensures Walk(top, p, zs) == []
    decreases zs
  {
    if zs != [] {
      var z := zs[0];
      assert Flat(zs) == [z] + Flat(z.children) + Flat(zs[1..]);
      ChildrenWithin(top, z);
      assert Within(top, zs[1..]);
      WalkMisses(top, p, zs[1..]);
      if z.children != [] {
        WalkMisses(top, p, z.children);
      }
    }
  }

  /** The walk over a forest whose first zone has the id `p` and which has no other zone with that id. */
  lemma WalkMeetsHead(top: seq<Zone>, p: Option<ZoneId>, zs: seq<Zone>)
    requires WellFormed(top) && Within(top, zs) && Truthy(p) && zs != [] && zs[0].id == p.value
    requires forall w :: w in Flat(zs[0].children) ==> w.id != p.value
    requires forall w :: w in Flat(zs[1..]) ==> w.id != p.value
    ensures zs[0] in Flat(top) && Walk(top, p, zs) == [p.value] + Walk(top, zs[0].parent, top)
  {
    var z := zs[0];
    ChildrenWithin(top, z);
    assert zs[0..] == zs;
    WalkUnfold(top, p, zs, 0);
    WalkMisses(top, p, zs[1..]);
    WalkAtHead(top, p, z);
  }

  /** A zone with the id `p` and no descendant with it contributes itself and its ancestors' walk. */
  lemma WalkAtHead(top: seq<Zone>, p: Option<ZoneId>, z: Zone)
    requires WellFormed(top) && z in Flat(top) && Truthy(p) && z.id == p.value
    requires forall w :: w in Flat(z.children) ==> w.id != p.value
    ensures WalkAt(top, p, z) == [p.value] + Walk(top, z.parent, top)
  {
    if z.children != [] {
      ChildrenWithin(top, z);
      WalkMisses(top, p, z.children);
    }
  }

  /** The walk over a forest whose first zone and later zones do not have the id `p`. */
  lemma WalkMeetsBelow(top: seq<Zone>, p: Option<ZoneId>, zs: seq<Zone>, r: seq<ZoneId>)
    requires WellFormed(top) && Within(top, zs) && Truthy(p) && zs != [] && zs[0].id != p.value
    requires zs[0] in Flat(top) && Within(top, zs[0].children) && Walk(top, p, zs[0].children) == r
    requires forall w :: w in Flat(zs[1..]) ==> w.id != p.value
    ensures Walk(top, p, zs) == r
  {
    assert zs[0..] == zs;
    WalkUnfold(top, p, zs, 0);
    WalkMisses(top, p, zs[1..]);
  }

  /** The walk over a forest whose first subtree has no zone with the id `p`. */
  lemma WalkMeetsAfter(top: seq<Zone>, p: Option<ZoneId>, zs: seq<Zone>, r: seq<ZoneId>)
    requires WellFormed(top) && Within(top, zs) && Truthy(p) && zs != []
    requires forall w :: w in [zs[0]] + Flat(zs[0].children) ==> w.id != p.value
    requires Within(top, zs[1..]) && Walk(top, p, zs[1..]) == r
    ensures Walk(top, p, zs) == r
  {
    var z := zs[0];
    assert z in [z] + Flat(z.children);
    ChildrenWithin(top, z);
    assert zs[0..] == zs;
    WalkUnfold(top, p, zs, 0);
    if z.children != [] {
      WalkMisses(top, p, z.children);
    }
  }

  /** Over a forest with unique ids, the walk meets the zone with id `p` once, wherever it sits. */
  lemma {:induction false} WalkMeets(top: seq<Zone>, p: Option<ZoneId>, zs: seq<Zone>, x: Zone)
    requires WellFormed(top) && Within(top, zs) && Truthy(p)
    requires UniqueIds(Flat(zs)) && x in Flat(zs) && x.id == p.value
    ensures x in Flat(top) && Walk(top, p, zs) == [x.id] + Walk(top, x.parent, top)
    decreases zs
  {
    var z := zs[0];
    var a, b := Flat(z.children), Flat(zs[1..]);
    assert Flat(zs) == [z] + (a + b);
    UniqueSplit([z], a + b);
    UniqueSplit(a, b);
    assert z in zs;
    ChildrenWithin(top, z);
    assert Within(top, zs[1..]);
    if x == z {
      assert forall w :: w in a ==> w in a + b;
      assert forall w :: w in b ==> w in a + b;
      WalkMeetsHead(top, p, zs);
    } else if x in a {
      WalkMeets(top, p, z.children, x);
      WalkMeetsBelow(top, p, zs, [x.id] + Walk(top, x.parent, top));
    } else {
      WalkMeets(top, p, zs[1..], x);
      WalkMeetsAfter(top, p, zs, [x.id] + Walk(top, x.parent, top));
    }
  }

  /** addDeviceToParentZones follows the parent chain: it registers exactly the ancestors. */
  lemma {:induction false} WalkIsAncestors(top: seq<Zone>, p: Option<ZoneId>)
    requires WellFormed(top)
    ensures Walk(top, p, top) == Ancestors(top, p)
    decreases Rank(top, p)
  {
    TopWithin(top);
    if Truthy(p) {
      match Find(Flat(top), p.value)
      case None =>
        WalkMisses(top, p, top);
      case Some(x) =>
        WalkMeets(top, p, top, x);
        RankStep(top, x);
        WalkIsAncestors(top, x.parent);
    }
  }

  /**
   * addHeatingDevices: a zone holds a device id afterwards exactly when it held
   * it before or a heating-capable device with that id has the zone on its chain;
   * a zone is a heating zone exactly when it was one or some heating-capable
   * device's chain contains it. Earlier entries are never removed or reordered.
   */
  lemma {:induction false} IndexDevicesSpec(top: seq<Zone>, ix: Index, devs: seq<Device>, z: ZoneId)
    requires WellFormed(top)
    ensures var r := IndexDevices(top, ix, devs);
      && ix.heatingZones <= r.heatingZones
      && Get(ix.zoneDevices, z) <= Get(r.zoneDevices, z)
      && (z in r.heatingZones <==> z in ix.heatingZones || exists d :: d in devs && IsHeating(d) && z in Chain(top, d))
      && (forall y :: y in Get(r.zoneDevices, z) <==>
            y in Get(ix.zoneDevices, z) || exists d :: d in devs && IsHeating(d) && d.id == y && z in Chain(top, d))
    decreases devs
  {
    if devs != [] {
      var d := devs[0];
      var next := if IsHeating(d) then
                    Index(Register(ix.zoneDevices, Chain(top, d), d.id), ix.heatingZones + Chain(top, d))
                  else ix;
      if IsHeating(d) {
        RegisterSpec(ix.zoneDevices, Chain(top, d), d.id, z);
      }
      IndexDevicesSpec(top, next, devs[1..], z);
      assert devs == [d] + devs[1..];
      assert forall e :: e in devs <==> e == d || e in devs[1..];
    }
  }

  /** A device without the target-temperature capability is ignored entirely. */
  lemma {:induction false} NonHeatingIgnored(top: seq<Zone>, ix: Index, devs: seq<Device>)
    requires WellFormed(top)
    ensures IndexDevices(top, ix, devs) == IndexDevices(top, ix, HeatingOnly(devs))
    decreases devs
  {
    if devs != [] {
      NonHeatingIgnored(top, if IsHeating(devs[0]) then
                               Index(Register(ix.zoneDevices, Chain(top, devs[0]), devs[0].id),
                                     ix.heatingZones + Chain(top, devs[0]))
                             else ix, devs[1..]);
      if IsHeating(devs[0]) {
        assert HeatingOnly(devs)[0] == devs[0] && HeatingOnly(devs)[1..] == HeatingOnly(devs[1..]);
      }
    }
  }

  function HeatingOnly(devs: seq<Device>): (r: seq<Device>)
    ensures forall d :: d in r <==> d in devs && IsHeating(d)
  {
    if devs == [] then []
    else if IsHeating(devs[0]) then [devs[0]] + HeatingOnly(devs[1..])
    else HeatingOnly(devs[1..])
  }
}
