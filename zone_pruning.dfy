/**
 * Zone pruning (app.js addHeatingZones): drop every zone that has a parent and
 * is not a heating zone, together with its subtree, and prune the children of
 * the zones that stay.
 */
module ZonePruning {
  import opened Types
  import opened Forest

  /** The test of getZonesWithHeatingDevice: a zone stays unless it has a parent and is not a heating zone. */
  predicate Kept(z: Zone, hz: seq<ZoneId>)
  {
    !Truthy(z.parent) || z.id in hz
  }

  /** The forest getZonesWithHeatingDevice leaves behind. */
  function Prune(zs: seq<Zone>, hz: seq<ZoneId>): (r: seq<Zone>)
    ensures |r| <= |zs|
    ensures forall z :: z in r ==> Kept(z, hz)
  {
    if zs == [] then []
    else
      var z := zs[0];
      var rest := Prune(zs[1..], hz);
      if !Kept(z, hz) then rest
      else [if z.children != [] then z.(children := Prune(z.children, hz)) else z] + rest
  }

  /**
   * getZonesWithHeatingDevice: visit the zones in order, deleting those that fail
   * the test and replacing the children of the others by their pruned children.
   */
  method PruneZones(zs: seq<Zone>, hz: seq<ZoneId>) returns (r: seq<Zone>)
    ensures r == Prune(zs, hz)
    decreases zs
  {
    r := [];
    var i := 0;
    while i < |zs|
      invariant 0 <= i <= |zs|
      invariant r + Prune(zs[i..], hz) == Prune(zs, hz)
    {
      var z := zs[i];
      assert zs[i..][0] == z && zs[i..][1..] == zs[i + 1..];
      if !Kept(z, hz) {
        // delete zones[zone_id]
      } else if z.children != [] {
        var children := PruneZones(z.children, hz);
        r := r + [z.(children := children)];
      } else {
        r := r + [z];
      }
      i := i + 1;
    }
  }

  /**
   * zoneChildrenToArrayRecursive: rebuild a zone's child list with every child's
   * own children converted. Children are already sequences here, kept in the
   * order the zone query enumerates them.
   */
  method ChildrenToArray(z: Zone) returns (children: seq<Zone>)
    ensures children == z.children
    decreases z
  {
    children := [];
    var i := 0;
    while i < |z.children|
      invariant 0 <= i <= |z.children|
      invariant children == z.children[..i]
    {
      var child := z.children[i];
      var converted := ChildrenToArray(child);
      child := child.(children := converted);
      children := children + [child];
      i := i + 1;
    }
  }

  // ---------------------------------------------------------------------------
  // Lemmas

  /** Every zone left anywhere in the pruned forest is a heating zone or has no parent. */
  lemma {:induction false} PrunedZonesAreHeating(zs: seq<Zone>, hz: seq<ZoneId>)
    ensures forall z :: z in Flat(Prune(zs, hz)) ==> Kept(z, hz)
    decreases zs
  {
    if zs != [] {
      var z := zs[0];
      PrunedZonesAreHeating(zs[1..], hz);
      PrunedZonesAreHeating(z.children, hz);
      if Kept(z, hz) {
        var z' := if z.children != [] then z.(children := Prune(z.children, hz)) else z;
        assert Prune(zs, hz) == [z'] + Prune(zs[1..], hz);
        assert Flat(Prune(zs, hz)) == [z'] + Flat(z'.children) + Flat(Prune(zs[1..], hz));
      }
    }
  }

  /** Pruning twice prunes nothing more. */
  lemma {:induction false} PruneIdempotent(zs: seq<Zone>, hz: seq<ZoneId>)
    ensures Prune(Prune(zs, hz), hz) == Prune(zs, hz)
    decreases zs
  {
    if zs != [] {
      var z := zs[0];
      PruneIdempotent(zs[1..], hz);
      if Kept(z, hz) {
        var z' := if z.children != [] then z.(children := Prune(z.children, hz)) else z;
        var p := Prune(zs, hz);
        assert p == [z'] + Prune(zs[1..], hz);
        assert p[0] == z' && p[1..] == Prune(zs[1..], hz);
        if z.children != [] {
          PruneIdempotent(z.children, hz);
        }
      }
    }
  }

  /** Ids of the pruned forest all come from the original forest. */
  lemma {:induction false} PrunedIdsFromOriginal(zs: seq<Zone>, hz: seq<ZoneId>, y: Zone)
    requires y in Flat(Prune(zs, hz))
    ensures exists x :: x in Flat(zs) && x.id == y.id
    decreases zs
  {
    var z := zs[0];
    var a, b := Flat(z.children), Flat(zs[1..]);
    assert Flat(zs) == [z] + a + b;
    if !Kept(z, hz) {
      PrunedIdsFromOriginal(zs[1..], hz, y);
    } else {
      var z' := if z.children != [] then z.(children := Prune(z.children, hz)) else z;
      assert Prune(zs, hz) == [z'] + Prune(zs[1..], hz);
      assert Flat(Prune(zs, hz)) == [z'] + Flat(z'.children) + Flat(Prune(zs[1..], hz));
      if y == z' {
        assert z in Flat(zs);
      } else if y in Flat(z'.children) {
        if z.children != [] {
          PrunedIdsFromOriginal(z.children, hz, y);
        }
      } else {
        PrunedIdsFromOriginal(zs[1..], hz, y);
      }
    }
  }

  /**
   * A top-level zone that fails the test is removed with its whole subtree; one
   * that passes stays, with its children pruned.
   */
  lemma {:induction false} PruneTopLevel(zs: seq<Zone>, hz: seq<ZoneId>, z: Zone)
    requires UniqueIds(Flat(zs)) && z in zs
    ensures !Kept(z, hz) ==> forall y, x :: y in Flat(Prune(zs, hz)) && x in Flat([z]) ==> y.id != x.id
    ensures Kept(z, hz) ==> (if z.children != [] then z.(children := Prune(z.children, hz)) else z) in Prune(zs, hz)
    decreases zs
  {
    var w := zs[0];
    var a, b := Flat(w.children), Flat(zs[1..]);
    assert Flat(zs) == [w] + a + b;
    assert Flat([z]) == [z] + Flat(z.children) + Flat([]);
    assert [w] + a + b == ([w] + a) + b;
    assert Flat([w]) == [w] + a;
    UniqueSplit([w] + a, b);
    if z == w {
      if !Kept(z, hz) {
        forall y, x | y in Flat(Prune(zs, hz)) && x in Flat([z]) ensures y.id != x.id {
          assert y in Flat(Prune(zs[1..], hz));
          PrunedIdsFromOriginal(zs[1..], hz, y);
        }
      }
    } else {
      assert z in zs[1..];
      PruneTopLevel(zs[1..], hz, z);
      if !Kept(z, hz) {
        TopInFlat(zs[1..], z);
        SubtreeInFlat(zs[1..], z);
        forall y, x | y in Flat(Prune(zs, hz)) && x in Flat([z]) ensures y.id != x.id {
          if !Kept(w, hz) {
          } else {
            var w' := if w.children != [] then w.(children := Prune(w.children, hz)) else w;
            assert Flat(Prune(zs, hz)) == [w'] + Flat(w'.children) + Flat(Prune(zs[1..], hz));
            if y == w' {
              assert w in Flat([w]);
            } else if y in Flat(w'.children) {
              if w.children != [] {
                PrunedIdsFromOriginal(w.children, hz, y);
              }
            }
          }
        }
      }
    }
  }

  lemma {:induction false} SubtreeInFlat(zs: seq<Zone>, z: Zone)
    requires z in zs
    ensures forall x :: x in Flat([z]) ==> x in Flat(zs)
    decreases zs
  {
    assert Flat([z]) == [z] + Flat(z.children) + Flat([]);
    assert Flat(zs) == [zs[0]] + Flat(zs[0].children) + Flat(zs[1..]);
    if z != zs[0] {
      assert z in zs[1..];
      SubtreeInFlat(zs[1..], z);
    }
  }
}
