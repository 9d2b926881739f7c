/**
 * Shape facts about a zone hierarchy: its zones in pre-order, their sizes, and
 * the well-formedness the zone query guarantees (unique ids, every child names
 * its container as parent, top-level zones have no parent).
 */
module Forest {
  import opened Types

  /** Every zone of the forest, each zone before its descendants. */
  function Flat(zs: seq<Zone>): (r: seq<Zone>)
    ensures forall z :: z in zs ==> z in r
    ensures |r| >= |zs|
  {
    if zs == [] then [] else [zs[0]] + Flat(zs[0].children) + Flat(zs[1..])
  }

  /** Number of zones in the subtree rooted at `z`. */
  function Size(z: Zone): nat
  {
    1 + |Flat(z.children)|
  }

  predicate UniqueIds(f: seq<Zone>)
  {
    forall i, j :: 0 <= i < j < |f| ==> f[i].id != f[j].id
  }

  predicate ParentsMatch(f: seq<Zone>)
  {
    forall i, c :: 0 <= i < |f| && c in f[i].children ==> c.parent == Some(f[i].id)
  }

  /** The hierarchy the zone query returns: a proper tree over unique ids. */
  predicate WellFormed(top: seq<Zone>)
  {
    && UniqueIds(Flat(top))
    && ParentsMatch(Flat(top))
    && forall z :: z in top ==> !Truthy(z.parent)
  }

  /** The first zone of `f` whose id is `id`. */
  function Find(f: seq<Zone>, id: ZoneId): (r: Option<Zone>)
    ensures r.Some? ==> r.value in f && r.value.id == id
    ensures r.None? <==> forall z :: z in f ==> z.id != id
  {
    if f == [] then None
    else if f[0].id == id then Some(f[0])
    else Find(f[1..], id)
  }

  /**
   * Termination measure of the walk up the parent chain: zones higher up the
   * tree have larger subtrees and so a smaller rank; no zone at all ranks 0.
   */
  function Rank(top: seq<Zone>, p: Option<ZoneId>): nat
  {
    if !Truthy(p) then 0
    else match Find(Flat(top), p.value)
      case None => 0
      case Some(z) => if Size(z) <= |Flat(top)| then |Flat(top)| - Size(z) + 1 else 0
  }

  lemma {:induction false} SizeBound(zs: seq<Zone>, x: Zone)
    requires x in Flat(zs)
    ensures Size(x) <= |Flat(zs)|
    decreases zs
  {
    var a, b := Flat(zs[0].children), Flat(zs[1..]);
    assert Flat(zs) == [zs[0]] + a + b;
    if x == zs[0] {
    } else if x in a {
      SizeBound(zs[0].children, x);
    } else {
      SizeBound(zs[1..], x);
    }
  }

  lemma {:induction false} ChildInFlat(zs: seq<Zone>, x: Zone, c: Zone)
    requires x in Flat(zs) && c in x.children
    ensures c in Flat(zs)
    decreases zs
  {
    var a, b := Flat(zs[0].children), Flat(zs[1..]);
    assert Flat(zs) == [zs[0]] + a + b;
    if x == zs[0] {
      assert c in zs[0].children;
      TopInFlat(zs[0].children, c);
    } else if x in a {
      ChildInFlat(zs[0].children, x, c);
    } else {
      ChildInFlat(zs[1..], x, c);
    }
  }

  lemma {:induction false} TopInFlat(zs: seq<Zone>, z: Zone)
    requires z in zs
    ensures z in Flat(zs)
    decreases zs
  {
    if z != zs[0] {
      assert z in zs[1..];
      TopInFlat(zs[1..], z);
    }
  }

  /** A zone of the forest is either top-level or the child of a zone of the forest. */
  lemma {:induction false} Container(zs: seq<Zone>, x: Zone) returns (c: Zone)
    requires x in Flat(zs) && x !in zs
    ensures c in Flat(zs) && x in c.children
    decreases zs
  {
    var a, b := Flat(zs[0].children), Flat(zs[1..]);
    assert Flat(zs) == [zs[0]] + a + b;
    if x in a {
      if x in zs[0].children {
        c := zs[0];
      } else {
        c := Container(zs[0].children, x);
      }
    } else {
      assert x in b && x !in zs[1..];
      c := Container(zs[1..], x);
    }
  }

  lemma {:induction false} FindUnique(f: seq<Zone>, x: Zone)
    requires UniqueIds(f) && x in f
    ensures Find(f, x.id) == Some(x)
  {
    if f[0] != x {
      assert f[0].id != x.id by {
        var k :| 0 <= k < |f| && f[k] == x;
      }
      assert UniqueIds(f[1..]) by {
        forall i, j | 0 <= i < j < |f[1..]| ensures f[1..][i].id != f[1..][j].id {
          assert f[1..][i] == f[i + 1] && f[1..][j] == f[j + 1];
        }
      }
      FindUnique(f[1..], x);
    }
  }

  /** Going from a zone to the zone named by its parent strictly lowers the rank. */
  lemma RankStep(top: seq<Zone>, z: Zone)
    requires WellFormed(top) && z in Flat(top) && z.id != ""
    ensures Rank(top, z.parent) < Rank(top, Some(z.id))
  {
    FindUnique(Flat(top), z);
    SizeBound(top, z);
    if Truthy(z.parent) {
      var c := Container(top, z);
      var i :| 0 <= i < |Flat(top)| && Flat(top)[i] == c;
      assert z.parent == Some(c.id);
      FindUnique(Flat(top), c);
      SizeBound(top, c);
      SizeBound(c.children, z) by { TopInFlat(c.children, z); }
    }
  }

  lemma UniqueSplit(a: seq<Zone>, b: seq<Zone>)
    requires UniqueIds(a + b)
    ensures UniqueIds(a) && UniqueIds(b)
    ensures forall x, y :: x in a && y in b ==> x.id != y.id
  {
    assert forall i :: 0 <= i < |a| ==> (a + b)[i] == a[i];
    assert forall i :: 0 <= i < |b| ==> (a + b)[|a| + i] == b[i];
    forall x, y | x in a && y in b ensures x.id != y.id {
      var i :| 0 <= i < |a| && a[i] == x;
      var j :| 0 <= j < |b| && b[j] == y;
      assert (a + b)[i] == x && (a + b)[|a| + j] == y;
    }
  }
}
