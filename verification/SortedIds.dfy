/** Lists of ids: arbitrary enumerations, as hash maps yield them, and the one increasing order. */
module SortedIds {
  import opened Primitives

  predicate Distinct(s: seq<Hash256>) {
    forall i, j :: 0 <= i < j < |s| ==> s[i] != s[j]
  }

  lemma EmptyList(s: seq<Hash256>)
    ensures (forall id :: id !in s) ==> s == []
  {
    assert s != [] ==> s[0] in s;
  }

  lemma AtMostOne(s: seq<Hash256>, only: Hash256)
    ensures Distinct(s) && (forall id :: id in s ==> id == only) ==> |s| <= 1
  {
    assert |s| >= 2 ==> s[0] in s && s[1] in s;
  }

  /** A sequence that names every member of a set once, in whatever order a hash map yields them. */
  ghost predicate Enumerates(s: seq<Hash256>, ids: set<Hash256>) {
    Distinct(s) && forall id :: id in s <==> id in ids
  }

  lemma EnumerateMore(s: seq<Hash256>, ids: set<Hash256>, id: Hash256)
    requires Enumerates(s, ids) && id !in ids
    ensures Enumerates(s + [id], ids + {id})
  {
    assert id !in s;
    assert Distinct(s + [id]);
  }

  lemma {:induction false} EnumerationSize(s: seq<Hash256>, ids: set<Hash256>)
    requires Enumerates(s, ids)
    ensures |s| == |ids|
    decreases |s|
  {
    if s == [] {
      assert ids == {};
    } else {
      var last := s[|s| - 1];
      assert s == s[..|s| - 1] + [last];
      assert last !in s[..|s| - 1];
      EnumerationSize(s[..|s| - 1], ids - {last});
      assert ids == (ids - {last}) + {last};
    }
  }

  /** A list without an id, as `Vec::retain` leaves it. */
  function Drop(ids: seq<Hash256>, id: Hash256): (r: seq<Hash256>) {
    if ids == [] then []
    else Drop(ids[..|ids| - 1], id) + if ids[|ids| - 1] == id then [] else [ids[|ids| - 1]]
  }

  lemma {:induction false} DropRemoves(ids: seq<Hash256>, id: Hash256)
    ensures forall h :: h in Drop(ids, id) <==> h in ids && h != id
    ensures Distinct(ids) ==> Distinct(Drop(ids, id))
    ensures |Drop(ids, id)| <= |ids|
    decreases |ids|
  {
    if ids != [] {
      var rest, last := ids[..|ids| - 1], ids[|ids| - 1];
      DropRemoves(rest, id);
      assert ids == rest + [last];
      assert Distinct(ids) ==> last !in rest;
      assert Distinct(Drop(rest, id)) && last !in Drop(rest, id) ==> Distinct(Drop(rest, id) + [last]);
    }
  }

  predicate StrictlyIncreasing(s: seq<Hash256>) {
    forall i, j :: 0 <= i < j < |s| ==> s[i] < s[j]
  }

  ghost predicate Lists(s: seq<Hash256>, ids: set<Hash256>) {
    StrictlyIncreasing(s) && forall id :: id in s <==> id in ids
  }

  /** A set has one increasing list, so the order of emission does not depend on hash maps. */
  lemma {:induction false} ListingUnique(s: seq<Hash256>, t: seq<Hash256>, ids: set<Hash256>)
    requires Lists(s, ids) && Lists(t, ids)
    ensures s == t
    decreases |s|
  {
    assert t != [] ==> t[0] in ids;
    if s != [] {
      assert s[0] in t && t[0] in s;
      var i :| 0 <= i < |t| && t[i] == s[0];
      var j :| 0 <= j < |s| && s[j] == t[0];
      assert s[0] == t[0];
      var rest := ids - {s[0]};
      forall id ensures id in s[1..] <==> id in rest {
        assert id in s <==> id == s[0] || id in s[1..];
      }
      forall id ensures id in t[1..] <==> id in rest {
        assert id in t <==> id == t[0] || id in t[1..];
      }
      ListingUnique(s[1..], t[1..], rest);
    }
  }

  method LeastOf(ids: set<Hash256>) returns (least: Hash256)
    requires ids != {}
    ensures least in ids && forall id :: id in ids ==> least <= id
  {
    least :| least in ids;
    var rest := ids - {least};
    while rest != {}
      invariant rest <= ids && least in ids
      invariant forall id :: id in ids && id !in rest ==> least <= id
      decreases rest
    {
      var id :| id in rest;
      if id < least { least := id; }
      rest := rest - {id};
    }
  }

  /** Sort a set of ids. */
  method SortIds(ids: set<Hash256>) returns (sorted: seq<Hash256>)
    ensures Lists(sorted, ids)
  {
    sorted := [];
    var rest := ids;
    while rest != {}
      invariant rest <= ids && StrictlyIncreasing(sorted)
      invariant forall id :: id in sorted <==> id in ids - rest
      invariant forall i, id :: 0 <= i < |sorted| && id in rest ==> sorted[i] < id
      decreases rest
    {
      var least := LeastOf(rest);
      sorted := sorted + [least];
      rest := rest - {least};
    }
  }
}
