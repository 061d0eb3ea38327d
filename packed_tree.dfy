/**
  The packed R-tree, seen from outside. The tree's node structure, packing
  and traversal order belong to the geometry library and are not modelled:
  a tree is the sequence of (box, identity) entries it was bulk-loaded from,
  and a query hands back, in some order, every entry whose box satisfies the
  query predicate and no other.
 */
module PackedTree {
  import opened Sorting

  /** One stored value: a box paired with the identity the caller gets back. */
  datatype Entry<B> = Entry(box: B, id: int)

  /** The identities of a sequence of entries, in the same order. */
  function Ids<B>(q: seq<Entry<B>>): (ids: seq<int>)
    ensures |ids| == |q|
  {
    seq(|q|, k requires 0 <= k < |q| => q[k].id)
  }

  /** Entry k carries identity k, the way a bulk load from an input vector numbers it. */
  predicate IdsArePositions<B>(entries: seq<Entry<B>>) {
    forall k :: 0 <= k < |entries| ==> entries[k].id == k
  }

  /** The entries a query with predicate `hit` returns from a tree holding `entries`. */
  function Select<B>(entries: seq<Entry<B>>, hit: B -> bool): seq<Entry<B>>
  {
    if entries == [] then []
    else (if hit(entries[0].box) then [entries[0]] else []) + Select(entries[1..], hit)
  }

  /**
    Over entries numbered consecutively from `base`, the identities a query
    returns are exactly those of the entries its predicate accepts: no false
    negatives, no false positives.
   */
  lemma {:induction false} SelectNumberedMembers<B>(entries: seq<Entry<B>>, hit: B -> bool, base: int)
    requires forall k :: 0 <= k < |entries| ==> entries[k].id == base + k
    ensures forall x :: x in Ids(Select(entries, hit)) <==>
                          base <= x < base + |entries| && hit(entries[x - base].box)
  {
    if entries != [] {
      var rest := entries[1..];
      SelectNumberedMembers(rest, hit, base + 1);
      var tail := Ids(Select(rest, hit));
      var ids := Ids(Select(entries, hit));
      if hit(entries[0].box) {
        assert Select(entries, hit) == [entries[0]] + Select(rest, hit);
        assert ids == [base] + tail;
      } else {
        assert Select(entries, hit) == Select(rest, hit);
      }
      forall x
        ensures x in ids <==> base <= x < base + |entries| && hit(entries[x - base].box)
      {
        if base + 1 <= x < base + |entries| {
          assert rest[x - (base + 1)] == entries[x - base];
        }
      }
    }
  }

  /** Over entries numbered consecutively from `base`, a query returns identities in strictly increasing order. */
  lemma {:induction false} SelectNumberedAscending<B>(entries: seq<Entry<B>>, hit: B -> bool, base: int)
    requires forall k :: 0 <= k < |entries| ==> entries[k].id == base + k
    ensures StrictlyIncreasing(Ids(Select(entries, hit)))
  {
    if entries != [] && hit(entries[0].box) {
      var rest := entries[1..];
      SelectNumberedAscending(rest, hit, base + 1);
      SelectNumberedMembers(rest, hit, base + 1);
      var tail := Ids(Select(rest, hit));
      var ids := Ids(Select(entries, hit));
      assert Select(entries, hit) == [entries[0]] + Select(rest, hit);
      assert ids == [base] + tail;
      forall i, j | 0 <= i < j < |ids|
        ensures ids[i] < ids[j]
      {
        assert ids[j] == tail[j - 1] && tail[j - 1] in tail;
        if i > 0 {
          assert ids[i] == tail[i - 1];
        }
      }
    } else if entries != [] {
      SelectNumberedAscending(entries[1..], hit, base + 1);
      assert Select(entries, hit) == Select(entries[1..], hit);
    }
  }

  /** The same for a tree numbered from zero: identity `i` comes back exactly when entry `i` is accepted. */
  lemma SelectPositions<B>(entries: seq<Entry<B>>, hit: B -> bool)
    requires IdsArePositions(entries)
    ensures forall i :: i in Ids(Select(entries, hit)) <==> 0 <= i < |entries| && hit(entries[i].box)
    ensures StrictlyIncreasing(Ids(Select(entries, hit)))
  {
    SelectNumberedMembers(entries, hit, 0);
    SelectNumberedAscending(entries, hit, 0);
    var ids := Ids(Select(entries, hit));
    forall i
      ensures i in ids <==> 0 <= i < |entries| && hit(entries[i].box)
    {
      assert i - 0 == i;
    }
  }
}
