/**
  The MbrIndex facade of core/src/fragment/mbr_index.cc: a dimension field
  that selects one of two packed R-trees, a bulk load from caller coordinate
  blocks, and an intersection query that appends matching identities to the
  caller's result vector and sorts that vector.
 */
module Fragment {
  import opened Geometry
  import opened Sorting
  import opened PackedTree

  /** TILEDB_MI_OK and TILEDB_MI_ERR. */
  datatype Status = MiOk | MiErr

  /** Every block holds at least `len` coordinates (the decoder reads the first `len`). */
  predicate BlocksFit(mbrs: seq<seq<real>>, len: nat) {
    forall i :: 0 <= i < |mbrs| ==> |mbrs[i]| >= len
  }

  /** `tree` is what a bulk load of `mbrs` stores: entry i is block i decoded, with identity i. */
  predicate PackedFrom2d(tree: seq<Entry<Box2d>>, mbrs: seq<seq<real>>)
    requires BlocksFit(mbrs, BLOCK_LEN_2D)
  {
    |tree| == |mbrs| && forall i :: 0 <= i < |mbrs| ==> tree[i] == Entry(DecodeBox2d(mbrs[i]), i)
  }

  predicate PackedFrom3d(tree: seq<Entry<Box3d>>, mbrs: seq<seq<real>>)
    requires BlocksFit(mbrs, BLOCK_LEN_3D)
  {
    |tree| == |mbrs| && forall i :: 0 <= i < |mbrs| ==> tree[i] == Entry(DecodeBox3d(mbrs[i]), i)
  }

  /** The query predicate `intersects(window)` of the geometry library, as a predicate on stored boxes. */
  function Hits2d(window: Box2d): Box2d -> bool {
    (b: Box2d) => Intersects2d(b, window)
  }

  function Hits3d(window: Box3d): Box3d -> bool {
    (b: Box3d) => Intersects3d(b, window)
  }

  /** The values an intersection query on `tree` hands back. */
  function Query2d(tree: seq<Entry<Box2d>>, window: Box2d): seq<Entry<Box2d>> {
    Select(tree, Hits2d(window))
  }

  function Query3d(tree: seq<Entry<Box3d>>, window: Box3d): seq<Entry<Box3d>> {
    Select(tree, Hits3d(window))
  }

  /** Over a tree loaded from `mbrs`, the query reports identity i exactly when block i's box meets the window. */
  lemma QueryExact2d(tree: seq<Entry<Box2d>>, mbrs: seq<seq<real>>, window: Box2d)
    requires BlocksFit(mbrs, BLOCK_LEN_2D) && PackedFrom2d(tree, mbrs)
    ensures forall i :: i in Ids(Query2d(tree, window)) <==>
                          0 <= i < |mbrs| && Intersects2d(DecodeBox2d(mbrs[i]), window)
    ensures StrictlyIncreasing(Ids(Query2d(tree, window)))
  {
    SelectPositions(tree, Hits2d(window));
  }

  lemma QueryExact3d(tree: seq<Entry<Box3d>>, mbrs: seq<seq<real>>, window: Box3d)
    requires BlocksFit(mbrs, BLOCK_LEN_3D) && PackedFrom3d(tree, mbrs)
    ensures forall i :: i in Ids(Query3d(tree, window)) <==>
                          0 <= i < |mbrs| && Intersects3d(DecodeBox3d(mbrs[i]), window)
    ensures StrictlyIncreasing(Ids(Query3d(tree, window)))
  {
    SelectPositions(tree, Hits3d(window));
  }

  /**
    A query whose window is decoded from block i itself reports i exactly when
    that block is not inverted on any axis: window and entries share one layout.
   */
  lemma SelfQuery2d(tree: seq<Entry<Box2d>>, mbrs: seq<seq<real>>, i: int)
    requires BlocksFit(mbrs, BLOCK_LEN_2D) && PackedFrom2d(tree, mbrs)
    requires 0 <= i < |mbrs|
    ensures i in Ids(Query2d(tree, DecodeBox2d(mbrs[i]))) <==> mbrs[i][0] <= mbrs[i][1] && mbrs[i][2] <= mbrs[i][3]
  {
    QueryExact2d(tree, mbrs, DecodeBox2d(mbrs[i]));
    SelfIntersects2d(DecodeBox2d(mbrs[i]));
    DecodedProper2d(mbrs[i]);
  }

  lemma SelfQuery3d(tree: seq<Entry<Box3d>>, mbrs: seq<seq<real>>, i: int)
    requires BlocksFit(mbrs, BLOCK_LEN_3D) && PackedFrom3d(tree, mbrs)
    requires 0 <= i < |mbrs|
    ensures i in Ids(Query3d(tree, DecodeBox3d(mbrs[i]))) <==>
              mbrs[i][0] <= mbrs[i][1] && mbrs[i][2] <= mbrs[i][3] && mbrs[i][4] <= mbrs[i][5]
  {
    QueryExact3d(tree, mbrs, DecodeBox3d(mbrs[i]));
    SelfIntersects3d(DecodeBox3d(mbrs[i]));
    DecodedProper3d(mbrs[i]);
  }

  /** Appends the identities of `q` to `result` and sorts the whole vector. */
  method AppendSorted<B>(result: seq<int>, q: seq<Entry<B>>) returns (sorted: seq<int>)
    ensures Sorted(sorted)
    ensures multiset(sorted) == multiset(result) + multiset(Ids(q))
    ensures result == [] && StrictlyIncreasing(Ids(q)) ==> sorted == Ids(q)
  {
    // std::transform through a back_inserter
    var appended := result;
    for k := 0 to |q|
      invariant appended == result + Ids(q[..k])
    {
      assert Ids(q[..k + 1]) == Ids(q[..k]) + [q[k].id];
      appended := appended + [q[k].id];
    }
    assert q[..|q|] == q;
    // std::sort over the vector's storage
    var storage := new int[|appended|](k requires 0 <= k < |appended| => appended[k]);
    assert storage[..] == appended;
    SortInPlace(storage);
    sorted := storage[..];
    if result == [] && StrictlyIncreasing(Ids(q)) {
      StrictlyIncreasingIsSorted(Ids(q));
      SortedPermutationUnique(sorted, Ids(q));
    }
  }

  class MbrIndex {
    /** 0 before any successful build, then the dimensionality of the last one. */
    var dimNum: int
    /** The entries of the 2D and of the 3D packed tree. */
    var rtree2d: seq<Entry<Box2d>>
    var rtree3d: seq<Entry<Box3d>>

    ghost predicate Valid()
      reads this
    {
      && (dimNum == 0 || dimNum == 2 || dimNum == 3)
      && IdsArePositions(rtree2d)
      && IdsArePositions(rtree3d)
    }

    constructor ()
      ensures Valid()
      ensures dimNum == 0 && rtree2d == [] && rtree3d == []
    {
      dimNum := 0;
      rtree2d := [];
      rtree3d := [];
    }

    /**
      Bulk-loads the tree of dimensionality `dim` from `mbrs`. Any `dim` other
      than 2 or 3 is refused and nothing changes; otherwise the tree of that
      dimensionality is replaced and the other one is kept.
     */
    method BuildTree(mbrs: seq<seq<real>>, dim: int) returns (status: Status)
      requires Valid()
      requires dim == 2 ==> BlocksFit(mbrs, BLOCK_LEN_2D)
      requires dim == 3 ==> BlocksFit(mbrs, BLOCK_LEN_3D)
      modifies this
      ensures Valid()
      ensures dim == 2 ==> && status == MiOk && dimNum == 2
                           && PackedFrom2d(rtree2d, mbrs) && rtree3d == old(rtree3d)
      ensures dim == 3 ==> && status == MiOk && dimNum == 3
                           && PackedFrom3d(rtree3d, mbrs) && rtree2d == old(rtree2d)
      ensures dim != 2 && dim != 3 ==> && status == MiErr && dimNum == old(dimNum)
                                       && rtree2d == old(rtree2d) && rtree3d == old(rtree3d)
    {
      if dim == 2 {
        dimNum := 2;
        Build2d(mbrs);
      } else if dim == 3 {
        dimNum := 3;
        Build3d(mbrs);
      } else {
        return MiErr;
      }
      return MiOk;
    }

    method Build2d(mbrs: seq<seq<real>>)
      requires BlocksFit(mbrs, BLOCK_LEN_2D)
      modifies this`rtree2d
      ensures PackedFrom2d(rtree2d, mbrs) && IdsArePositions(rtree2d)
    {
      var pairs := new Entry<Box2d>[|mbrs|];
      for i := 0 to |mbrs|
        invariant forall k :: 0 <= k < i ==> pairs[k] == Entry(DecodeBox2d(mbrs[k]), k)
      {
        pairs[i] := Entry(DecodeBox2d(mbrs[i]), i);
      }
      rtree2d := pairs[..];
    }

    method Build3d(mbrs: seq<seq<real>>)
      requires BlocksFit(mbrs, BLOCK_LEN_3D)
      modifies this`rtree3d
      ensures PackedFrom3d(rtree3d, mbrs) && IdsArePositions(rtree3d)
    {
      var pairs := new Entry<Box3d>[|mbrs|];
      for i := 0 to |mbrs|
        invariant forall k :: 0 <= k < i ==> pairs[k] == Entry(DecodeBox3d(mbrs[k]), k)
      {
        pairs[i] := Entry(DecodeBox3d(mbrs[i]), i);
      }
      rtree3d := pairs[..];
    }

    /**
      Appends to `result` the identities of the entries of the current tree
      that intersect the window decoded from `subarray`, then sorts `result`.
      Without a built tree it fails and `result` is handed back unchanged.
      The index itself is only read.
     */
    method IntersectQuery(subarray: seq<real>, result: seq<int>) returns (status: Status, newResult: seq<int>)
      requires Valid()
      requires dimNum == 2 ==> |subarray| >= BLOCK_LEN_2D
      requires dimNum == 3 ==> |subarray| >= BLOCK_LEN_3D
      ensures dimNum == 2 ==>
                && status == MiOk && Sorted(newResult)
                && multiset(newResult) == multiset(result) + multiset(Ids(Query2d(rtree2d, DecodeBox2d(subarray))))
                && (result == [] ==> newResult == Ids(Query2d(rtree2d, DecodeBox2d(subarray))) && StrictlyIncreasing(newResult))
      ensures dimNum == 3 ==>
                && status == MiOk && Sorted(newResult)
                && multiset(newResult) == multiset(result) + multiset(Ids(Query3d(rtree3d, DecodeBox3d(subarray))))
                && (result == [] ==> newResult == Ids(Query3d(rtree3d, DecodeBox3d(subarray))) && StrictlyIncreasing(newResult))
      ensures dimNum != 2 && dimNum != 3 ==> status == MiErr && newResult == result
    {
      if dimNum == 2 {
        newResult := Intersect2d(subarray, result);
      } else if dimNum == 3 {
        newResult := Intersect3d(subarray, result);
      } else {
        return MiErr, result;
      }
      status := MiOk;
    }

    method Intersect2d(subarray: seq<real>, result: seq<int>) returns (newResult: seq<int>)
      requires Valid() && |subarray| >= BLOCK_LEN_2D
      ensures Sorted(newResult)
      ensures multiset(newResult) == multiset(result) + multiset(Ids(Query2d(rtree2d, DecodeBox2d(subarray))))
      ensures result == [] ==> newResult == Ids(Query2d(rtree2d, DecodeBox2d(subarray))) && StrictlyIncreasing(newResult)
    {
      var queryBox := DecodeBox2d(subarray);
      var q := Query2d(rtree2d, queryBox);
      SelectPositions(rtree2d, Hits2d(queryBox));
      newResult := AppendSorted(result, q);
    }

    method Intersect3d(subarray: seq<real>, result: seq<int>) returns (newResult: seq<int>)
      requires Valid() && |subarray| >= BLOCK_LEN_3D
      ensures Sorted(newResult)
      ensures multiset(newResult) == multiset(result) + multiset(Ids(Query3d(rtree3d, DecodeBox3d(subarray))))
      ensures result == [] ==> newResult == Ids(Query3d(rtree3d, DecodeBox3d(subarray))) && StrictlyIncreasing(newResult)
    {
      var queryBox := DecodeBox3d(subarray);
      var q := Query3d(rtree3d, queryBox);
      SelectPositions(rtree3d, Hits3d(queryBox));
      newResult := AppendSorted(result, q);
    }
  }
}
