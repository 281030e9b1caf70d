/** Skin reduction: every skinned mesh of a loaded avatar is rebound to the
    smallest skeleton that holds exactly the joints its vertices reference,
    with its per-vertex joint indices renumbered in order of first appearance. */
module SkinReducer {

  /** An opaque handle on a joint node of the scene graph. */
  type BoneRef = nat

  /** A 4x4 matrix, known only by identity; `new THREE.Matrix4()` is the identity. */
  datatype Matrix = Identity | Matrix(id: nat)

  /** A skeleton: joints and their inverse-bind matrices, in parallel. */
  datatype Skeleton = Skeleton(bones: seq<BoneRef>, boneInverses: seq<Matrix>) {
    /** The skeleton keeps one inverse-bind matrix per joint. */
    predicate Valid() {
      |bones| == |boneInverses|
    }
  }

  /** Every joint index of the skin buffer names a joint of the skeleton. */
  predicate SkinBound(skinIndex: seq<nat>, skeleton: Skeleton) {
    && skeleton.Valid()
    && forall i :: 0 <= i < |skinIndex| ==> skinIndex[i] < |skeleton.bones|
  }

  /** No element occurs twice. */
  predicate Distinct<T(==)>(s: seq<T>) {
    forall i, j :: 0 <= i < j < |s| ==> s[i] != s[j]
  }

  /** The distinct values of `s`, in the order in which they first appear. */
  function FirstSeen(s: seq<nat>): (r: seq<nat>)
    ensures Distinct(r)
    ensures forall x :: x in r <==> x in s
  {
    if s == [] then []
    else
      var p := FirstSeen(s[..|s| - 1]);
      assert s == s[..|s| - 1] + [s[|s| - 1]];
      if s[|s| - 1] in p then p else p + [s[|s| - 1]]
  }

  /** The position of the first occurrence of `x` in `r`. */
  function IndexOf(r: seq<nat>, x: nat): (k: nat)
    requires x in r
    ensures k < |r| && r[k] == x
    ensures forall j :: 0 <= j < k ==> r[j] != x
  {
    if r[0] == x then 0 else 1 + IndexOf(r[1..], x)
  }

  /** The renumbered skin buffer: each old joint index is replaced by the rank
      of its first appearance among the distinct indices of the buffer. */
  function Remap(s: seq<nat>): (t: seq<nat>)
    ensures |t| == |s|
  {
    var order := FirstSeen(s);
    seq(|s|, i requires 0 <= i < |s| => IndexOf(order, s[i]))
  }

  /** Each new index points into the distinct values at the old index it replaces. */
  lemma RemapLooksUp(s: seq<nat>)
    ensures forall i :: 0 <= i < |s| ==> Remap(s)[i] < |FirstSeen(s)| && FirstSeen(s)[Remap(s)[i]] == s[i]
  {
  }

  /** `xs` picked at the positions listed in `order`. */
  function Gather<T>(order: seq<nat>, xs: seq<T>): seq<T>
    requires forall k :: 0 <= k < |order| ==> order[k] < |xs|
  {
    seq(|order|, k requires 0 <= k < |order| => xs[order[k]])
  }

  lemma GatherSnoc<T>(order: seq<nat>, x: nat, xs: seq<T>)
    requires forall k :: 0 <= k < |order| ==> order[k] < |xs|
    requires x < |xs|
    ensures Gather(order + [x], xs) == Gather(order, xs) + [xs[x]]
  {
  }

  lemma BoundedSnoc(order: seq<nat>, x: nat, n: nat)
    requires forall k :: 0 <= k < |order| ==> order[k] < n
    requires x < n
    ensures forall k :: 0 <= k < |order + [x]| ==> (order + [x])[k] < n
  {
  }

  /** The skeleton a reduced mesh is rebound to: the referenced joints and their
      inverse-bind matrices, in order of first appearance in the skin buffer. */
  function ReducedSkeleton(skinIndex: seq<nat>, skeleton: Skeleton): (r: Skeleton)
    requires SkinBound(skinIndex, skeleton)
    ensures r.Valid()
    ensures SkinBound(Remap(skinIndex), r)
    ensures forall i :: 0 <= i < |skinIndex| ==>
      && r.bones[Remap(skinIndex)[i]] == skeleton.bones[skinIndex[i]]
      && r.boneInverses[Remap(skinIndex)[i]] == skeleton.boneInverses[skinIndex[i]]
  {
    var order := FirstSeen(skinIndex);
    assert forall k :: 0 <= k < |order| ==> order[k] in skinIndex;
    Skeleton(Gather(order, skeleton.bones), Gather(order, skeleton.boneInverses))
  }

  /** The distinct joint indices a skin buffer references. */
  function Referenced(s: seq<nat>): set<nat> {
    set x | x in s
  }

  lemma {:induction false} DistinctCardinality(r: seq<nat>)
    requires Distinct(r)
    ensures |Referenced(r)| == |r|
  {
    if r != [] {
      var p := r[..|r| - 1];
      assert r == p + [r[|r| - 1]];
      assert Referenced(r) == Referenced(p) + {r[|r| - 1]};
      assert r[|r| - 1] !in Referenced(p);
      DistinctCardinality(p);
    }
  }

  /** The reduced skeleton has exactly one joint per distinct index the skin
      buffer references, and as many inverse-bind matrices as joints. */
  lemma ReducedSkeletonSize(skinIndex: seq<nat>, skeleton: Skeleton)
    requires SkinBound(skinIndex, skeleton)
    ensures |ReducedSkeleton(skinIndex, skeleton).bones| == |Referenced(skinIndex)|
    ensures |ReducedSkeleton(skinIndex, skeleton).boneInverses| == |Referenced(skinIndex)|
  {
    var order := FirstSeen(skinIndex);
    assert Referenced(order) == Referenced(skinIndex);
    DistinctCardinality(order);
  }

  /** When the rig's joints are pairwise distinct, so are the reduced skeleton's. */
  lemma ReducedBonesDistinct(skinIndex: seq<nat>, skeleton: Skeleton)
    requires SkinBound(skinIndex, skeleton)
    requires Distinct(skeleton.bones)
    ensures Distinct(ReducedSkeleton(skinIndex, skeleton).bones)
  {
    var order := FirstSeen(skinIndex);
    var r := ReducedSkeleton(skinIndex, skeleton).bones;
    forall i, j | 0 <= i < j < |r|
      ensures r[i] != r[j]
    {
      assert order[i] != order[j];
      assert order[i] in skinIndex && order[j] in skinIndex;
      if order[i] < order[j] {
        assert skeleton.bones[order[i]] != skeleton.bones[order[j]];
      } else {
        assert skeleton.bones[order[j]] != skeleton.bones[order[i]];
      }
    }
  }

  /** The distinct values of a prefix are a prefix of the distinct values. */
  lemma {:induction false} FirstSeenPrefix(s: seq<nat>, j: nat)
    requires j <= |s|
    ensures FirstSeen(s[..j]) <= FirstSeen(s)
    decreases |s| - j
  {
    if j < |s| {
      FirstSeenPrefix(s, j + 1);
      assert s[..j + 1][..j] == s[..j];
    } else {
      assert s[..j] == s;
    }
  }

  lemma IndexOfPrefix(p: seq<nat>, q: seq<nat>, x: nat)
    requires p <= q && x in p
    ensures IndexOf(q, x) == IndexOf(p, x)
  {
    var k := IndexOf(p, x);
    assert q[k] == x;
    var m := IndexOf(q, x);
    assert m <= k;
    assert p[m] == x;
  }

  /** Renumbering is done left to right: the output for a prefix of the buffer
      is the prefix of the output. */
  lemma RemapPrefix(s: seq<nat>, j: nat)
    requires j <= |s|
    ensures Remap(s[..j]) == Remap(s)[..j]
  {
    FirstSeenPrefix(s, j);
    forall i | 0 <= i < j
      ensures Remap(s[..j])[i] == Remap(s)[i]
    {
      IndexOfPrefix(FirstSeen(s[..j]), FirstSeen(s), s[i]);
    }
  }

  lemma FirstSeenSnoc(s: seq<nat>, x: nat)
    ensures FirstSeen(s + [x]) == if x in s then FirstSeen(s) else FirstSeen(s) + [x]
  {
    assert (s + [x])[..|s|] == s;
  }

  /** The renumbering of a buffer grown by one index. */
  lemma RemapSnoc(s: seq<nat>, x: nat)
    ensures Remap(s + [x]) == Remap(s) + [IndexOf(FirstSeen(s + [x]), x)]
  {
    assert (s + [x])[..|s|] == s;
    RemapPrefix(s + [x], |s|);
  }

  /** First-seen numbering: the entry at position i gets a fresh number (one
      past all numbers handed out before it) exactly when its old index has not
      appeared earlier, and otherwise reuses an earlier number. */
  lemma FirstAppearance(s: seq<nat>, i: nat)
    requires i < |s|
    ensures Remap(s)[i] <= |FirstSeen(s[..i])|
    ensures Remap(s)[i] == |FirstSeen(s[..i])| <==> s[i] !in s[..i]
    ensures forall j :: 0 <= j < i ==> Remap(s)[j] < |FirstSeen(s[..i])|
  {
    RemapPrefix(s, i + 1);
    RemapPrefix(s, i);
    assert s[..i + 1] == s[..i] + [s[i]];
    RemapSnoc(s[..i], s[i]);
    var p := FirstSeen(s[..i]);
    if s[i] in s[..i] {
      assert FirstSeen(s[..i + 1]) == p;
    } else {
      assert FirstSeen(s[..i + 1]) == p + [s[i]];
    }
    forall j | 0 <= j < i
      ensures Remap(s)[j] < |p|
    {
      assert Remap(s)[j] == Remap(s[..i])[j];
    }
  }

  /** 0, 1, ..., n - 1 */
  function Range(n: nat): (r: seq<nat>)
    ensures |r| == n && forall k :: 0 <= k < n ==> r[k] == k
  {
    if n == 0 then [] else Range(n - 1) + [n - 1]
  }

  /** The renumbered buffer meets its joints in the order 0, 1, 2, ...:
      the new indices are handed out in first-seen order. */
  lemma {:induction false} RemapFirstSeen(s: seq<nat>)
    ensures FirstSeen(Remap(s)) == Range(|FirstSeen(s)|)
    decreases |s|
  {
    if s != [] {
      var p, x := s[..|s| - 1], s[|s| - 1];
      assert s == p + [x];
      RemapFirstSeen(p);
      RemapSnoc(p, x);
      FirstSeenSnoc(p, x);
      var v := IndexOf(FirstSeen(s), x);
      var n := |FirstSeen(p)|;
      assert Remap(s) == Remap(p) + [v];
      FirstSeenSnoc(Remap(p), v);
      if x in p {
        assert FirstSeen(s) == FirstSeen(p);
        assert v < n && Range(n)[v] == v;
        assert v in FirstSeen(Remap(p));
      } else {
        assert FirstSeen(s) == FirstSeen(p) + [x];
        assert x !in FirstSeen(p);
        assert v == n;
        assert v !in FirstSeen(Remap(p));
        assert Range(n + 1) == Range(n) + [n];
      }
    }
  }

  /** A buffer whose joints first appear in the order 0, 1, 2, ... is left as it is. */
  lemma CanonicalFixed(t: seq<nat>)
    requires FirstSeen(t) == Range(|FirstSeen(t)|)
    ensures Remap(t) == t
  {
    forall i | 0 <= i < |t|
      ensures Remap(t)[i] == t[i]
    {
    }
  }

  /** Reducing an already reduced mesh changes neither its skin buffer nor its skeleton. */
  lemma ReduceIdempotent(skinIndex: seq<nat>, skeleton: Skeleton)
    requires SkinBound(skinIndex, skeleton)
    ensures Remap(Remap(skinIndex)) == Remap(skinIndex)
    ensures ReducedSkeleton(Remap(skinIndex), ReducedSkeleton(skinIndex, skeleton))
         == ReducedSkeleton(skinIndex, skeleton)
  {
    RemapFirstSeen(skinIndex);
    CanonicalFixed(Remap(skinIndex));
  }

  /** The renumbering starts at 0. */
  lemma RemapStartsAtZero(s: seq<nat>)
    requires s != []
    ensures Remap(s)[0] == 0
  {
    FirstAppearance(s, 0);
  }

  /** The old-to-new index map of `reduceBones` numbers `order` by position. */
  ghost predicate NumbersOrder(boneIndexMap: map<nat, nat>, order: seq<nat>) {
    && (forall x :: x in boneIndexMap <==> x in order)
    && forall k :: 0 <= k < |order| ==> boneIndexMap[order[k]] == k
  }

  /** Meeting index `x` keeps the map numbering the first-seen list and looks up
      `x`'s rank in it. */
  lemma NumbersOrderStep(boneIndexMap: map<nat, nat>, order: seq<nat>, x: nat)
    requires NumbersOrder(boneIndexMap, order)
    ensures x !in boneIndexMap ==>
      && NumbersOrder(boneIndexMap[x := |order|], order + [x])
      && boneIndexMap[x := |order|][x] == IndexOf(order + [x], x)
    ensures x in boneIndexMap ==> boneIndexMap[x] == IndexOf(order, x)
  {
    if x !in boneIndexMap {
      var m := boneIndexMap[x := |order|];
      var o := order + [x];
      forall y
        ensures y in m <==> y in o
      {
        assert y in o <==> y in order || y == x;
      }
      forall k | 0 <= k < |o|
        ensures m[o[k]] == k
      {
        if k < |order| {
          assert o[k] == order[k];
        }
      }
      var j := IndexOf(o, x);
      assert m[o[j]] == j;
    } else {
      var j := IndexOf(order, x);
      assert boneIndexMap[order[j]] == j;
    }
  }

  /** What the pass over the skin buffer has built after its first `i` entries:
      the renumbered prefix, the map numbering the indices seen so far, and the
      joints and inverse-bind matrices of those indices in first-seen order. */
  ghost predicate PassState(skinIndex: seq<nat>, skeleton: Skeleton, i: nat, boneIndexMap: map<nat, nat>,
                            order: seq<nat>, remapped: seq<nat>, bones: seq<BoneRef>, boneInverses: seq<Matrix>)
  {
    && i <= |skinIndex|
    && order == FirstSeen(skinIndex[..i])
    && (forall k :: 0 <= k < |order| ==> order[k] < |skeleton.bones| && order[k] < |skeleton.boneInverses|)
    && remapped == Remap(skinIndex[..i])
    && bones == Gather(order, skeleton.bones)
    && boneInverses == Gather(order, skeleton.boneInverses)
    && NumbersOrder(boneIndexMap, order)
  }

  /** An index met for the first time is numbered `|bones|`, and its joint and
      inverse-bind matrix are appended. */
  lemma PassStepNew(skinIndex: seq<nat>, skeleton: Skeleton, i: nat, boneIndexMap: map<nat, nat>,
                    order: seq<nat>, remapped: seq<nat>, bones: seq<BoneRef>, boneInverses: seq<Matrix>)
    requires SkinBound(skinIndex, skeleton) && i < |skinIndex| && skinIndex[i] !in boneIndexMap
    requires PassState(skinIndex, skeleton, i, boneIndexMap, order, remapped, bones, boneInverses)
    ensures PassState(skinIndex, skeleton, i + 1, boneIndexMap[skinIndex[i] := |bones|], order + [skinIndex[i]],
                      remapped + [|bones|], bones + [skeleton.bones[skinIndex[i]]],
                      boneInverses + [skeleton.boneInverses[skinIndex[i]]])
  {
    var index := skinIndex[i];
    var seen := skinIndex[..i];
    assert skinIndex[..i + 1] == seen + [index];
    assert index !in seen;
    FirstSeenSnoc(seen, index);
    RemapSnoc(seen, index);
    NumbersOrderStep(boneIndexMap, order, index);
    BoundedSnoc(order, index, |skeleton.bones|);
    GatherSnoc(order, index, skeleton.bones);
    GatherSnoc(order, index, skeleton.boneInverses);
  }

  /** An index met before reuses the number the map holds for it. */
  lemma PassStepKnown(skinIndex: seq<nat>, skeleton: Skeleton, i: nat, boneIndexMap: map<nat, nat>,
                      order: seq<nat>, remapped: seq<nat>, bones: seq<BoneRef>, boneInverses: seq<Matrix>)
    requires SkinBound(skinIndex, skeleton) && i < |skinIndex| && skinIndex[i] in boneIndexMap
    requires PassState(skinIndex, skeleton, i, boneIndexMap, order, remapped, bones, boneInverses)
    ensures PassState(skinIndex, skeleton, i + 1, boneIndexMap, order, remapped + [boneIndexMap[skinIndex[i]]],
                      bones, boneInverses)
  {
    var index := skinIndex[i];
    var seen := skinIndex[..i];
    assert skinIndex[..i + 1] == seen + [index];
    assert index in seen;
    FirstSeenSnoc(seen, index);
    assert FirstSeen(skinIndex[..i + 1]) == order;
    RemapSnoc(seen, index);
    NumbersOrderStep(boneIndexMap, order, index);
    assert Remap(skinIndex[..i + 1]) == remapped + [boneIndexMap[index]];
  }

  /** One pass over the skin buffer, as `reduceBones` runs it: a map from old to
      new index and two growing lists of joints and inverse-bind matrices. */
  method RemapSkinIndex(skinIndex: seq<nat>, skeleton: Skeleton)
    returns (remapped: seq<nat>, bones: seq<BoneRef>, boneInverses: seq<Matrix>)
    requires SkinBound(skinIndex, skeleton)
    ensures remapped == Remap(skinIndex)
    ensures Skeleton(bones, boneInverses) == ReducedSkeleton(skinIndex, skeleton)
  {
    var boneIndexMap: map<nat, nat> := map[];
    ghost var order: seq<nat> := [];
    remapped, bones, boneInverses := [], [], [];
    var i := 0;
    while i < |skinIndex|
      invariant PassState(skinIndex, skeleton, i, boneIndexMap, order, remapped, bones, boneInverses)
    {
      var index := skinIndex[i];
      if index !in boneIndexMap {
        PassStepNew(skinIndex, skeleton, i, boneIndexMap, order, remapped, bones, boneInverses);
        boneIndexMap := boneIndexMap[index := |bones|];
        bones := bones + [skeleton.bones[index]];
        boneInverses := boneInverses + [skeleton.boneInverses[index]];
        order := order + [index];
      } else {
        PassStepKnown(skinIndex, skeleton, i, boneIndexMap, order, remapped, bones, boneInverses);
      }
      remapped := remapped + [boneIndexMap[index]];
      i := i + 1;
    }
    assert skinIndex[..i] == skinIndex;
  }

  /** A node of the avatar's scene graph; only skinned meshes carry a skin. */
  class Object3D {
    const objectType: string
    /** The `skinIndex` attribute of the mesh geometry. */
    var skinIndex: seq<nat>
    var skeleton: Skeleton
    var bindMatrix: Matrix

    constructor (objectType: string, skinIndex: seq<nat>, skeleton: Skeleton, bindMatrix: Matrix)
      ensures this.objectType == objectType && this.skinIndex == skinIndex
      ensures this.skeleton == skeleton && this.bindMatrix == bindMatrix
    {
      this.objectType := objectType;
      this.skinIndex := skinIndex;
      this.skeleton := skeleton;
      this.bindMatrix := bindMatrix;
    }

    predicate IsSkinnedMesh()
    {
      objectType == "SkinnedMesh"
    }

    /** A skinned mesh is reducible when every index of its skin buffer names
        one of its skeleton's joints. */
    predicate Reducible()
      reads this
    {
      IsSkinnedMesh() ==> SkinBound(skinIndex, skeleton)
    }

    /** Replaces the skin buffer by its renumbering and rebinds the mesh to the
        reduced skeleton with an identity bind matrix. */
    method ReduceSkin()
      requires IsSkinnedMesh() && SkinBound(skinIndex, skeleton)
      modifies this
      ensures skinIndex == Remap(old(skinIndex))
      ensures skeleton == ReducedSkeleton(old(skinIndex), old(skeleton))
      ensures bindMatrix == Identity
    {
      var remapped, bones, boneInverses := RemapSkinIndex(skinIndex, skeleton);
      skinIndex := remapped;
      skeleton := Skeleton(bones, boneInverses);
      bindMatrix := Identity;
    }
  }

  /** Distinct scene nodes, each reducible: what a traversal of a loaded scene visits. */
  predicate ReducibleNodes(nodes: seq<Object3D>)
    reads set o | o in nodes
  {
    && Distinct(nodes)
    && forall k :: 0 <= k < |nodes| ==> nodes[k].Reducible()
  }

  /** `reduceBones`: every skinned mesh among `nodes` is reduced and rebound;
      every other node is left untouched. */
  method ReduceBones(nodes: seq<Object3D>)
    requires ReducibleNodes(nodes)
    modifies set o | o in nodes
    ensures forall o :: o in nodes && !o.IsSkinnedMesh() ==>
      o.skinIndex == old(o.skinIndex) && o.skeleton == old(o.skeleton) && o.bindMatrix == old(o.bindMatrix)
    ensures forall o :: o in nodes && o.IsSkinnedMesh() ==>
      && o.skinIndex == Remap(old(o.skinIndex))
      && o.skeleton == ReducedSkeleton(old(o.skinIndex), old(o.skeleton))
      && o.bindMatrix == Identity
  {
    var i := 0;
    while i < |nodes|
      invariant i <= |nodes|
      invariant forall k :: 0 <= k < |nodes| && nodes[k].IsSkinnedMesh() ==>
        SkinBound(old(nodes[k].skinIndex), old(nodes[k].skeleton))
      invariant forall k :: i <= k < |nodes| ==>
        nodes[k].skinIndex == old(nodes[k].skinIndex) && nodes[k].skeleton == old(nodes[k].skeleton)
        && nodes[k].bindMatrix == old(nodes[k].bindMatrix)
      invariant forall k :: 0 <= k < i && !nodes[k].IsSkinnedMesh() ==>
        nodes[k].skinIndex == old(nodes[k].skinIndex) && nodes[k].skeleton == old(nodes[k].skeleton)
        && nodes[k].bindMatrix == old(nodes[k].bindMatrix)
      invariant forall k :: 0 <= k < i && nodes[k].IsSkinnedMesh() ==>
        && nodes[k].skinIndex == Remap(old(nodes[k].skinIndex))
        && nodes[k].skeleton == ReducedSkeleton(old(nodes[k].skinIndex), old(nodes[k].skeleton))
        && nodes[k].bindMatrix == Identity
    {
      var obj := nodes[i];
      assert forall k :: 0 <= k < |nodes| && k != i ==> nodes[k] != obj;
      if obj.IsSkinnedMesh() {
        obj.ReduceSkin();
      }
      i := i + 1;
    }
  }
}


