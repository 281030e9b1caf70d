/** The VRM avatar: loading with its fatal checks, the rest-pose snapshot,
    pose application, the per-frame update of its four subsystems and teardown
    of its scene. */
module Avatar {
  import opened Wrappers
  import opened Pose
  import opened SkinReducer

  /** The data of one glTF extension, known only by identity. */
  datatype Extension = Extension(id: nat)

  /** A blend-shape proxy built by the parts builder, known only by identity. */
  type BlendShapeProxyId = nat

  /** What the loader was handed: the extensions block of the glTF JSON (absent
      or a name-to-data map) and the scene. */
  datatype Gltf = Gltf(extensions: Option<map<string, Extension>>, scene: Scene)

  /** The fatal errors of loading. */
  datatype LoadError = NotAVrmFile | NoHumanBones | BlendShapeCreationFailed

  /** The parts a successful load keeps. */
  datatype Parts = Parts(humanBones: HumanBones, blendShapeProxy: BlendShapeProxyId)

  /** A call made on one of the four subsystems the avatar drives. */
  datatype Event =
    | LookAtUpdate
    | AnimationMixerUpdate(delta: real)
    | BlendShapeProxyUpdate
    | SpringBoneLateUpdate(delta: real)

  predicate HasVrmExtension(extensions: Option<map<string, Extension>>) {
    extensions.Some? && "VRM" in extensions.value
  }

  /** The outcome of the three fatal checks, in the order loading makes them:
      the VRM extension, then the human bones, then the blend-shape proxy. */
  function CheckParts(extensions: Option<map<string, Extension>>, humanoid: Option<HumanBones>,
                      blendShapeProxy: Option<BlendShapeProxyId>): (r: Result<Parts, LoadError>)
    ensures r.Success? <==> HasVrmExtension(extensions) && humanoid.Some? && blendShapeProxy.Some?
    ensures r == Failure(NotAVrmFile) <==> !HasVrmExtension(extensions)
    ensures r == Failure(NoHumanBones) <==> HasVrmExtension(extensions) && humanoid.None?
    ensures r == Failure(BlendShapeCreationFailed) <==>
      HasVrmExtension(extensions) && humanoid.Some? && blendShapeProxy.None?
    ensures r.Success? ==> r.value == Parts(humanoid.value, blendShapeProxy.value)
  {
    if !HasVrmExtension(extensions) then Failure(NotAVrmFile)
    else if humanoid.None? then Failure(NoHumanBones)
    else if blendShapeProxy.None? then Failure(BlendShapeCreationFailed)
    else Success(Parts(humanoid.value, blendShapeProxy.value))
  }

  /** The snapshot of every human bone's position and rotation, taken bone by bone. */
  method CaptureRestPose(humanBones: HumanBones) returns (restPose: HumanBones)
    ensures restPose.Keys == humanBones.Keys
    ensures forall n :: n in humanBones ==>
      restPose[n].position == humanBones[n].position && restPose[n].rotation == humanBones[n].rotation
  {
    restPose := map[];
    var names := humanBones.Keys;
    while names != {}
      invariant names <= humanBones.Keys
      invariant restPose.Keys == humanBones.Keys - names
      invariant forall n :: n in restPose ==> restPose[n] == humanBones[n]
      decreases names
    {
      var vrmBoneName :| vrmBoneName in names;
      var bone := humanBones[vrmBoneName];
      restPose := restPose[vrmBoneName := Transform(bone.position, bone.rotation)];
      names := names - {vrmBoneName};
    }
  }

  /** The calls one `update(delta)` makes, in order. */
  function FrameEvents(delta: real): seq<Event> {
    [LookAtUpdate, AnimationMixerUpdate(delta), BlendShapeProxyUpdate, SpringBoneLateUpdate(delta)]
  }

  /** The calls made by one update per delta of `deltas`, in order. */
  function Frames(deltas: seq<real>): seq<Event> {
    if deltas == [] then [] else Frames(deltas[..|deltas| - 1]) + FrameEvents(deltas[|deltas| - 1])
  }

  /** Frame i occupies events 4i to 4i+3: gaze first, then the animation mixer
      and the blend shapes, and the spring bones last, each exactly once. */
  lemma {:induction false} FramesAt(deltas: seq<real>, i: nat)
    requires i < |deltas|
    ensures |Frames(deltas)| == 4 * |deltas|
    ensures Frames(deltas)[4 * i] == LookAtUpdate
    ensures Frames(deltas)[4 * i + 1] == AnimationMixerUpdate(deltas[i])
    ensures Frames(deltas)[4 * i + 2] == BlendShapeProxyUpdate
    ensures Frames(deltas)[4 * i + 3] == SpringBoneLateUpdate(deltas[i])
  {
    var p := deltas[..|deltas| - 1];
    if i < |p| {
      FramesAt(p, i);
      assert p[i] == deltas[i];
    } else {
      FramesLength(p);
    }
  }

  lemma {:induction false} FramesLength(deltas: seq<real>)
    ensures |Frames(deltas)| == 4 * |deltas|
  {
    if deltas != [] {
      FramesLength(deltas[..|deltas| - 1]);
    }
  }

  /** Every animation step is followed, two calls later and in the same frame,
      by the spring-bone step with the same delta, so secondary motion always
      acts on the animated pose and is never overwritten by it. */
  lemma SpringBonesFollowAnimation(deltas: seq<real>, j: nat)
    requires j < |Frames(deltas)| && Frames(deltas)[j].AnimationMixerUpdate?
    ensures j + 2 < |Frames(deltas)|
    ensures Frames(deltas)[j + 2] == SpringBoneLateUpdate(Frames(deltas)[j].delta)
  {
    FramesLength(deltas);
    var i := j / 4;
    FramesAt(deltas, i);
    assert j == 4 * i + 1;
  }

  /** An update appends one frame to the calls of the frames before it. */
  lemma UpdateExtendsFrames(deltas: seq<real>, delta: real)
    ensures Frames(deltas + [delta]) == Frames(deltas) + FrameEvents(delta)
    ensures |Frames(deltas + [delta])| == |Frames(deltas)| + 4
  {
    assert (deltas + [delta])[..|deltas|] == deltas;
  }

  /** The order in which teardown releases `children`: the last child, then
      the release order of the children before it. */
  function ReleaseOrder<T>(children: seq<T>): seq<T> {
    if children == [] then []
    else [children[|children| - 1]] + ReleaseOrder(children[..|children| - 1])
  }

  lemma {:induction false} ReleaseOrderLength<T>(children: seq<T>)
    ensures |ReleaseOrder(children)| == |children|
  {
    if children != [] {
      ReleaseOrderLength(children[..|children| - 1]);
    }
  }

  /** The k-th child released is the k-th child counted from the end. */
  lemma {:induction false} ReleaseOrderAt<T>(children: seq<T>, k: nat)
    requires k < |children|
    ensures |ReleaseOrder(children)| == |children|
    ensures ReleaseOrder(children)[k] == children[|children| - 1 - k]
  {
    ReleaseOrderLength(children);
    var front := children[..|children| - 1];
    if 0 < k {
      ReleaseOrderAt(front, k - 1);
      assert ReleaseOrder(children)[k] == ReleaseOrder(front)[k - 1];
    }
  }

  /** Teardown releases each child as often as it occurs among the children. */
  lemma {:induction false} ReleaseOrderPermutes<T>(children: seq<T>)
    ensures multiset(ReleaseOrder(children)) == multiset(children)
  {
    if children != [] {
      var front := children[..|children| - 1];
      ReleaseOrderPermutes(front);
      assert children == front + [children[|children| - 1]];
    }
  }

  lemma {:induction false} DistinctOnce<T>(s: seq<T>, x: T)
    requires Distinct(s) && x in s
    ensures multiset(s)[x] == 1
  {
    assert s == [s[0]] + s[1..];
    if s[0] == x {
      assert x !in s[1..];
    } else {
      DistinctOnce(s[1..], x);
    }
  }

  /** Teardown of distinct children releases each of them exactly once. */
  lemma ReleasedOnce<T>(children: seq<T>, x: T)
    requires Distinct(children) && x in children
    ensures multiset(ReleaseOrder(children))[x] == 1
  {
    ReleaseOrderPermutes(children);
    DistinctOnce(children, x);
  }

  /** Appending the release order of distinct children to a release log adds
      one release of each child. */
  lemma ReleasedOnceEach<T>(log: seq<T>, children: seq<T>)
    requires Distinct(children)
    ensures forall c :: c in children ==> multiset(log + ReleaseOrder(children))[c] == multiset(log)[c] + 1
  {
    forall c | c in children
      ensures multiset(log + ReleaseOrder(children))[c] == multiset(log)[c] + 1
    {
      ReleasedOnce(children, c);
    }
  }

  /** `children` without the first occurrence of `x`: how a node detaches a
      child (three.js looks the child up with `indexOf` and splices it out). */
  function Remove<T(==)>(children: seq<T>, x: T): (r: seq<T>)
    ensures x in children ==> |r| == |children| - 1
    ensures x !in children ==> r == children
  {
    if children == [] then []
    else if children[0] == x then children[1..]
    else [children[0]] + Remove(children[1..], x)
  }

  /** Detaching the last of distinct children leaves distinct children whose
      release order follows the detached one. */
  lemma DetachLast<T>(children: seq<T>)
    requires children != [] && Distinct(children)
    ensures Distinct(Remove(children, children[|children| - 1]))
    ensures ReleaseOrder(children)
         == [children[|children| - 1]] + ReleaseOrder(Remove(children, children[|children| - 1]))
  {
    RemoveLast(children);
  }

  /** Among distinct children, detaching the last one leaves the ones before it. */
  lemma {:induction false} RemoveLast<T>(children: seq<T>)
    requires children != [] && Distinct(children)
    ensures Remove(children, children[|children| - 1]) == children[..|children| - 1]
  {
    var x := children[|children| - 1];
    if children[0] != x {
      var rest := children[1..];
      assert rest[|rest| - 1] == x;
      RemoveLast(rest);
      assert [children[0]] + rest[..|rest| - 1] == children[..|children| - 1];
    }
  }

  /** The root of the avatar's scene graph. */
  class Scene {
    var children: seq<Object3D>

    /** A node is a child at most once: three.js detaches a node before it adds it. */
    ghost predicate Valid()
      reads this
    {
      Distinct(children)
    }

    constructor (children: seq<Object3D>)
      requires Distinct(children)
      ensures Valid()
      ensures this.children == children
    {
      this.children := children;
    }
  }

  class Vrm {
    const scene: Scene
    /** The rest pose captured at load time. */
    const restPose: HumanBones
    /** The live transforms of the human bones. */
    var humanBones: HumanBones
    const blendShapeProxy: BlendShapeProxyId
    /** The calls made on the gaze, animation-mixer, blend-shape and spring-bone subsystems. */
    var trace: seq<Event>
    /** The scene children released so far, in order. */
    var released: seq<Object3D>

    /** Every human bone has a rest entry and nothing else has. */
    ghost predicate Valid()
      reads this
    {
      restPose.Keys == humanBones.Keys
    }

    /** Keeps the checked parts and snapshots the rest pose. */
    constructor (scene: Scene, humanBones: HumanBones, blendShapeProxy: BlendShapeProxyId)
      ensures Valid()
      ensures this.scene == scene && this.humanBones == humanBones
      ensures this.blendShapeProxy == blendShapeProxy
      ensures restPose == humanBones
      ensures trace == [] && released == []
    {
      this.scene := scene;
      this.humanBones := humanBones;
      this.blendShapeProxy := blendShapeProxy;
      var rest := CaptureRestPose(humanBones);
      this.restPose := rest;
      this.trace := [];
      this.released := [];
    }

    /** Loading: fails without touching the scene when the VRM extension is
        absent; otherwise reduces the skins of the scene first and then fails
        when the human bones or the blend-shape proxy could not be built. */
    static method Load(gltf: Gltf, humanoid: Option<HumanBones>, blendShapeProxy: Option<BlendShapeProxyId>)
      returns (r: Result<Vrm, LoadError>)
      requires HasVrmExtension(gltf.extensions) ==> ReducibleNodes(gltf.scene.children)
      modifies set o | o in gltf.scene.children
      ensures r.Failure? ==> CheckParts(gltf.extensions, humanoid, blendShapeProxy) == Failure(r.error)
      ensures r.Success? ==> CheckParts(gltf.extensions, humanoid, blendShapeProxy).Success?
      ensures !HasVrmExtension(gltf.extensions) ==>
        forall o :: o in gltf.scene.children ==>
          o.skinIndex == old(o.skinIndex) && o.skeleton == old(o.skeleton) && o.bindMatrix == old(o.bindMatrix)
      ensures HasVrmExtension(gltf.extensions) ==>
        forall o :: o in gltf.scene.children && !o.IsSkinnedMesh() ==>
          o.skinIndex == old(o.skinIndex) && o.skeleton == old(o.skeleton) && o.bindMatrix == old(o.bindMatrix)
      ensures HasVrmExtension(gltf.extensions) ==>
        forall o :: o in gltf.scene.children && o.IsSkinnedMesh() ==>
          o.skinIndex == Remap(old(o.skinIndex)) && o.bindMatrix == Identity
          && o.skeleton == ReducedSkeleton(old(o.skinIndex), old(o.skeleton))
      ensures r.Success? ==>
        && fresh(r.value) && r.value.Valid()
        && r.value.scene == gltf.scene
        && r.value.humanBones == humanoid.value && r.value.restPose == humanoid.value
        && r.value.blendShapeProxy == blendShapeProxy.value
        && r.value.trace == [] && r.value.released == []
    {
      if !HasVrmExtension(gltf.extensions) {
        return Failure(NotAVrmFile);
      }
      ReduceBones(gltf.scene.children);
      if humanoid.None? {
        return Failure(NoHumanBones);
      }
      if blendShapeProxy.None? {
        return Failure(BlendShapeCreationFailed);
      }
      var vrm := new Vrm(gltf.scene, humanoid.value, blendShapeProxy.value);
      return Success(vrm);
    }

    /** Applies `pose` name by name; names without a human bone or a rest entry
        are skipped. */
    method SetPose(pose: VrmPose)
      requires Valid()
      modifies this`humanBones
      ensures Valid()
      ensures humanBones == ApplyPose(old(humanBones), restPose, pose)
    {
      var names := pose.Keys;
      ghost var done: set<string> := {};
      while names != {}
        invariant names !! done && names + done == pose.Keys
        invariant humanBones.Keys == old(humanBones).Keys
        invariant forall n :: n in humanBones ==>
          humanBones[n] == if n in done && n in restPose then ApplyState(old(humanBones)[n], restPose[n], pose[n])
                           else old(humanBones)[n]
        decreases names
      {
        var boneName :| boneName in names;
        names := names - {boneName};
        done := done + {boneName};
        var state := pose[boneName];
        if boneName !in humanBones {
          continue;
        }
        var targetBone := humanBones[boneName];
        if boneName !in restPose {
          continue;
        }
        var restState := restPose[boneName];
        if state.position.Some? {
          targetBone := targetBone.(position := Add(restState.position, state.position.value));
        }
        if state.rotation.Some? {
          targetBone := targetBone.(rotation := state.rotation.value);
        }
        humanBones := humanBones[boneName := targetBone];
      }
      assert humanBones == ApplyPose(old(humanBones), restPose, pose);
    }

    /** One frame: gaze, animation by `delta`, blend shapes, then spring bones
        by `delta`. The subsystems may move the human bones, but never add or
        remove one. */
    method Update(delta: real)
      modifies this`trace, this`humanBones
      ensures trace == old(trace) + FrameEvents(delta)
      ensures humanBones.Keys == old(humanBones).Keys
    {
      trace := trace + [LookAtUpdate];
      trace := trace + [AnimationMixerUpdate(delta)];
      trace := trace + [BlendShapeProxyUpdate];
      trace := trace + [SpringBoneLateUpdate(delta)];
    }

    /** Releases and detaches the scene's children, last child first, until
        none is left; each former child is released exactly once. */
    method Dispose()
      requires scene.Valid()
      modifies scene, this`released
      ensures scene.Valid() && scene.children == []
      ensures released == old(released) + ReleaseOrder(old(scene.children))
      ensures forall c :: c in old(scene.children) ==> multiset(released)[c] == multiset(old(released))[c] + 1
    {
      while |scene.children| > 0
        invariant scene.Valid()
        invariant released + ReleaseOrder(scene.children) == old(released) + ReleaseOrder(old(scene.children))
        decreases |scene.children|
      {
        var child := scene.children[|scene.children| - 1];
        DetachLast(scene.children);
        released := released + [child];
        scene.children := Remove(scene.children, child);
      }
      ReleasedOnceEach(old(released), old(scene.children));
    }
  }
}
