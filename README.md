# VRM avatar core, modelled in Dafny

This project models the core of `src/vrm/VRM.ts` of the three-vrm loader: the
`VRM` class that wraps a loaded glTF humanoid avatar, and the module function
`reduceBones` it runs while loading.

- **Skin reduction** (`skin_reducer.dfy`, module `SkinReducer`): `reduceBones`
  walks the scene. It leaves every node that is not a `SkinnedMesh` alone. For
  each skinned mesh it renumbers the flat `skinIndex` buffer (4 joint indices
  per vertex) in order of first appearance. It does this with a map from old to
  new index and two growing lists, one of joints and one of inverse-bind
  matrices. It then rebinds the mesh to the skeleton built from those lists,
  with an identity bind matrix. The pass over the buffer is the method
  `RemapSkinIndex`. It is proved equal to the functions `Remap` and
  `ReducedSkeleton`, and the properties of the reduction are lemmas about those
  functions: same joint and inverse-bind matrix per vertex, one joint per
  distinct index, first-seen numbering and idempotence.
- **Poses** (`pose.dfy`, module `Pose`): human bones are a map from bone name to
  a local transform (a position of three reals and an opaque four-number
  rotation). `ApplyPose` is the specification of `setPose`. For a posed bone
  the position becomes rest position + delta, component by component, and the
  rotation becomes the given value. Names with no human bone or no rest entry
  are skipped.
- **The avatar** (`vrm.dfy`, module `Avatar`): `Vrm.Load` is the `VRM`
  constructor. It makes three fatal checks, in this order: the VRM extension,
  the human bones, then the blend-shape proxy. It reduces the scene's skins
  between the first and second checks, and captures the rest pose on success.
  `Vrm.SetPose`, `Vrm.Update` and `Vrm.Dispose` change the object's state in
  place:
  - `Update` appends the four subsystem calls of one frame to an event trace.
  - `Dispose` releases and detaches the scene's children, last child first,
    until none is left. Detaching removes the first occurrence of the child,
    as three.js does; a node is never a child twice, so that is the last one.
- `wrappers.dfy` (module `Wrappers`) holds `Option` and `Result`.

Two behaviours of the code that are easy to misread:

- Loading fails with "no human bones" only when the humanoid loader returns
  nothing (`if (!humanBones)` at src/vrm/VRM.ts:153). A loader result with no
  bones at all is an empty object, which JavaScript treats as true, so that
  load succeeds.
- `dispose` releases and detaches one child at a time (src/vrm/VRM.ts:246-250).
  It does not release everything first and then detach.

## Model

| member | source | states |
|---|---|---|
| `SkinReducer.FirstSeen` | src/vrm/VRM.ts:267-277 | the list of new joints has no duplicate index and holds exactly the indices that occur in the skin buffer |
| `SkinReducer.Remap` | src/vrm/VRM.ts:270-278 | the new buffer has one entry per entry of the old buffer |
| `SkinReducer.RemapLooksUp` | src/vrm/VRM.ts:270-278 | each new index points into the first-seen list at the old index it replaces |
| `SkinReducer.ReducedSkeleton` | src/vrm/VRM.ts:267-283 | the new skeleton has one inverse-bind matrix per joint and bounds the new buffer; at every buffer position the new index names the same joint and the same inverse-bind matrix as the old index did |
| `SkinReducer.ReducedSkeletonSize` | src/vrm/VRM.ts:267-276 | the reduced joint list and inverse-bind list both have exactly as many entries as there are distinct indices in the skin buffer |
| `SkinReducer.ReducedBonesDistinct` | src/vrm/VRM.ts:272-276 | a joint is appended only once, so a rig without repeated joints gives a reduced skeleton without repeated joints |
| `SkinReducer.RemapPrefix` | src/vrm/VRM.ts:270-278 | the buffer is renumbered left to right: the output for a prefix is the prefix of the output |
| `SkinReducer.FirstAppearance` | src/vrm/VRM.ts:272-277 | an entry gets a fresh number, one past every number used before it, exactly when its old index has not occurred earlier; otherwise it reuses an earlier number |
| `SkinReducer.RemapStartsAtZero` | src/vrm/VRM.ts:272-273 | the first entry of a non-empty buffer is renumbered 0 |
| `SkinReducer.RemapFirstSeen` | src/vrm/VRM.ts:272-277 | in the new buffer the distinct indices first occur in the order 0, 1, 2, ... |
| `SkinReducer.CanonicalFixed` | src/vrm/VRM.ts:270-278 | a buffer whose distinct indices first occur as 0, 1, 2, ... is left unchanged by renumbering |
| `SkinReducer.ReduceIdempotent` | src/vrm/VRM.ts:270-283 | reducing an already reduced mesh returns the same skin buffer and the same skeleton |
| `SkinReducer.RemapSkinIndex` | src/vrm/VRM.ts:266-278 | the loop that fills the index map and the two joint lists returns exactly the renumbered buffer and the reduced skeleton |
| `SkinReducer.Object3D.ReduceSkin` | src/vrm/VRM.ts:261-283 | a skinned mesh gets the renumbered buffer, the reduced skeleton and the identity bind matrix |
| `SkinReducer.ReduceBones` | src/vrm/VRM.ts:254-287 | every skinned mesh among the nodes is reduced and rebound with the identity; every other node keeps its skin buffer, skeleton and bind matrix |
| `Pose.ApplyPose` | src/vrm/VRM.ts:187-214 | applying a pose never adds or removes a human bone |
| `Pose.ApplyPoseFrame` | src/vrm/VRM.ts:187-201 | a bone that is not named in the pose, or has no rest entry, keeps its transform |
| `Pose.ApplyPoseValues` | src/vrm/VRM.ts:203-213 | a posed bone's position becomes rest + delta component by component and its rotation becomes the given one; an absent field leaves that component as it was |
| `Pose.UnknownNamesIgnored` | src/vrm/VRM.ts:189-201 | dropping the pose's names that have no human bone or no rest entry gives the same result |
| `Pose.ApplyPoseIdempotent` | src/vrm/VRM.ts:203-213 | applying the same pose twice equals applying it once |
| `Pose.LaterPoseWins` | src/vrm/VRM.ts:203-213 | when the later pose gives a bone both fields, the earlier pose has no effect on that bone, and its rotation is exactly the later one |
| `Pose.ResetToRest` | src/vrm/VRM.ts:203-213 | applying zero deltas with the rest rotations puts every bone back at its rest transform |
| `Avatar.CheckParts` | src/vrm/VRM.ts:132-164 | loading succeeds exactly when all three parts are present; "not a VRM file" exactly when the VRM extension is absent; "no human bones" exactly when the extension is present and the humanoid is missing; "blend shape failed" exactly when only the proxy is missing |
| `Avatar.CaptureRestPose` | src/vrm/VRM.ts:170-176 | the snapshot has exactly the human bones' names, each with that bone's position and rotation |
| `Avatar.Vrm.constructor` | src/vrm/VRM.ts:156-176 | the new avatar keeps the checked human bones and proxy, its rest pose equals the bones at capture time, and its trace and release log are empty |
| `Avatar.Vrm.Load` | src/vrm/VRM.ts:123-176 | fails as `CheckParts` says; without the VRM extension the scene is untouched; with it every skinned mesh is reduced even if a later check fails; every node that is not a skinned mesh keeps its skin buffer, skeleton and bind matrix; on success the avatar's bones and rest pose are the loaded human bones |
| `Avatar.Vrm.SetPose` | src/vrm/VRM.ts:184-215 | the bones become `ApplyPose` of the old bones, the rest pose and the pose, and the rest pose still covers every bone |
| `Avatar.Vrm.Update` | src/vrm/VRM.ts:233-238 | the trace grows by gaze update, mixer update by delta, blend-shape update, spring-bone late update by delta, in that order; the subsystems may move bones but keep the set of human bone names |
| `Avatar.UpdateExtendsFrames` | src/vrm/VRM.ts:233-238 | one more update appends exactly one frame's four calls to the calls of the earlier frames |
| `Avatar.FramesAt` | src/vrm/VRM.ts:233-238 | after n updates the trace holds 4n calls, and frame i holds gaze, mixer(delta i), blend shapes, spring bones(delta i) at positions 4i to 4i+3 |
| `Avatar.SpringBonesFollowAnimation` | src/vrm/VRM.ts:235-237 | every mixer step is followed two calls later by the spring-bone step with the same delta |
| `Avatar.Vrm.Dispose` | src/vrm/VRM.ts:244-251 | the scene ends with no children; the release log grows by the release order of the former children, last first; each former child is released exactly once more |
| `Avatar.ReleaseOrderAt` | src/vrm/VRM.ts:246-249 | the k-th child released is the k-th child counted from the end |
| `Avatar.ReleaseOrderPermutes` | src/vrm/VRM.ts:246-250 | teardown releases every former child as often as it occurred among the children |
| `Avatar.ReleasedOnce` | src/vrm/VRM.ts:246-250 | with distinct children, each former child is released exactly once |
| `Avatar.Remove` | src/vrm/VRM.ts:249 | detaching a child shortens the children by one, and detaching a node that is not a child changes nothing |
| `Avatar.RemoveLast` | src/vrm/VRM.ts:247-249 | among distinct children, detaching the last child leaves exactly the children before it |

## Left out

- The builder (`VRMBuilder`, src/vrm/VRM.ts:12-32) and the static factories (lines 46-58). They are promise-based material conversion and dependency-injection plumbing.
- The parts builder's loaders: nodes map, humanoid, first person, blend-shape master, secondary motion and look-at (lines 151-167). Their results are parameters of `Vrm.Load`. The first person, spring-bone manager, look-at, animation mixer and meta objects are not kept, because nothing in the core reads them except through `update`.
- The internals of the look-at, animation mixer, blend-shape proxy and spring-bone manager. `update` records each call as an event in a trace.
- `deepDispose` internals. Releasing a child is an entry in the avatar's release log, and `scene.remove` resetting the child's parent is not modelled.
- `updateMatrixWorld` and setting `frustumCulled` to false on meshes (lines 139-147). These are rendering state with no effect on the modelled behaviour.
- The three.js operations `geometry.clone`, `removeAttribute`/`addAttribute`, `BufferAttribute`, `Skeleton` construction, `Matrix4` and `mesh.bind`. Joints and matrices are opaque ids, and a mesh's skin is three fields of an `Object3D`.
- The scene tree is flattened: `traverse` is modelled as a pass over the root's children, each a leaf.
- Human bones are values in a map, so two bone names that share one scene node (aliasing) are not modelled.
- Positions and rotations are exact reals, not IEEE doubles. Quaternions are copied and never computed with.
- `SkinReducer.ReducedSkeleton`: says nothing about the geometric result of skinning with the reduced skeleton, which needs matrix and floating-point arithmetic; the model proves only that each vertex keeps the same joint and inverse-bind matrix.
- `SkinReducer.ReduceBones`: requires distinct nodes whose skin indices are all below the joint count. The traversal visits each node once, and an index out of range would make the source push `undefined` joints.
- `Avatar.Vrm.Update`: the effect of the gaze, animation mixer and spring-bone subsystems on bone transforms is not modelled. The contract lets `update` change the human bones' transforms and promises only that no human bone is added or removed.
- `Avatar.Vrm.Dispose`: requires the scene's children to be distinct. three.js guarantees this, because adding a node first detaches it from its old parent. With a repeated child, `remove` would detach an earlier copy, and that case is not modelled.
