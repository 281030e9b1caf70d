/** Poses of the humanoid rig: local transforms of the named human bones and
    the "rest position plus delta, absolute rotation" rule by which a pose is
    applied to them. */
module Pose {
  import opened Wrappers

  datatype Vec3 = Vec3(x: real, y: real, z: real)

  /** A rotation quaternion, copied in and out as four numbers and never computed with. */
  datatype Quat = Quat(x: real, y: real, z: real, w: real)

  function Add(a: Vec3, b: Vec3): Vec3 {
    Vec3(a.x + b.x, a.y + b.y, a.z + b.z)
  }

  /** A bone's local position and rotation. */
  datatype Transform = Transform(position: Vec3, rotation: Quat)

  /** One bone's entry in a pose: a translation relative to the rest pose
      and an absolute rotation, either of which may be absent. */
  datatype BoneState = BoneState(position: Option<Vec3>, rotation: Option<Quat>)

  /** Human bone name to the live transform of that bone. */
  type HumanBones = map<string, Transform>

  /** Human bone name to the requested state of that bone. */
  type VrmPose = map<string, BoneState>

  /** The new transform of a posed bone. */
  function ApplyState(current: Transform, rest: Transform, state: BoneState): Transform {
    Transform(
      if state.position.Some? then Add(rest.position, state.position.value) else current.position,
      if state.rotation.Some? then state.rotation.value else current.rotation)
  }

  /** The human bones after `pose` is applied against the rest pose `rest`:
      a name is posed only when it names a human bone AND has a rest entry. */
  function ApplyPose(bones: HumanBones, rest: HumanBones, pose: VrmPose): (r: HumanBones)
    ensures r.Keys == bones.Keys
  {
    map n | n in bones :: if n in pose && n in rest then ApplyState(bones[n], rest[n], pose[n]) else bones[n]
  }

  /** Only the named, known bones move: a bone that is not in the pose, or has
      no rest entry, keeps its transform. */
  lemma ApplyPoseFrame(bones: HumanBones, rest: HumanBones, pose: VrmPose, n: string)
    requires n in bones && (n !in pose || n !in rest)
    ensures ApplyPose(bones, rest, pose)[n] == bones[n]
  {
  }

  /** A posed bone's position is the rest position plus the requested delta when
      one is given, and its rotation is the requested one when one is given;
      an absent field leaves that component as it was. */
  lemma ApplyPoseValues(bones: HumanBones, rest: HumanBones, pose: VrmPose, n: string)
    requires n in bones && n in pose && n in rest
    ensures var t := ApplyPose(bones, rest, pose)[n];
      && (pose[n].position.Some? ==>
            var d := pose[n].position.value;
            t.position == Vec3(rest[n].position.x + d.x, rest[n].position.y + d.y, rest[n].position.z + d.z))
      && (pose[n].position.None? ==> t.position == bones[n].position)
      && (pose[n].rotation.Some? ==> t.rotation == pose[n].rotation.value)
      && (pose[n].rotation.None? ==> t.rotation == bones[n].rotation)
  {
  }

  /** Names of the pose that are not human bones, or have no rest entry, are
      ignored: dropping them from the pose changes nothing. */
  lemma UnknownNamesIgnored(bones: HumanBones, rest: HumanBones, pose: VrmPose)
    ensures ApplyPose(bones, rest, pose)
         == ApplyPose(bones, rest, map n | n in pose && n in bones && n in rest :: pose[n])
  {
  }

  /** Applying the same pose twice is applying it once: translations are taken
      from the rest pose, not from the current position. */
  lemma ApplyPoseIdempotent(bones: HumanBones, rest: HumanBones, pose: VrmPose)
    ensures ApplyPose(ApplyPose(bones, rest, pose), rest, pose) == ApplyPose(bones, rest, pose)
  {
  }

  /** The later pose decides: where the second pose gives a translation and a
      rotation, the result does not depend on the first pose at all. */
  lemma LaterPoseWins(bones: HumanBones, rest: HumanBones, first: VrmPose, second: VrmPose, n: string)
    requires n in bones && n in rest && n in second
    requires second[n].position.Some? && second[n].rotation.Some?
    ensures ApplyPose(ApplyPose(bones, rest, first), rest, second)[n]
         == ApplyPose(bones, rest, second)[n]
    ensures ApplyPose(ApplyPose(bones, rest, first), rest, second)[n].rotation == second[n].rotation.value
  {
  }

  /** The pose that asks every rest-posed bone for a zero translation and its
      rest rotation. */
  function RestAsPose(rest: HumanBones): VrmPose {
    map n | n in rest :: BoneState(Some(Vec3(0.0, 0.0, 0.0)), Some(rest[n].rotation))
  }

  /** Applying the rest pose as a pose resets every bone to its rest transform. */
  lemma ResetToRest(bones: HumanBones, rest: HumanBones)
    requires rest.Keys == bones.Keys
    ensures ApplyPose(bones, rest, RestAsPose(rest)) == rest
  {
  }
}
