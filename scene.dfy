/** Scenes: the versioned container of positioned sprites and the upgrade
    from the first scene format to the current one. */
module Scenes {
  import opened Common
  import opened Coordinates
  import opened Sprites

  /** The first format: each object carries a selection flag that the
      current format no longer keeps. */
  datatype SceneV1 = SceneV1(objects: seq<(SpriteV1, Position, bool)>)

  /** The current format: positioned sprites and numbered bookmarks. */
  datatype SceneV2 = SceneV2(objects: seq<(SpriteData, Position)>, bookmarks: map<nat, Position2D>)

  /** A scene of either format; the constructor is the version tag. */
  datatype Scene = V1(older: SceneV1) | V2(current: SceneV2)

  /** `From<SceneV1> for SceneV2`: every object is kept in order with its
      sprite lifted and its position unchanged, the flag is dropped and
      there are no bookmarks. */
  function Upgrade(older: SceneV1): (r: SceneV2)
    ensures |r.objects| == |older.objects|
    ensures r.bookmarks == map[]
    ensures forall i :: 0 <= i < |r.objects| ==>
      r.objects[i].1 == older.objects[i].1 && Project(r.objects[i].0) == older.objects[i].0 &&
      r.objects[i].0.id.None? && r.objects[i].0.labels == []
  {
    SceneV2(seq(|older.objects|, i requires 0 <= i < |older.objects| =>
      (Lift(older.objects[i].0), older.objects[i].1)), map[])
  }

  /** `Scene::current`: the current format, upgrading an older scene. */
  function Current(s: Scene): (r: SceneV2)
    ensures s.V2? ==> r == s.current
    ensures s.V1? ==> r == Upgrade(s.older)
  {
    match s
    case V2(scene) => scene
    case V1(scene) => Upgrade(scene)
  }

  /** `Scene::default()`: a current-format scene with nothing in it. */
  function Default(): (r: Scene)
    ensures r.V2? && r.current.objects == [] && r.current.bookmarks == map[]
    ensures Current(r) == r.current
  {
    V2(SceneV2([], map[]))
  }

  /** The objects of an old scene without their selection flags. */
  function Unflagged(older: SceneV1): (r: seq<(SpriteV1, Position)>)
    ensures |r| == |older.objects|
  {
    seq(|older.objects|, i requires 0 <= i < |older.objects| => (older.objects[i].0, older.objects[i].1))
  }

  /** The objects of a current scene written back in the first format's
      terms, sprite id and labels dropped. */
  function Downgrade(scene: SceneV2): (r: seq<(SpriteV1, Position)>)
    ensures |r| == |scene.objects|
  {
    seq(|scene.objects|, i requires 0 <= i < |scene.objects| => (Project(scene.objects[i].0), scene.objects[i].1))
  }

  /** The flags are the only thing the upgrade loses: going back gives the
      old objects, and two old scenes upgrade alike exactly when they agree
      on everything but the flags. */
  lemma UpgradeLosesOnlyFlags(a: SceneV1, b: SceneV1)
    ensures Downgrade(Upgrade(a)) == Unflagged(a)
    ensures Upgrade(a) == Upgrade(b) <==> Unflagged(a) == Unflagged(b)
  {
    if Unflagged(a) == Unflagged(b) {
      assert |a.objects| == |b.objects|;
      forall i | 0 <= i < |a.objects|
        ensures Upgrade(a).objects[i] == Upgrade(b).objects[i]
      {
        assert Unflagged(a)[i] == Unflagged(b)[i];
        assert Upgrade(a).objects[i] == (Lift(a.objects[i].0), a.objects[i].1);
        assert Upgrade(b).objects[i] == (Lift(b.objects[i].0), b.objects[i].1);
      }
      assert Upgrade(a).objects == Upgrade(b).objects;
    }
    if Upgrade(a) == Upgrade(b) {
      assert forall i :: 0 <= i < |a.objects| ==> Upgrade(a).objects[i] == Upgrade(b).objects[i];
      assert Unflagged(a) == Unflagged(b);
    }
  }

  /** Taking the current format twice changes nothing more. */
  lemma CurrentIdempotent(s: Scene)
    ensures Current(V2(Current(s))) == Current(s)
  {
  }
}
