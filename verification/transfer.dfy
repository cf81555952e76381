/**
 The animation-transfer operator, abstracted over the host application.

 The scene is a map from object identity to object plus the set of action
 names the host knows. The user's file path, whether it exists, the identity
 of the active object and the file's base name are inputs; the original rig
 is always read from the scene. The FBX import is a host step
 whose result (the scene and the selection after import) is an input too.
 `Execute` returns what the operator reports and the scene it leaves.
 */
module Transfer {
  import opened Wrappers
  import ActionNames

  /** Host-assigned identity of a scene object. */
  type ObjId = nat

  datatype ObjectKind = Armature | OtherKind

  /**
   An action (animation clip). `frameStart` is the integer the operator takes
   from the start of the action's frame range.
   */
  datatype Action = Action(name: string, frameStart: int)

  /** A placement of an action in a track, starting at frame `start`. */
  datatype Strip = Strip(name: string, start: int, action: Action)

  /** A non-linear animation (NLA) track. */
  datatype Track = Track(name: string, strips: seq<Strip>)

  /** An object's animation data: its active action and its NLA tracks. */
  datatype AnimData = AnimData(action: Option<Action>, tracks: seq<Track>)

  datatype Object = Object(id: ObjId, kind: ObjectKind, animData: Option<AnimData>)

  datatype Scene = Scene(objects: map<ObjId, Object>, actions: set<string>)

  /** What the host's FBX import leaves behind: the new scene and the selection. */
  datatype ImportResult = ImportResult(scene: Scene, selection: seq<Object>)

  /**
   The shape every host import result has: each object is stored under its
   own identity, and the selection holds the scene's own objects.
   */
  predicate WellFormed(fbx: ImportResult) {
    && (forall k :: k in fbx.scene.objects ==> fbx.scene.objects[k].id == k)
    && (forall i :: 0 <= i < |fbx.selection| ==>
          fbx.selection[i].id in fbx.scene.objects
          && fbx.scene.objects[fbx.selection[i].id] == fbx.selection[i])
  }

  datatype CancelReason = InvalidPath | NoOriginalRig | NoNewRig | NoAnimation

  /** The operator's return value: cancelled with a warning, or finished. */
  datatype Status = Cancelled(reason: CancelReason) | Finished(actionName: string)

  /** The result of one run: the status, whether the import ran, the final scene. */
  datatype Effect = Effect(status: Status, imported: bool, scene: Scene)

  /** The path guard: a non-empty path that names an existing file. */
  predicate PathUsable(filepath: string, pathExists: bool) {
    filepath != "" && pathExists
  }

  /**
   The selection guard: there is an active object, and it is an armature.
   `active` is the identity of the active object; an identity the scene does
   not hold counts as no active object.
   */
  predicate IsOriginalRig(scene: Scene, active: Option<ObjId>) {
    active.Some? && active.value in scene.objects && scene.objects[active.value].kind == Armature
  }

  /** An armature other than the original rig (compared by identity). */
  predicate IsNewRig(o: Object, original: ObjId) {
    o.kind == Armature && o.id != original
  }

  /** The imported rig carries animation data with an active action. */
  predicate HasActiveAction(o: Object) {
    o.animData.Some? && o.animData.value.action.Some?
  }

  /** The position of the first new rig in the selection, if there is one. */
  function FindNewRig(selection: seq<Object>, original: ObjId): (r: Option<nat>)
    ensures r.Some? ==> r.value < |selection| && IsNewRig(selection[r.value], original)
    ensures r.Some? ==> forall i :: 0 <= i < r.value ==> !IsNewRig(selection[i], original)
    ensures r.None? <==> forall i :: 0 <= i < |selection| ==> !IsNewRig(selection[i], original)
    decreases |selection|
  {
    if |selection| == 0 then None
    else if IsNewRig(selection[0], original) then Some(0)
    else match FindNewRig(selection[1..], original)
      case None => None
      case Some(i) => Some(i + 1)
  }

  /** The track the operator creates: named after the action, one strip of it. */
  function NewTrack(action: Action): Track {
    Track(action.name, [Strip(action.name, action.frameStart, action)])
  }

  /**
   The original rig after the transfer: animation data is created if absent,
   and one track holding the action is appended to its NLA tracks.
   */
  function AddTrack(rig: Object, action: Action): (r: Object)
    ensures r.id == rig.id && r.kind == rig.kind
    ensures r.animData.Some?
    ensures rig.animData.Some? ==> r.animData.value.action == rig.animData.value.action
    ensures rig.animData.None? ==> r.animData.value == AnimData(None, [NewTrack(action)])
    ensures rig.animData.Some? ==> r.animData.value.tracks == rig.animData.value.tracks + [NewTrack(action)]
  {
    var data := rig.animData.GetOr(AnimData(None, []));
    rig.(animData := Some(data.(tracks := data.tracks + [NewTrack(action)])))
  }

  /**
   The original rig as the operator finds it after the import: the scene's own
   object under that identity. The host's import does not delete the original
   rig; should the post-import scene lack it, the rig as it was before stands in.
   */
  function RigAfterImport(pre: Scene, post: Scene, id: ObjId): (rig: Object)
    requires id in pre.objects
  {
    if id in post.objects then post.objects[id] else pre.objects[id]
  }

  /** Deletes an object from the scene (`bpy.data.objects.remove`). */
  function RemoveObject(scene: Scene, id: ObjId): (r: Scene)
    ensures r.objects.Keys == scene.objects.Keys - {id}
    ensures forall k :: k in r.objects ==> r.objects[k] == scene.objects[k]
    ensures r.actions == scene.actions
  {
    scene.(objects := scene.objects - {id})
  }

  /**
   One run of the operator. The guards are checked in this order: the path,
   the active object, (after the import) the presence of a new rig, and that
   rig's active action. On success the action is copied under a fresh name,
   attached to the original rig as a new track, and the imported rig deleted.
   */
  function Execute(pre: Scene, filepath: string, pathExists: bool, active: Option<ObjId>,
                   baseName: string, fbx: ImportResult): (r: Effect)
    ensures r.imported <==> PathUsable(filepath, pathExists) && IsOriginalRig(pre, active)
    ensures !r.imported ==> r.scene == pre
    ensures r.status.Finished? ==> r.status.actionName !in fbx.scene.actions
    ensures r.status.Finished? ==> r.scene.actions == fbx.scene.actions + {r.status.actionName}
  {
    if !PathUsable(filepath, pathExists) then
      Effect(Cancelled(InvalidPath), false, pre)
    else if !IsOriginalRig(pre, active) then
      Effect(Cancelled(NoOriginalRig), false, pre)
    else
      var original := active.value;
      var post := fbx.scene;
      match FindNewRig(fbx.selection, original)
      case None =>
        Effect(Cancelled(NoNewRig), true, post)
      case Some(i) =>
        var imported := fbx.selection[i];
        if !HasActiveAction(imported) then
          Effect(Cancelled(NoAnimation), true, RemoveObject(post, imported.id))
        else
          var name := ActionNames.UniqueActionName(baseName, post.actions);
          var copy := imported.animData.value.action.value.(name := name);
          var rig := AddTrack(RigAfterImport(pre, post, original), copy);
          var linked := post.(objects := post.objects[original := rig],
                              actions := post.actions + {name});
          Effect(Finished(name), true, RemoveObject(linked, imported.id))
  }
}
