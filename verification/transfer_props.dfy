/**
 Properties of the animation-transfer operator: the order of its guards,
 which runs import and which delete the imported rig, and what a successful
 run changes (one track on the original rig, one new action name, the
 imported rig gone) and leaves alone (everything else).
 */
module TransferProps {
  import opened Wrappers
  import opened Transfer
  import ActionNames

  /** An empty or non-existent path cancels first, before any import. */
  lemma InvalidPathCancelsFirst(pre: Scene, filepath: string, pathExists: bool,
                                active: Option<ObjId>, baseName: string, fbx: ImportResult)
    requires filepath == "" || !pathExists
    ensures Execute(pre, filepath, pathExists, active, baseName, fbx)
         == Effect(Cancelled(InvalidPath), false, pre)
  {
  }

  /** With a usable path, a missing or non-armature active object cancels, before any import. */
  lemma MissingRigCancelsSecond(pre: Scene, filepath: string, pathExists: bool,
                                active: Option<ObjId>, baseName: string, fbx: ImportResult)
    requires PathUsable(filepath, pathExists)
    requires active.None? || active.value !in pre.objects || pre.objects[active.value].kind != Armature
    ensures Execute(pre, filepath, pathExists, active, baseName, fbx)
         == Effect(Cancelled(NoOriginalRig), false, pre)
  {
  }

  /**
   Once both guards pass, the run cancels for want of a new rig exactly when
   no selected object is an armature other than the original; the import has
   then happened and its result is left in the scene.
   */
  lemma NoNewRigIff(pre: Scene, filepath: string, pathExists: bool,
                    active: Option<ObjId>, baseName: string, fbx: ImportResult)
    requires PathUsable(filepath, pathExists) && IsOriginalRig(pre, active)
    ensures Execute(pre, filepath, pathExists, active, baseName, fbx).status == Cancelled(NoNewRig)
        <==> forall i :: 0 <= i < |fbx.selection| ==> !IsNewRig(fbx.selection[i], active.value)
    ensures Execute(pre, filepath, pathExists, active, baseName, fbx).status == Cancelled(NoNewRig)
        ==> Execute(pre, filepath, pathExists, active, baseName, fbx) == Effect(Cancelled(NoNewRig), true, fbx.scene)
  {
  }

  /**
   When the first new rig in the selection has no active action, the run
   cancels after the import and deletes that rig and nothing else; the
   original rig keeps its post-import state, tracks included.
   */
  lemma NoAnimationRemovesImportedRig(pre: Scene, filepath: string, pathExists: bool,
                                      active: Option<ObjId>, baseName: string,
                                      fbx: ImportResult, i: nat)
    requires PathUsable(filepath, pathExists) && IsOriginalRig(pre, active)
    requires i < |fbx.selection| && IsNewRig(fbx.selection[i], active.value)
    requires forall j :: 0 <= j < i ==> !IsNewRig(fbx.selection[j], active.value)
    requires !HasActiveAction(fbx.selection[i])
    requires WellFormed(fbx)
    ensures Execute(pre, filepath, pathExists, active, baseName, fbx)
         == Effect(Cancelled(NoAnimation), true, RemoveObject(fbx.scene, fbx.selection[i].id))
    ensures fbx.selection[i].id in fbx.scene.objects
    ensures fbx.selection[i].id !in Execute(pre, filepath, pathExists, active, baseName, fbx).scene.objects
    ensures active.value in fbx.scene.objects ==>
              (Execute(pre, filepath, pathExists, active, baseName, fbx).scene.objects[active.value]
               == fbx.scene.objects[active.value])
  {
  }

  /** The rig the search picks is the first armature in the selection that is not the original. */
  lemma FirstNewRigIsFound(selection: seq<Object>, original: ObjId, i: nat)
    requires i < |selection| && IsNewRig(selection[i], original)
    requires forall j :: 0 <= j < i ==> !IsNewRig(selection[j], original)
    ensures FindNewRig(selection, original) == Some(i)
  {
  }

  /**
   A successful run: the status names the fresh action, a copy of the action
   the scene's imported rig holds; the original rig, as the scene holds it
   after the import, gets exactly one new track, holding one strip of the
   renamed copy at the copy's start frame, and keeps its active action (none,
   if it had no animation data); the imported rig is deleted; no other object
   changes; the action registry gains exactly the new name.
   */
  lemma SuccessAppendsOneTrack(pre: Scene, filepath: string, pathExists: bool,
                               active: Option<ObjId>, baseName: string,
                               fbx: ImportResult, i: nat)
    requires PathUsable(filepath, pathExists) && IsOriginalRig(pre, active)
    requires i < |fbx.selection| && IsNewRig(fbx.selection[i], active.value)
    requires forall j :: 0 <= j < i ==> !IsNewRig(fbx.selection[j], active.value)
    requires HasActiveAction(fbx.selection[i])
    requires WellFormed(fbx)
    ensures var r := Execute(pre, filepath, pathExists, active, baseName, fbx);
            var name := ActionNames.UniqueActionName(baseName, fbx.scene.actions);
            var copy := fbx.selection[i].animData.value.action.value.(name := name);
            var id := active.value;
            var before := RigAfterImport(pre, fbx.scene, id);
            var imported := fbx.selection[i];
            && r.status == Finished(name)
            && imported.id in fbx.scene.objects
            && imported.id !in r.scene.objects
            && copy == fbx.scene.objects[imported.id].animData.value.action.value.(name := name)
            && r.imported
            && name !in fbx.scene.actions
            && r.scene.actions == fbx.scene.actions + {name}
            && r.scene.objects.Keys == fbx.scene.objects.Keys - {fbx.selection[i].id} + {id}
            && (id in fbx.scene.objects ==> before == fbx.scene.objects[id])
            && r.scene.objects[id] == AddTrack(before, copy)
            && r.scene.objects[id].kind == before.kind
            && r.scene.objects[id].animData.Some?
            && r.scene.objects[id].animData.value.action
               == before.animData.GetOr(AnimData(None, [])).action
            && r.scene.objects[id].animData.value.tracks
               == before.animData.GetOr(AnimData(None, [])).tracks
                  + [Track(name, [Strip(name, copy.frameStart, copy)])]
            && (forall k :: k in r.scene.objects && k != id
                  ==> r.scene.objects[k] == fbx.scene.objects[k])
  {
  }

  /**
   A concrete run: the original rig (identity 1) already has a track `T1`;
   transferring `walk.fbx` keeps `T1` and appends `Mixamo_walk` after it.
   */
  lemma SuccessKeepsExistingTracks()
    ensures var t1 := Track("T1", []);
            var rig := Object(1, Armature, Some(AnimData(None, [t1])));
            var clip := Action("mixamo.com", 0);
            var imported := Object(2, Armature, Some(AnimData(Some(clip), [])));
            var pre := Scene(map[1 := rig], {});
            var post := Scene(map[1 := rig, 2 := imported], {"mixamo.com"});
            var r := Execute(pre, "walk.fbx", true, Some(1), "walk", ImportResult(post, [imported]));
            var copy := clip.(name := "Mixamo_walk");
            && r.status == Finished("Mixamo_walk")
            && r.scene.objects == map[1 := rig.(animData := Some(AnimData(None, [t1, NewTrack(copy)])))]
  {
    var t1 := Track("T1", []);
    var rig := Object(1, Armature, Some(AnimData(None, [t1])));
    var clip := Action("mixamo.com", 0);
    var imported := Object(2, Armature, Some(AnimData(Some(clip), [])));
    var post := Scene(map[1 := rig, 2 := imported], {"mixamo.com"});
    var copy := clip.(name := "Mixamo_walk");
    assert "Mixamo_walk"[0] != "mixamo.com"[0];
    assert ActionNames.UniqueActionName("walk", post.actions) == "Mixamo_walk";
    assert FindNewRig([imported], 1) == Some(0);
    var rig' := AddTrack(rig, copy);
    assert [t1] + [NewTrack(copy)] == [t1, NewTrack(copy)];
    assert rig' == rig.(animData := Some(AnimData(None, [t1, NewTrack(copy)])));
    assert (post.objects[1 := rig'] - {2}) == map[1 := rig'];
  }

  /** A run finishes exactly when every guard passes. */
  lemma FinishedIff(pre: Scene, filepath: string, pathExists: bool,
                    active: Option<ObjId>, baseName: string, fbx: ImportResult)
    ensures Execute(pre, filepath, pathExists, active, baseName, fbx).status.Finished?
        <==> && PathUsable(filepath, pathExists)
             && IsOriginalRig(pre, active)
             && FindNewRig(fbx.selection, active.value).Some?
             && HasActiveAction(fbx.selection[FindNewRig(fbx.selection, active.value).value])
  {
  }

  /**
   No cancelled run adds a track or an action: every object left in the
   scene is as the run found it (before or after the import), and only the
   missing-animation path deletes anything, namely the chosen rig.
   */
  lemma CancelAddsNothing(pre: Scene, filepath: string, pathExists: bool,
                          active: Option<ObjId>, baseName: string, fbx: ImportResult)
    ensures var r := Execute(pre, filepath, pathExists, active, baseName, fbx);
            var before := if r.imported then fbx.scene else pre;
            r.status.Cancelled? ==>
              && r.scene.actions == before.actions
              && r.scene.objects.Keys <= before.objects.Keys
              && (forall id :: id in r.scene.objects ==> r.scene.objects[id] == before.objects[id])
              && (r.scene.objects.Keys != before.objects.Keys ==> r.status.reason == NoAnimation)
  {
  }
}
