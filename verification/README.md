# COMAT animation transfer — a Dafny model

COMAT is a Blender add-on that imports a Mixamo FBX animation and attaches
its action to an already rigged character ("the original rig") as a new NLA
track, leaving the rig's rest pose and its own active action alone. This
project models the add-on's one piece of logic, the `Transfer Animation`
operator (`COMAT_OT_LoadAnimation.execute`), as pure functions over plain
datatypes, and proves what it does on each path.

- `wrappers.dfy` — `Option`, standing in for Python's `None`.
- `action_names.dfy` (module `ActionNames`) — the unique action-name search:
  `Mixamo_<base>`, then `Mixamo_<base>_01`, `_02`, … with the counter
  formatted as `{count:02d}`. The loop exactly as written (`FindUniqueName`),
  a reference definition of "the least free candidate" (`LeastFreeIndex`,
  computed by the recursive `FirstFreeFrom`), and the proof that candidates are pairwise distinct
  (through `ParseCandidate`, a left inverse of `Candidate`). That proof is
  what makes the search end on any finite set of names.
- `transfer.dfy` (module `Transfer`) — objects, actions, NLA tracks and
  strips, the scene, and `Execute`. `Execute` is one run of the operator. It
  takes the scene before the run, the path and whether it exists, the active
  object's identity, the file's base name and the host's import result. The
  import result is the scene and the selection after the FBX import. The
  original rig is always read from the scene under the active identity: the
  guard reads it before the import, and the new track is appended to the
  scene's post-import copy (`RigAfterImport`).
- `transfer_props.dfy` (module `TransferProps`) — lemmas on the guard order,
  on which runs import and which delete the imported rig, and on what a
  successful run changes.

Host calls become inputs: `os.path.exists(filepath)` is the boolean
`pathExists`, `os.path.splitext(os.path.basename(filepath))[0]` is the string
`baseName`, and `bpy.ops.import_scene.fbx` is the `ImportResult` argument.
Object identity (Python's `!=` on Blender objects) is the `id` field.

Two consequences of the order of the code are worth stating:

- The no-new-rig check runs after the import (COMAT.py:66 comes before
  COMAT.py:76), so that cancel path keeps the imported objects: the model
  returns the post-import scene with `imported` set (`NoNewRigIff`).
- On the missing-animation path only the chosen rig is deleted. Every other
  imported object and the imported action stay in the scene
  (`NoAnimationRemovesImportedRig`, `CancelAddsNothing`).

## Model

| member | source | states |
|---|---|---|
| ActionNames.DecimalString | COMAT.py:93 | the decimal rendering has only digits, one digit exactly below 10, at most two exactly below 100, and no leading zero from 10 on |
| ActionNames.CanonicalIsDecimalString | COMAT.py:93 | every digit string without a leading zero is the decimal rendering of its value, so the rendering is the only canonical one |
| ActionNames.ParseDecimalString | COMAT.py:93 | reading the decimal rendering back gives the number (round trip) |
| ActionNames.Pad2 | COMAT.py:93 | `{count:02d}` is all digits, at least two wide, exactly two wide below 100, starts with `0` exactly below 10, and reads back as the counter |
| ActionNames.Pad2Canonical | COMAT.py:93 | any digit string at least two wide, with a leading zero only when two wide, that reads as n is the rendering of n: the contract of `Pad2` pins the string |
| ActionNames.Pad2Examples | COMAT.py:93 | 1 renders as `01`, 9 as `09`, 99 as `99`, 100 as `100` (zero padding, growth past two digits) |
| ActionNames.Candidate | COMAT.py:89-93 | definition: candidate 0 is `Mixamo_<base>` (line 89), candidate k >= 1 is `Mixamo_<base>_` plus the padded k (line 93) |
| ActionNames.ParseCandidate | COMAT.py:89-93 | a name the parser accepts as candidate k is exactly the k-th name the search tries |
| ActionNames.CandidateRoundTrip | COMAT.py:89-93 | parsing the k-th candidate name gives back k |
| ActionNames.ParseCandidateIff | COMAT.py:89-93 | a name parses to k if and only if it is the k-th candidate |
| ActionNames.CandidateInjective | COMAT.py:89-93 | distinct counters give distinct candidate names |
| ActionNames.TakenBound | COMAT.py:92-94 | if the first k candidates are all taken, the set of names has at least k elements, so the loop ends |
| ActionNames.LeastFreeUnique | COMAT.py:90-94 | at most one candidate is free while all earlier ones are taken |
| ActionNames.FirstFreeFrom | COMAT.py:92-94 | searching on from k, with all earlier candidates taken, finds a free candidate at or after k with all before it taken |
| ActionNames.LeastFreeIndex | COMAT.py:89-94 | the chosen counter names a free candidate, every earlier candidate is taken, and it is at most the number of existing names |
| ActionNames.UniqueActionName | COMAT.py:89-94 | the generated name is not an existing action name, and it is `Mixamo_<base>` unsuffixed whenever that is free |
| ActionNames.UniqueActionNameIsLeastFree | COMAT.py:89-94 | a least free candidate exists, and the generated name is exactly that candidate: every earlier candidate is taken |
| ActionNames.FindUniqueName | COMAT.py:87-94 | the loop as written returns a free name; it returns `Mixamo_<base>` if free; otherwise `Mixamo_<base>_` plus the padded counter k >= 1 with every candidate before k taken; the result agrees with `UniqueActionName` |
| ActionNames.NextAfterTakenRun | COMAT.py:90-94 | when `Mixamo_foo` and `_01` … `_k` are taken and `_k+1` is free, the result is `Mixamo_foo_` plus padded k+1 |
| Transfer.PathUsable | COMAT.py:55 | definition: the path guard passes for a non-empty path that exists |
| Transfer.IsOriginalRig | COMAT.py:60-61 | definition: the rig guard passes when the active object exists and is an armature |
| Transfer.IsNewRig | COMAT.py:72 | definition: a selected object qualifies when it is an armature and not the original rig by identity |
| Transfer.HasActiveAction | COMAT.py:81 | definition: the imported rig has animation data and that data has an active action |
| Transfer.NewTrack | COMAT.py:105-111 | definition: the new track is named after the action and holds one strip, named after the action, of that action at its start frame |
| Transfer.RigAfterImport | COMAT.py:100-106 | definition: the original rig the track is appended to is the scene's own object under the active identity after the import (the pre-import object only if the import result lacks that identity) |
| Transfer.WellFormed | COMAT.py:69 | definition: every object is stored under its own identity, and the selection holds the scene's own objects |
| Transfer.FindNewRig | COMAT.py:69-74 | the result is the position of the first selected armature that is not the original rig; there is none exactly when no selected object qualifies |
| Transfer.AddTrack | COMAT.py:100-111 | the rig keeps its identity, kind and active action; it has animation data afterwards; its tracks are the old tracks plus one track named after the action, holding one strip of it at the action's start frame |
| Transfer.RemoveObject | COMAT.py:83 | deleting an object removes exactly that identity and changes no other object and no action |
| Transfer.Execute | COMAT.py:51-118 | the import runs exactly when both the path guard and the rig guard (on the scene before the import) pass, and otherwise the scene is unchanged; on success the new action name was free and is the only name added to the registry |
| TransferProps.InvalidPathCancelsFirst | COMAT.py:55-57 | an empty or non-existent path cancels first, with no import and the scene unchanged, whatever else holds |
| TransferProps.MissingRigCancelsSecond | COMAT.py:59-63 | with a usable path, a missing or non-armature active object cancels, with no import and the scene unchanged |
| TransferProps.NoNewRigIff | COMAT.py:65-78 | after both guards, the run cancels for lack of a new rig if and only if no selected object is an armature other than the original; the post-import scene is kept |
| TransferProps.FirstNewRigIsFound | COMAT.py:69-74 | the chosen rig is the first armature in the selection that is not the original rig |
| TransferProps.NoAnimationRemovesImportedRig | COMAT.py:80-84 | a chosen rig without an active action cancels after the import; exactly that rig, which the scene held, is deleted, and the original rig keeps its state and tracks |
| TransferProps.SuccessAppendsOneTrack | COMAT.py:86-118 | on success the status names the unique action, a copy of the action of the imported rig the scene holds; the original rig becomes exactly `AddTrack` of its post-import self: its tracks gain exactly one track of one strip of the renamed copy, its kind stays, and its active action stays (none for a rig that had no animation data), so its rest pose is untouched; the imported rig, which the scene held, is deleted; no other object changes; the registry gains exactly the new name |
| TransferProps.SuccessKeepsExistingTracks | COMAT.py:101-111 | a rig that already has a track keeps it: transferring `walk` onto a rig with track `T1` leaves the tracks `T1`, `Mixamo_walk` |
| TransferProps.FinishedIff | COMAT.py:55-84 | a run finishes if and only if every guard passes |
| TransferProps.CancelAddsNothing | COMAT.py:55-84 | no cancelled run adds a track or an action; only the missing-animation path deletes anything |

## Left out

- The UI panel, the file-browse operator, the `filepath` property and
  `register`/`unregister` (COMAT.py:5-41, 120-135): host UI plumbing with no
  logic of its own.
- The FBX importer itself (COMAT.py:66): a host operator. Its effect is the
  `ImportResult` input. If that scene lacks the original rig's identity (the
  host importer never deletes objects), the rig as it was before the import
  stands in for it.
- A failing import (COMAT.py:66): the host's exception propagates out of
  `execute` uncaught. The model has no such outcome; every import yields a
  scene and a selection.
- `os.path.exists`, `os.path.basename`, `os.path.splitext` (COMAT.py:55, 87):
  standard-library path calls. They are the `pathExists` and `baseName` inputs.
- `int(new_action.frame_range[0])` (COMAT.py:110): a host float truncated
  toward zero. `Action.frameStart` is that integer, supplied with the action.
- `action.copy()` (COMAT.py:97-98): the copy is the imported action with its
  name replaced. Keyframe data is not modelled. Blender's transient `.001`
  name for the copy before the rename is not modelled either.
- Blender's own renaming of actions, NLA tracks and NLA strips whose names
  clash (COMAT.py:98, 107, 111): the host keeps strip names unique within a
  rig's animation data too. The model takes the name the operator assigns as
  the name the action, the track and the strip get.
- Blender's length limit on ID names (63 bytes in Blender 4.x) (COMAT.py:98):
  names are unbounded here. The host truncates the unsuffixed name
  `Mixamo_<base>` for a base name of 57 bytes or more, a suffixed candidate
  `Mixamo_<base>_NN` from 54 bytes on, and one with a counter of 100 or more
  from 53 bytes on. It stores the truncated name, which the membership test of later runs
  (COMAT.py:92) never matches; the model's claim that the registry gains
  exactly the generated name holds only for names within the limit.
- References between objects (parents, modifiers, constraints): `Object` has
  none. `objects.remove(..., do_unlink=True)` (COMAT.py:83, 116) also clears
  other objects' references to the deleted rig, such as an imported mesh's
  parent; `RemoveObject`'s "no other object changes" is about the modelled
  fields only.
- The report messages and the undo registration (COMAT.py:49, 56, 62, 77, 82,
  113): the messages become `CancelReason` values, and undo is host behaviour.
