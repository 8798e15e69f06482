# Rename Parameter — a Dafny model

This project models the logic of the "Rename Paramater" editor window of the AwA VRChat
avatar tools (`Editor/RenameParam/RenameParam.cs`). The window renames an FX
animator-controller parameter across three places:

- the controller: its parameter list, every transition condition, and every blend-tree axis.
  The condition rename is modelled in its corrected form, which writes the renamed conditions
  back. As written, the code renames no condition (see "## Findings"), so there it changes only
  the parameter entry and the blend-tree axes;
- the avatar's expression-parameters list;
- every expression menu whose controls drive the parameter.

It also builds the window's table of rename candidates, each with a recommended new name.

Host objects that the engine owns and mutates in place are modelled here as immutable values:

- the controller is a tree of layers, state machines, states, transitions and motions;
- the menus are a tree of menus and controls.

Each editor operation is a pure function from the old value to the new one.

Modules, in dependency order:

- `Wrappers`: `Option`, which stands in for nullable references.
- `Seqs`: in-order sub-sequences and `List.RemoveAll`.
- `Names`: the slash-prefix rule behind recommended names, ordinal `String.Contains`, and
  renaming the first list entry with a given name.
- `Animator`: the controller and the rename traversal (`RenameParameter`,
  `RenameParameterInAnimator`, `UpdateAllReferences` and the functions under it). It has
  three independent views of a controller:
  - `References`: every parameter name the layers mention, in traversal order;
  - `Erase`: the controller with those names blanked;
  - `ControllerCensus`: the numbers of layers, states, transitions and conditions.

  A controller is determined by its erasure and its references (`ControllerDetermined`).
  So the traversal's contract "references renamed one by one, erasure unchanged" fixes
  its result completely.
- `Menus`: the menu tree, the depth-first walk of `GetSubMenus`, and the menu side of a rename.
- `Candidates`: `Refresh` and the recommended-name rule.
- `RenameFlow`: the Rename button after the user confirms.

A parameter missing from the controller only skips the controller's reference traversal.
The expression parameter and the menus are still renamed (RenameParam.cs:211-234,
`RenameFlow.RenameButton`).

## Model

| member | source | states |
|---|---|---|
| Names.LastIndexOf | Editor/RenameParam/RenameParam.cs:362 | The result is -1 exactly when the character is absent. Otherwise it is a position holding the character with none after it. |
| Names.GetSubstringBeforeLastSlash | Editor/RenameParam/RenameParam.cs:360-370 | A name without '/' comes back unchanged. Otherwise the result is a prefix of the name that ends in '/', and the dropped rest holds no '/'. |
| Names.SlashPrefixUnique | Editor/RenameParam/RenameParam.cs:360-370 | Any prefix that ends in '/' and leaves a slash-free rest is the result, so the contract above fully determines the folder part. |
| Names.SlashPrefixIdempotent | Editor/RenameParam/RenameParam.cs:360-370 | Taking the folder part of a folder part changes nothing. |
| Names.ContainsIffSlice | Editor/RenameParam/RenameParam.cs:315 | The `Contains` test on the parameter name holds exactly when the menu name occurs as a contiguous slice. |
| Names.ReplaceFirst | Editor/RenameParam/RenameParam.cs:228 | Only the first entry equal to the old name becomes the new name. All other entries are kept, and a list without the old name is unchanged. |
| Names.ReplaceFirstMultiset | Editor/RenameParam/RenameParam.cs:214 | Exactly one old name is traded for one new name. Nothing else is added or lost. |
| Names.ReplaceFirstRoundTrip | Editor/RenameParam/RenameParam.cs:214 | Renaming to a name the list lacks, then back, restores the list. |
| Seqs.RemoveAll | Editor/RenameParam/RenameParam.cs:330-338 | An element survives iff the predicate does not select it. Each survivor keeps all its copies, and the survivors keep their order. |
| Animator.UpdateConditionList | Editor/RenameParam/RenameParam.cs:452-461 | Every condition naming the old parameter names the new one. Others are untouched, and modes, thresholds and count are kept. |
| Animator.UpdateTransitionConditions | Editor/RenameParam/RenameParam.cs:450-462 | The transition's conditions are renamed one by one and written back. Destination and condition count are kept. This is the corrected form (see Findings). |
| Animator.UpdateTransitionConditionsAsWritten | Editor/RenameParam/RenameParam.cs:450-462 | As written, the transition comes back exactly as it was, old references included, because each renamed condition is a discarded copy. |
| Animator.AsWrittenConditionKeepsOldName | Editor/RenameParam/RenameParam.cs:450-462 | On a one-condition transition `If A` renamed A to B, the as-written loop leaves "A" and the corrected one gives "B". |
| Animator.UpdateTransitionList | Editor/RenameParam/RenameParam.cs:444-447 | Across a list of transitions every reference is renamed. Erasure and transition and condition counts are unchanged. Built on the corrected condition write-back (see Findings). |
| Animator.UpdateStateTransitions | Editor/RenameParam/RenameParam.cs:442-448 | A state's transitions are renamed. Its name and motion are kept. Built on the corrected condition write-back (see Findings). |
| Animator.UpdateBlendTreeReferences | Editor/RenameParam/RenameParam.cs:464-487 | The X and Y axes are each renamed iff equal to the old name, and children are handled at every depth. A motion that is not a blend tree is returned unchanged. |
| Animator.UpdateChildMotions | Editor/RenameParam/RenameParam.cs:468-471 | Each child motion is renamed recursively, and child thresholds are kept. |
| Animator.UpdateStates | Editor/RenameParam/RenameParam.cs:425-429 | For every state, its transitions and its motion are renamed. Names and counts are kept. Built on the corrected condition write-back (see Findings). |
| Animator.UpdateStateMachine | Editor/RenameParam/RenameParam.cs:423-440 | State transitions, any-state transitions and nested machines are all renamed. Structure and counts are unchanged. Built on the corrected condition write-back (see Findings). |
| Animator.UpdateStateMachines | Editor/RenameParam/RenameParam.cs:436-439 | Every child state machine is renamed recursively. |
| Animator.UpdateLayers | Editor/RenameParam/RenameParam.cs:417-420 | Every layer's state machine is renamed. Layer names and counts are kept. Built on the corrected condition write-back (see Findings). |
| Animator.UpdateAllReferences | Editor/RenameParam/RenameParam.cs:415-421 | The references are the old references, each renamed. The erasure (parameter list included) and the layer/state/transition/condition counts are unchanged. Built on the corrected condition write-back (see Findings). |
| Animator.UpdateWithoutOccurrenceIsIdentity | Editor/RenameParam/RenameParam.cs:415-487 | A controller that never mentions the old name, or a rename of a name to itself, comes back identical. |
| Animator.UpdateRoundTrip | Editor/RenameParam/RenameParam.cs:415-487 | Renaming to a name the layers never mention, then back, restores the controller. |
| Animator.UpdateReplacesEveryOccurrence | Editor/RenameParam/RenameParam.cs:415-487 | No condition or blend-axis reference to the old name is left. The new name gains exactly the old name's occurrences, and every other name keeps its count. |
| Animator.RenameParameterInAnimator | Editor/RenameParam/RenameParam.cs:391-413 | It reports true iff the list declares the old name. Only the first such entry is renamed and types are kept. On false the list is unchanged. |
| Animator.RenameParameter | Editor/RenameParam/RenameParam.cs:374-389 | If the controller lacks the old name, nothing in it changes. Otherwise the first parameter with that name is renamed, every parameter keeps its type, and every reference is rewritten (the conditions through the corrected write-back, see Findings). |
| Menus.MenuList | Editor/RenameParam/RenameParam.cs:282-285 | The list starts with the main menu. |
| Menus.SubMenusOfMember | Editor/RenameParam/RenameParam.cs:346-357 | A menu is below a list of controls iff it is in the walk of a menu that one of those SubMenu controls opens. |
| Menus.MenuListIsReachable | Editor/RenameParam/RenameParam.cs:342-357 | The list holds exactly the menus reachable from the main menu by opening non-null SubMenu controls. |
| Menus.RenameControl | Editor/RenameParam/RenameParam.cs:220-230 | If the control's own parameter is the old name, only it is renamed. Otherwise only the first matching sub-parameter is. A control without a match is unchanged, and label, kind and sub-menu never change. |
| Menus.RenameControlRoundTrip | Editor/RenameParam/RenameParam.cs:222-229 | Renaming a control to a name it does not mention, then back, restores it. |
| Menus.RenameMenuTree | Editor/RenameParam/RenameParam.cs:218-234 | Every control of the menu is rewritten by RenameControl, and the menu's name and control count are kept. |
| Menus.RenameControlsInTree | Editor/RenameParam/RenameParam.cs:220-230 | Each control is rewritten by RenameControl and opens a sub-menu iff it did before. A control that opens no sub-menu is nothing but its rewrite. |
| Menus.MenuListAfterRename | Editor/RenameParam/RenameParam.cs:218-234 | Walking the renamed tree meets the renamed menus of the original walk, in the same order: each listed menu is rewritten once. |
| Menus.RenameUnmentionedTree | Editor/RenameParam/RenameParam.cs:218-234 | When no menu on the walk mentions the old name, the menus are unchanged. |
| Menus.RenameMenuTreeRoundTrip | Editor/RenameParam/RenameParam.cs:218-234 | Renaming to a name no listed menu mentions, then back, restores the menu tree. |
| Candidates.MenusReferencing | Editor/RenameParam/RenameParam.cs:300-306 | A menu is in a parameter's menus iff it is on the list and some control's parameter or sub-parameter equals the name exactly. A menu listed several times in the walk is kept as often as it is listed, and list order is kept. |
| Candidates.LastReferencing | Editor/RenameParam/RenameParam.cs:311-320 | The result is -1 iff no control mentions the name. Otherwise it is a mentioning control with none mentioning after it. |
| Candidates.RecommendedName | Editor/RenameParam/RenameParam.cs:309-325 | With no menus the result is the name. Otherwise it is the folder part, then the menu name and '/' (only when the toggle is on and the name lacks the menu name), then the label of the last matching control of the first menu. |
| Candidates.RecommendName | Editor/RenameParam/RenameParam.cs:309-325 | The source's overwrite loop over the first menu's controls yields exactly RecommendedName, so the last match wins. |
| Candidates.BuildCandidate | Editor/RenameParam/RenameParam.cs:297-325 | A row carries the parameter's name and exactly the listed menus that mention it. The first of those menus mentions the name, and the row's recommendation is the recommended-name rule applied to them. |
| Candidates.BuildAll | Editor/RenameParam/RenameParam.cs:295-328 | There is one row per FX parameter, in parameter order. |
| Candidates.Refresh | Editor/RenameParam/RenameParam.cs:290-340 | No surviving row has a name or recommendation in the exclude set. Without "show no menus" every row has a menu, and without "show same name" no row's recommendation equals its name. A row survives iff built and passing the filters, with as many copies as were built, and rows keep parameter order. |
| Candidates.FilterRows | Editor/RenameParam/RenameParam.cs:330-338 | A row's number of copies after the three passes is its number before when it passes the exclude list and both toggled filters, and zero otherwise. Order is kept. |
| Candidates.RefreshRowFor | Editor/RenameParam/RenameParam.cs:290-340 | A name has a row after Refresh iff it is an FX parameter whose built row passes all three filters. |
| RenameFlow.RenameExpressionParameter | Editor/RenameParam/RenameParam.cs:214 | Only the first expression parameter with the old name is renamed. Value types, defaults and saved flags are kept. |
| RenameFlow.RenameButton | Editor/RenameParam/RenameParam.cs:194-238 | A controller lacking the name is untouched; otherwise its parameter and references are renamed (the conditions through the corrected write-back, see Findings). FX parameter types are kept. The expression parameter is renamed either way, keeping every entry's value type, default and saved flag. The listed menus are renamed either way, and menus that never mention the name are unchanged. |

## Left out

- `Editor/Core.cs` (finding avatars in the scene, fetching the FX layer) is not part of this
  model. It is a lookup over engine objects, and the model takes the controller, parameters
  and main menu as values.
- Layout, toggles, the scroll view, dialogs, `Selection`, `Debug.Log`, and the warnings about
  equal recommended names (RenameParam.cs:137, 183) are left out: they are presentation only.
  The presence checks of `SetVars` are left out too; the model starts from objects that exist.
- `Undo.RecordObject(s)`, `EditorUtility.SetDirty`, `SerializedObject` and
  `ApplyModifiedProperties` are left out. They are the host's undo and persistence services,
  and the model returns new values instead of mutating objects.
- RenameFlow.RenameExpressionParameter requires the old name in the expression-parameters list.
  The source dereferences the lookup unchecked (RenameParam.cs:214) and would throw; that
  crash is not modelled.
- Menus.GetSubMenus walks an inductive tree, so cyclic sub-menu graphs are not representable.
  The source would not terminate on them.
- Menus.RenameMenuTree treats a menu asset reached twice in the walk as two copies, each
  rewritten once. The source rewrites the shared asset once per listing. That differs for
  every control that still mentions the old name after one pass. That is a control holding
  the old name both in its parameter and in a sub-parameter, or in two or more sub-parameters.
  Each extra pass renames one more of those sub-parameters.
- RenameFlow.RenameButton takes the old name rather than a table row. The row's menu list is
  `MenusReferencing` over the current walk. `MenuListAfterRename` shows the rewrite meets each
  listed menu once. The contracts of `RenameMenuTree` and `RenameControl` (a control that does
  not mention the name is returned unchanged) show that a listed menu's own controls change
  only when it mentions the name. Its sub-menus may change all the same.
- Animator.UpdateAllReferences, and the traversal under it (UpdateLayers, UpdateStateMachine,
  UpdateStateMachines, UpdateStates, UpdateStateTransitions, UpdateTransitionList), model the
  corrected condition write-back, and so do RenameParameter and RenameFlow.RenameButton. As
  written, the code changes only the parameter entry and the blend-tree axes. The model has no
  controller-wide as-written traversal; the discrepancy is exhibited per transition by
  `UpdateTransitionConditionsAsWritten`.
- The contents of the exclude list (RenameParam.cs:32-73) are left out. `Refresh` takes any
  set of names.
- Entry transitions and state-machine transitions can carry conditions in the engine's
  controller model. The source never visits them, so the model's state machine has no field
  for them.
- Other places where an engine controller stores parameter names are not in the model, and
  the source leaves all of them on the old name:
  - the `directBlendParameter` of a Direct blend tree's children (RenameParam.cs:473-485
    rewrites only `blendParameter` and `blendParameterY`);
  - a state's `speedParameter`, `mirrorParameter`, `cycleOffsetParameter` and `timeParameter`
    (RenameParam.cs:425-429 passes on only `transitions` and `motion`);
  - state-machine behaviours such as parameter drivers.

  "No reference is left" in Animator.UpdateReplacesEveryOccurrence is about conditions and
  blend-tree axes only.
- Floating-point thresholds and blend-tree child thresholds are carried as `real` and never
  computed with.

## Findings

| source | as written | input that shows it | evidently intended | confidence | as-written member | corrected member |
|---|---|---|---|---|---|---|
| Editor/RenameParam/RenameParam.cs:450-462 | The loop reads `transition.conditions[i]` into a local `AnimatorCondition` and assigns the local's `parameter`. `AnimatorCondition` is a value type, and the `conditions` getter returns a copy of the array, so the transition keeps its old conditions. | A transition with the single condition `If A`, renamed from A to B: afterwards the condition still tests A, which the parameter list no longer declares. | Write the renamed array back (`transition.conditions = conditions`), so every condition naming A names B. | not executed; rests on `AnimatorCondition` being a struct in `UnityEditor.Animations`, which the source text does not show | Animator.UpdateTransitionConditionsAsWritten (exhibited by Animator.AsWrittenConditionKeepsOldName) | Animator.UpdateTransitionConditions |
