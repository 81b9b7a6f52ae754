# Juniper editor tools, modelled in Dafny

The repository holds three small tools for a game project. This model covers
the logic inside each of them. Every host call to Unity, Krita, Blender, Qt or
Perforce is replaced by the plain value it delivers.

- **Unity scene selector** (`scene_selector.dfy`, module `SceneSelector`). The
  editor window keeps the asset paths under a configured scene folder. It
  sorts them into categories by the prefix of each path's scene name. It puts
  everything no category claims into a reserved `"emptyList"` bucket. It draws
  each listed scene as active, loaded or not loaded. The window is a class whose
  methods refill its dictionary field, modelled as an insertion-ordered key list
  plus a map.
- **Krita texture exporter** (`texture_exporter.dfy`, module `TextureExport`).
  The exporter clones the open document under a temporary name. It finds the
  layer of each colour channel by marker substrings in the top-level layer
  names, and the last match wins. The red, green and blue layers get `copy_*`
  blending modes. A stepper then saves, exports, closes and deletes the clone,
  one step per timer tick. Documents are classes holding their top-level layers.
  A node handle is an index into the layer list. Host actions whose effect lies
  outside the layer list are events of a trace.
- **Blender FBX exporter** (`fbx_exporter.dfy`, module `FbxExport`). The add-on
  reads the Perforce settings from the depot's `.p4config` file, one `key=value`
  per line, into a map whose missing keys read as `""`. It derives the depot path
  of the `.fbx` file. It chooses between editing the file and adding it to a new
  changelist. It stamps `isStatic` on every scene object.
- **Shared modules.** `text.dfy` (module `Text`) writes out the Python and C#
  string operations the tools rely on, over `seq<char>`: `strip`, `split`,
  `find`, `LastIndexOf`, `split()` on whitespace and Python slicing. `wrappers.dfy`
  holds `Option` and `Result`.

Exceptions the scripts do not catch are modelled as error results:
- `IndexError` on a config line without `=`;
- `IndexError` on a `save_change` reply with fewer than two words;
- `ArgumentException` from `Dictionary.Add` on a repeated category name.

## Model

| member | source | states |
|---|---|---|
| Text.Strip | fbx_exporter/fbx_exporter.py:28 | Python's `str.strip()`: the text between the leading and the trailing whitespace run; `StripMeans` states what it keeps and drops |
| Text.IsWhitespace | fbx_exporter/fbx_exporter.py:28 | the characters `str.strip()` and `str.split()` treat as whitespace: space, tab, newline, vertical tab, form feed and carriage return, and the ASCII separators 0x1C-0x1F |
| Text.StartsWith | unity_scene_selector/EditorSceneSelector.cs:238 | C#'s `StartsWith(prefix)`, compared ordinally: the string begins with the prefix |
| Text.StripMeans | fbx_exporter/fbx_exporter.py:28 | `str.strip()` keeps a contiguous slice, drops only whitespace on either side, and the result neither starts nor ends with whitespace |
| Text.StripKeeps | fbx_exporter/fbx_exporter.py:28 | a non-whitespace character occurs in the stripped line exactly when it occurs in the line |
| Text.StripIdempotent | fbx_exporter/fbx_exporter.py:28-29 | stripping an already stripped piece changes nothing |
| Text.IndexOf | fbx_exporter/fbx_exporter.py:28 | the first position of a character, or -1 exactly when it does not occur |
| Text.LastIndexOf | unity_scene_selector/EditorSceneSelector.cs:236 | the last position of a character, or -1 exactly when it does not occur |
| Text.Find | fbx_exporter/fbx_exporter.py:62 | `str.find`: -1, or a position where the pattern occurs with no earlier occurrence |
| Text.Contains | krita_exporter/pykrita/texture_exporter/texture_exporter.py:291 | Python's `marker in name`: some position of `name` starts an occurrence of `marker`; `ContainsFind` ties it to `find` |
| Text.ContainsFind | fbx_exporter/fbx_exporter.py:62 | `find` is non-negative exactly when the pattern occurs |
| Text.Split | fbx_exporter/fbx_exporter.py:28 | `split(sep)` on one character, as Python's `str.split(sep)` and C#'s `Split(char)` cut: the texts between consecutive separators; `SplitPieces`, `JoinSplit`, `SplitFirst` and `SplitSecond` state its pieces |
| Text.SplitPieces | fbx_exporter/fbx_exporter.py:28 | no piece of `split(sep)` holds the separator |
| Text.JoinSplit | fbx_exporter/fbx_exporter.py:28 | splitting loses nothing: joining the pieces with the separator gives the string back |
| Text.SplitFirst | fbx_exporter/fbx_exporter.py:28-29 | the first piece is the text before the first separator, and there are at least two pieces exactly when a separator occurs |
| Text.SplitSecond | fbx_exporter/fbx_exporter.py:28-29 | the second piece is the text between the first and the next separator, or up to the end |
| Text.SplitLastOf | krita_exporter/pykrita/texture_exporter/texture_exporter.py:286 | the last piece of `dir + "/" + base` is `base` when `base` holds no `/` |
| Text.PyDropLast | krita_exporter/pykrita/texture_exporter/texture_exporter.py:197 | Python's `s[:-n]` for `n > 0`: the string without its last `n` characters, empty when it is shorter; `TempNameOf` uses it on `.kra` names |
| Text.PySliceFrom | fbx_exporter/fbx_exporter.py:62 | Python's `s[k:]`, with a negative `k` counting from the end and both ends clamped |
| Text.Words | fbx_exporter/fbx_exporter.py:46 | Python's `str.split()` with no argument: the maximal runs of non-whitespace characters, in order; the lemmas below state what the pieces are |
| Text.WordsFromAreWords | fbx_exporter/fbx_exporter.py:46 | every piece of `split()` is non-empty and holds no whitespace |
| Text.WordsCons | fbx_exporter/fbx_exporter.py:46 | a word followed by whitespace or the end is the first piece of `split()` |
| Text.WordsAfterWhitespace | fbx_exporter/fbx_exporter.py:46 | leading whitespace does not change the pieces of `split()` |
| Text.SecondWord | fbx_exporter/fbx_exporter.py:46 | in `a + " " + b + rest`, `b` is the second piece of `split()` |
| SceneSelector.SceneNameStart | unity_scene_selector/EditorSceneSelector.cs:236 | `LastIndexOf("/") + 1`: just after a `/` with none later, or 0 when the path has no `/` |
| SceneSelector.SceneName | unity_scene_selector/EditorSceneSelector.cs:236-237 | the scene name stands right after the last `/`, is followed by a `.` or the end, and holds neither `/` nor `.` |
| SceneSelector.SceneNameOf | unity_scene_selector/EditorSceneSelector.cs:157-158 | the scene name of `folder/Name.ext` is `Name` |
| SceneSelector.Candidates | unity_scene_selector/EditorSceneSelector.cs:250-257 | the asset paths that start with the scene folder, in input order; `CandidatesMeans` states its contents, multiplicities and order |
| SceneSelector.CandidatesMeans | unity_scene_selector/EditorSceneSelector.cs:251-257 | the candidates are exactly the asset paths starting with the scene folder, each as often as in the input, as a subsequence in input order |
| SceneSelector.CandidatesCounts | unity_scene_selector/EditorSceneSelector.cs:251-257 | every copy of a path under the folder is kept, and no other path |
| SceneSelector.ScenesInFolder | unity_scene_selector/EditorSceneSelector.cs:250-257 | the `foreach` loop builds the candidate list |
| SceneSelector.ScenesWithPrefix | unity_scene_selector/EditorSceneSelector.cs:232-242 | `GetScenesWithPrefix` as a value: the paths whose scene name starts with the prefix, in input order; `ScenesWithPrefixMeans` states its contents, multiplicities and order |
| SceneSelector.ScenesWithPrefixMeans | unity_scene_selector/EditorSceneSelector.cs:232-242 | the result holds exactly the paths whose scene name starts with the prefix, each as often as in the input, as a subsequence in input order |
| SceneSelector.ScenesWithPrefixMembers | unity_scene_selector/EditorSceneSelector.cs:238 | membership half of `ScenesWithPrefixMeans` |
| SceneSelector.ScenesWithPrefixSubsequence | unity_scene_selector/EditorSceneSelector.cs:235-239 | order half of `ScenesWithPrefixMeans` |
| SceneSelector.ScenesWithPrefixCounts | unity_scene_selector/EditorSceneSelector.cs:235-239 | multiplicity half of `ScenesWithPrefixMeans`: every copy of a matching path is kept |
| SceneSelector.GetScenesWithPrefix | unity_scene_selector/EditorSceneSelector.cs:232-242 | the `for` loop returns the paths whose scene name starts with the prefix, in order |
| SceneSelector.FirstIndex | unity_scene_selector/EditorSceneSelector.cs:275 | the first position of an element in a list, or the length when it is absent: the order `Except` keeps |
| SceneSelector.Except | unity_scene_selector/EditorSceneSelector.cs:275 | `Enumerable.Except`: an element is kept when it is outside the excluded list and has not occurred before; `ExceptMeans` states its contents and order |
| SceneSelector.ExceptMeans | unity_scene_selector/EditorSceneSelector.cs:275 | `Except` keeps the elements outside the excluded list, each once, in the order of their first occurrence |
| SceneSelector.ExceptMembers | unity_scene_selector/EditorSceneSelector.cs:275 | membership half of `ExceptMeans` |
| SceneSelector.ExceptDistinct | unity_scene_selector/EditorSceneSelector.cs:275 | `Except` yields no duplicates |
| SceneSelector.ExceptSubsequence | unity_scene_selector/EditorSceneSelector.cs:275 | `Except` keeps the input order |
| SceneSelector.ExceptOrder | unity_scene_selector/EditorSceneSelector.cs:275 | the kept elements come in the order of their first occurrence in the input |
| SceneSelector.AllCategorized | unity_scene_selector/EditorSceneSelector.cs:265-271 | the `uncategorizedList.AddRange` accumulation: the prefix matches of every category, one list after another in category order; `AllCategorizedMeans` states its contents |
| SceneSelector.AllCategorizedMeans | unity_scene_selector/EditorSceneSelector.cs:266-271 | `uncategorizedList` holds exactly the candidates some category prefix claims |
| SceneSelector.DictionaryKeys | unity_scene_selector/EditorSceneSelector.cs:261-275 | the keys are the category names and `"emptyList"`, distinct when the names are |
| SceneSelector.UncategorizedList | unity_scene_selector/EditorSceneSelector.cs:273-275 | the list stored under `"emptyList"`: the candidates `Except` the collected category lists; `UncategorizedMeans` states its contents and order |
| SceneSelector.UncategorizedMeans | unity_scene_selector/EditorSceneSelector.cs:273-275 | the reserved bucket holds each unclaimed candidate once, in the order of its first occurrence among the candidates |
| SceneSelector.CategoryList | unity_scene_selector/EditorSceneSelector.cs:267-275 | the list stored under a key after a successful refill: the prefix matches of a category, or the reserved bucket for `"emptyList"`, whose later write wins |
| SceneSelector.ScenesWithEmptyPrefix | unity_scene_selector/EditorSceneSelector.cs:238 | the empty prefix claims every path |
| SceneSelector.EmptyConfiguration | unity_scene_selector/EditorSceneSelector.cs:244-276 | an empty category string gives the single key `""`, which holds every candidate, and an empty reserved bucket |
| SceneSelector.EveryCandidateListed | unity_scene_selector/EditorSceneSelector.cs:266-275 | without a category named `"emptyList"`, every candidate is stored under some key |
| SceneSelector.ReservedNameShadowed | unity_scene_selector/EditorSceneSelector.cs:274-275 | a category named `"emptyList"` is overwritten, so a scene only it claims is stored under no key |
| SceneSelector.FirstRepeatFrom | unity_scene_selector/EditorSceneSelector.cs:261-263 | the first position, scanning forwards, that repeats an earlier name, or the length |
| SceneSelector.FirstRepeat | unity_scene_selector/EditorSceneSelector.cs:261-263 | the names before it are distinct, and the name at it (if any) repeats one of them |
| SceneSelector.FirstRepeatDistinct | unity_scene_selector/EditorSceneSelector.cs:261-263 | `Dictionary.Add` takes every name exactly when the names are distinct |
| SceneSelector.SceneRow | unity_scene_selector/EditorSceneSelector.cs:157-175 | a row is active iff its name is the active scene, loaded iff it is not active and is in `loadedScenes`, otherwise not loaded; each state has its buttons' effects |
| SceneSelector.ListRows | unity_scene_selector/EditorSceneSelector.cs:154-177 | one row per path of a list, in its order |
| SceneSelector.DictionaryRows | unity_scene_selector/EditorSceneSelector.cs:151-178 | the rows drawn for all keys: each key's list of rows, key by key in enumeration order; `RowsListScenes`, `RowOfListed` and `ListedOfRow` state which paths they draw |
| SceneSelector.RowsListScenes | unity_scene_selector/EditorSceneSelector.cs:151-178 | a path is drawn on some row exactly when some key's list holds it |
| SceneSelector.RowOfListed | unity_scene_selector/EditorSceneSelector.cs:151-178 | each listed path has a row that draws it |
| SceneSelector.ListedOfRow | unity_scene_selector/EditorSceneSelector.cs:151-178 | each row draws a path some key's list holds |
| SceneSelector.SceneSelectorWindow.constructor | unity_scene_selector/EditorSceneSelector.cs:14-18 | the window starts with an empty dictionary and the given configuration |
| SceneSelector.SceneSelectorWindow.PrepareEditorSceneSelectorData | unity_scene_selector/EditorSceneSelector.cs:244-276 | success exactly when the category names are distinct. On success every category maps to the candidates it claims and `"emptyList"` to the rest. On failure the keys before the repeat remain, each with an empty list |
| SceneSelector.SceneSelectorWindow.AddEmptyCategories | unity_scene_selector/EditorSceneSelector.cs:259-263 | one empty list per category name, in order, up to the first repeated name |
| SceneSelector.SceneSelectorWindow.CategorizeScenes | unity_scene_selector/EditorSceneSelector.cs:265-271 | every category key receives the scenes it claims, and the collected list is all those lists in turn |
| SceneSelector.SceneSelectorWindow.DrawItems | unity_scene_selector/EditorSceneSelector.cs:149-178 | the drawn rows go key by key in enumeration order and path by path within a key, each with its three-way state |
| TextureExport.Markers | krita_exporter/pykrita/texture_exporter/texture_exporter.py:32-42 | the channel markers each texture type's dictionary uses: the mask `MASK_*` constants, the detail mask `LAYER_MASK_*` ones without alpha, and the diffuse `LAYER_DIFFUSE_ALPHA` alone |
| TextureExport.Names | krita_exporter/pykrita/texture_exporter/texture_exporter.py:290-291 | the names of the top-level nodes, position by position |
| TextureExport.LastMatch | krita_exporter/pykrita/texture_exporter/texture_exporter.py:290-298 | the last layer whose name contains the marker, or none exactly when no name contains it |
| TextureExport.ChannelLayer | krita_exporter/pykrita/texture_exporter/texture_exporter.py:290-298 | the layer a channel ends on, given independently: none without a marker, else the last name holding it; `LayerDictAt` ties `LayerDict` to it |
| TextureExport.Record | krita_exporter/pykrita/texture_exporter/texture_exporter.py:291-292 | one `if marker in node.name(): layerDict[channel] = node` step |
| TextureExport.LayerDict | krita_exporter/pykrita/texture_exporter/texture_exporter.py:288-317 | the `create_*_layer_dict` loop as a value: every top-level node, bottom to top, overwrites the entry of each channel whose marker its name holds; `LayerDictAt` states the result |
| TextureExport.LayerDictAt | krita_exporter/pykrita/texture_exporter/texture_exporter.py:288-299 | a channel is in the dictionary exactly when some layer name holds its marker, and it maps to the last such layer |
| TextureExport.LayerDictMeans | krita_exporter/pykrita/texture_exporter/texture_exporter.py:288-317 | `LayerDictAt` for all four channels |
| TextureExport.LayerDictInRange | krita_exporter/pykrita/texture_exporter/texture_exporter.py:288-317 | every handle in the dictionary is a layer position |
| TextureExport.LayerDictChannels | krita_exporter/pykrita/texture_exporter/texture_exporter.py:301-317 | the detail mask never has `alpha`. The diffuse dictionary only has `alpha`, present exactly when some name holds `_ALPHA` |
| TextureExport.OneLayerTwoChannels | krita_exporter/pykrita/texture_exporter/texture_exporter.py:290-298 | one layer holding two markers fills both channels |
| TextureExport.OneLayerTwoChannelsExample | krita_exporter/pykrita/texture_exporter/texture_exporter.py:291-294 | the single layer `_METALNESS_OCCLUSION` is both red and green |
| TextureExport.LastMatchAppend | krita_exporter/pykrita/texture_exporter/texture_exporter.py:290-298 | a match among later layers wins over earlier ones |
| TextureExport.SetBlend | krita_exporter/pykrita/texture_exporter/texture_exporter.py:262-263 | one `if channel in layerDict: setBlendingMode(mode)` step: the channel's layer, when present, gets the mode |
| TextureExport.WithChannelBlends | krita_exporter/pykrita/texture_exporter/texture_exporter.py:262-269 | the red, green and blue `copy_*` assignments in source order; `ChannelBlends` states the resulting layers |
| TextureExport.ChannelBlend | krita_exporter/pykrita/texture_exporter/texture_exporter.py:262-269 | the mode a layer ends with, given independently: blue over green over red over its own mode |
| TextureExport.ChannelBlends | krita_exporter/pykrita/texture_exporter/texture_exporter.py:262-269 | only blending modes change. Each red, green or blue layer gets its `copy_*` mode, and every other layer keeps its mode |
| TextureExport.ActiveDocName | krita_exporter/pykrita/texture_exporter/texture_exporter.py:197 | `str(doc.fileName())[:-4].strip()`: the file name without its four-character extension, stripped |
| TextureExport.TempName | krita_exporter/pykrita/texture_exporter/texture_exporter.py:198 | the document name followed by `_temp.kra`; `TempNameOf` states it for `.kra` files |
| TextureExport.TempNameOf | krita_exporter/pykrita/texture_exporter/texture_exporter.py:197-198 | for `base.kra` the document name is `base` and the temporary file `base_temp.kra` |
| TextureExport.ExportTarget | krita_exporter/pykrita/texture_exporter/texture_exporter.py:278-286 | the file `export_texture` writes: none for an empty export path, else the path, `/`, the stripped last segment of the name and `.tga`; `ExportTargetShape` states its parts |
| TextureExport.LastSegment | krita_exporter/pykrita/texture_exporter/texture_exporter.py:286 | `name.split('/')[-1]`: the text after the last `/`, or the whole name without one; `ExportTargetOf` relies on it through `Text.SplitLastOf` |
| TextureExport.ExportTargetShape | krita_exporter/pykrita/texture_exporter/texture_exporter.py:278-286 | nothing is exported exactly when the export path is empty. Otherwise the target is the export path, `/`, the stripped last `/`-segment of the name (which holds no `/`) and `.tga` |
| TextureExport.ExportTargetOf | krita_exporter/pykrita/texture_exporter/texture_exporter.py:286 | `folder/base` exports to `exportPath/base.tga` |
| TextureExport.StepEvents | krita_exporter/pykrita/texture_exporter/texture_exporter.py:122-169 | the host calls of one invocation of a stepper, by its step number, for each texture type |
| TextureExport.LastStep | krita_exporter/pykrita/texture_exporter/texture_exporter.py:141 | the last step a stepper runs: it reschedules while `i < 6` (mask) or `i < 4` (detail mask, diffuse), so the steps run `0 .. 6` or `0 .. 4` |
| TextureExport.TraceUpTo | krita_exporter/pykrita/texture_exporter/texture_exporter.py:122-169 | the calls of the first `n` invocations, one step after another |
| TextureExport.StepperTrace | krita_exporter/pykrita/texture_exporter/texture_exporter.py:122-169 | the calls of all invocations from step 0 to the step where the stepper stops rescheduling; `MaskTrace`, `DetailMaskTrace`, `DiffuseTrace` and `StepperLifecycle` state it |
| TextureExport.MaskTrace | krita_exporter/pykrita/texture_exporter/texture_exporter.py:122-141 | the mask stepper adds the background, fills it black and converts the alpha layer before the save/export/close/delete lifecycle, exporting with alpha |
| TextureExport.DetailMaskTrace | krita_exporter/pykrita/texture_exporter/texture_exporter.py:143-153 | the detail-mask stepper prepares nothing and exports without alpha |
| TextureExport.DiffuseTrace | krita_exporter/pykrita/texture_exporter/texture_exporter.py:155-169 | the diffuse stepper converts the alpha layer, and exports with alpha, exactly when there is one |
| TextureExport.LifecyclePhases | krita_exporter/pykrita/texture_exporter/texture_exporter.py:122-169 | the phase of every trace position: preparation, save, export, close, delete |
| TextureExport.LifecycleOrder | krita_exporter/pykrita/texture_exporter/texture_exporter.py:122-169 | save precedes export, export precedes close, and close precedes delete. Save and close happen exactly once |
| TextureExport.LifecycleOutputs | krita_exporter/pykrita/texture_exporter/texture_exporter.py:163-168 | the trace exports exactly when there is a target and deletes exactly when the temp file exists |
| TextureExport.StepperLifecycle | krita_exporter/pykrita/texture_exporter/texture_exporter.py:122-169 | every stepper's trace keeps the lifecycle order |
| TextureExport.Steps | krita_exporter/pykrita/texture_exporter/texture_exporter.py:141 | the step numbers `0 .. n-1` in order |
| TextureExport.RunStepper | krita_exporter/pykrita/texture_exporter/texture_exporter.py:122-169 | the re-invocation loop visits steps `0 .. 6` (mask) or `0 .. 4` (detail mask, diffuse) in order and produces the stepper's trace |
| TextureExport.Document.constructor | krita_exporter/pykrita/texture_exporter/texture_exporter.py:192 | a document with the given name and top-level nodes |
| TextureExport.Document.Clone | krita_exporter/pykrita/texture_exporter/texture_exporter.py:195 | the clone has the source's name and nodes |
| TextureExport.EmptyGroup | krita_exporter/pykrita/texture_exporter/texture_exporter.py:365-368 | the group a create button adds: a group layer with the given name holding one `"empty"` paint layer |
| TextureExport.NewGroups | krita_exporter/pykrita/texture_exporter/texture_exporter.py:364-370 | one group per name, in order, each holding one `"empty"` paint layer |
| TextureExport.LastMatchAt | krita_exporter/pykrita/texture_exporter/texture_exporter.py:290-298 | the last name holding the marker is the last match |
| TextureExport.NamesAppend | krita_exporter/pykrita/texture_exporter/texture_exporter.py:366 | the names of appended nodes follow the old names |
| TextureExport.NamesOfGroups | krita_exporter/pykrita/texture_exporter/texture_exporter.py:364-365 | the added groups carry the names they were given |
| TextureExport.GroupsDetected | krita_exporter/pykrita/texture_exporter/texture_exporter.py:358-370 | after appending groups, a channel maps to the new group that is the last to hold its marker |
| TextureExport.OnlyOwnGroupHoldsMarker | krita_exporter/pykrita/texture_exporter/texture_exporter.py:172-185 | among a create button's groups, no group other than the channel's own holds the channel's marker |
| TextureExport.GroupNames | krita_exporter/pykrita/texture_exporter/texture_exporter.py:172-185 | the `groupArray` of each create button, in source order |
| TextureExport.GroupIsLastMatch | krita_exporter/pykrita/texture_exporter/texture_exporter.py:172-185 | among a create button's groups, each channel's group is the last that holds its marker |
| TextureExport.CreatedLayersDetected | krita_exporter/pykrita/texture_exporter/texture_exporter.py:172-185 | after a create button, the export of the same type maps each channel to its new group, whatever layers were there before |
| TextureExport.TextureExporterDock.constructor | krita_exporter/pykrita/texture_exporter/texture_exporter.py:45-49 | the docker's fields start empty |
| TextureExport.TextureExporterDock.ChoosePath | krita_exporter/pykrita/texture_exporter/texture_exporter.py:115-120 | only an empty path box takes the dialog's directory, and the export path follows it |
| TextureExport.TextureExporterDock.CreateLayerDict | krita_exporter/pykrita/texture_exporter/texture_exporter.py:288-317 | the loop over the top-level nodes builds the last-match dictionary of the texture type |
| TextureExport.TextureExporterDock.CloneForExport | krita_exporter/pykrita/texture_exporter/texture_exporter.py:189-201 | a fresh clone with the same nodes, named `<name>_temp.kra`, recorded as the file to delete |
| TextureExport.TextureExporterDock.ApplyChannelBlends | krita_exporter/pykrita/texture_exporter/texture_exporter.py:262-269 | the clone's layers become `WithChannelBlends` of the old layers |
| TextureExport.TextureExporterDock.PrepareMask | krita_exporter/pykrita/texture_exporter/texture_exporter.py:244-274 | the mask dictionary and blending modes are applied. The stepper runs exactly when an alpha layer was found |
| TextureExport.TextureExporterDock.PrepareDetailMask | krita_exporter/pykrita/texture_exporter/texture_exporter.py:213-242 | the detail-mask dictionary and blending modes are applied, then the stepper runs |
| TextureExport.TextureExporterDock.PrepareDiffuse | krita_exporter/pykrita/texture_exporter/texture_exporter.py:188-211 | the layers are unchanged. The stepper runs with the alpha flag set exactly when an `_ALPHA` layer was found |
| TextureExport.TextureExporterDock.CreateLayersBasedOnType | krita_exporter/pykrita/texture_exporter/texture_exporter.py:358-372 | the document's nodes gain one group per name, in order, each with one `"empty"` paint layer |
| TextureExport.TextureExporterDock.CreateLayers | krita_exporter/pykrita/texture_exporter/texture_exporter.py:172-185 | each create button appends its fixed groups |
| FbxExport.ParseLine | fbx_exporter/fbx_exporter.py:28-29 | one line of `.p4config`: the key and value of the stripped line, or an `IndexError` when there is no second piece |
| FbxExport.KeyValue | fbx_exporter/fbx_exporter.py:28-29 | `split('=')` of the stripped line, and the stripped pieces 0 and 1 when there are two; `KeyValueFields` states them |
| FbxExport.KeyValueFields | fbx_exporter/fbx_exporter.py:28-29 | the key is the stripped text before the first `=` and the value the stripped text up to the next `=` or the end |
| FbxExport.ParseLineFails | fbx_exporter/fbx_exporter.py:28-29 | a line fails to parse exactly when it holds no `=` |
| FbxExport.ParseLineFields | fbx_exporter/fbx_exporter.py:27-29 | `KeyValueFields` for the stripped line |
| FbxExport.BlankLineFails | fbx_exporter/fbx_exporter.py:27-29 | a blank or all-whitespace line makes the parse fail |
| FbxExport.ParsedLines | fbx_exporter/fbx_exporter.py:27-28 | one parse result per line |
| FbxExport.ParsedLinesAt | fbx_exporter/fbx_exporter.py:27-28 | result `i` is the parse of line `i` |
| FbxExport.Collect | fbx_exporter/fbx_exporter.py:27-29 | the entries the loop writes, line by line, or the first line where `data[1]` raises; `CollectMeans` states it |
| FbxExport.CollectMeans | fbx_exporter/fbx_exporter.py:27-29 | collecting fails exactly when some line does not parse, at the first such line. Otherwise there is one entry per line |
| FbxExport.Insert | fbx_exporter/fbx_exporter.py:26-29 | the writes into `P4_CONFIG`, in order, each overwriting the key's earlier value; `InsertMissing` and `InsertLast` state the result |
| FbxExport.InsertMissing | fbx_exporter/fbx_exporter.py:26-29 | a key no line has is not written |
| FbxExport.InsertLast | fbx_exporter/fbx_exporter.py:29 | a key has the value of the last line that sets it |
| FbxExport.ParseConfig | fbx_exporter/fbx_exporter.py:25-29 | the module-level parse of the file's lines into `P4_CONFIG`, or the first bad line; `ParseConfigFails` and `ConfigFileSetting` state it |
| FbxExport.ParseConfigFails | fbx_exporter/fbx_exporter.py:25-29 | the file fails to parse exactly when some line does not, and it names the first such line |
| FbxExport.CollectStops | fbx_exporter/fbx_exporter.py:27-29 | once a line fails, the later lines do not matter |
| FbxExport.LoadConfig | fbx_exporter/fbx_exporter.py:25-29 | the loop writing `P4_CONFIG` yields the parse of the lines, stopping at the first line without `=` |
| FbxExport.Lookup | fbx_exporter/fbx_exporter.py:26 | a read of `defaultdict(str)`: the stored value, or `""` for a missing key |
| FbxExport.Settings | fbx_exporter/fbx_exporter.py:31-33 | the `P4PORT`, `P4USER` and `P4CLIENT` reads that configure the connection |
| FbxExport.ConfigSetting | fbx_exporter/fbx_exporter.py:26-33 | a setting reads as the value of the last line with its key, and as `""` when no line has it |
| FbxExport.ConfigFileSetting | fbx_exporter/fbx_exporter.py:25-33 | for a file that parses, a setting reads as the value on the last line whose key it is, and as `""` when no line has that key |
| FbxExport.CleanedPath | fbx_exporter/fbx_exporter.py:59-62 | `cleaned_path`: the depot root, a backslash, the relative path from the first occurrence of the depot name and the `.fbx` file name; the lemmas below state its parts |
| FbxExport.CleanedPathShape | fbx_exporter/fbx_exporter.py:59-62 | the path starts with `D:\depots\` and ends with `name + ".fbx"` |
| FbxExport.CleanedPathFromDepot | fbx_exporter/fbx_exporter.py:62 | with the depot name present, the middle is the relative path from its first occurrence |
| FbxExport.CleanedPathWithoutDepot | fbx_exporter/fbx_exporter.py:62 | without the depot name, the middle is only the relative path's last character |
| FbxExport.CheckOut | fbx_exporter/fbx_exporter.py:36-48 | `check_out_exported_file` as the sequence of its Perforce calls, ending normally or with an `IndexError` on the save reply; `CheckOutEditOrAdd` and `CompletedCheckOut` state it |
| FbxExport.CheckOutEditOrAdd | fbx_exporter/fbx_exporter.py:36-48 | an existing file is edited and nothing is saved or added. A new file is never edited: the changelist "Exported from Blender" with no files is saved, and the file is added to the changelist the reply names, exactly when the reply has a second word |
| FbxExport.CompletedCheckOut | fbx_exporter/fbx_exporter.py:38-48 | a completed check-out ends with `disconnect` and makes exactly one file operation, on the given path |
| FbxExport.SaveReply | fbx_exporter/fbx_exporter.py:46 | Perforce's first reply to `save_change`, `Change <n> created.`, which the script reads the changelist number from |
| FbxExport.ChangeListFromReply | fbx_exporter/fbx_exporter.py:46-47 | the reply "Change n created." adds the file to changelist `n` |
| FbxExport.SceneObject.constructor | fbx_exporter/fbx_exporter.py:148 | a scene object with the given name and no custom properties |
| FbxExport.Tagged | fbx_exporter/fbx_exporter.py:155-160 | `isStatic` is 1 iff the flag is set and 0 iff not; every other property is unchanged |
| FbxExport.TaggedTwice | fbx_exporter/fbx_exporter.py:155-160 | tagging twice is tagging once with the last flag |
| FbxExport.TagIsStatic | fbx_exporter/fbx_exporter.py:154-160 | every scene object, not only the exported children, ends tagged from the flag, and its name is unchanged |

## Left out

- Unity drawing and layout are left out as host UI: `OnGUI`, the GUI styles and colours, `DrawConfiguration` and `DrawGUILine`. So are the `dirtyData` redraw and the scroll view. The button handlers appear only as the actions a row would perform.
- The Unity `AssetDatabase`, `SceneManager` and `EditorSceneManager` are left out, and so are the JSON configuration file (`JsonConvert`, `JsonUtility`, `File`). Asset paths, loaded scene names, the active scene name and the two configuration strings are inputs.
- C# `StartsWith` and `LastIndexOf(string)` are culture-sensitive. The model compares ordinally.
- The `foreach` over `categorizedScenesDict` enumerates in insertion order only as a .NET implementation detail; `Dictionary` does not promise an order. The model fixes that order in `dictKeys` and `DictionaryKeys`, and `DrawItems` draws in it.
- Krita and Qt calls are left out as host API: dock and widget construction, `QFileDialog` (its result is an input), the `QTimer` delay (only step order is modelled), the `ManagedColor` float components, `Application.action(...).trigger()`, and document save, `exportImage` (only its target path and alpha flag) and close. They appear as trace events at most.
- Krita's `addChildNode(node, None)` placement is decided by the host. The model appends the new node at the top of the list.
- The steppers read `exportPathGlobal`, `actviveDocName`, `tempFileToDeleteGlobal` and `LAYER_DICT_GLOBAL` when each timer tick runs. The model reads them once, when `prepare_*` starts the stepper (`StepEnv`), so it assumes that no other button handler runs between ticks. A handler that runs in between can change what later steps export or delete. For example, a `prepare_detail_mask` between mask ticks leaves no `"alpha"` key, and the next mask step raises `KeyError`.
- The background layer the mask stepper adds above the alpha layer is a trace event. It is not inserted into the modelled layer list.
- `os.path.exists` is left out as filesystem behaviour. The existence of the temp file is an input.
- `set_foreground_color`, `set_default_paint_layer_color` and `setup_texture_info` only set host colours or unused parameters, so they are events or left out.
- Blender is left out as host API: the `bpy` operators, panel and operator registration, `CreateExportNode`, the FBX export call, and in `ExportOperator.execute` the unhiding, selecting, inverting and hiding.
- In the `isStatic` tagging, the source's two loops differ only in the constant they write. They are modelled as one loop writing the value chosen from the flag.
- Perforce is left out as a library: connect, fetch, save and run are calls in a trace, and the reply of `save_change` is an input. Raising and printing `P4Exception` is left out too (the handler only prints), and so are `p4.errors`.
- `os.path.isfile`, `os.path.normpath` and `bpy.path.relpath` are left out as filesystem and library behaviour. Their results are inputs.
- The module-level `open` of `P4CONFIGFILE` (`D:\depots\juniper_game_dev\.p4config`) is left out as I/O, and so is the path constant. The parse takes the file's lines as a sequence of strings.
- `check_out_exported_file` never reads its `desc` and `fbx_file_to_export` parameters. The model does not take them.
- `Text.IsWhitespace`: covers only the ASCII characters Python's `str.isspace` accepts. Unicode spaces such as U+00A0 are not treated as whitespace by `strip` and `split()` in the model.
- Strings are sequences of characters. No encoding and no normalisation is modelled.
