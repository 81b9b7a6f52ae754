/**
 * The Krita docker `TextureExporterDock`
 * (krita_exporter/pykrita/texture_exporter/texture_exporter.py).
 *
 * Before a texture is exported the open document is cloned under a temporary
 * name. The top-level layers of the clone are then searched for the marker
 * names of the chosen texture type, giving each colour channel its layer, and
 * the red, green and blue layers get the matching `copy_*` blend mode. A
 * stepper then saves, exports, closes and deletes the clone one step per timer
 * tick. Krita's nodes are modelled as values held in the document's layer
 * list; a node handle is an index into that list. Host calls whose effect lies
 * outside the layer list are recorded as events of a trace.
 */
module TextureExport {
  import opened Wrappers
  import opened Text

  /** The three texture types the docker exports. */
  datatype MapKind = Mask | DetailMask | Diffuse

  /** The keys of the layer dictionary. */
  datatype Channel = Red | Green | Blue | Alpha

  datatype NodeType = PaintLayer | GroupLayer | OtherNode

  /** A Krita node: its name, type, blending mode and child nodes. */
  datatype Layer = Layer(name: string, nodeType: NodeType, blendMode: string, children: seq<Layer>)

  /** The markers of the four channels for one texture type, `None` where it has none. */
  datatype MarkerSet = MarkerSet(red: Option<string>, green: Option<string>, blue: Option<string>, alpha: Option<string>)

  /**
   * The name markers that assign layers to channels, per texture type. The
   * detail mask has no alpha marker and the diffuse texture only an alpha one.
   */
  function Markers(kind: MapKind): MarkerSet {
    match kind
    case Mask => MarkerSet(Some("_METALNESS"), Some("_OCCLUSION"), Some("_EMISSION_MASK"), Some("_SMOOTHNESS"))
    case DetailMask => MarkerSet(Some("_ALBEDO"), Some("_SMOOTHNESS"), Some("_NORMAL_DETAIL_MASK"), None)
    case Diffuse => MarkerSet(None, None, None, Some("_ALPHA"))
  }

  function Marker(m: MarkerSet, c: Channel): Option<string> {
    match c
    case Red => m.red
    case Green => m.green
    case Blue => m.blue
    case Alpha => m.alpha
  }

  /** The layer name holds the marker of channel `c` (Python's `marker in name`). */
  predicate IsMarked(m: MarkerSet, c: Channel, name: string) {
    Marker(m, c).Some? && Contains(name, Marker(m, c).value)
  }

  /** The layers' names, bottom to top. */
  function Names(nodes: seq<Layer>): (names: seq<string>)
    ensures |names| == |nodes|
    ensures forall i :: 0 <= i < |nodes| ==> names[i] == nodes[i].name
  {
    if nodes == [] then [] else Names(nodes[..|nodes| - 1]) + [nodes[|nodes| - 1].name]
  }

  // ---------------------------------------------------------------------------
  // The layer dictionary

  /** The last position whose name contains `marker`, if any. */
  function LastMatch(names: seq<string>, marker: string): (r: Option<nat>)
    ensures r.Some? ==> r.value < |names| && Contains(names[r.value], marker)
                        && forall j :: r.value < j < |names| ==> !Contains(names[j], marker)
    ensures r.None? ==> forall j :: 0 <= j < |names| ==> !Contains(names[j], marker)
  {
    if names == [] then None
    else if Contains(names[|names| - 1], marker) then Some(|names| - 1)
    else LastMatch(names[..|names| - 1], marker)
  }

  /** The layer of channel `c`: the last one whose name holds its marker. */
  function ChannelLayer(m: MarkerSet, c: Channel, names: seq<string>): Option<nat> {
    if Marker(m, c).None? then None else LastMatch(names, Marker(m, c).value)
  }

  /** One `if` of the dictionary loop: layer `i` claims channel `c` when marked. */
  function Record(d: map<Channel, nat>, m: MarkerSet, c: Channel, i: nat, name: string): map<Channel, nat> {
    if IsMarked(m, c, name) then d[c := i] else d
  }

  /**
   * The dictionary after the loop over `names`: the four independent `if`s,
   * red, green, blue and alpha, applied to each layer in turn.
   */
  function LayerDict(m: MarkerSet, names: seq<string>): map<Channel, nat> {
    if names == [] then map[]
    else
      var i := |names| - 1;
      var d := LayerDict(m, names[..i]);
      Record(Record(Record(Record(d, m, Red, i, names[i]), m, Green, i, names[i]),
                    m, Blue, i, names[i]), m, Alpha, i, names[i])
  }

  /**
   * The dictionary has channel `c` exactly when some layer name holds its
   * marker, and then maps it to the last such layer.
   */
  lemma {:induction false} LayerDictAt(m: MarkerSet, names: seq<string>, c: Channel)
    ensures c in LayerDict(m, names) <==> ChannelLayer(m, c, names).Some?
    ensures c in LayerDict(m, names) ==> LayerDict(m, names)[c] == ChannelLayer(m, c, names).value
  {
    if names != [] {
      var i := |names| - 1;
      LayerDictAt(m, names[..i], c);
      assert ChannelLayer(m, c, names)
             == if IsMarked(m, c, names[i]) then Some(i) else ChannelLayer(m, c, names[..i]);
    }
  }

  /** `LayerDictAt` for all four channels at once. */
  lemma LayerDictMeans(m: MarkerSet, names: seq<string>)
    ensures var d := LayerDict(m, names);
            forall c :: (c in d <==> ChannelLayer(m, c, names).Some?)
                        && (c in d ==> d[c] == ChannelLayer(m, c, names).value)
  {
    forall c ensures var d := LayerDict(m, names);
                     (c in d <==> ChannelLayer(m, c, names).Some?)
                     && (c in d ==> d[c] == ChannelLayer(m, c, names).value)
    {
      LayerDictAt(m, names, c);
    }
  }

  /** Every layer handle in the dictionary is a position of the layer list. */
  lemma LayerDictInRange(m: MarkerSet, names: seq<string>)
    ensures forall c :: c in LayerDict(m, names) ==> LayerDict(m, names)[c] < |names|
  {
    LayerDictMeans(m, names);
  }

  /**
   * The detail mask never has an alpha entry; the diffuse texture has nothing
   * but an alpha entry, the last `_ALPHA` layer.
   */
  lemma LayerDictChannels(names: seq<string>)
    ensures Alpha !in LayerDict(Markers(DetailMask), names)
    ensures forall c :: c in LayerDict(Markers(Diffuse), names) ==> c == Alpha
    ensures Alpha in LayerDict(Markers(Diffuse), names) <==> LastMatch(names, "_ALPHA").Some?
  {
    LayerDictMeans(Markers(DetailMask), names);
    LayerDictMeans(Markers(Diffuse), names);
  }

  /**
   * One layer whose name holds two markers fills both channels: the checks are
   * separate `if`s, not an `if`/`elif` chain.
   */
  lemma OneLayerTwoChannels(names: seq<string>, i: nat)
    requires i < |names| && Contains(names[i], "_METALNESS") && Contains(names[i], "_OCCLUSION")
    requires forall j :: i < j < |names| ==> (!Contains(names[j], "_METALNESS") && !Contains(names[j], "_OCCLUSION"))
    ensures var d := LayerDict(Markers(Mask), names);
            Red in d && Green in d && d[Red] == d[Green] == i
  {
    LastMatchAt(names, "_METALNESS", i);
    LastMatchAt(names, "_OCCLUSION", i);
    LayerDictAt(Markers(Mask), names, Red);
    LayerDictAt(Markers(Mask), names, Green);
  }

  /** For instance, a single layer "_METALNESS_OCCLUSION" is both the red and the green layer. */
  lemma OneLayerTwoChannelsExample()
    ensures var d := LayerDict(Markers(Mask), ["_METALNESS_OCCLUSION"]);
            Red in d && Green in d && d[Red] == d[Green] == 0
  {
    var name := "_METALNESS_OCCLUSION";
    assert OccursAt(name, "_METALNESS", 0);
    assert OccursAt(name, "_OCCLUSION", 10);
    OneLayerTwoChannels([name], 0);
  }

  /** Appending layers: a match among the new ones wins over the old ones. */
  lemma {:induction false} LastMatchAppend(a: seq<string>, b: seq<string>, marker: string)
    ensures LastMatch(a + b, marker)
            == if LastMatch(b, marker).Some? then Some(|a| + LastMatch(b, marker).value)
               else LastMatch(a, marker)
  {
    if b != [] {
      var init := b[..|b| - 1];
      assert (a + b)[..|a + b| - 1] == a + init;
      LastMatchAppend(a, init, marker);
    } else {
      assert a + b == a;
    }
  }

  // ---------------------------------------------------------------------------
  // Blending modes

  /** Gives the layer of channel `c`, if present, the blending mode `mode`. */
  function SetBlend(nodes: seq<Layer>, d: map<Channel, nat>, c: Channel, mode: string): seq<Layer> {
    if c in d && d[c] < |nodes| then nodes[d[c] := nodes[d[c]].(blendMode := mode)] else nodes
  }

  /** The layer list after the red, green and blue `copy_*` assignments, in that order. */
  function WithChannelBlends(nodes: seq<Layer>, d: map<Channel, nat>): seq<Layer> {
    SetBlend(SetBlend(SetBlend(nodes, d, Red, "copy_red"), d, Green, "copy_green"), d, Blue, "copy_blue")
  }

  /** The blending mode a layer ends with; a later assignment replaces an earlier one. */
  function ChannelBlend(d: map<Channel, nat>, j: nat, current: string): string {
    if Blue in d && d[Blue] == j then "copy_blue"
    else if Green in d && d[Green] == j then "copy_green"
    else if Red in d && d[Red] == j then "copy_red"
    else current
  }

  /**
   * Only blending modes change: each red, green or blue layer gets its
   * `copy_*` mode, and every other layer, the alpha layer included unless it
   * is also a colour layer, keeps its mode.
   */
  lemma ChannelBlends(nodes: seq<Layer>, d: map<Channel, nat>)
    requires forall c :: c in d ==> d[c] < |nodes|
    ensures var r := WithChannelBlends(nodes, d);
            |r| == |nodes|
            && forall j :: 0 <= j < |nodes| ==>
                 r[j] == nodes[j].(blendMode := ChannelBlend(d, j, nodes[j].blendMode))
  {
  }

  // ---------------------------------------------------------------------------
  // Names

  /** Python's `name.split('/')[-1]`: the text after the last '/'. */
  function LastSegment(name: string): string {
    var parts := Split(name, '/');
    parts[|parts| - 1]
  }

  /** `str(doc.fileName())[:-4].strip()`: the file name without its extension. */
  function ActiveDocName(fileName: string): string {
    Strip(PyDropLast(fileName, 4))
  }

  /** The file name the clone is saved under. */
  function TempName(fileName: string): string {
    ActiveDocName(fileName) + "_temp.kra"
  }

  /** A `.kra` file name gives back its base name and `base_temp.kra`. */
  lemma TempNameOf(base: string)
    requires Strip(base) == base
    ensures ActiveDocName(base + ".kra") == base
    ensures TempName(base + ".kra") == base + "_temp.kra"
  {
    assert PyDropLast(base + ".kra", 4) == base;
  }

  /** Where `export_texture` writes the `.tga` file, or nothing when the export path is empty. */
  function ExportTarget(exportPath: string, docName: string): Option<string> {
    if |exportPath| == 0 then None
    else Some(exportPath + "/" + Strip(LastSegment(docName)) + ".tga")
  }

  /**
   * An export happens exactly when the export path is set. The target is the
   * export path, a '/', the stripped last segment of the document name, which
   * holds no '/', and ".tga".
   */
  lemma ExportTargetShape(exportPath: string, docName: string)
    ensures var r := ExportTarget(exportPath, docName);
            (r.None? <==> exportPath == [])
            && (r.Some? ==> |r.value| >= |exportPath| + 5
                            && StartsWith(r.value, exportPath + "/") && EndsWith(r.value, ".tga")
                            && r.value[|exportPath| + 1..|r.value| - 4] == Strip(LastSegment(docName))
                            && '/' !in r.value[|exportPath| + 1..|r.value| - 4])
  {
    if exportPath != [] {
      var file := Strip(LastSegment(docName));
      var target := exportPath + "/" + file + ".tga";
      assert target[..|exportPath| + 1] == exportPath + "/";
      assert target[|target| - 4..] == ".tga";
      assert target[|exportPath| + 1..|target| - 4] == file;
      SplitPieces(docName, '/');
      StripKeeps(LastSegment(docName), '/');
    }
  }

  /** A document `folder/base` exports to `exportPath/base.tga`. */
  lemma ExportTargetOf(exportPath: string, folder: string, base: string)
    requires exportPath != [] && '/' !in base && Strip(base) == base
    ensures ExportTarget(exportPath, folder + "/" + base) == Some(exportPath + "/" + base + ".tga")
  {
    SplitLastOf(folder, '/', base);
  }

  // ---------------------------------------------------------------------------
  // The steppers

  /** The host actions a stepper performs, in the order it performs them. */
  datatype Event =
    | AddBackgroundLayer(above: nat)         // a "_BACKGROUND" paint layer above the alpha layer
    | FillBackgroundBlack                    // `set_foreground_color`
    | ConvertToTransparencyMask(node: nat)   // the alpha layer becomes a transparency mask
    | SaveDocument
    | ExportImage(target: string, alpha: bool)
    | CloseActiveDocument
    | DeleteFile(path: string)

  /** What a stepper reads when it runs: the alpha layer, the target and the temp file. */
  datatype StepEnv = StepEnv(alphaNode: Option<nat>, target: Option<string>, tempFile: string, tempExists: bool)

  /** The last step a stepper is invoked with: it stops rescheduling there. */
  function LastStep(kind: MapKind): nat {
    if kind == Mask then 6 else 4
  }

  function ExportEvents(target: Option<string>, alpha: bool): seq<Event> {
    if target.Some? then [ExportImage(target.value, alpha)] else []
  }

  function DeleteEvents(env: StepEnv): seq<Event> {
    if env.tempExists then [DeleteFile(env.tempFile)] else []
  }

  /** What step `i` of a stepper does. */
  function StepEvents(kind: MapKind, i: nat, env: StepEnv): seq<Event>
    requires kind == Mask ==> env.alphaNode.Some?
  {
    match kind
    case Mask =>
      if i == 0 then [AddBackgroundLayer(env.alphaNode.value)]
      else if i == 1 then [FillBackgroundBlack]
      else if i == 2 then [ConvertToTransparencyMask(env.alphaNode.value), SaveDocument]
      else if i == 3 then ExportEvents(env.target, true)
      else if i == 4 then [CloseActiveDocument]
      else if i == 5 then DeleteEvents(env)
      else []
    case DetailMask =>
      if i == 0 then [SaveDocument]
      else if i == 1 then ExportEvents(env.target, false)
      else if i == 2 then [CloseActiveDocument]
      else if i == 3 then DeleteEvents(env)
      else []
    case Diffuse =>
      if i == 0 then
        (if env.alphaNode.Some? then [ConvertToTransparencyMask(env.alphaNode.value)] else []) + [SaveDocument]
      else if i == 1 then ExportEvents(env.target, env.alphaNode.Some?)
      else if i == 2 then [CloseActiveDocument]
      else if i == 3 then DeleteEvents(env)
      else []
  }

  /** The events of steps `0 .. n - 1`. */
  function TraceUpTo(kind: MapKind, env: StepEnv, n: nat): seq<Event>
    requires kind == Mask ==> env.alphaNode.Some?
  {
    if n == 0 then [] else TraceUpTo(kind, env, n - 1) + StepEvents(kind, n - 1, env)
  }

  /** Everything a stepper does from step 0 until it stops. */
  function StepperTrace(kind: MapKind, env: StepEnv): seq<Event>
    requires kind == Mask ==> env.alphaNode.Some?
  {
    TraceUpTo(kind, env, LastStep(kind) + 1)
  }

  /**
   * The shape of every stepper's trace: preparation of the layers, then save,
   * export when there is a target, close, and delete when the temp file exists.
   */
  function Lifecycle(prep: seq<Event>, alpha: bool, env: StepEnv): seq<Event> {
    prep + [SaveDocument] + ExportEvents(env.target, alpha) + [CloseActiveDocument] + DeleteEvents(env)
  }

  /** The mask stepper: background layer, black fill and transparency mask come first. */
  lemma MaskTrace(env: StepEnv)
    requires env.alphaNode.Some?
    ensures var a := env.alphaNode.value;
            StepperTrace(Mask, env)
            == Lifecycle([AddBackgroundLayer(a), FillBackgroundBlack, ConvertToTransparencyMask(a)], true, env)
  {
    var a := env.alphaNode.value;
    assert TraceUpTo(Mask, env, 1) == [AddBackgroundLayer(a)];
    assert TraceUpTo(Mask, env, 2) == [AddBackgroundLayer(a), FillBackgroundBlack];
    var prep := [AddBackgroundLayer(a), FillBackgroundBlack, ConvertToTransparencyMask(a)];
    assert TraceUpTo(Mask, env, 3) == prep + [SaveDocument];
    assert TraceUpTo(Mask, env, 4) == prep + [SaveDocument] + ExportEvents(env.target, true);
    assert TraceUpTo(Mask, env, 5) == TraceUpTo(Mask, env, 4) + [CloseActiveDocument];
    assert TraceUpTo(Mask, env, 6) == TraceUpTo(Mask, env, 5) + DeleteEvents(env);
    assert TraceUpTo(Mask, env, 7) == TraceUpTo(Mask, env, 6);
  }

  /** The detail-mask stepper: nothing is prepared, and the image is exported without alpha. */
  lemma DetailMaskTrace(env: StepEnv)
    ensures StepperTrace(DetailMask, env) == Lifecycle([], false, env)
  {
    assert TraceUpTo(DetailMask, env, 1) == [] + [SaveDocument];
    assert TraceUpTo(DetailMask, env, 2) == [] + [SaveDocument] + ExportEvents(env.target, false);
    assert TraceUpTo(DetailMask, env, 3) == TraceUpTo(DetailMask, env, 2) + [CloseActiveDocument];
    assert TraceUpTo(DetailMask, env, 4) == TraceUpTo(DetailMask, env, 3) + DeleteEvents(env);
    assert TraceUpTo(DetailMask, env, 5) == TraceUpTo(DetailMask, env, 4);
  }

  /** The diffuse stepper: it converts the alpha layer, and exports with alpha, only when there is one. */
  lemma DiffuseTrace(env: StepEnv)
    ensures StepperTrace(Diffuse, env)
            == Lifecycle(if env.alphaNode.Some? then [ConvertToTransparencyMask(env.alphaNode.value)] else [],
                         env.alphaNode.Some?, env)
  {
    var prep := if env.alphaNode.Some? then [ConvertToTransparencyMask(env.alphaNode.value)] else [];
    assert TraceUpTo(Diffuse, env, 1) == prep + [SaveDocument];
    assert TraceUpTo(Diffuse, env, 2) == prep + [SaveDocument] + ExportEvents(env.target, env.alphaNode.Some?);
    assert TraceUpTo(Diffuse, env, 3) == TraceUpTo(Diffuse, env, 2) + [CloseActiveDocument];
    assert TraceUpTo(Diffuse, env, 4) == TraceUpTo(Diffuse, env, 3) + DeleteEvents(env);
    assert TraceUpTo(Diffuse, env, 5) == TraceUpTo(Diffuse, env, 4);
  }

  /** Layer preparation, then saving, exporting, closing and deleting. */
  function Phase(e: Event): nat {
    match e
    case AddBackgroundLayer(_) => 0
    case FillBackgroundBlack => 0
    case ConvertToTransparencyMask(_) => 0
    case SaveDocument => 1
    case ExportImage(_, _) => 2
    case CloseActiveDocument => 3
    case DeleteFile(_) => 4
  }

  ghost predicate InPhaseOrder(trace: seq<Event>) {
    forall i, j :: 0 <= i < j < |trace| ==> Phase(trace[i]) <= Phase(trace[j])
  }

  ghost predicate OccursOnce(trace: seq<Event>, e: Event) {
    (exists i :: 0 <= i < |trace| && trace[i] == e)
    && forall i, j :: 0 <= i < |trace| && 0 <= j < |trace| && trace[i] == e && trace[j] == e ==> i == j
  }

  /** The phase at position `i` of a lifecycle with `p` preparation and `e` export events. */
  function PhaseAt(i: nat, p: nat, e: nat): nat {
    if i < p then 0 else if i == p then 1 else if i <= p + e then 2 else if i == p + e + 1 then 3 else 4
  }

  /** The phase of every position of a lifecycle. */
  lemma LifecyclePhases(prep: seq<Event>, alpha: bool, env: StepEnv)
    requires forall i :: 0 <= i < |prep| ==> Phase(prep[i]) == 0
    ensures var t := Lifecycle(prep, alpha, env);
            forall i :: 0 <= i < |t| ==> Phase(t[i]) == PhaseAt(i, |prep|, |ExportEvents(env.target, alpha)|)
  {
    var t := Lifecycle(prep, alpha, env);
    forall i | 0 <= i < |t|
      ensures Phase(t[i]) == PhaseAt(i, |prep|, |ExportEvents(env.target, alpha)|)
    {
      if i < |prep| {
        assert t[i] == prep[i];
      }
    }
  }

  /**
   * In a lifecycle the clone is saved before it is exported, exported before it
   * is closed and closed before its file is deleted; it is saved and closed
   * exactly once, exported exactly when there is a target and deleted exactly
   * when the temp file exists.
   */
  lemma LifecycleOrder(prep: seq<Event>, alpha: bool, env: StepEnv)
    requires forall i :: 0 <= i < |prep| ==> Phase(prep[i]) == 0
    ensures var t := Lifecycle(prep, alpha, env);
            InPhaseOrder(t) && OccursOnce(t, SaveDocument) && OccursOnce(t, CloseActiveDocument)
  {
    var t := Lifecycle(prep, alpha, env);
    var p, e := |prep|, |ExportEvents(env.target, alpha)|;
    LifecyclePhases(prep, alpha, env);
    assert t[p] == SaveDocument && t[p + e + 1] == CloseActiveDocument;
  }

  /** A lifecycle exports exactly when there is a target and deletes exactly when the temp file exists. */
  lemma LifecycleOutputs(prep: seq<Event>, alpha: bool, env: StepEnv)
    requires forall i :: 0 <= i < |prep| ==> Phase(prep[i]) == 0
    ensures var t := Lifecycle(prep, alpha, env);
            ((exists i :: 0 <= i < |t| && t[i].ExportImage?) <==> env.target.Some?)
            && ((exists i :: 0 <= i < |t| && t[i].DeleteFile?) <==> env.tempExists)
  {
    var t := Lifecycle(prep, alpha, env);
    LifecyclePhases(prep, alpha, env);
    if env.target.Some? {
      assert t[|prep| + 1].ExportImage?;
    }
    if env.tempExists {
      assert t[|t| - 1].DeleteFile?;
    }
  }

  /** `LifecycleOrder` for each of the three steppers. */
  lemma StepperLifecycle(kind: MapKind, env: StepEnv)
    requires kind == Mask ==> env.alphaNode.Some?
    ensures var t := StepperTrace(kind, env);
            InPhaseOrder(t) && OccursOnce(t, SaveDocument) && OccursOnce(t, CloseActiveDocument)
            && ((exists i :: 0 <= i < |t| && t[i].ExportImage?) <==> env.target.Some?)
            && ((exists i :: 0 <= i < |t| && t[i].DeleteFile?) <==> env.tempExists)
  {
    match kind {
      case Mask =>
        var a := env.alphaNode.value;
        MaskTrace(env);
        LifecycleOrder([AddBackgroundLayer(a), FillBackgroundBlack, ConvertToTransparencyMask(a)], true, env);
        LifecycleOutputs([AddBackgroundLayer(a), FillBackgroundBlack, ConvertToTransparencyMask(a)], true, env);
      case DetailMask =>
        DetailMaskTrace(env);
        LifecycleOrder([], false, env);
        LifecycleOutputs([], false, env);
      case Diffuse =>
        DiffuseTrace(env);
        var prep := if env.alphaNode.Some? then [ConvertToTransparencyMask(env.alphaNode.value)] else [];
        LifecycleOrder(prep, env.alphaNode.Some?, env);
        LifecycleOutputs(prep, env.alphaNode.Some?, env);
    }
  }

  /** Steps `0 .. n - 1` in order. */
  function Steps(n: nat): (r: seq<nat>)
    ensures |r| == n && forall i :: 0 <= i < n ==> r[i] == i
  {
    if n == 0 then [] else Steps(n - 1) + [n - 1]
  }

  /**
   * Runs a stepper: step `i` runs, then step `i + 1` is scheduled while `i` is
   * below the last step. `visited` lists the steps in the order they ran.
   */
  method RunStepper(kind: MapKind, env: StepEnv) returns (trace: seq<Event>, visited: seq<nat>)
    requires kind == Mask ==> env.alphaNode.Some?
    ensures visited == Steps(LastStep(kind) + 1)
    ensures trace == StepperTrace(kind, env)
  {
    var i := 0;
    trace, visited := [], [];
    while true
      invariant i <= LastStep(kind)
      invariant visited == Steps(i) && trace == TraceUpTo(kind, env, i)
      decreases LastStep(kind) - i
    {
      trace := trace + StepEvents(kind, i, env);
      visited := visited + [i];
      if i < LastStep(kind) {
        i := i + 1;
      } else {
        break;
      }
    }
  }

  // ---------------------------------------------------------------------------
  // Documents and the docker

  /** A Krita document: its file name and its top-level nodes, bottom to top. */
  class Document {
    var fileName: string
    var nodes: seq<Layer>

    constructor (fileName: string, nodes: seq<Layer>)
      ensures this.fileName == fileName && this.nodes == nodes
    {
      this.fileName := fileName;
      this.nodes := nodes;
    }

    /** `doc.clone()`: a new document with the same name and nodes. */
    constructor Clone(source: Document)
      ensures fileName == source.fileName && nodes == source.nodes
    {
      fileName := source.fileName;
      nodes := source.nodes;
    }
  }

  /** The group a create button adds: one group layer holding one empty paint layer. */
  function EmptyGroup(name: string): Layer {
    Layer(name, GroupLayer, "normal", [Layer("empty", PaintLayer, "normal", [])])
  }

  /** The groups `create_layers_based_on_type` adds, one per name, in order. */
  function NewGroups(groupArray: seq<string>): (r: seq<Layer>)
    ensures |r| == |groupArray|
    ensures forall i :: 0 <= i < |r| ==> r[i] == EmptyGroup(groupArray[i])
  {
    if groupArray == [] then []
    else NewGroups(groupArray[..|groupArray| - 1]) + [EmptyGroup(groupArray[|groupArray| - 1])]
  }

  /** The group names each create button passes. */
  function GroupNames(kind: MapKind): seq<string> {
    match kind
    case Mask => ["_METALNESS", "_OCCLUSION", "_EMISSION_MASK", "_SMOOTHNESS"]
    case DetailMask => ["_ALBEDO", "_SMOOTHNESS", "_NORMAL_DETAIL_MASK"]
    case Diffuse => ["_DIFFUSE", "_ALPHA"]
  }

  /** Where among a create button's groups the group of channel `c` stands. */
  function GroupIndex(kind: MapKind, c: Channel): nat {
    match (kind, c)
    case (Diffuse, _) => 1
    case (_, Red) => 0
    case (_, Green) => 1
    case (_, Blue) => 2
    case (_, Alpha) => 3
  }

  /** The unique last match: a name holding the marker with none after it. */
  lemma LastMatchAt(names: seq<string>, marker: string, k: nat)
    requires k < |names| && Contains(names[k], marker)
    requires forall j :: k < j < |names| ==> !Contains(names[j], marker)
    ensures LastMatch(names, marker) == Some(k)
  {
  }

  lemma NamesAppend(a: seq<Layer>, b: seq<Layer>)
    ensures Names(a + b) == Names(a) + Names(b)
  {
    var l, r := Names(a + b), Names(a) + Names(b);
    forall i | 0 <= i < |l|
      ensures l[i] == r[i]
    {
      if i < |a| {
        assert (a + b)[i] == a[i];
      } else {
        assert (a + b)[i] == b[i - |a|];
      }
    }
  }

  /** The groups a create button adds carry the names it was given. */
  lemma NamesOfGroups(groups: seq<string>)
    ensures Names(NewGroups(groups)) == groups
  {
    var l := Names(NewGroups(groups));
    forall i | 0 <= i < |l|
      ensures l[i] == groups[i]
    {
    }
  }

  /**
   * Appending groups: channel `c` maps to the new group at position `k` when
   * that group holds the channel's marker and no later group does.
   */
  lemma GroupsDetected(m: MarkerSet, groups: seq<string>, nodes: seq<Layer>, c: Channel, k: nat)
    requires Marker(m, c).Some? && LastMatch(groups, Marker(m, c).value) == Some(k)
    ensures var d := LayerDict(m, Names(nodes + NewGroups(groups)));
            c in d && d[c] == |nodes| + k
  {
    var all := Names(nodes + NewGroups(groups));
    NamesAppend(nodes, NewGroups(groups));
    NamesOfGroups(groups);
    LayerDictAt(m, all, c);
    LastMatchAppend(Names(nodes), groups, Marker(m, c).value);
  }

  /**
   * Among a create button's groups, only the channel's own group holds the
   * channel's marker: every other group name lacks one of the marker's
   * characters.
   */
  lemma OnlyOwnGroupHoldsMarker(kind: MapKind, c: Channel, j: nat)
    requires Marker(Markers(kind), c).Some?
    requires j < |GroupNames(kind)| && j != GroupIndex(kind, c)
    ensures !Contains(GroupNames(kind)[j], Marker(Markers(kind), c).value)
  {
    match kind {
      case Mask => MaskGroupLacksMarker(c, j);
      case DetailMask => DetailMaskGroupLacksMarker(c, j);
      case Diffuse => NotContainsByChar("_DIFFUSE", "_ALPHA", 'A');
    }
  }

  /** `OnlyOwnGroupHoldsMarker` for the mask's four groups. */
  lemma MaskGroupLacksMarker(c: Channel, j: nat)
    requires j < |GroupNames(Mask)| && j != GroupIndex(Mask, c)
    ensures !Contains(GroupNames(Mask)[j], Marker(Markers(Mask), c).value)
  {
    var g, m := GroupNames(Mask)[j], Marker(Markers(Mask), c).value;
    match c {
      case Red => NotContainsByChar(g, m, if j == 1 then 'M' else if j == 2 then 'T' else 'L');
      case Green => NotContainsByChar(g, m, 'C');
      case Blue => NotContainsByChar(g, m, 'K');
      case Alpha => NotContainsByChar(g, m, 'H');
    }
  }

  /** `OnlyOwnGroupHoldsMarker` for the detail mask's three groups. */
  lemma DetailMaskGroupLacksMarker(c: Channel, j: nat)
    requires c != Alpha
    requires j < |GroupNames(DetailMask)| && j != GroupIndex(DetailMask, c)
    ensures !Contains(GroupNames(DetailMask)[j], Marker(Markers(DetailMask), c).value)
  {
    var g, m := GroupNames(DetailMask)[j], Marker(Markers(DetailMask), c).value;
    match c {
      case Red => NotContainsByChar(g, m, 'B');
      case Green => NotContainsByChar(g, m, 'H');
      case Blue => NotContainsByChar(g, m, 'K');
    }
  }

  /** Among a create button's groups, the channel's group is the last that holds its marker. */
  lemma GroupIsLastMatch(kind: MapKind, c: Channel)
    requires Marker(Markers(kind), c).Some?
    ensures LastMatch(GroupNames(kind), Marker(Markers(kind), c).value) == Some(GroupIndex(kind, c))
  {
    var g, m := GroupNames(kind), Marker(Markers(kind), c).value;
    ContainsSelf(m);
    forall j | GroupIndex(kind, c) < j < |g| ensures !Contains(g[j], m) {
      OnlyOwnGroupHoldsMarker(kind, c, j);
    }
    LastMatchAt(g, m, GroupIndex(kind, c));
  }

  /**
   * After a create button, the export of the same type finds its layers in the
   * groups just added: channel `c` maps to its new group, whatever layers the
   * document had before.
   */
  lemma CreatedLayersDetected(kind: MapKind, nodes: seq<Layer>, c: Channel)
    requires Marker(Markers(kind), c).Some?
    ensures var d := LayerDict(Markers(kind), Names(nodes + NewGroups(GroupNames(kind))));
            c in d && d[c] == |nodes| + GroupIndex(kind, c)
  {
    GroupIsLastMatch(kind, c);
    GroupsDetected(Markers(kind), GroupNames(kind), nodes, c, GroupIndex(kind, c));
  }

  /**
   * The docker's state: the text of the export path box, the export path it
   * last took, the layer dictionary of the last prepared clone, the temp file
   * to delete and the active document's base name.
   */
  class TextureExporterDock {
    var exportPathBox: string
    var exportPathGlobal: string
    var layerDict: map<Channel, nat>
    var tempFileToDelete: string
    var activeDocName: string

    constructor ()
      ensures exportPathBox == "" && exportPathGlobal == "" && layerDict == map[]
      ensures tempFileToDelete == "" && activeDocName == ""
    {
      exportPathBox := "";
      exportPathGlobal := "";
      layerDict := map[];
      tempFileToDelete := "";
      activeDocName := "";
    }

    /**
     * The "..." button: only an empty path box takes the directory the dialog
     * returns, and the export path follows it.
     */
    method ChoosePath(dialogResult: string)
      modifies this
      ensures old(exportPathBox) == "" ==> exportPathBox == dialogResult && exportPathGlobal == dialogResult
      ensures old(exportPathBox) != "" ==> exportPathBox == old(exportPathBox)
                                           && exportPathGlobal == old(exportPathGlobal)
      ensures layerDict == old(layerDict) && tempFileToDelete == old(tempFileToDelete)
      ensures activeDocName == old(activeDocName)
    {
      var exportPathValue := exportPathBox;
      if exportPathValue == "" {
        exportPathValue := dialogResult;
        exportPathBox := exportPathValue;
        exportPathGlobal := exportPathValue;
      }
    }

    /** The loop of `create_*_layer_dict` over the clone's top-level nodes. */
    method CreateLayerDict(kind: MapKind, doc: Document) returns (d: map<Channel, nat>)
      ensures d == LayerDict(Markers(kind), Names(doc.nodes))
    {
      var nodes := doc.nodes;
      var names := Names(nodes);
      var m := Markers(kind);
      d := map[];
      for i := 0 to |nodes|
        invariant d == LayerDict(m, names[..i])
      {
        assert names[..i + 1][..i] == names[..i];
        var name := nodes[i].name;
        if IsMarked(m, Red, name) {
          d := d[Red := i];
        }
        if IsMarked(m, Green, name) {
          d := d[Green := i];
        }
        if IsMarked(m, Blue, name) {
          d := d[Blue := i];
        }
        if IsMarked(m, Alpha, name) {
          d := d[Alpha := i];
        }
      }
      assert names[..|nodes|] == names;
    }

    /** The start every `prepare_*` shares: clone the document and name the clone. */
    method CloneForExport(doc: Document) returns (clonedDoc: Document)
      modifies this
      ensures fresh(clonedDoc)
      ensures clonedDoc.nodes == doc.nodes && clonedDoc.fileName == TempName(doc.fileName)
      ensures activeDocName == ActiveDocName(doc.fileName) && tempFileToDelete == TempName(doc.fileName)
      ensures exportPathBox == old(exportPathBox) && exportPathGlobal == old(exportPathGlobal)
      ensures layerDict == old(layerDict)
    {
      var name := ActiveDocName(doc.fileName);
      var docTempName := name + "_temp.kra";
      tempFileToDelete := "";
      clonedDoc := new Document.Clone(doc);
      activeDocName := name;
      clonedDoc.fileName := docTempName;
      tempFileToDelete := clonedDoc.fileName;
    }

    /** The red, green and blue layers of the clone get their `copy_*` modes. */
    method ApplyChannelBlends(clonedDoc: Document, d: map<Channel, nat>)
      requires forall c :: c in d ==> d[c] < |clonedDoc.nodes|
      modifies clonedDoc
      ensures clonedDoc.nodes == WithChannelBlends(old(clonedDoc.nodes), d)
      ensures clonedDoc.fileName == old(clonedDoc.fileName)
    {
      if Red in d {
        var n := d[Red];
        clonedDoc.nodes := clonedDoc.nodes[n := clonedDoc.nodes[n].(blendMode := "copy_red")];
      }
      if Green in d {
        var n := d[Green];
        clonedDoc.nodes := clonedDoc.nodes[n := clonedDoc.nodes[n].(blendMode := "copy_green")];
      }
      if Blue in d {
        var n := d[Blue];
        clonedDoc.nodes := clonedDoc.nodes[n := clonedDoc.nodes[n].(blendMode := "copy_blue")];
      }
    }

    /**
     * "Export Mask": the clone's channel layers get their blending modes, and
     * the stepper runs only when an alpha (`_SMOOTHNESS`) layer was found.
     */
    method PrepareMask(doc: Document, tempExists: bool) returns (clonedDoc: Document, trace: seq<Event>)
      modifies this
      ensures fresh(clonedDoc)
      ensures clonedDoc.fileName == TempName(doc.fileName) && tempFileToDelete == TempName(doc.fileName)
      ensures activeDocName == ActiveDocName(doc.fileName)
      ensures layerDict == LayerDict(Markers(Mask), Names(doc.nodes))
      ensures clonedDoc.nodes == WithChannelBlends(doc.nodes, layerDict)
      ensures exportPathBox == old(exportPathBox) && exportPathGlobal == old(exportPathGlobal)
      ensures trace == if Alpha in layerDict
                       then StepperTrace(Mask, StepEnv(Some(layerDict[Alpha]), ExportTarget(exportPathGlobal, activeDocName),
                                                tempFileToDelete, tempExists))
                       else []
    {
      clonedDoc := CloneForExport(doc);
      var d := CreateLayerDict(Mask, clonedDoc);
      layerDict := d;
      LayerDictInRange(Markers(Mask), Names(clonedDoc.nodes));
      ApplyChannelBlends(clonedDoc, d);
      var env := StepEnv(if Alpha in d then Some(d[Alpha]) else None, ExportTarget(exportPathGlobal, activeDocName),
                         tempFileToDelete, tempExists);
      trace := [];
      if Alpha in d {
        var steps;
        trace, steps := RunStepper(Mask, env);
      }
    }

    /** "Export Detail Mask": blending modes as for the mask, then the stepper unconditionally. */
    method PrepareDetailMask(doc: Document, tempExists: bool) returns (clonedDoc: Document, trace: seq<Event>)
      modifies this
      ensures fresh(clonedDoc)
      ensures clonedDoc.fileName == TempName(doc.fileName) && tempFileToDelete == TempName(doc.fileName)
      ensures activeDocName == ActiveDocName(doc.fileName)
      ensures layerDict == LayerDict(Markers(DetailMask), Names(doc.nodes))
      ensures clonedDoc.nodes == WithChannelBlends(doc.nodes, layerDict)
      ensures exportPathBox == old(exportPathBox) && exportPathGlobal == old(exportPathGlobal)
      ensures trace == StepperTrace(DetailMask, StepEnv(None, ExportTarget(exportPathGlobal, activeDocName),
                                                        tempFileToDelete, tempExists))
    {
      clonedDoc := CloneForExport(doc);
      var d := CreateLayerDict(DetailMask, clonedDoc);
      layerDict := d;
      LayerDictInRange(Markers(DetailMask), Names(clonedDoc.nodes));
      ApplyChannelBlends(clonedDoc, d);
      var steps;
      trace, steps := RunStepper(DetailMask, StepEnv(None, ExportTarget(exportPathGlobal, activeDocName),
                                             tempFileToDelete, tempExists));
    }

    /**
     * "Export Diffuse": no blending modes; the stepper runs with the alpha flag
     * set exactly when an `_ALPHA` layer was found.
     */
    method PrepareDiffuse(doc: Document, tempExists: bool) returns (clonedDoc: Document, trace: seq<Event>)
      modifies this
      ensures fresh(clonedDoc)
      ensures clonedDoc.fileName == TempName(doc.fileName) && tempFileToDelete == TempName(doc.fileName)
      ensures activeDocName == ActiveDocName(doc.fileName)
      ensures layerDict == LayerDict(Markers(Diffuse), Names(doc.nodes))
      ensures clonedDoc.nodes == doc.nodes
      ensures exportPathBox == old(exportPathBox) && exportPathGlobal == old(exportPathGlobal)
      ensures trace == StepperTrace(Diffuse, StepEnv(if Alpha in layerDict then Some(layerDict[Alpha]) else None,
                                                     ExportTarget(exportPathGlobal, activeDocName),
                                                     tempFileToDelete, tempExists))
    {
      clonedDoc := CloneForExport(doc);
      var d := CreateLayerDict(Diffuse, clonedDoc);
      layerDict := d;
      var env := StepEnv(if Alpha in d then Some(d[Alpha]) else None, ExportTarget(exportPathGlobal, activeDocName),
                         tempFileToDelete, tempExists);
      var steps;
      trace, steps := RunStepper(Diffuse, env);
    }

    /** `create_layers_based_on_type`: one new group per name, each with an "empty" paint layer. */
    method CreateLayersBasedOnType(doc: Document, groupArray: seq<string>)
      modifies doc
      ensures doc.nodes == old(doc.nodes) + NewGroups(groupArray)
      ensures doc.fileName == old(doc.fileName)
    {
      for k := 0 to |groupArray|
        invariant doc.nodes == old(doc.nodes) + NewGroups(groupArray[..k])
        invariant doc.fileName == old(doc.fileName)
      {
        assert groupArray[..k + 1][..k] == groupArray[..k];
        assert NewGroups(groupArray[..k + 1]) == NewGroups(groupArray[..k]) + [EmptyGroup(groupArray[k])];
        var group := Layer(groupArray[k], GroupLayer, "normal", []);
        doc.nodes := doc.nodes + [group];
        var newLayer := Layer("empty", PaintLayer, "normal", []);
        var top := |doc.nodes| - 1;
        doc.nodes := doc.nodes[top := doc.nodes[top].(children := doc.nodes[top].children + [newLayer])];
        assert doc.nodes[top] == EmptyGroup(groupArray[k]);
      }
      assert groupArray[..|groupArray|] == groupArray;
    }

    /** The three create buttons. */
    method CreateLayers(kind: MapKind, doc: Document)
      modifies doc
      ensures doc.nodes == old(doc.nodes) + NewGroups(GroupNames(kind))
      ensures doc.fileName == old(doc.fileName)
    {
      CreateLayersBasedOnType(doc, GroupNames(kind));
    }
  }
}
