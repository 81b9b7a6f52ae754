/**
 * The Blender FBX exporter add-on: the Perforce settings read from the depot's
 * `.p4config` file, the depot path an export node's `.fbx` file goes to, the
 * check-out of that file before export, and the `isStatic` property stamped on
 * every scene object.
 */
module FbxExport {
  import opened Wrappers
  import opened Text

  /** `DEPOTROOT`: the folder all depots live in. */
  const DepotRoot: string := "D:\\depots"

  /** `DEPOT`: the depot exports go to. */
  const Depot: string := "juniper_game_dev"

  // ---------------------------------------------------------------------------
  // The `.p4config` file

  /**
   * One line of the config file: the stripped line is split at every '=', the
   * first piece (stripped) is the key and the second (stripped) the value.
   * `None` when there is no second piece, where Python raises `IndexError`.
   */
  function ParseLine(line: string): Option<(string, string)> {
    KeyValue(Strip(line))
  }

  /** The split of a stripped line into its stripped key and value. */
  function KeyValue(t: string): Option<(string, string)> {
    var data := Split(t, '=');
    if |data| < 2 then None else Some((Strip(data[0]), Strip(data[1])))
  }

  /** The key is the text before the first '=' and the value the text up to the next '=' or the end. */
  lemma KeyValueFields(t: string)
    requires IndexOf(t, '=') >= 0
    ensures var i := IndexOf(t, '=');
            var j := IndexFrom(t, '=', i + 1);
            var value := if j >= 0 then t[i + 1..j] else t[i + 1..];
            KeyValue(t) == Some((Strip(t[..i]), Strip(value)))
  {
    SplitFirst(t, '=');
    SplitSecond(t, '=');
  }

  /** A line parses exactly when it holds an '='. */
  lemma ParseLineFails(line: string)
    ensures ParseLine(line).None? <==> '=' !in line
  {
    var t := Strip(line);
    StripKeeps(line, '=');
    IndexOfFinds(t, '=');
    SplitFirst(t, '=');
  }

  /**
   * The key is the stripped text before the first '=' and the value the
   * stripped text between the first and the second '=' (or the end of the line).
   */
  lemma ParseLineFields(line: string)
    ensures var t := Strip(line);
            var i := IndexOf(t, '=');
            i >= 0 ==>
              var j := IndexFrom(t, '=', i + 1);
              var value := if j >= 0 then t[i + 1..j] else t[i + 1..];
              ParseLine(line).Some? && ParseLine(line).value.0 == Strip(t[..i])
              && ParseLine(line).value.1 == Strip(value)
  {
    var t := Strip(line);
    if IndexOf(t, '=') >= 0 {
      KeyValueFields(t);
    }
  }

  /** A blank line, or one of only whitespace, does not parse. */
  lemma BlankLineFails(line: string)
    requires forall i :: 0 <= i < |line| ==> IsWhitespace(line[i])
    ensures ParseLine(line).None?
  {
    ParseLineFails(line);
    assert !IsWhitespace('=');
    assert '=' !in line;
  }

  /** Each line of the file parsed on its own. */
  function ParsedLines(lines: seq<string>): (r: seq<Option<(string, string)>>)
    ensures |r| == |lines|
  {
    if lines == [] then [] else ParsedLines(lines[..|lines| - 1]) + [ParseLine(lines[|lines| - 1])]
  }

  lemma {:induction false} ParsedLinesAt(lines: seq<string>, i: nat)
    requires i < |lines|
    ensures ParsedLines(lines)[i] == ParseLine(lines[i])
  {
    if i < |lines| - 1 {
      var init := lines[..|lines| - 1];
      ParsedLinesAt(init, i);
      assert init[i] == lines[i];
    }
  }

  /**
   * The entries the module-level loop writes, in order, or the index of the
   * first line that does not parse, where the loop stops.
   */
  function Collect(parsed: seq<Option<(string, string)>>): Result<seq<(string, string)>, nat>
  {
    if parsed == [] then Success([])
    else
      match Collect(parsed[..|parsed| - 1])
      case Failure(i) => Failure(i)
      case Success(entries) =>
        match parsed[|parsed| - 1]
        case None => Failure(|parsed| - 1)
        case Some(entry) => Success(entries + [entry])
  }

  /**
   * Collecting fails exactly when a line does not parse, and then at the first
   * such line; otherwise there is one entry per line, the line's own.
   */
  lemma {:induction false} CollectMeans(parsed: seq<Option<(string, string)>>)
    ensures Collect(parsed).Failure? <==> exists i :: 0 <= i < |parsed| && parsed[i].None?
    ensures Collect(parsed).Failure? ==>
              var i := Collect(parsed).error;
              i < |parsed| && parsed[i].None? && forall j :: 0 <= j < i ==> parsed[j].Some?
    ensures Collect(parsed).Success? ==>
              var entries := Collect(parsed).value;
              |entries| == |parsed| && forall i :: 0 <= i < |parsed| ==> parsed[i] == Some(entries[i])
  {
    if parsed != [] {
      var init := parsed[..|parsed| - 1];
      CollectMeans(init);
      assert forall j :: 0 <= j < |init| ==> init[j] == parsed[j];
    }
  }

  /** The `P4_CONFIG` writes in order: a later entry overwrites an earlier one with the same key. */
  function Insert(entries: seq<(string, string)>): map<string, string>
  {
    if entries == [] then map[]
    else Insert(entries[..|entries| - 1])[entries[|entries| - 1].0 := entries[|entries| - 1].1]
  }

  /** A key no entry has is not written. */
  lemma {:induction false} InsertMissing(entries: seq<(string, string)>, key: string)
    requires forall i :: 0 <= i < |entries| ==> entries[i].0 != key
    ensures key !in Insert(entries)
  {
    if entries != [] {
      var init := entries[..|entries| - 1];
      assert forall j :: 0 <= j < |init| ==> init[j] == entries[j];
      InsertMissing(init, key);
    }
  }

  /** A key is written with the value of the last entry that has it. */
  lemma {:induction false} InsertLast(entries: seq<(string, string)>, key: string, i: nat)
    requires i < |entries| && entries[i].0 == key
    requires forall j :: i < j < |entries| ==> entries[j].0 != key
    ensures key in Insert(entries) && Insert(entries)[key] == entries[i].1
  {
    if i < |entries| - 1 {
      var init := entries[..|entries| - 1];
      assert forall j :: 0 <= j < |init| ==> init[j] == entries[j];
      InsertLast(init, key, i);
    }
  }

  /** The module-level parse of `.p4config` into `P4_CONFIG`. */
  function ParseConfig(lines: seq<string>): Result<map<string, string>, nat>
  {
    match Collect(ParsedLines(lines))
    case Failure(i) => Failure(i)
    case Success(entries) => Success(Insert(entries))
  }

  /**
   * The parse of the file fails exactly when one of its lines does not parse,
   * and then names the first such line.
   */
  lemma ParseConfigFails(lines: seq<string>)
    ensures ParseConfig(lines).Failure? <==> exists i :: 0 <= i < |lines| && ParsedLines(lines)[i].None?
    ensures ParseConfig(lines).Failure? ==>
              var i := ParseConfig(lines).error;
              i < |lines| && ParseLine(lines[i]).None?
              && forall j :: 0 <= j < i ==> ParsedLines(lines)[j].Some?
  {
    CollectMeans(ParsedLines(lines));
    if ParseConfig(lines).Failure? {
      ParsedLinesAt(lines, ParseConfig(lines).error);
    }
  }

  /** Once a prefix of the lines fails, the whole parse fails there. */
  lemma {:induction false} CollectStops(parsed: seq<Option<(string, string)>>, k: nat)
    requires k <= |parsed| && Collect(parsed[..k]).Failure?
    ensures Collect(parsed) == Collect(parsed[..k])
    decreases |parsed|
  {
    if k < |parsed| {
      var init := parsed[..|parsed| - 1];
      assert init[..k] == parsed[..k];
      CollectStops(init, k);
    } else {
      assert parsed[..k] == parsed;
    }
  }

  /** One more line: collecting fails at it, or appends its entry. */
  lemma CollectStep(parsed: seq<Option<(string, string)>>, i: nat, entries: seq<(string, string)>)
    requires i < |parsed| && Collect(parsed[..i]) == Success(entries)
    ensures parsed[i].None? ==> Collect(parsed[..i + 1]) == Failure(i)
    ensures parsed[i].Some? ==> Collect(parsed[..i + 1]) == Success(entries + [parsed[i].value])
  {
    assert parsed[..i + 1][..i] == parsed[..i];
  }

  /** The module-level loop over the lines of the open config file. */
  method LoadConfig(lines: seq<string>) returns (r: Result<map<string, string>, nat>)
    ensures r == ParseConfig(lines)
  {
    ghost var parsed := ParsedLines(lines);
    var config: map<string, string> := map[];
    ghost var entries: seq<(string, string)> := [];
    var i := 0;
    while i < |lines|
      invariant i <= |lines|
      invariant Collect(parsed[..i]) == Success(entries) && config == Insert(entries)
    {
      ParsedLinesAt(lines, i);
      var entry := ParseLine(lines[i]);
      CollectStep(parsed, i, entries);
      if entry.None? {
        CollectStops(parsed, i + 1);
        return Failure(i);
      }
      config := config[entry.value.0 := entry.value.1];
      entries := entries + [entry.value];
      i := i + 1;
    }
    assert parsed[..|lines|] == parsed;
    r := Success(config);
  }

  /** A read of the `defaultdict(str)`: a missing key reads as the empty string. */
  function Lookup(config: map<string, string>, key: string): string {
    if key in config then config[key] else ""
  }

  /** The connection settings the script gives `P4()`. */
  datatype P4Settings = P4Settings(port: string, user: string, client: string)

  function Settings(config: map<string, string>): P4Settings {
    P4Settings(Lookup(config, "P4PORT"), Lookup(config, "P4USER"), Lookup(config, "P4CLIENT"))
  }

  /**
   * A setting read after the entries are written is the value of the last
   * entry with that key, and the empty string when no entry has the key.
   */
  lemma ConfigSetting(entries: seq<(string, string)>, key: string)
    ensures (forall i :: 0 <= i < |entries| ==> entries[i].0 != key) ==> Lookup(Insert(entries), key) == ""
    ensures forall i :: 0 <= i < |entries| && entries[i].0 == key
                        && (forall j :: i < j < |entries| ==> entries[j].0 != key)
                        ==> Lookup(Insert(entries), key) == entries[i].1
  {
    if forall i :: 0 <= i < |entries| ==> entries[i].0 != key {
      InsertMissing(entries, key);
    }
    forall i | 0 <= i < |entries| && entries[i].0 == key
               && (forall j :: i < j < |entries| ==> entries[j].0 != key)
      ensures Lookup(Insert(entries), key) == entries[i].1
    {
      InsertLast(entries, key, i);
    }
  }

  /** A parsed line that sets `key`. */
  predicate IsEntryFor(parsed: Option<(string, string)>, key: string) {
    parsed.Some? && parsed.value.0 == key
  }

  /** The line parses, and its key is `key`. */
  predicate SetsKey(line: string, key: string) {
    IsEntryFor(ParseLine(line), key)
  }

  /**
   * From the file to the settings: when the file parses, a setting reads as
   * the value on the last line whose key it is, and as the empty string when
   * no line has that key.
   */
  lemma ConfigFileSetting(lines: seq<string>, key: string)
    requires ParseConfig(lines).Success?
    ensures (forall i :: 0 <= i < |lines| ==> !SetsKey(lines[i], key))
            ==> Lookup(ParseConfig(lines).value, key) == ""
    ensures forall i :: 0 <= i < |lines| && SetsKey(lines[i], key)
                        && (forall j :: i < j < |lines| ==> !SetsKey(lines[j], key))
                        ==> Lookup(ParseConfig(lines).value, key) == ParseLine(lines[i]).value.1
  {
    var parsed := ParsedLines(lines);
    forall i | 0 <= i < |lines|
      ensures parsed[i] == ParseLine(lines[i]) && (SetsKey(lines[i], key) <==> IsEntryFor(parsed[i], key))
    {
      ParsedLinesAt(lines, i);
    }
    assert ParseConfig(lines).value == Insert(Collect(parsed).value);
    CollectSetting(parsed, key);
  }

  /** `ConfigFileSetting` over the parsed lines. */
  lemma CollectSetting(parsed: seq<Option<(string, string)>>, key: string)
    requires Collect(parsed).Success?
    ensures (forall i :: 0 <= i < |parsed| ==> !IsEntryFor(parsed[i], key))
            ==> Lookup(Insert(Collect(parsed).value), key) == ""
    ensures forall i :: 0 <= i < |parsed| && IsEntryFor(parsed[i], key)
                        && (forall j :: i < j < |parsed| ==> !IsEntryFor(parsed[j], key))
                        ==> Lookup(Insert(Collect(parsed).value), key) == parsed[i].value.1
  {
    var entries := Collect(parsed).value;
    CollectMeans(parsed);
    if forall i :: 0 <= i < |parsed| ==> !IsEntryFor(parsed[i], key) {
      forall i | 0 <= i < |entries| ensures entries[i].0 != key {
        assert !IsEntryFor(parsed[i], key);
      }
      InsertMissing(entries, key);
    }
    forall i | 0 <= i < |parsed| && IsEntryFor(parsed[i], key)
               && (forall j :: i < j < |parsed| ==> !IsEntryFor(parsed[j], key))
      ensures Lookup(Insert(entries), key) == parsed[i].value.1
    {
      forall j | i < j < |entries| ensures entries[j].0 != key {
        assert !IsEntryFor(parsed[j], key);
      }
      InsertLast(entries, key, i);
    }
  }

  // ---------------------------------------------------------------------------
  // The depot path of the exported file

  /**
   * `cleaned_path`: the depot root, a backslash, the relative path from the
   * first occurrence of the depot name on, the export name and ".fbx". When
   * the depot name does not occur, `find` gives -1 and the slice keeps only
   * the last character of the relative path.
   */
  function CleanedPath(relPath: string, name: string): string {
    DepotRoot + "\\" + PySliceFrom(relPath, Find(relPath, Depot)) + name + ".fbx"
  }

  /** The path always lies under the depot root and ends with the exported file's name. */
  lemma CleanedPathShape(relPath: string, name: string)
    ensures StartsWith(CleanedPath(relPath, name), DepotRoot + "\\")
    ensures EndsWith(CleanedPath(relPath, name), name + ".fbx")
  {
    var root, mid, file := DepotRoot + "\\", PySliceFrom(relPath, Find(relPath, Depot)), name + ".fbx";
    assert CleanedPath(relPath, name) == root + (mid + file);
    assert (root + (mid + file))[..|root|] == root;
    assert CleanedPath(relPath, name) == (root + mid) + file;
    assert ((root + mid) + file)[|root + mid|..] == file;
  }

  /** With the depot name in the relative path, the middle starts at its first occurrence. */
  lemma CleanedPathFromDepot(relPath: string, name: string)
    requires Contains(relPath, Depot)
    ensures var k := Find(relPath, Depot);
            0 <= k && StartsWith(relPath[k..], Depot)
            && CleanedPath(relPath, name) == DepotRoot + "\\" + relPath[k..] + name + ".fbx"
            && forall j :: 0 <= j < k ==> !OccursAt(relPath, Depot, j)
  {
    ContainsFind(relPath, Depot);
    var k := Find(relPath, Depot);
    assert relPath[k..][..|Depot|] == relPath[k..k + |Depot|];
  }

  /** Without the depot name, only the relative path's last character (if any) is kept. */
  lemma CleanedPathWithoutDepot(relPath: string, name: string)
    requires !Contains(relPath, Depot)
    ensures CleanedPath(relPath, name)
            == DepotRoot + "\\" + (if relPath == [] then [] else [relPath[|relPath| - 1]]) + name + ".fbx"
  {
    ContainsFind(relPath, Depot);
    if relPath != [] {
      assert relPath[|relPath| - 1..] == [relPath[|relPath| - 1]];
    }
  }

  // ---------------------------------------------------------------------------
  // Check-out before export

  /** The Perforce calls `check_out_exported_file` makes, in order. */
  datatype P4Call =
    | Connect
    | FetchChange
    | Edit(path: string)
    | SaveChange(description: string, files: seq<string>)
    | AddToChange(changeList: string, path: string)
    | Disconnect

  /**
   * How the check-out ends: all calls made, or an `IndexError` (which the
   * `except P4Exception` does not catch) after the calls listed.
   */
  datatype CheckOutRun = Completed(calls: seq<P4Call>) | IndexErrorAfter(calls: seq<P4Call>)

  const ChangeDescription: string := "Exported from Blender"

  /** A file operation on the exported path. */
  predicate TouchesPath(call: P4Call, path: string) {
    (call.Edit? && call.path == path) || (call.AddToChange? && call.path == path)
  }

  /**
   * `check_out_exported_file`: an existing file is opened for edit; otherwise
   * a new changelist is saved and the file added to it. The changelist number
   * is the second word of the first reply of `save_change`.
   */
  function CheckOut(fileExists: bool, path: string, saveReply: seq<string>): CheckOutRun {
    if fileExists then Completed([Connect, FetchChange, Edit(path), Disconnect])
    else
      var saved := [Connect, FetchChange, SaveChange(ChangeDescription, [])];
      if |saveReply| == 0 then IndexErrorAfter(saved)
      else
        var words := Words(saveReply[0]);
        if |words| < 2 then IndexErrorAfter(saved)
        else Completed(saved + [AddToChange(words[1], path), Disconnect])
  }

  /**
   * An existing file is edited and nothing is added; a new file is never
   * edited, a changelist "Exported from Blender" with no files is saved, and
   * the file is added to the changelist the reply names, unless the reply
   * has no second word.
   */
  lemma CheckOutEditOrAdd(fileExists: bool, path: string, saveReply: seq<string>)
    ensures var run := CheckOut(fileExists, path, saveReply);
            |run.calls| >= 3 && run.calls[0] == Connect && run.calls[1] == FetchChange
    ensures var calls := CheckOut(fileExists, path, saveReply).calls;
            fileExists ==> CheckOut(fileExists, path, saveReply).Completed?
                           && Edit(path) in calls
                           && forall k :: 0 <= k < |calls| ==> !calls[k].SaveChange? && !calls[k].AddToChange?
    ensures var calls := CheckOut(fileExists, path, saveReply).calls;
            !fileExists ==> calls[2] == SaveChange(ChangeDescription, [])
                            && forall k :: 0 <= k < |calls| ==> !calls[k].Edit?
    ensures !fileExists ==>
              (CheckOut(fileExists, path, saveReply).Completed?
               <==> |saveReply| > 0 && |Words(saveReply[0])| >= 2)
    ensures !fileExists && |saveReply| > 0 && |Words(saveReply[0])| >= 2 ==>
              AddToChange(Words(saveReply[0])[1], path) in CheckOut(fileExists, path, saveReply).calls
  {
  }

  /**
   * A completed check-out ends by disconnecting and makes exactly one file
   * operation, on the path it was given.
   */
  lemma CompletedCheckOut(fileExists: bool, path: string, saveReply: seq<string>)
    requires CheckOut(fileExists, path, saveReply).Completed?
    ensures var calls := CheckOut(fileExists, path, saveReply).calls;
            calls[|calls| - 1] == Disconnect
            && exists k :: (0 <= k < |calls| && TouchesPath(calls[k], path)
                            && forall k' :: 0 <= k' < |calls| && k' != k ==> !calls[k'].Edit? && !calls[k'].AddToChange?)
  {
    var calls := CheckOut(fileExists, path, saveReply).calls;
    var k := if fileExists then 2 else 3;
    assert TouchesPath(calls[k], path);
  }

  /** Perforce's reply to saving a new changelist: "Change <n> created." */
  function SaveReply(n: string): string {
    "Change" + (" " + (n + " created."))
  }

  /** The reply to `save_change` names the changelist `n` the new file is added to. */
  lemma ChangeListFromReply(path: string, n: string)
    requires IsWord(n)
    ensures var run := CheckOut(false, path, [SaveReply(n)]);
            run.Completed? && run.calls[3] == AddToChange(n, path)
  {
    var change := "Change";
    assert IsWord(change) by {
      assert forall j :: 0 <= j < |change| ==> !IsWhitespace(change[j]);
    }
    SecondWord(change, n, " created.");
  }

  // ---------------------------------------------------------------------------
  // The isStatic tag

  /** A Blender object with its custom properties. */
  class SceneObject {
    var name: string
    var props: map<string, int>

    constructor (name: string)
      ensures this.name == name && props == map[]
    {
      this.name := name;
      props := map[];
    }
  }

  const IsStaticKey: string := "isStatic"

  /** The custom properties after tagging: `isStatic` is 1 for a static export node, else 0. */
  function Tagged(props: map<string, int>, isStatic: bool): (r: map<string, int>)
    ensures IsStaticKey in r && (r[IsStaticKey] == 1 <==> isStatic) && (r[IsStaticKey] == 0 <==> !isStatic)
    ensures forall k :: k != IsStaticKey ==> (k in r <==> k in props)
    ensures forall k :: k in props && k != IsStaticKey ==> r[k] == props[k]
  {
    props[IsStaticKey := if isStatic then 1 else 0]
  }

  /** Tagging twice with the same flag is tagging once; the last flag wins. */
  lemma TaggedTwice(props: map<string, int>, first: bool, second: bool)
    ensures Tagged(Tagged(props, first), second) == Tagged(props, second)
  {
  }

  /**
   * The loop of `ExportOperator.execute` over all scene objects: every object,
   * exported or not, gets `isStatic` from the export node's flag, and nothing
   * else about it changes.
   */
  method TagIsStatic(objects: seq<SceneObject>, isStatic: bool)
    modifies set o | o in objects
    ensures forall o :: o in objects ==> o.props == Tagged(old(o.props), isStatic)
    ensures forall o :: o in objects ==> o.name == old(o.name)
  {
    var value := if isStatic then 1 else 0;
    for i := 0 to |objects|
      invariant forall o :: o in objects[..i] ==> o.props == Tagged(old(o.props), isStatic)
      invariant forall o :: o in objects && o !in objects[..i] ==> o.props == old(o.props)
      invariant forall o :: o in objects ==> o.name == old(o.name)
    {
      var o := objects[i];
      o.props := o.props[IsStaticKey := value];
      assert objects[..i + 1] == objects[..i] + [o];
    }
    assert objects[..|objects|] == objects;
  }
}
