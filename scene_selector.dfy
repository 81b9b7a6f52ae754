/**
 * The scene list of the Unity editor window `EditorSceneSelector`
 * (unity_scene_selector/EditorSceneSelector.cs).
 *
 * The window keeps the asset paths of the scenes under a configured folder,
 * sorts them into user-defined categories by the prefix of their scene name and
 * collects what no category claims in a reserved bucket named "emptyList". Each
 * listed scene is then drawn as active, loaded or not loaded. The asset
 * database, the scene manager and the JSON configuration file are replaced by
 * the values they deliver: the asset paths, the loaded scene names, the active
 * scene name and the two configuration strings.
 */
module SceneSelector {
  import opened Text

  /** The key of the bucket for scenes no category claims. */
  const Uncategorized := "emptyList"

  // ---------------------------------------------------------------------------
  // Sequence vocabulary

  /** No element occurs twice. */
  predicate Distinct(s: seq<string>) {
    forall i, j :: 0 <= i < j < |s| ==> s[i] != s[j]
  }

  /** The position of the first `x` in `s`, or `|s|` when `x` does not occur. */
  function FirstIndex(s: seq<string>, x: string): (k: nat)
    ensures k <= |s|
    ensures k < |s| <==> x in s
    ensures k < |s| ==> s[k] == x
    ensures forall j :: 0 <= j < k ==> s[j] != x
  {
    if s == [] then 0
    else if s[0] == x then 0
    else
      var k := 1 + FirstIndex(s[1..], x);
      assert forall j :: 1 <= j < k ==> s[j] == s[1..][j - 1];
      k
  }

  /** A position holding `x` with no `x` before it is the first position of `x`. */
  lemma FirstIndexAt(s: seq<string>, x: string, k: nat)
    requires k < |s| && s[k] == x
    requires forall j :: 0 <= j < k ==> s[j] != x
    ensures FirstIndex(s, x) == k
  {
  }

  /** Extending `s` keeps the first position of an element it already holds. */
  lemma FirstIndexExtend(s: seq<string>, x: string, y: string)
    requires y in s
    ensures FirstIndex(s + [x], y) == FirstIndex(s, y) < |s|
  {
    var k := FirstIndex(s, y);
    FirstIndexAt(s + [x], y, k);
  }

  /** The first occurrences in `s` of the elements of `r` come in the order of `r`. */
  predicate InFirstOccurrenceOrder(r: seq<string>, s: seq<string>) {
    forall i, j :: 0 <= i < j < |r| ==> FirstIndex(s, r[i]) < FirstIndex(s, r[j])
  }

  /** `sub` is `s` with some elements left out and the rest in their order. */
  ghost predicate IsSubsequence(sub: seq<string>, s: seq<string>) {
    sub == [] ||
    (s != [] &&
     ((sub[|sub| - 1] == s[|s| - 1] && IsSubsequence(sub[..|sub| - 1], s[..|s| - 1]))
      || IsSubsequence(sub, s[..|s| - 1])))
  }

  // ---------------------------------------------------------------------------
  // Scene names

  /** Where the scene name of `path` begins: just after its last '/', or at 0. */
  function SceneNameStart(path: string): (k: nat)
    ensures k <= |path|
    ensures k == 0 || path[k - 1] == '/'
    ensures forall j :: k <= j < |path| ==> path[j] != '/'
    ensures (forall j :: 0 <= j < |path| ==> path[j] != '/') ==> k == 0
  {
    LastIndexOf(path, '/') + 1
  }

  /**
   * The scene name of an asset path: the text after the last '/' up to the
   * first '.' after it. It holds neither '/' nor '.', and it stands in the path
   * right where the last segment begins, followed by a '.' or by the end.
   */
  function SceneName(path: string): (name: string)
    ensures var k := SceneNameStart(path);
            k + |name| <= |path| && path[k..k + |name|] == name
            && (k + |name| == |path| || path[k + |name|] == '.')
    ensures forall j :: 0 <= j < |name| ==> name[j] != '/' && name[j] != '.'
  {
    var k := SceneNameStart(path);
    var segment := path[k..];
    SplitFirst(segment, '.');
    var name := Split(segment, '.')[0];
    assert forall j :: 0 <= j < |name| ==> name[j] == segment[j];
    name
  }

  /** For a path of the usual shape `folder/Name.unity` the scene name is `Name`. */
  lemma SceneNameOf(folder: string, name: string, extension: string)
    requires forall j :: 0 <= j < |name| ==> name[j] != '/' && name[j] != '.'
    requires forall j :: 0 <= j < |extension| ==> extension[j] != '/'
    ensures SceneName(folder + "/" + name + "." + extension) == name
  {
    var path := folder + "/" + name + "." + extension;
    var k := |folder| + 1;
    assert path[k - 1] == '/';
    assert forall j :: k <= j < |path| ==> path[j] != '/';
    var segment := path[k..];
    assert segment == name + "." + extension;
    assert segment[|name|] == '.';
    assert forall j :: 0 <= j < |name| ==> segment[j] != '.';
    SplitFirst(segment, '.');
    assert segment[..|name|] == name;
  }

  // ---------------------------------------------------------------------------
  // Filtering the asset paths

  /** The asset paths that start with the configured scene folder, in their order. */
  function Candidates(paths: seq<string>, root: string): seq<string> {
    if paths == [] then []
    else
      var rest := Candidates(paths[..|paths| - 1], root);
      if StartsWith(paths[|paths| - 1], root) then rest + [paths[|paths| - 1]] else rest
  }

  /**
   * `Candidates` keeps exactly the paths under the folder, every copy of
   * them, in their order.
   */
  lemma {:induction false} CandidatesMeans(paths: seq<string>, root: string)
    ensures var r := Candidates(paths, root);
            (forall p :: p in r <==> p in paths && StartsWith(p, root)) && IsSubsequence(r, paths)
    ensures var r := Candidates(paths, root);
            forall p :: multiset(r)[p] == if StartsWith(p, root) then multiset(paths)[p] else 0
  {
    CandidatesCounts(paths, root);
    if paths != [] {
      var init, p := paths[..|paths| - 1], paths[|paths| - 1];
      CandidatesMeans(init, root);
      assert paths == init + [p];
      var rest := Candidates(init, root);
      if StartsWith(p, root) {
        assert (rest + [p])[..|rest|] == rest;
      }
    }
  }

  lemma {:induction false} CandidatesCounts(paths: seq<string>, root: string)
    ensures forall p :: multiset(Candidates(paths, root))[p] == if StartsWith(p, root) then multiset(paths)[p] else 0
  {
    if paths != [] {
      var init, p := paths[..|paths| - 1], paths[|paths| - 1];
      CandidatesCounts(init, root);
      assert paths == init + [p];
      assert multiset(paths) == multiset(init) + multiset{p};
    }
  }

  /** The paths whose scene name starts with `prefix`, in their order. */
  function ScenesWithPrefix(paths: seq<string>, prefix: string): seq<string> {
    if paths == [] then []
    else
      var rest := ScenesWithPrefix(paths[..|paths| - 1], prefix);
      if StartsWith(SceneName(paths[|paths| - 1]), prefix) then rest + [paths[|paths| - 1]] else rest
  }

  /**
   * `ScenesWithPrefix` keeps exactly the paths whose scene name has the prefix,
   * every copy of them, in their order; a path with several matching prefixes
   * is in each of their lists.
   */
  lemma ScenesWithPrefixMeans(paths: seq<string>, prefix: string)
    ensures var r := ScenesWithPrefix(paths, prefix);
            (forall p :: p in r <==> p in paths && StartsWith(SceneName(p), prefix))
            && IsSubsequence(r, paths)
    ensures var r := ScenesWithPrefix(paths, prefix);
            forall p :: multiset(r)[p] == if StartsWith(SceneName(p), prefix) then multiset(paths)[p] else 0
  {
    ScenesWithPrefixMembers(paths, prefix);
    ScenesWithPrefixSubsequence(paths, prefix);
    ScenesWithPrefixCounts(paths, prefix);
  }

  lemma {:induction false} ScenesWithPrefixCounts(paths: seq<string>, prefix: string)
    ensures forall p :: multiset(ScenesWithPrefix(paths, prefix))[p]
                        == if StartsWith(SceneName(p), prefix) then multiset(paths)[p] else 0
  {
    if paths != [] {
      var init, p := paths[..|paths| - 1], paths[|paths| - 1];
      ScenesWithPrefixCounts(init, prefix);
      assert paths == init + [p];
      assert multiset(paths) == multiset(init) + multiset{p};
    }
  }

  lemma {:induction false} ScenesWithPrefixMembers(paths: seq<string>, prefix: string)
    ensures forall p :: p in ScenesWithPrefix(paths, prefix) <==> p in paths && StartsWith(SceneName(p), prefix)
  {
    if paths != [] {
      var init, p := paths[..|paths| - 1], paths[|paths| - 1];
      ScenesWithPrefixMembers(init, prefix);
      assert paths == init + [p];
    }
  }

  lemma {:induction false} ScenesWithPrefixSubsequence(paths: seq<string>, prefix: string)
    ensures IsSubsequence(ScenesWithPrefix(paths, prefix), paths)
  {
    if paths != [] {
      var init, p := paths[..|paths| - 1], paths[|paths| - 1];
      ScenesWithPrefixSubsequence(init, prefix);
      var rest := ScenesWithPrefix(init, prefix);
      if StartsWith(SceneName(p), prefix) {
        assert (rest + [p])[..|rest|] == rest;
      }
    }
  }

  /**
   * `Enumerable.Except`: an element of `s` is kept when it is not in
   * `excluded` and has not occurred before.
   */
  function Except(s: seq<string>, excluded: seq<string>): seq<string> {
    if s == [] then []
    else
      var init, x := s[..|s| - 1], s[|s| - 1];
      var rest := Except(init, excluded);
      if x !in excluded && x !in init then rest + [x] else rest
  }

  /**
   * `Except` keeps the elements of `s` outside `excluded`, each once, in the
   * order of their first occurrence.
   */
  lemma ExceptMeans(s: seq<string>, excluded: seq<string>)
    ensures var r := Except(s, excluded);
            (forall x :: x in r <==> x in s && x !in excluded) && Distinct(r) && IsSubsequence(r, s)
    ensures InFirstOccurrenceOrder(Except(s, excluded), s)
  {
    ExceptMembers(s, excluded);
    ExceptDistinct(s, excluded);
    ExceptSubsequence(s, excluded);
    ExceptOrder(s, excluded);
  }

  /** `Except` lists its elements in the order of their first occurrence in `s`. */
  lemma {:induction false} ExceptOrder(s: seq<string>, excluded: seq<string>)
    ensures InFirstOccurrenceOrder(Except(s, excluded), s)
  {
    if s != [] {
      var init, x := s[..|s| - 1], s[|s| - 1];
      assert s == init + [x];
      ExceptOrder(init, excluded);
      ExceptMembers(init, excluded);
      var rest := Except(init, excluded);
      forall i | 0 <= i < |rest| ensures rest[i] in init {
        assert rest[i] in rest;
      }
      if x !in excluded && x !in init {
        OrderAppend(rest, init, x);
      } else {
        OrderExtend(rest, init, x);
      }
    }
  }

  lemma OrderExtend(r: seq<string>, s: seq<string>, x: string)
    requires InFirstOccurrenceOrder(r, s)
    requires forall i :: 0 <= i < |r| ==> r[i] in s
    ensures InFirstOccurrenceOrder(r, s + [x])
  {
    forall i | 0 <= i < |r| ensures FirstIndex(s + [x], r[i]) == FirstIndex(s, r[i]) {
      FirstIndexExtend(s, x, r[i]);
    }
  }

  lemma OrderAppend(r: seq<string>, s: seq<string>, x: string)
    requires InFirstOccurrenceOrder(r, s)
    requires forall i :: 0 <= i < |r| ==> r[i] in s
    requires x !in s
    ensures InFirstOccurrenceOrder(r + [x], s + [x])
  {
    OrderExtend(r, s, x);
    FirstIndexAt(s + [x], x, |s|);
    var t := r + [x];
    forall i | 0 <= i < |r| ensures FirstIndex(s + [x], r[i]) < |s| {
      FirstIndexExtend(s, x, r[i]);
    }
    forall i, j | 0 <= i < j < |t| ensures FirstIndex(s + [x], t[i]) < FirstIndex(s + [x], t[j]) {
      assert t[i] == r[i];
      if j < |r| {
        assert t[j] == r[j];
      }
    }
  }

  lemma {:induction false} ExceptMembers(s: seq<string>, excluded: seq<string>)
    ensures forall x :: x in Except(s, excluded) <==> x in s && x !in excluded
  {
    if s != [] {
      var init, x := s[..|s| - 1], s[|s| - 1];
      ExceptMembers(init, excluded);
      assert s == init + [x];
    }
  }

  lemma {:induction false} ExceptDistinct(s: seq<string>, excluded: seq<string>)
    ensures Distinct(Except(s, excluded))
  {
    if s != [] {
      var init, x := s[..|s| - 1], s[|s| - 1];
      ExceptDistinct(init, excluded);
      ExceptMembers(init, excluded);
      var rest := Except(init, excluded);
      if x !in excluded && x !in init {
        assert x !in rest;
        AppendDistinct(rest, x);
      }
    }
  }

  lemma AppendDistinct(s: seq<string>, x: string)
    requires Distinct(s) && x !in s
    ensures Distinct(s + [x])
  {
    var t := s + [x];
    forall i, j | 0 <= i < j < |t| ensures t[i] != t[j] {
      if j == |s| {
        assert t[i] == s[i];
      } else {
        assert t[i] == s[i] && t[j] == s[j];
      }
    }
  }

  lemma {:induction false} ExceptSubsequence(s: seq<string>, excluded: seq<string>)
    ensures IsSubsequence(Except(s, excluded), s)
  {
    if s != [] {
      var init, x := s[..|s| - 1], s[|s| - 1];
      ExceptSubsequence(init, excluded);
      var rest := Except(init, excluded);
      if x !in excluded && x !in init {
        assert (rest + [x])[..|rest|] == rest;
      }
    }
  }

  // ---------------------------------------------------------------------------
  // The categorised lists

  /** Some category prefix claims the scene at `path`. */
  ghost predicate Claimed(path: string, groups: seq<string>) {
    exists g :: g in groups && StartsWith(SceneName(path), g)
  }

  /** All category lists one after another, as `uncategorizedList` collects them. */
  function AllCategorized(cands: seq<string>, groups: seq<string>): seq<string> {
    if groups == [] then []
    else AllCategorized(cands, groups[..|groups| - 1]) + ScenesWithPrefix(cands, groups[|groups| - 1])
  }

  /** The collected lists hold exactly the scenes some category claims. */
  lemma {:induction false} AllCategorizedMeans(cands: seq<string>, groups: seq<string>)
    ensures forall p :: p in AllCategorized(cands, groups) <==> p in cands && Claimed(p, groups)
  {
    if groups != [] {
      var init, g := groups[..|groups| - 1], groups[|groups| - 1];
      AllCategorizedMeans(cands, init);
      ScenesWithPrefixMeans(cands, g);
      assert groups == init + [g];
    }
  }

  /** The keys of the dictionary after a successful refill, in enumeration order. */
  function DictionaryKeys(groups: seq<string>): (keys: seq<string>)
    ensures forall k :: k in keys <==> k in groups || k == Uncategorized
    ensures Distinct(groups) ==> Distinct(keys)
  {
    if Uncategorized in groups then groups else groups + [Uncategorized]
  }

  /** The scenes the reserved bucket receives. */
  function UncategorizedList(cands: seq<string>, groups: seq<string>): seq<string> {
    Except(cands, AllCategorized(cands, groups))
  }

  /**
   * The reserved bucket holds each scene no category claims, once, in the
   * order of its first occurrence in the scene list.
   */
  lemma UncategorizedMeans(cands: seq<string>, groups: seq<string>)
    ensures var r := UncategorizedList(cands, groups);
            (forall p :: p in r <==> p in cands && !Claimed(p, groups))
            && Distinct(r) && IsSubsequence(r, cands)
    ensures InFirstOccurrenceOrder(UncategorizedList(cands, groups), cands)
  {
    AllCategorizedMeans(cands, groups);
    ExceptMeans(cands, AllCategorized(cands, groups));
  }

  /** The list stored under `key` after a successful refill. */
  function CategoryList(cands: seq<string>, groups: seq<string>, key: string): seq<string> {
    if key == Uncategorized then UncategorizedList(cands, groups) else ScenesWithPrefix(cands, key)
  }

  /** The empty prefix claims every path. */
  lemma {:induction false} ScenesWithEmptyPrefix(paths: seq<string>)
    ensures ScenesWithPrefix(paths, "") == paths
  {
    if paths != [] {
      ScenesWithEmptyPrefix(paths[..|paths| - 1]);
      assert paths == paths[..|paths| - 1] + [paths[|paths| - 1]];
    }
  }

  /**
   * The default configuration has an empty category string. It splits into the
   * single category "", which claims every scene, so the reserved bucket stays
   * empty.
   */
  lemma EmptyConfiguration(cands: seq<string>)
    ensures Split("", ',') == [""]
    ensures DictionaryKeys([""]) == ["", Uncategorized]
    ensures CategoryList(cands, [""], "") == cands
    ensures CategoryList(cands, [""], Uncategorized) == []
  {
    SplitFirst("", ',');
    ScenesWithEmptyPrefix(cands);
    forall p | p in cands ensures Claimed(p, [""]) {
      assert StartsWith(SceneName(p), "");
    }
    UncategorizedMeans(cands, [""]);
    NoElementEmpty(UncategorizedList(cands, [""]));
  }

  lemma NoElementEmpty(s: seq<string>)
    ensures (forall x :: x !in s) ==> s == []
  {
    if s != [] {
      assert s[0] in s;
    }
  }

  /**
   * When no category is named "emptyList", every scene under the scene folder
   * is stored under some key: under each category that claims it, or else in
   * the reserved bucket.
   */
  lemma EveryCandidateListed(cands: seq<string>, groups: seq<string>, p: string)
    requires Uncategorized !in groups
    requires p in cands
    ensures exists k :: k in DictionaryKeys(groups) && p in CategoryList(cands, groups, k)
  {
    UncategorizedMeans(cands, groups);
    if Claimed(p, groups) {
      var g :| g in groups && StartsWith(SceneName(p), g);
      ScenesWithPrefixMeans(cands, g);
      assert p in CategoryList(cands, groups, g);
    } else {
      assert p in CategoryList(cands, groups, Uncategorized);
    }
  }

  /**
   * A category named "emptyList" is overwritten by the reserved bucket, so a
   * scene that only this category claims is stored under no key at all.
   */
  lemma ReservedNameShadowed(cands: seq<string>, groups: seq<string>, p: string)
    requires Uncategorized in groups
    requires p in cands && StartsWith(SceneName(p), Uncategorized)
    requires forall g :: g in groups && g != Uncategorized ==> !StartsWith(SceneName(p), g)
    ensures forall k :: k in DictionaryKeys(groups) ==> p !in CategoryList(cands, groups, k)
  {
    assert Claimed(p, groups);
    UncategorizedMeans(cands, groups);
    forall g | g in groups && g != Uncategorized
      ensures p !in ScenesWithPrefix(cands, g)
    {
      ScenesWithPrefixMeans(cands, g);
    }
  }

  // ---------------------------------------------------------------------------
  // Duplicate category names

  /**
   * The position of the first element at or after `from` that repeats an
   * earlier one, or `|s|` when there is none.
   */
  function FirstRepeatFrom(s: seq<string>, from: nat): (n: nat)
    requires from <= |s| && Distinct(s[..from])
    ensures from <= n <= |s| && Distinct(s[..n])
    ensures n < |s| ==> s[n] in s[..n]
    decreases |s| - from
  {
    if from == |s| then |s|
    else if s[from] in s[..from] then from
    else
      assert Distinct(s[..from + 1]) by {
        assert forall i :: 0 <= i < from ==> s[..from + 1][i] == s[..from][i];
      }
      FirstRepeatFrom(s, from + 1)
  }

  /**
   * How many category names `Dictionary.Add` takes before it meets a name it
   * already holds: all of them exactly when they are distinct.
   */
  function FirstRepeat(s: seq<string>): (n: nat)
    ensures n <= |s| && Distinct(s[..n])
    ensures n < |s| ==> s[n] in s[..n]
  {
    FirstRepeatFrom(s, 0)
  }

  lemma FirstRepeatDistinct(s: seq<string>)
    ensures FirstRepeat(s) == |s| <==> Distinct(s)
  {
    var n := FirstRepeat(s);
    if n == |s| {
      assert s[..n] == s;
    } else {
      var i :| 0 <= i < n && s[..n][i] == s[n];
      assert s[i] == s[n];
    }
  }

  // ---------------------------------------------------------------------------
  // Drawing the list

  /** How a listed scene is drawn. */
  datatype RowState = Active | Loaded | NotLoaded

  /**
   * What the working buttons of a row do. The "ACTIVE" and "ADDED" buttons
   * have empty handlers and are not listed.
   */
  datatype SceneAction =
    | SetActiveScene(name: string)
    | UnloadScene(name: string)
    | OpenScene(path: string, additive: bool)

  /** One drawn line: the asset path, its scene name, its state and its buttons' effects. */
  datatype Row = Row(path: string, name: string, state: RowState, actions: seq<SceneAction>)

  /**
   * The row of one listed path. The active scene is drawn active even when it
   * is also loaded; a loaded scene can be made active or unloaded by name; any
   * other scene can be opened by path, alone or additively.
   */
  function SceneRow(path: string, activeScene: string, loaded: seq<string>): (row: Row)
    ensures row.path == path && row.name == SceneName(path)
    ensures row.state == Active <==> row.name == activeScene
    ensures row.state == Loaded <==> row.name != activeScene && row.name in loaded
    ensures row.state == NotLoaded <==> row.name != activeScene && row.name !in loaded
    ensures row.state == Active ==> row.actions == []
    ensures row.state == Loaded ==> row.actions == [SetActiveScene(row.name), UnloadScene(row.name)]
    ensures row.state == NotLoaded ==> row.actions == [OpenScene(path, false), OpenScene(path, true)]
  {
    var name := SceneName(path);
    if activeScene == name then Row(path, name, Active, [])
    else if name in loaded then Row(path, name, Loaded, [SetActiveScene(name), UnloadScene(name)])
    else Row(path, name, NotLoaded, [OpenScene(path, false), OpenScene(path, true)])
  }

  /** The rows of one category's list, in its order. */
  function ListRows(paths: seq<string>, activeScene: string, loaded: seq<string>): (rows: seq<Row>)
    ensures |rows| == |paths|
    ensures forall i :: 0 <= i < |paths| ==> rows[i] == SceneRow(paths[i], activeScene, loaded)
  {
    seq(|paths|, i requires 0 <= i < |paths| => SceneRow(paths[i], activeScene, loaded))
  }

  /** The rows of all lists, key by key in enumeration order. */
  function DictionaryRows(keys: seq<string>, dict: map<string, seq<string>>,
                          activeScene: string, loaded: seq<string>): seq<Row>
    requires forall k :: k in keys ==> k in dict
  {
    if keys == [] then []
    else
      DictionaryRows(keys[..|keys| - 1], dict, activeScene, loaded)
      + ListRows(dict[keys[|keys| - 1]], activeScene, loaded)
  }

  /** One more path of a list adds its row. */
  lemma ListRowsStep(paths: seq<string>, i: nat, activeScene: string, loaded: seq<string>)
    requires i < |paths|
    ensures ListRows(paths[..i + 1], activeScene, loaded)
            == ListRows(paths[..i], activeScene, loaded) + [SceneRow(paths[i], activeScene, loaded)]
  {
    var a, b := ListRows(paths[..i + 1], activeScene, loaded), ListRows(paths[..i], activeScene, loaded);
    assert forall j :: 0 <= j < i ==> a[j] == b[j];
  }

  /** One more key adds the rows of its list. */
  lemma DictionaryRowsStep(keys: seq<string>, n: nat, dict: map<string, seq<string>>,
                           activeScene: string, loaded: seq<string>)
    requires n < |keys| && forall k :: k in keys ==> k in dict
    ensures DictionaryRows(keys[..n + 1], dict, activeScene, loaded)
            == DictionaryRows(keys[..n], dict, activeScene, loaded) + ListRows(dict[keys[n]], activeScene, loaded)
  {
    assert keys[..n + 1][..n] == keys[..n];
  }

  /** A path is drawn on some row exactly when some key's list holds it. */
  lemma RowsListScenes(keys: seq<string>, dict: map<string, seq<string>>,
                       activeScene: string, loaded: seq<string>, p: string)
    requires forall k :: k in keys ==> k in dict
    ensures var rows := DictionaryRows(keys, dict, activeScene, loaded);
            (exists i :: 0 <= i < |rows| && rows[i].path == p)
            <==> (exists k :: k in keys && p in dict[k])
  {
    var rows := DictionaryRows(keys, dict, activeScene, loaded);
    if i :| 0 <= i < |rows| && rows[i].path == p {
      var k, j := ListedOfRow(keys, dict, activeScene, loaded, i);
      assert p in dict[k];
    }
    if k :| k in keys && p in dict[k] {
      var j :| 0 <= j < |dict[k]| && dict[k][j] == p;
      var i := RowOfListed(keys, dict, activeScene, loaded, k, j);
    }
  }

  // The row that draws the `j`-th path of key `k`.
  lemma {:induction false} RowOfListed(keys: seq<string>, dict: map<string, seq<string>>,
                                       activeScene: string, loaded: seq<string>, k: string, j: nat)
    returns (i: nat)
    requires forall k :: k in keys ==> k in dict
    requires k in keys && j < |dict[k]|
    ensures var rows := DictionaryRows(keys, dict, activeScene, loaded);
            i < |rows| && rows[i].path == dict[k][j]
  {
    var init, last := keys[..|keys| - 1], keys[|keys| - 1];
    var front := DictionaryRows(init, dict, activeScene, loaded);
    var back := ListRows(dict[last], activeScene, loaded);
    assert DictionaryRows(keys, dict, activeScene, loaded) == front + back;
    if k == last {
      i := |front| + j;
    } else {
      assert keys == init + [last];
      i := RowOfListed(init, dict, activeScene, loaded, k, j);
    }
  }

  // The key and position of the path a row draws.
  lemma {:induction false} ListedOfRow(keys: seq<string>, dict: map<string, seq<string>>,
                                       activeScene: string, loaded: seq<string>, i: nat)
    returns (k: string, j: nat)
    requires forall k :: k in keys ==> k in dict
    requires i < |DictionaryRows(keys, dict, activeScene, loaded)|
    ensures k in keys && j < |dict[k]| && dict[k][j] == DictionaryRows(keys, dict, activeScene, loaded)[i].path
  {
    var init, last := keys[..|keys| - 1], keys[|keys| - 1];
    var front := DictionaryRows(init, dict, activeScene, loaded);
    var back := ListRows(dict[last], activeScene, loaded);
    assert DictionaryRows(keys, dict, activeScene, loaded) == front + back;
    assert keys == init + [last];
    if i >= |front| {
      k, j := last, i - |front|;
    } else {
      k, j := ListedOfRow(init, dict, activeScene, loaded, i);
    }
  }

  // ---------------------------------------------------------------------------
  // The window

  /** Lists the paths whose scene name starts with `prefix`, in their order. */
  method GetScenesWithPrefix(allScenes: seq<string>, prefix: string) returns (r: seq<string>)
    ensures r == ScenesWithPrefix(allScenes, prefix)
    ensures forall p :: p in r <==> p in allScenes && StartsWith(SceneName(p), prefix)
  {
    r := [];
    for i := 0 to |allScenes|
      invariant r == ScenesWithPrefix(allScenes[..i], prefix)
    {
      assert allScenes[..i + 1][..i] == allScenes[..i];
      var sceneNameToLoad := SceneName(allScenes[i]);
      if StartsWith(sceneNameToLoad, prefix) {
        r := r + [allScenes[i]];
      }
    }
    assert allScenes[..|allScenes|] == allScenes;
    ScenesWithPrefixMeans(allScenes, prefix);
  }

  /** Lists the asset paths that start with the scene folder, in their order. */
  method ScenesInFolder(assetPaths: seq<string>, root: string) returns (r: seq<string>)
    ensures r == Candidates(assetPaths, root)
  {
    r := [];
    for j := 0 to |assetPaths|
      invariant r == Candidates(assetPaths[..j], root)
    {
      assert assetPaths[..j + 1][..j] == assetPaths[..j];
      if StartsWith(assetPaths[j], root) {
        r := r + [assetPaths[j]];
      }
    }
    assert assetPaths[..|assetPaths|] == assetPaths;
  }

  /**
   * The state of the scene selector window: the two configuration values, the
   * category names of the last refill, the categorised dictionary (its keys in
   * enumeration order and its contents) and the names of the loaded scenes.
   */
  class SceneSelectorWindow {
    var projectScenePath: string
    var sceneNameGroups: string
    var currentSceneNameGroups: seq<string>
    var dictKeys: seq<string>
    var categorizedScenes: map<string, seq<string>>
    var loadedScenes: seq<string>

    /** The enumeration order lists every key of the dictionary once. */
    ghost predicate Valid()
      reads this
    {
      Distinct(dictKeys) && forall k :: k in categorizedScenes <==> k in dictKeys
    }

    constructor (projectScenePath: string, sceneNameGroups: string, loadedScenes: seq<string>)
      ensures Valid()
      ensures this.projectScenePath == projectScenePath && this.sceneNameGroups == sceneNameGroups
      ensures this.loadedScenes == loadedScenes
      ensures currentSceneNameGroups == [] && dictKeys == [] && categorizedScenes == map[]
    {
      this.projectScenePath := projectScenePath;
      this.sceneNameGroups := sceneNameGroups;
      this.loadedScenes := loadedScenes;
      currentSceneNameGroups := [];
      dictKeys := [];
      categorizedScenes := map[];
    }

    /**
     * Refills the dictionary from the asset paths of all scenes. On success
     * (`ok`) every category maps to the scenes it claims and the reserved bucket
     * to the rest. A repeated category name makes `Dictionary.Add` throw: the
     * refill stops with the names before the repeat as keys, each mapped to an
     * empty list.
     */
    method PrepareEditorSceneSelectorData(assetPaths: seq<string>) returns (ok: bool)
      modifies this
      ensures Valid()
      ensures projectScenePath == old(projectScenePath) && sceneNameGroups == old(sceneNameGroups)
      ensures loadedScenes == old(loadedScenes)
      ensures var groups := Split(sceneNameGroups, ',');
              var cands := Candidates(assetPaths, projectScenePath);
              && ok == Distinct(groups)
              && (ok ==> currentSceneNameGroups == groups + [Uncategorized]
                         && dictKeys == DictionaryKeys(groups)
                         && forall k :: k in categorizedScenes ==>
                              categorizedScenes[k] == CategoryList(cands, groups, k))
              && (!ok ==> currentSceneNameGroups == groups
                          && dictKeys == groups[..FirstRepeat(groups)]
                          && forall k :: k in categorizedScenes ==> categorizedScenes[k] == [])
    {
      categorizedScenes := map[];
      dictKeys := [];
      var groups := Split(sceneNameGroups, ',');
      currentSceneNameGroups := groups;
      var tempSceneAssetList := ScenesInFolder(assetPaths, projectScenePath);
      ok := AddEmptyCategories(groups);
      if !ok {
        return;
      }
      FirstRepeatDistinct(groups);
      assert groups[..|groups|] == groups;
      var uncategorizedList := CategorizeScenes(tempSceneAssetList, groups);
      currentSceneNameGroups := currentSceneNameGroups + [Uncategorized];
      if Uncategorized !in categorizedScenes {
        dictKeys := dictKeys + [Uncategorized];
      }
      var rest := Except(tempSceneAssetList, uncategorizedList);
      categorizedScenes := categorizedScenes[Uncategorized := rest];
      assert dictKeys == DictionaryKeys(groups);
      assert tempSceneAssetList == Candidates(assetPaths, projectScenePath);
      forall k | k in categorizedScenes
        ensures categorizedScenes[k] == CategoryList(tempSceneAssetList, groups, k)
      {
        if k == Uncategorized {
          assert categorizedScenes[k] == rest;
        } else {
          assert categorizedScenes[k] == ScenesWithPrefix(tempSceneAssetList, k);
        }
      }
    }

    /**
     * The first step of a refill: one key per category name, in order, each
     * mapped to an empty list, until a name repeats and `Dictionary.Add` throws.
     */
    method AddEmptyCategories(groups: seq<string>) returns (ok: bool)
      requires dictKeys == [] && categorizedScenes == map[]
      modifies this
      ensures projectScenePath == old(projectScenePath) && sceneNameGroups == old(sceneNameGroups)
      ensures loadedScenes == old(loadedScenes) && currentSceneNameGroups == old(currentSceneNameGroups)
      ensures ok == Distinct(groups)
      ensures dictKeys == groups[..FirstRepeat(groups)]
      ensures forall k :: k in categorizedScenes <==> k in dictKeys
      ensures forall k :: k in categorizedScenes ==> categorizedScenes[k] == []
    {
      var x := 0;
      while x < |groups|
        invariant projectScenePath == old(projectScenePath) && sceneNameGroups == old(sceneNameGroups)
        invariant loadedScenes == old(loadedScenes) && currentSceneNameGroups == old(currentSceneNameGroups)
        invariant x <= FirstRepeat(groups)
        invariant dictKeys == groups[..x]
        invariant forall k :: k in categorizedScenes <==> k in groups[..x]
        invariant forall k :: k in categorizedScenes ==> categorizedScenes[k] == []
      {
        if groups[x] in categorizedScenes {
          // Dictionary.Add throws on a key it already holds.
          assert FirstRepeat(groups) == x;
          FirstRepeatDistinct(groups);
          return false;
        }
        assert groups[..x + 1] == groups[..x] + [groups[x]];
        dictKeys := dictKeys + [groups[x]];
        categorizedScenes := categorizedScenes[groups[x] := []];
        x := x + 1;
      }
      FirstRepeatDistinct(groups);
      return true;
    }

    /**
     * The second step of a refill: every category's key receives the scenes it
     * claims, and the result is all those lists one after another.
     */
    method CategorizeScenes(tempSceneAssetList: seq<string>, groups: seq<string>)
      returns (uncategorizedList: seq<string>)
      requires forall k :: k in categorizedScenes <==> k in groups
      modifies this
      ensures projectScenePath == old(projectScenePath) && sceneNameGroups == old(sceneNameGroups)
      ensures loadedScenes == old(loadedScenes) && currentSceneNameGroups == old(currentSceneNameGroups)
      ensures dictKeys == old(dictKeys)
      ensures forall k :: k in categorizedScenes <==> k in groups
      ensures forall k :: k in categorizedScenes ==> categorizedScenes[k] == ScenesWithPrefix(tempSceneAssetList, k)
      ensures uncategorizedList == AllCategorized(tempSceneAssetList, groups)
    {
      uncategorizedList := [];
      for i := 0 to |groups|
        invariant projectScenePath == old(projectScenePath) && sceneNameGroups == old(sceneNameGroups)
        invariant loadedScenes == old(loadedScenes) && currentSceneNameGroups == old(currentSceneNameGroups)
        invariant dictKeys == old(dictKeys)
        invariant forall k :: k in categorizedScenes <==> k in groups
        invariant forall k :: k in categorizedScenes && k in groups[..i] ==>
                    categorizedScenes[k] == ScenesWithPrefix(tempSceneAssetList, k)
        invariant uncategorizedList == AllCategorized(tempSceneAssetList, groups[..i])
      {
        assert groups[..i + 1] == groups[..i] + [groups[i]];
        var tempCategorized := GetScenesWithPrefix(tempSceneAssetList, groups[i]);
        categorizedScenes := categorizedScenes[groups[i] := tempCategorized];
        uncategorizedList := uncategorizedList + tempCategorized;
      }
      assert groups[..|groups|] == groups;
    }

    /**
     * The rows of the list, key by key in enumeration order and path by path
     * within a key.
     */
    method DrawItems(activeScene: string) returns (rows: seq<Row>)
      requires Valid()
      ensures rows == DictionaryRows(dictKeys, categorizedScenes, activeScene, loadedScenes)
    {
      rows := [];
      for n := 0 to |dictKeys|
        invariant rows == DictionaryRows(dictKeys[..n], categorizedScenes, activeScene, loadedScenes)
      {
        DictionaryRowsStep(dictKeys, n, categorizedScenes, activeScene, loadedScenes);
        var item := categorizedScenes[dictKeys[n]];
        var before := rows;
        for i := 0 to |item|
          invariant rows == before + ListRows(item[..i], activeScene, loadedScenes)
        {
          var sceneNameToLoad := SceneName(item[i]);
          var row;
          if activeScene == sceneNameToLoad {
            row := Row(item[i], sceneNameToLoad, Active, []);
          } else if sceneNameToLoad in loadedScenes {
            row := Row(item[i], sceneNameToLoad, Loaded,
                       [SetActiveScene(sceneNameToLoad), UnloadScene(sceneNameToLoad)]);
          } else {
            row := Row(item[i], sceneNameToLoad, NotLoaded,
                       [OpenScene(item[i], false), OpenScene(item[i], true)]);
          }
          assert row == SceneRow(item[i], activeScene, loadedScenes);
          ListRowsStep(item, i, activeScene, loadedScenes);
          rows := rows + [row];
        }
        assert item[..|item|] == item;
      }
      assert dictKeys[..|dictKeys|] == dictKeys;
    }
  }
}
