/**
 * What the last stages of `ModList.runConflictCheck` compute: the multi-map
 * from file name keys to the mods holding such files, the cleaning of a
 * conflict group, the map from names to unshadowed definitions, and the
 * FILE_CONFLICT and NAME_CONFLICT alerts raised over them.
 */
module ConflictSpec {
  import opened Wrappers
  import opened Severities
  import opened MergeBehaviours
  import opened Entities
  import opened Alerts
  import opened Util
  import opened ModListSpec

  /** The files of a registry with name key k. */
  function Named(files: set<ModFile>, k: string): set<ModFile>
  {
    set f | f in files && f.name == k
  }

  /** The files of m with name key k. */
  ghost function FilesNamed(m: Mod, k: string): set<ModFile>
    reads m
  {
    Named(m.files, k)
  }

  function Repeat(m: Mod, n: nat): (r: seq<Mod>)
    ensures |r| == n && forall i :: 0 <= i < n ==> r[i] == m
  {
    if n == 0 then [] else Repeat(m, n - 1) + [m]
  }

  /** `getFileToModsMap`'s list for key k: each loaded mod, in load order, once per file it holds under k. */
  ghost function ModsWithKey(mods: seq<Mod>, k: string): seq<Mod>
    reads mods
  {
    if mods == [] then []
    else
      var n := |mods| - 1;
      ModsWithKey(mods[..n], k) + Repeat(mods[n], |FilesNamed(mods[n], k)|)
  }

  /** The name keys of all loaded files. */
  ghost function FileKeys(mods: seq<Mod>): set<string>
    reads mods
  {
    set f | f in AllFiles(mods) :: f.name
  }

  /** `fileToModsMap`: for each name key of a loaded file, the mods holding files under it. */
  ghost function FileToMods(mods: seq<Mod>): map<string, seq<Mod>>
    reads mods
  {
    map k | k in FileKeys(mods) :: ModsWithKey(mods, k)
  }

  lemma ModsWithKeyStep(mods: seq<Mod>, i: nat)
    requires i < |mods|
    ensures forall k :: ModsWithKey(mods[..i + 1], k) == ModsWithKey(mods[..i], k) + Repeat(mods[i], |FilesNamed(mods[i], k)|)
  {
    assert mods[..i + 1][..i] == mods[..i];
  }

  /** Adding the files of the next mod to the multi-map of a prefix gives the multi-map of the longer prefix. */
  lemma ModsWithKeyAdd(mods: seq<Mod>, i: nat, before: map<string, seq<Mod>>, after: map<string, seq<Mod>>)
    requires i < |mods|
    requires forall k :: Get(before, k) == ModsWithKey(mods[..i], k)
    requires forall k :: Get(after, k) == Get(before, k) + Repeat(mods[i], |FilesNamed(mods[i], k)|)
    ensures forall k :: Get(after, k) == ModsWithKey(mods[..i + 1], k)
  {
    ModsWithKeyStep(mods, i);
  }

  /** A mod is listed under k exactly when it is loaded and holds a file with key k. */
  lemma {:induction false} ModsWithKeyMembers(mods: seq<Mod>, k: string)
    ensures forall m :: m in ModsWithKey(mods, k) ==> m in mods && FilesNamed(m, k) != {}
    ensures forall m :: m in mods && FilesNamed(m, k) != {} ==> m in ModsWithKey(mods, k)
  {
    if mods != [] {
      var n := |mods| - 1;
      ModsWithKeyMembers(mods[..n], k);
      forall m ensures m in ModsWithKey(mods, k) <==> m in mods && FilesNamed(m, k) != {} {
        assert m in Repeat(mods[n], |FilesNamed(mods[n], k)|) <==> m == mods[n] && FilesNamed(mods[n], k) != {};
        assert m in mods <==> m in mods[..n] || m == mods[n] by {
          assert mods == mods[..n] + [mods[n]];
        }
      }
    }
  }

  /** Adding one file to a registry adds one file under its own key and none under any other. */
  lemma NamedStep(processed: set<ModFile>, file: ModFile)
    requires file !in processed
    ensures forall k :: |Named(processed + {file}, k)| == |Named(processed, k)| + (if file.name == k then 1 else 0)
  {
    forall k ensures |Named(processed + {file}, k)| == |Named(processed, k)| + (if file.name == k then 1 else 0) {
      if file.name == k {
        assert Named(processed + {file}, k) == Named(processed, k) + {file};
      } else {
        assert Named(processed + {file}, k) == Named(processed, k);
      }
    }
  }

  /** A key under which some loaded mod is listed is the key of a loaded file. */
  lemma ModsWithKeysPresent(mods: seq<Mod>)
    ensures forall k :: ModsWithKey(mods, k) != [] ==> k in FileKeys(mods)
  {
    FileToModsSpec(mods);
    forall k | ModsWithKey(mods, k) != [] ensures k in FileKeys(mods) {
      ModsWithKeyMembers(mods, k);
      var m := ModsWithKey(mods, k)[0];
      assert m in ModsWithKey(mods, k);
      assert m in mods && FilesNamed(m, k) != {};
      assert k in FileToMods(mods);
    }
  }

  /** A map listing, for every key, exactly the mods `ModsWithKey` lists, and no key with an empty list, is the multi-map. */
  lemma FileToModsByKeys(mods: seq<Mod>, fileToMods: map<string, seq<Mod>>)
    requires forall k :: Get(fileToMods, k) == ModsWithKey(mods, k)
    requires forall k :: k in fileToMods ==> fileToMods[k] != []
    ensures fileToMods == FileToMods(mods)
  {
    FileToModsSpec(mods);
    ModsWithKeysPresent(mods);
    forall k | k in FileToMods(mods) ensures k in fileToMods {
      assert Get(fileToMods, k) != [];
    }
  }

  /**
   * The multi-map of `getFileToModsMap` is built over all loaded files,
   * shadowed or not: a key is present exactly when some loaded mod holds a
   * file with that key, and its list holds exactly those mods.
   */
  lemma FileToModsSpec(mods: seq<Mod>)
    ensures forall k :: k in FileToMods(mods) ==> exists m :: m in mods && FilesNamed(m, k) != {}
    ensures forall m, k :: m in mods && FilesNamed(m, k) != {} ==> k in FileToMods(mods)
    ensures forall k :: k in FileToMods(mods) ==>
              FileToMods(mods)[k] != [] && forall m :: m in FileToMods(mods)[k] <==> m in mods && FilesNamed(m, k) != {}
  {
    FilesUpToSpec(mods, |mods|);
    forall k | k in FileToMods(mods) ensures exists m :: m in mods && FilesNamed(m, k) != {} {
      var f :| f in AllFiles(mods) && f.name == k;
      var i :| 0 <= i < |mods| && f in mods[i].files;
      assert f in FilesNamed(mods[i], k);
    }
    forall m, k | m in mods && FilesNamed(m, k) != {} ensures k in FileToMods(mods) {
      var i :| 0 <= i < |mods| && mods[i] == m;
      var f :| f in FilesNamed(m, k);
      assert f in AllFiles(mods);
    }
    forall k | k in FileToMods(mods)
      ensures FileToMods(mods)[k] != [] && forall m :: m in FileToMods(mods)[k] <==> m in mods && FilesNamed(m, k) != {}
    {
      ModsWithKeyMembers(mods, k);
      var m :| m in mods && FilesNamed(m, k) != {};
      assert m in ModsWithKey(mods, k);
    }
  }

  /** `isTrueDependency` over a true-dependency map: b is among the recorded dependencies of a. */
  predicate Depends(trueDependencies: map<Mod, set<Mod>>, a: Mod, b: Mod)
  {
    a in trueDependencies && b in trueDependencies[a]
  }

  /**
   * `cleanConflictList`'s mark for the entry at i: a mod other than vanilla
   * that some other entry of the group depends on (a compatibility patch's
   * dependency, say) is removed from the group.
   */
  predicate Removed(trueDependencies: map<Mod, set<Mod>>, vanilla: Mod, group: seq<Mod>, i: int)
    requires 0 <= i < |group|
  {
    group[i] != vanilla && exists j :: 0 <= j < |group| && j != i && Depends(trueDependencies, group[j], group[i])
  }

  /** The entries among the first n of the group that are not removed, in order. */
  function KeptUpTo(trueDependencies: map<Mod, set<Mod>>, vanilla: Mod, group: seq<Mod>, n: nat): seq<Mod>
    requires n <= |group|
  {
    if n == 0 then []
    else KeptUpTo(trueDependencies, vanilla, group, n - 1) + (if Removed(trueDependencies, vanilla, group, n - 1) then [] else [group[n - 1]])
  }

  /** The list `cleanConflictList` returns. */
  function Cleaned(trueDependencies: map<Mod, set<Mod>>, vanilla: Mod, group: seq<Mod>): seq<Mod>
  {
    KeptUpTo(trueDependencies, vanilla, group, |group|)
  }

  lemma {:induction false} KeptUpToMembers(trueDependencies: map<Mod, set<Mod>>, vanilla: Mod, group: seq<Mod>, n: nat)
    requires n <= |group|
    ensures forall m :: m in KeptUpTo(trueDependencies, vanilla, group, n) ==>
              exists i :: 0 <= i < n && group[i] == m && !Removed(trueDependencies, vanilla, group, i)
    ensures forall i :: 0 <= i < n && !Removed(trueDependencies, vanilla, group, i) ==>
              group[i] in KeptUpTo(trueDependencies, vanilla, group, n)
    ensures |KeptUpTo(trueDependencies, vanilla, group, n)| <= n
  {
    if n > 0 {
      KeptUpToMembers(trueDependencies, vanilla, group, n - 1);
    }
  }

  /** No other entry of the group depends on the entry at i. */
  predicate NoDependerIn(trueDependencies: map<Mod, set<Mod>>, group: seq<Mod>, i: int)
    requires 0 <= i < |group|
  {
    forall j :: 0 <= j < |group| && j != i ==> !Depends(trueDependencies, group[j], group[i])
  }

  /**
   * The cleaned group keeps, in their order, exactly the entries that are
   * vanilla or on which no other entry depends: vanilla is never removed, and
   * a group without dependencies between its entries is kept whole.
   */
  lemma CleanedSpec(trueDependencies: map<Mod, set<Mod>>, vanilla: Mod, group: seq<Mod>)
    ensures forall m :: m in Cleaned(trueDependencies, vanilla, group) ==>
              exists i :: 0 <= i < |group| && group[i] == m && (m == vanilla || NoDependerIn(trueDependencies, group, i))
    ensures forall i :: 0 <= i < |group| && (group[i] == vanilla || NoDependerIn(trueDependencies, group, i)) ==>
              group[i] in Cleaned(trueDependencies, vanilla, group)
    ensures vanilla in group ==> vanilla in Cleaned(trueDependencies, vanilla, group)
    ensures |Cleaned(trueDependencies, vanilla, group)| <= |group|
    ensures (forall i :: 0 <= i < |group| ==> NoDependerIn(trueDependencies, group, i)) ==>
              Cleaned(trueDependencies, vanilla, group) == group
  {
    KeptUpToMembers(trueDependencies, vanilla, group, |group|);
    if vanilla in group {
      var i :| 0 <= i < |group| && group[i] == vanilla;
      assert !Removed(trueDependencies, vanilla, group, i);
    }
    if forall i :: 0 <= i < |group| ==> NoDependerIn(trueDependencies, group, i) {
      KeptWhole(trueDependencies, vanilla, group, |group|);
      assert group[..|group|] == group;
    }
  }

  lemma {:induction false} KeptWhole(trueDependencies: map<Mod, set<Mod>>, vanilla: Mod, group: seq<Mod>, n: nat)
    requires n <= |group|
    requires forall i :: 0 <= i < |group| ==> NoDependerIn(trueDependencies, group, i)
    ensures KeptUpTo(trueDependencies, vanilla, group, n) == group[..n]
  {
    if n > 0 {
      KeptWhole(trueDependencies, vanilla, group, n - 1);
      assert NoDependerIn(trueDependencies, group, n - 1);
      assert group[..n] == group[..n - 1] + [group[n - 1]];
    }
  }

  /** The cleaned group holds only entries of the group. */
  lemma CleanedWithin(trueDependencies: map<Mod, set<Mod>>, vanilla: Mod, group: seq<Mod>)
    ensures forall m :: m in Cleaned(trueDependencies, vanilla, group) ==> m in group
  {
    KeptUpToMembers(trueDependencies, vanilla, group, |group|);
  }

  /** The group of a file-name conflict: the cleaned list for the key, when it is long enough to report. */
  predicate IsFileConflict(trueDependencies: map<Mod, set<Mod>>, vanilla: Mod, fileToMods: map<string, seq<Mod>>, k: string)
  {
    k in fileToMods && |fileToMods[k]| > 1 &&
    var c := Cleaned(trueDependencies, vanilla, fileToMods[k]);
    |c| > 2 || (vanilla !in c && |c| > 1)
  }

  /** Every mod a multi-map lists under a key is a loaded mod that registers a file under that key. */
  ghost predicate Registered(mods: seq<Mod>, fileToMods: map<string, seq<Mod>>)
    reads mods
  {
    forall k, m :: k in fileToMods && m in fileToMods[k] ==> m in mods && k in m.modFileMap
  }

  /** The multi-map of mods keeping their registration invariant lists only mods that register a file under the key. */
  lemma FileToModsRegistered(mods: seq<Mod>)
    requires AllValid(mods)
    ensures Registered(mods, FileToMods(mods))
  {
    forall k, m | k in FileToMods(mods) && m in FileToMods(mods)[k] ensures m in mods && k in m.modFileMap {
      ModsWithKeyMembers(mods, k);
      assert m in ModsWithKey(mods, k);
      var f :| f in FilesNamed(m, k);
      assert m.Valid();
    }
  }

  /** Every member of a cleaned group of a registered multi-map is a loaded mod and has a file registered under the key. */
  lemma CleanedGroupRegistered(mods: seq<Mod>, trueDependencies: map<Mod, set<Mod>>, vanilla: Mod,
                               fileToMods: map<string, seq<Mod>>, k: string)
    requires Registered(mods, fileToMods) && k in fileToMods
    ensures forall m :: m in Cleaned(trueDependencies, vanilla, fileToMods[k]) ==> m in mods && k in m.modFileMap
  {
    CleanedWithin(trueDependencies, vanilla, fileToMods[k]);
  }

  /** `getModFileByName` over the group: the file each member registers under k. */
  function FilesOf(group: seq<Mod>, k: string): (r: seq<ModFile>)
    requires forall m :: m in group ==> k in m.modFileMap
    reads group
    ensures |r| == |group| && forall i :: 0 <= i < |group| ==> r[i] == group[i].modFileMap[k]
  {
    if group == [] then [] else FilesOf(group[..|group| - 1], k) + [group[|group| - 1].modFileMap[k]]
  }

  const FileConflictMessage: string := "File name conflict between non-dependent mods."

  /** The FILE_CONFLICT alert over the files of a cleaned group: a warning in the folder of the first file. */
  function FileConflictAlert(files: seq<ModFile>): (a: Alert)
    requires |files| > 0
  {
    NewAlert(Warning, FileConflict, files[0].gameFolder, files, None, FileConflictMessage)
  }

  /**
   * A FILE_CONFLICT alert is a warning without a definition name, in the
   * folder of the first file, that lists the given files sorted: the same
   * files, as many times each.
   */
  lemma FileConflictAlertSpec(files: seq<ModFile>)
    requires |files| > 0
    ensures var a := FileConflictAlert(files);
      a.severity == Warning && a.kind == FileConflict && a.definitionName == None &&
      a.gameFolder == files[0].gameFolder &&
      Sorted(a.files) && |a.files| == |files| && multiset(a.files) == multiset(files) &&
      (forall f :: f in a.files ==> f in files) && (forall f :: f in files ==> f in a.files)
  {
    var a := FileConflictAlert(files);
    NewAlertFiles(Warning, FileConflict, files[0].gameFolder, files, None, FileConflictMessage);
    assert |a.files| == |multiset(a.files)| == |multiset(files)| == |files|;
    forall f | f in a.files ensures f in files {
      assert f in multiset(files);
    }
    forall f | f in files ensures f in a.files {
      assert f in multiset(a.files);
    }
  }

  /**
   * Over a group of mods keeping their registration invariant, the files
   * `getModFileByName` returns are each member's file named by the key.
   */
  lemma FilesOfRegistered(group: seq<Mod>, k: string)
    requires forall m :: m in group ==> m.Valid() && k in m.modFileMap
    ensures forall f :: f in FilesOf(group, k) ==> f.name == k && f.mod in group && f in f.mod.files
    ensures forall m :: m in group ==> m.modFileMap[k] in FilesOf(group, k)
  {
    var files := FilesOf(group, k);
    forall f | f in files ensures f.name == k && f.mod in group && f in f.mod.files {
      var i :| 0 <= i < |files| && files[i] == f;
      assert group[i] in group;
    }
    forall m | m in group ensures m.modFileMap[k] in files {
      var i :| 0 <= i < |group| && group[i] == m;
      assert files[i] == m.modFileMap[k];
    }
  }

  /** The alert raised for key k when it is a conflict of the multi-map. */
  ghost predicate IsFileConflictAlert(mods: seq<Mod>, trueDependencies: map<Mod, set<Mod>>, vanilla: Mod,
                                      fileToMods: map<string, seq<Mod>>, k: string, a: Alert)
    reads mods
  {
    k in fileToMods &&
    var group := Cleaned(trueDependencies, vanilla, fileToMods[k]);
    |group| > 0 && (forall m :: m in group ==> m in mods && k in m.modFileMap) && a == FileConflictAlert(FilesOf(group, k))
  }

  /**
   * `findFileNameConflicts`: one alert per conflicting key, each key once, in
   * the unspecified order of the multi-map's entries.
   */
  ghost predicate FileConflicts(mods: seq<Mod>, trueDependencies: map<Mod, set<Mod>>, vanilla: Mod,
                                fileToMods: map<string, seq<Mod>>, keys: seq<string>, alerts: seq<Alert>)
    reads mods
  {
    (forall i, j :: 0 <= i < j < |keys| ==> keys[i] != keys[j]) &&
    (forall i :: 0 <= i < |keys| ==> IsFileConflict(trueDependencies, vanilla, fileToMods, keys[i])) &&
    (forall k :: IsFileConflict(trueDependencies, vanilla, fileToMods, k) ==> k in keys) &&
    |alerts| == |keys| &&
    forall i :: 0 <= i < |keys| ==> IsFileConflictAlert(mods, trueDependencies, vanilla, fileToMods, keys[i], alerts[i])
  }

  /** The state of the loop of `findFileNameConflicts` once the keys outside `remaining` are done. */
  ghost predicate FileConflictsOutside(mods: seq<Mod>, trueDependencies: map<Mod, set<Mod>>, vanilla: Mod,
                                       fileToMods: map<string, seq<Mod>>, remaining: set<string>, keys: seq<string>, alerts: seq<Alert>)
    reads mods
  {
    (forall i, j :: 0 <= i < j < |keys| ==> keys[i] != keys[j]) &&
    (forall i :: 0 <= i < |keys| ==> keys[i] !in remaining && IsFileConflict(trueDependencies, vanilla, fileToMods, keys[i])) &&
    (forall k :: k !in remaining && IsFileConflict(trueDependencies, vanilla, fileToMods, k) ==> k in keys) &&
    |alerts| == |keys| &&
    forall i :: 0 <= i < |keys| ==> IsFileConflictAlert(mods, trueDependencies, vanilla, fileToMods, keys[i], alerts[i])
  }

  /** Handling one more key, with the alert it raises when it is a conflict, keeps the loop's state. */
  lemma FileConflictsExtend(mods: seq<Mod>, trueDependencies: map<Mod, set<Mod>>, vanilla: Mod,
                            fileToMods: map<string, seq<Mod>>, remaining: set<string>, keys: seq<string>, alerts: seq<Alert>,
                            key: string, alert: Option<Alert>)
    requires FileConflictsOutside(mods, trueDependencies, vanilla, fileToMods, remaining, keys, alerts) && key in remaining
    requires alert.Some? <==> IsFileConflict(trueDependencies, vanilla, fileToMods, key)
    requires alert.Some? ==> IsFileConflictAlert(mods, trueDependencies, vanilla, fileToMods, key, alert.value)
    ensures FileConflictsOutside(mods, trueDependencies, vanilla, fileToMods, remaining - {key},
                                 if alert.Some? then keys + [key] else keys, if alert.Some? then alerts + [alert.value] else alerts)
  {
  }

  /** Once no key remains, the loop's state is `findFileNameConflicts`' result. */
  lemma FileConflictsFinished(mods: seq<Mod>, trueDependencies: map<Mod, set<Mod>>, vanilla: Mod,
                              fileToMods: map<string, seq<Mod>>, keys: seq<string>, alerts: seq<Alert>)
    requires FileConflictsOutside(mods, trueDependencies, vanilla, fileToMods, {}, keys, alerts)
    ensures FileConflicts(mods, trueDependencies, vanilla, fileToMods, keys, alerts)
  {
  }

  /** `Definition::getName`, the key of the definitions map. */
  function DefinitionName(d: Definition): string
  {
    d.name
  }

  /**
   * `definitionsMap`: a key for each name of an unshadowed definition, whose
   * list holds, each once, exactly the unshadowed definitions of that name.
   */
  ghost predicate DefinitionsMapOf(unShadowed: set<Definition>, definitionsMap: map<string, seq<Definition>>)
  {
    (forall k :: k in definitionsMap <==> exists d :: d in unShadowed && d.name == k) &&
    (forall k :: k in definitionsMap ==>
      var defs := definitionsMap[k];
      defs != [] && (forall i, j :: 0 <= i < j < |defs| ==> defs[i] != defs[j]) &&
      (forall d :: d in defs ==> d in unShadowed && d.name == k) &&
      (forall d :: d in unShadowed && d.name == k ==> d in defs))
  }

  /** `multiMapBy` over an enumeration of the unshadowed definitions, each once, gives their definitions map. */
  lemma DefinitionsMapOfEnumeration(unShadowed: set<Definition>, order: seq<Definition>)
    requires forall d :: d in order <==> d in unShadowed
    requires forall i, j :: 0 <= i < j < |order| ==> order[i] != order[j]
    ensures DefinitionsMapOf(unShadowed, MultiMapByFn(order, DefinitionName))
  {
    var m := MultiMapByFn(order, DefinitionName);
    MultiMapByFnGroups(order, DefinitionName);
    AddAllFnSpec(map[], order, DefinitionName);
    forall k ensures k in m <==> exists d :: d in unShadowed && d.name == k {
      if exists d :: d in unShadowed && d.name == k {
        var d :| d in unShadowed && d.name == k;
        var i :| 0 <= i < |order| && order[i] == d;
        assert DefinitionName(order[i]) == k;
      }
    }
    forall k | k in m ensures forall i, j :: 0 <= i < j < |m[k]| ==> m[k][i] != m[k][j] {
      assert Get(m, k) == Get(map[], k) + Filter(order, DefinitionName, k);
      FilterDistinct(order, DefinitionName, k);
    }
    forall k, d | k in m && d in unShadowed && d.name == k ensures d in m[k] {
      var i :| 0 <= i < |order| && order[i] == d;
    }
  }

  /** The definitions of a name's list that lie in folder g, in list order. */
  function InFolder(defs: seq<Definition>, g: GameFolder): (r: seq<Definition>)
    ensures forall d :: d in r ==> d in defs && d.GameFolderOf() == g
    ensures forall i :: 0 <= i < |defs| && defs[i].GameFolderOf() == g ==> defs[i] in r
    ensures |r| <= |defs|
  {
    if defs == [] then []
    else
      var n := |defs| - 1;
      InFolder(defs[..n], g) + (if defs[n].GameFolderOf() == g then [defs[n]] else [])
  }

  /** The distinct name keys of the definitions' files. */
  function FileNamesOf(defs: seq<Definition>): set<string>
  {
    set d | d in defs :: d.file.name
  }

  function FilesOfDefinitions(defs: seq<Definition>): (r: seq<ModFile>)
    ensures |r| == |defs| && forall i :: 0 <= i < |defs| ==> r[i] == defs[i].file
  {
    if defs == [] then [] else FilesOfDefinitions(defs[..|defs| - 1]) + [defs[|defs| - 1].file]
  }

  /**
   * A definition conflict for name k in folder g: at least two of the name's
   * definitions lie in g, in files with at least two distinct name keys, and
   * the first of them carries a policy that ranks above NOT_APPLICABLE.
   */
  predicate IsNameConflict(definitionsMap: map<string, seq<Definition>>, k: string, g: GameFolder)
  {
    k in definitionsMap && |definitionsMap[k]| > 1 &&
    var sub := InFolder(definitionsMap[k], g);
    |sub| > 1 && |FileNamesOf(sub)| > 1 && RanksAboveNoOp(sub[0].mergeBehaviour)
  }

  const NameConflictHead: string := "An instance of type "
  const NameConflictMiddle: string := "\n with name \""
  const NameConflictTail: string := "\"\n is defined in multiple distinctly-named files.\n"

  /** The NAME_CONFLICT alert: severity and description from the first definition's policy. */
  function NameConflictAlert(definitionsMap: map<string, seq<Definition>>, k: string, g: GameFolder): (a: Alert)
    requires IsNameConflict(definitionsMap, k, g)
  {
    var sub := InFolder(definitionsMap[k], g);
    var mb := sub[0].mergeBehaviour;
    NewAlert(SeverityOf(mb), NameConflict, g, FilesOfDefinitions(sub), Some(sub[0].name),
             NameConflictHead + g.name + NameConflictMiddle + k + NameConflictTail + Description(mb))
  }

  /**
   * A NAME_CONFLICT alert lies in its folder, takes the severity of the policy
   * of one of the group's definitions, which is not NOT_APPLICABLE (so the
   * severity is not TRIVIAL), and lists, sorted, the files of the group,
   * among which at least two distinct name keys occur.
   */
  lemma NameConflictAlertSpec(definitionsMap: map<string, seq<Definition>>, k: string, g: GameFolder)
    requires IsNameConflict(definitionsMap, k, g)
    ensures var a := NameConflictAlert(definitionsMap, k, g);
      a.kind == NameConflict && a.gameFolder == g &&
      (exists d :: d in definitionsMap[k] && d.GameFolderOf() == g && d.mergeBehaviour != NotApplicable &&
                   a.severity == SeverityOf(d.mergeBehaviour) && a.definitionName == Some(d.name)) &&
      a.severity != Trivial &&
      Sorted(a.files) && |a.files| > 1 &&
      (forall f :: f in a.files ==> exists d :: d in definitionsMap[k] && d.GameFolderOf() == g && d.file == f) &&
      (forall d :: d in definitionsMap[k] && d.GameFolderOf() == g ==> d.file in a.files) &&
      multiset(a.files) == multiset(FilesOfDefinitions(InFolder(definitionsMap[k], g))) &&
      (exists f1, f2 :: f1 in a.files && f2 in a.files && f1.name != f2.name)
  {
    var sub := InFolder(definitionsMap[k], g);
    var files := FilesOfDefinitions(sub);
    var mb := sub[0].mergeBehaviour;
    var message := NameConflictHead + g.name + NameConflictMiddle + k + NameConflictTail + Description(mb);
    var a := NameConflictAlert(definitionsMap, k, g);
    NewAlertFiles(SeverityOf(mb), NameConflict, g, files, Some(sub[0].name), message);
    RanksAboveNoOpIffApplicable(mb);
    SeverityTable(mb);
    assert sub[0] in sub;
    assert |a.files| == |multiset(a.files)| == |multiset(files)| == |files|;
    FilesFromDefinitions(sub, a.files);
    TwoKeysInFiles(sub, a.files);
    forall d | d in definitionsMap[k] && d.GameFolderOf() == g ensures d.file in a.files {
      var i :| 0 <= i < |definitionsMap[k]| && definitionsMap[k][i] == d;
      var j :| 0 <= j < |sub| && sub[j] == d;
      assert files[j] == d.file;
      assert d.file in multiset(files);
    }
  }

  /** A permutation of the definitions' files holds only files of those definitions. */
  lemma FilesFromDefinitions(defs: seq<Definition>, files: seq<ModFile>)
    requires multiset(files) == multiset(FilesOfDefinitions(defs))
    ensures forall f :: f in files ==> exists d :: d in defs && d.file == f
  {
    var all := FilesOfDefinitions(defs);
    forall f | f in files ensures exists d :: d in defs && d.file == f {
      assert f in multiset(all);
      var i :| 0 <= i < |all| && all[i] == f;
      assert defs[i] in defs;
    }
  }

  /** A permutation of the files of definitions with two distinct file keys holds two files with distinct keys. */
  lemma TwoKeysInFiles(defs: seq<Definition>, files: seq<ModFile>)
    requires multiset(files) == multiset(FilesOfDefinitions(defs)) && |FileNamesOf(defs)| > 1
    ensures exists f1, f2 :: f1 in files && f2 in files && f1.name != f2.name
  {
    var all := FilesOfDefinitions(defs);
    var key1 :| key1 in FileNamesOf(defs);
    assert FileNamesOf(defs) * {key1} == {key1};
    assert |FileNamesOf(defs) - {key1}| == |FileNamesOf(defs)| - 1;
    var key2 :| key2 in FileNamesOf(defs) - {key1};
    var d1 :| d1 in defs && d1.file.name == key1;
    var d2 :| d2 in defs && d2.file.name == key2;
    var i1 :| 0 <= i1 < |defs| && defs[i1] == d1;
    var i2 :| 0 <= i2 < |defs| && defs[i2] == d2;
    assert all[i1] in multiset(files) && all[i2] in multiset(files);
  }

  /**
   * Distinct files with the same name key do not make a name conflict: when
   * all of a name's definitions in g lie in files with one key, g raises none.
   */
  lemma OneFileKeyNoNameConflict(definitionsMap: map<string, seq<Definition>>, k: string, g: GameFolder, key: string)
    requires k in definitionsMap
    requires forall d :: d in definitionsMap[k] && d.GameFolderOf() == g ==> d.file.name == key
    ensures !IsNameConflict(definitionsMap, k, g)
  {
    var sub := InFolder(definitionsMap[k], g);
    assert FileNamesOf(sub) <= {key};
    assert |FileNamesOf(sub)| <= 1 by {
      if FileNamesOf(sub) != {} {
        assert FileNamesOf(sub) == {key};
      }
    }
  }

  /** A folder conflicts for a name only when one of the name's definitions lies in it. */
  lemma NameConflictFolderOccurs(definitionsMap: map<string, seq<Definition>>, k: string, g: GameFolder)
    requires IsNameConflict(definitionsMap, k, g)
    ensures exists d :: d in definitionsMap[k] && d.GameFolderOf() == g
  {
    assert InFolder(definitionsMap[k], g)[0] in InFolder(definitionsMap[k], g);
  }

  /** The alert raised for (k, g) when it is a conflict. */
  predicate IsNameConflictAlert(definitionsMap: map<string, seq<Definition>>, k: string, g: GameFolder, a: Alert)
  {
    IsNameConflict(definitionsMap, k, g) && a == NameConflictAlert(definitionsMap, k, g)
  }

  /** The folders are distinct, and each conflicts for k and is no longer remaining. */
  ghost predicate FoldersFound(definitionsMap: map<string, seq<Definition>>, k: string, remaining: set<GameFolder>, folders: seq<GameFolder>)
  {
    (forall i, j :: 0 <= i < j < |folders| ==> folders[i] != folders[j]) &&
    (forall i :: 0 <= i < |folders| ==> folders[i] !in remaining && IsNameConflict(definitionsMap, k, folders[i]))
  }

  /** Every folder of `all` no longer remaining that conflicts for k is among the folders. */
  ghost predicate FoldersCovered(definitionsMap: map<string, seq<Definition>>, k: string, all: set<GameFolder>,
                                 remaining: set<GameFolder>, folders: seq<GameFolder>)
  {
    forall g :: g in all && g !in remaining && IsNameConflict(definitionsMap, k, g) ==> g in folders
  }

  /** Each folder comes with its alert. */
  ghost predicate FolderAlerts(definitionsMap: map<string, seq<Definition>>, k: string, folders: seq<GameFolder>, alerts: seq<Alert>)
  {
    |alerts| == |folders| &&
    forall i :: 0 <= i < |folders| ==> IsNameConflictAlert(definitionsMap, k, folders[i], alerts[i])
  }

  /** The state of the loop over one name's folders once the folders of `all` outside `remaining` are done. */
  ghost predicate FoldersOutside(definitionsMap: map<string, seq<Definition>>, k: string, all: set<GameFolder>,
                                 remaining: set<GameFolder>, folders: seq<GameFolder>, alerts: seq<Alert>)
  {
    FoldersFound(definitionsMap, k, remaining, folders) && FoldersCovered(definitionsMap, k, all, remaining, folders) &&
    FolderAlerts(definitionsMap, k, folders, alerts)
  }

  /** Recording one more conflicting folder, with its alert, keeps the loop's state. */
  lemma FoldersAdd(definitionsMap: map<string, seq<Definition>>, k: string, all: set<GameFolder>,
                   remaining: set<GameFolder>, folders: seq<GameFolder>, alerts: seq<Alert>, g: GameFolder, a: Alert)
    requires FoldersOutside(definitionsMap, k, all, remaining, folders, alerts) && g in remaining
    requires IsNameConflictAlert(definitionsMap, k, g, a)
    ensures FoldersOutside(definitionsMap, k, all, remaining - {g}, folders + [g], alerts + [a])
  {
    FoldersFoundExtend(definitionsMap, k, remaining, folders, g);
    FoldersCoveredExtend(definitionsMap, k, all, remaining, folders, g);
    FolderAlertsExtend(definitionsMap, k, folders, alerts, g, a);
  }

  /** Passing over a folder that does not conflict keeps the loop's state. */
  lemma FoldersSkip(definitionsMap: map<string, seq<Definition>>, k: string, all: set<GameFolder>,
                    remaining: set<GameFolder>, folders: seq<GameFolder>, alerts: seq<Alert>, g: GameFolder)
    requires FoldersOutside(definitionsMap, k, all, remaining, folders, alerts) && !IsNameConflict(definitionsMap, k, g)
    ensures FoldersOutside(definitionsMap, k, all, remaining - {g}, folders, alerts)
  {
    FoldersCoveredSkip(definitionsMap, k, all, remaining, folders, g);
  }

  lemma FoldersFoundExtend(definitionsMap: map<string, seq<Definition>>, k: string, remaining: set<GameFolder>,
                           folders: seq<GameFolder>, g: GameFolder)
    requires FoldersFound(definitionsMap, k, remaining, folders) && g in remaining && IsNameConflict(definitionsMap, k, g)
    ensures FoldersFound(definitionsMap, k, remaining - {g}, folders + [g])
  {
  }

  lemma FoldersCoveredExtend(definitionsMap: map<string, seq<Definition>>, k: string, all: set<GameFolder>,
                             remaining: set<GameFolder>, folders: seq<GameFolder>, g: GameFolder)
    requires FoldersCovered(definitionsMap, k, all, remaining, folders)
    ensures FoldersCovered(definitionsMap, k, all, remaining - {g}, folders + [g])
  {
    forall g' | g' in all && g' !in remaining - {g} && IsNameConflict(definitionsMap, k, g') ensures g' in folders + [g] {
      if g' != g {
        assert g' in folders;
      }
    }
  }

  lemma FoldersCoveredSkip(definitionsMap: map<string, seq<Definition>>, k: string, all: set<GameFolder>,
                           remaining: set<GameFolder>, folders: seq<GameFolder>, g: GameFolder)
    requires FoldersCovered(definitionsMap, k, all, remaining, folders) && !IsNameConflict(definitionsMap, k, g)
    ensures FoldersCovered(definitionsMap, k, all, remaining - {g}, folders)
  {
  }

  lemma FolderAlertsExtend(definitionsMap: map<string, seq<Definition>>, k: string, folders: seq<GameFolder>, alerts: seq<Alert>,
                           g: GameFolder, a: Alert)
    requires FolderAlerts(definitionsMap, k, folders, alerts) && IsNameConflictAlert(definitionsMap, k, g, a)
    ensures FolderAlerts(definitionsMap, k, folders + [g], alerts + [a])
  {
    forall i | 0 <= i < |folders| + 1 ensures IsNameConflictAlert(definitionsMap, k, (folders + [g])[i], (alerts + [a])[i]) {
      if i < |folders| {
        assert (folders + [g])[i] == folders[i] && (alerts + [a])[i] == alerts[i];
      }
    }
  }

  /** Once no folder of the name's definitions remains, the conflicting folders are all found. */
  lemma FoldersFinished(definitionsMap: map<string, seq<Definition>>, k: string, folders: seq<GameFolder>, alerts: seq<Alert>)
    requires k in definitionsMap
    requires FoldersOutside(definitionsMap, k, set d | d in definitionsMap[k] :: d.GameFolderOf(), {}, folders, alerts)
    ensures forall g :: IsNameConflict(definitionsMap, k, g) ==> g in folders
  {
    forall g | IsNameConflict(definitionsMap, k, g) ensures g in folders {
      NameConflictFolderOccurs(definitionsMap, k, g);
    }
  }

  /** The (name, folder) pairs of one name's conflicting folders. */
  function Pairs(k: string, folders: seq<GameFolder>): (r: seq<(string, GameFolder)>)
    ensures |r| == |folders|
    ensures forall i :: 0 <= i < |r| ==> r[i] == (k, folders[i])
  {
    if folders == [] then [] else [(k, folders[0])] + Pairs(k, folders[1..])
  }

  /**
   * `findDefinitionConflicts`: one alert per conflicting (name, folder) pair,
   * each pair once, in the unspecified order of the map's entries and of
   * each name's set of folders. A conflicting folder always holds one of the
   * name's definitions, so the pairs are all the conflicts.
   */
  ghost predicate NameConflicts(definitionsMap: map<string, seq<Definition>>, groups: seq<(string, GameFolder)>, alerts: seq<Alert>)
  {
    (forall i, j :: 0 <= i < j < |groups| ==> groups[i] != groups[j]) &&
    (forall i :: 0 <= i < |groups| ==> IsNameConflict(definitionsMap, groups[i].0, groups[i].1)) &&
    (forall k, d :: k in definitionsMap && d in definitionsMap[k] && IsNameConflict(definitionsMap, k, d.GameFolderOf()) ==>
                    (k, d.GameFolderOf()) in groups) &&
    |alerts| == |groups| &&
    forall i :: 0 <= i < |groups| ==> IsNameConflictAlert(definitionsMap, groups[i].0, groups[i].1, alerts[i])
  }

  /** The pairs are distinct, and each is a conflict whose name is no longer remaining. */
  ghost predicate GroupsOutside(definitionsMap: map<string, seq<Definition>>, remaining: set<string>, groups: seq<(string, GameFolder)>)
  {
    (forall i, j :: 0 <= i < j < |groups| ==> groups[i] != groups[j]) &&
    (forall i :: 0 <= i < |groups| ==> groups[i].0 !in remaining && IsNameConflict(definitionsMap, groups[i].0, groups[i].1))
  }

  /** Every conflict of a name no longer remaining is among the pairs. */
  ghost predicate CoveredOutside(definitionsMap: map<string, seq<Definition>>, remaining: set<string>, groups: seq<(string, GameFolder)>)
  {
    forall k, d :: k in definitionsMap && k !in remaining && d in definitionsMap[k] && IsNameConflict(definitionsMap, k, d.GameFolderOf()) ==>
                   (k, d.GameFolderOf()) in groups
  }

  /** Each pair comes with its alert. */
  ghost predicate AlertsFor(definitionsMap: map<string, seq<Definition>>, groups: seq<(string, GameFolder)>, alerts: seq<Alert>)
  {
    |alerts| == |groups| &&
    forall i :: 0 <= i < |groups| ==> IsNameConflictAlert(definitionsMap, groups[i].0, groups[i].1, alerts[i])
  }

  /**
   * The state of the loop of `findDefinitionConflicts` once the names outside
   * `remaining` are done: `NameConflicts` restricted to those names.
   */
  ghost predicate NameConflictsOutside(definitionsMap: map<string, seq<Definition>>, remaining: set<string>,
                                       groups: seq<(string, GameFolder)>, alerts: seq<Alert>)
  {
    GroupsOutside(definitionsMap, remaining, groups) && CoveredOutside(definitionsMap, remaining, groups) &&
    AlertsFor(definitionsMap, groups, alerts)
  }

  /** Appending the conflicting folders of one more name, and their alerts, keeps the loop's state. */
  lemma NameConflictsExtend(definitionsMap: map<string, seq<Definition>>, remaining: set<string>,
                            groups: seq<(string, GameFolder)>, alerts: seq<Alert>,
                            k: string, folders: seq<GameFolder>, found: seq<Alert>)
    requires NameConflictsOutside(definitionsMap, remaining, groups, alerts) && k in remaining
    requires forall i, j :: 0 <= i < j < |folders| ==> folders[i] != folders[j]
    requires forall i :: 0 <= i < |folders| ==> IsNameConflict(definitionsMap, k, folders[i])
    requires forall g :: IsNameConflict(definitionsMap, k, g) ==> g in folders
    requires |found| == |folders|
    requires forall i :: 0 <= i < |folders| ==> IsNameConflictAlert(definitionsMap, k, folders[i], found[i])
    ensures NameConflictsOutside(definitionsMap, remaining - {k}, groups + Pairs(k, folders), alerts + found)
  {
    GroupsExtend(definitionsMap, remaining, groups, k, folders);
    CoveredExtend(definitionsMap, remaining, groups, k, folders);
    AlertsExtend(definitionsMap, groups, alerts, k, folders, found);
  }

  lemma GroupsExtend(definitionsMap: map<string, seq<Definition>>, remaining: set<string>, groups: seq<(string, GameFolder)>,
                     k: string, folders: seq<GameFolder>)
    requires GroupsOutside(definitionsMap, remaining, groups) && k in remaining
    requires forall i, j :: 0 <= i < j < |folders| ==> folders[i] != folders[j]
    requires forall i :: 0 <= i < |folders| ==> IsNameConflict(definitionsMap, k, folders[i])
    ensures GroupsOutside(definitionsMap, remaining - {k}, groups + Pairs(k, folders))
  {
    var groups' := groups + Pairs(k, folders);
    forall i, j | 0 <= i < j < |groups'| ensures groups'[i] != groups'[j] {
      if j >= |groups| && i < |groups| {
        assert groups'[j].0 == k && groups[i].0 !in remaining;
      }
    }
  }

  lemma CoveredExtend(definitionsMap: map<string, seq<Definition>>, remaining: set<string>, groups: seq<(string, GameFolder)>,
                      k: string, folders: seq<GameFolder>)
    requires CoveredOutside(definitionsMap, remaining, groups)
    requires forall g :: IsNameConflict(definitionsMap, k, g) ==> g in folders
    ensures CoveredOutside(definitionsMap, remaining - {k}, groups + Pairs(k, folders))
  {
    var groups' := groups + Pairs(k, folders);
    forall k', d | k' in definitionsMap && k' !in remaining - {k} && d in definitionsMap[k'] && IsNameConflict(definitionsMap, k', d.GameFolderOf())
      ensures (k', d.GameFolderOf()) in groups'
    {
      if k' == k {
        var i :| 0 <= i < |folders| && folders[i] == d.GameFolderOf();
        assert groups'[|groups| + i] == (k, folders[i]);
      }
    }
  }

  lemma AlertsExtend(definitionsMap: map<string, seq<Definition>>, groups: seq<(string, GameFolder)>, alerts: seq<Alert>,
                     k: string, folders: seq<GameFolder>, found: seq<Alert>)
    requires AlertsFor(definitionsMap, groups, alerts) && |found| == |folders|
    requires forall i :: 0 <= i < |folders| ==> IsNameConflictAlert(definitionsMap, k, folders[i], found[i])
    ensures AlertsFor(definitionsMap, groups + Pairs(k, folders), alerts + found)
  {
    var groups' := groups + Pairs(k, folders);
    var alerts' := alerts + found;
    forall i | 0 <= i < |groups'|
      ensures IsNameConflictAlert(definitionsMap, groups'[i].0, groups'[i].1, alerts'[i])
    {
      if i >= |groups| {
        assert groups'[i] == (k, folders[i - |groups|]) && alerts'[i] == found[i - |groups|];
      }
    }
  }

  /** Once no name remains, the loop's state is `findDefinitionConflicts`' result. */
  lemma NameConflictsFinished(definitionsMap: map<string, seq<Definition>>, groups: seq<(string, GameFolder)>, alerts: seq<Alert>)
    requires NameConflictsOutside(definitionsMap, {}, groups, alerts)
    ensures NameConflicts(definitionsMap, groups, alerts)
  {
  }
}
