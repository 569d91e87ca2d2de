/**
 * The list of loaded mods and the conflict check run over it (ModList.java).
 * Each stage of `runConflictCheck` fills one or two fields of the list; each
 * method here requires the fields of the stages before it to hold their
 * specified values and leaves its own fields holding theirs, so the order of
 * the stages is part of the contract.
 */
module ModLists {
  import opened Wrappers
  import opened Severities
  import opened MergeBehaviours
  import opened Entities
  import opened Alerts
  import opened DependencyGraph
  import opened Util
  import opened ModListSpec
  import opened ShadowingSpec
  import opened ConflictSpec

  /*
   * The specifications of the stages read only the loaded mods: while those
   * are unchanged, so are their values.
   */

  twostate lemma DependenciesUnchanged(mods: seq<Mod>)
    requires unchanged(set m | m in mods)
    ensures AllValid(mods) == old(AllValid(mods))
    ensures TrueDependencies(mods) == old(TrueDependencies(mods)) && DependerMap(mods) == old(DependerMap(mods))
  {
  }

  twostate lemma FilesUnchanged(mods: seq<Mod>)
    requires unchanged(set m | m in mods)
    ensures FileToMods(mods) == old(FileToMods(mods))
    ensures LoadedShadowSets(mods) == old(LoadedShadowSets(mods)) && AllFiles(mods) == old(AllFiles(mods))
  {
  }

  twostate lemma DefinitionsUnchanged(mods: seq<Mod>)
    requires unchanged(set m | m in mods)
    ensures LoadedShadowers(mods) == old(LoadedShadowers(mods)) && AllDefinitions(mods) == old(AllDefinitions(mods))
    ensures Undefined(mods) == old(Undefined(mods))
  {
  }

  class ModList {
    const mods: seq<Mod>
    const vanilla: Mod
    var trueDependencies: map<Mod, set<Mod>>
    var dependerMap: map<Mod, set<Mod>>
    var unShadowedFiles: set<ModFile>
    var shadowingFiles: map<ModFile, set<ModFile>>
    var unShadowedDefinitions: set<Definition>
    var shadowingDefinitions: map<Definition, set<Definition>>
    var fileToModsMap: map<string, seq<Mod>>
    var definitionsMap: map<string, seq<Definition>>

    /** Vanilla comes first, and every mod keeps its registration invariant. */
    ghost predicate Valid()
      reads mods
    {
      |mods| > 0 && mods[0] == vanilla && AllValid(mods)
    }

    /**
     * `getMods`: a vanilla mod named after the game, with no dependencies,
     * comes first; every loaded mod follows in settings order and gets
     * vanilla's name appended to its dependency names.
     */
    constructor (gameName: string, loaded: seq<Mod>)
      requires forall i, j :: 0 <= i < j < |loaded| ==> loaded[i] != loaded[j]
      requires forall m :: m in loaded ==> m.Valid()
      modifies set m | m in loaded
      ensures Valid()
      ensures fresh(vanilla) && vanilla.name == "(Vanilla) " + gameName && vanilla.dependencies == []
      ensures vanilla.files == {} && vanilla.definitions == []
      ensures mods == [vanilla] + loaded
      ensures forall m :: m in loaded ==> m.dependencies == old(m.dependencies) + [vanilla.name]
      ensures forall m :: m in loaded ==> m.files == old(m.files) && m.modFileMap == old(m.modFileMap) && m.definitions == old(m.definitions)
    {
      var v := new Mod("(Vanilla) " + gameName, []);
      vanilla := v;
      mods := [v] + loaded;
      new;
      for i := 0 to |loaded|
        invariant forall j :: 0 <= j < i ==> loaded[j].dependencies == old(loaded[j].dependencies) + [v.name]
        invariant forall j :: i <= j < |loaded| ==> loaded[j].dependencies == old(loaded[j].dependencies)
        invariant forall m :: m in loaded ==> m.files == old(m.files) && m.modFileMap == old(m.modFileMap) && m.definitions == old(m.definitions)
        invariant forall m :: m in loaded ==> m.Valid()
        invariant v.name == "(Vanilla) " + gameName && v.dependencies == [] && v.files == {} && v.definitions == [] && v.Valid()
      {
        loaded[i].AddDependency(v.name);
      }
    }

    /**
     * `runConflictCheck`: the stages in their order, each over the fields the
     * stages before it filled. The alerts are the parse errors, then the
     * UNDEFINE alerts, then the FILE_CONFLICT alerts, then the NAME_CONFLICT
     * alerts; the ghost results name each part and what it was raised for.
     */
    method RunConflictCheck(parseAlerts: seq<Alert>)
      returns (alerts: seq<Alert>, ghost undefine: seq<Alert>, ghost fileConflicts: seq<Alert>, ghost keys: seq<string>,
               ghost nameConflicts: seq<Alert>, ghost groups: seq<(string, GameFolder)>)
      requires Valid()
      modifies this`trueDependencies, this`dependerMap, this`fileToModsMap, this`unShadowedFiles, this`shadowingFiles
      modifies this`unShadowedDefinitions, this`shadowingDefinitions, this`definitionsMap
      ensures alerts == parseAlerts + undefine + fileConflicts + nameConflicts
      ensures trueDependencies == old(TrueDependencies(mods)) && dependerMap == old(DependerMap(mods))
      ensures fileToModsMap == old(FileToMods(mods))
      ensures FileShadowing(old(LoadedShadowSets(mods)), old(AllFiles(mods)), unShadowedFiles, shadowingFiles)
      ensures DefinitionShadowing(old(LoadedShadowSets(mods)), old(LoadedShadowers(mods)), old(AllDefinitions(mods)),
                                  unShadowedDefinitions, shadowingDefinitions)
      ensures UndefineAlerts(old(LoadedShadowSets(mods)), old(Undefined(mods)), undefine)
      ensures DefinitionsMapOf(unShadowedDefinitions, definitionsMap)
      ensures FileConflicts(mods, trueDependencies, vanilla, fileToModsMap, keys, fileConflicts)
      ensures NameConflicts(definitionsMap, groups, nameConflicts)
    {
      DependencyStages();
      ghost var resolved, dependers := trueDependencies, dependerMap;
      DependenciesUnchanged(mods);
      FilesUnchanged(mods);
      DefinitionsUnchanged(mods);
      alerts, undefine, fileConflicts, keys, nameConflicts, groups := LaterStages(parseAlerts);
      assert trueDependencies == resolved && dependerMap == dependers;
    }

    /** The stages of `runConflictCheck` after the dependers: shadowing, then the two conflict searches. */
    method LaterStages(parseAlerts: seq<Alert>)
      returns (alerts: seq<Alert>, ghost undefine: seq<Alert>, ghost fileConflicts: seq<Alert>, ghost keys: seq<string>,
               ghost nameConflicts: seq<Alert>, ghost groups: seq<(string, GameFolder)>)
      requires AllValid(mods) && dependerMap == DependerMap(mods)
      modifies this`fileToModsMap, this`unShadowedFiles, this`shadowingFiles
      modifies this`unShadowedDefinitions, this`shadowingDefinitions, this`definitionsMap
      ensures alerts == parseAlerts + undefine + fileConflicts + nameConflicts
      ensures fileToModsMap == old(FileToMods(mods))
      ensures FileShadowing(old(LoadedShadowSets(mods)), old(AllFiles(mods)), unShadowedFiles, shadowingFiles)
      ensures DefinitionShadowing(old(LoadedShadowSets(mods)), old(LoadedShadowers(mods)), old(AllDefinitions(mods)),
                                  unShadowedDefinitions, shadowingDefinitions)
      ensures UndefineAlerts(old(LoadedShadowSets(mods)), old(Undefined(mods)), undefine)
      ensures DefinitionsMapOf(unShadowedDefinitions, definitionsMap)
      ensures FileConflicts(mods, trueDependencies, vanilla, fileToModsMap, keys, fileConflicts)
      ensures NameConflicts(definitionsMap, groups, nameConflicts)
    {
      var undefineAlerts := ShadowingStages();
      ghost var fileToMods, files, fileShadowers := fileToModsMap, unShadowedFiles, shadowingFiles;
      ghost var definitions, definitionShadowers := unShadowedDefinitions, shadowingDefinitions;
      var fileAlerts, nameAlerts;
      fileAlerts, keys, nameAlerts, groups := ConflictStages();
      assert fileToModsMap == fileToMods && unShadowedFiles == files && shadowingFiles == fileShadowers;
      assert unShadowedDefinitions == definitions && shadowingDefinitions == definitionShadowers;
      alerts := parseAlerts + undefineAlerts + fileAlerts + nameAlerts;
      undefine, fileConflicts, nameConflicts := undefineAlerts, fileAlerts, nameAlerts;
    }

    /** The first stages of `runConflictCheck`: true dependencies, then dependers. */
    method DependencyStages()
      requires Valid()
      modifies this`trueDependencies, this`dependerMap
      ensures trueDependencies == old(TrueDependencies(mods)) && dependerMap == old(DependerMap(mods))
    {
      ResolveTrueDependencies();
      label Resolved:
      ghost var resolved := trueDependencies;
      ComputeDependerMap();
      assert trueDependencies == resolved;
      DependenciesUnchanged(mods);
      DependenciesUnchanged@Resolved(mods);
    }

    /** The stages of `runConflictCheck` from the multi-map of file keys to the shadowing of definitions. */
    method ShadowingStages() returns (undefine: seq<Alert>)
      requires AllValid(mods) && dependerMap == DependerMap(mods)
      modifies this`fileToModsMap, this`unShadowedFiles, this`shadowingFiles, this`unShadowedDefinitions, this`shadowingDefinitions
      ensures fileToModsMap == old(FileToMods(mods)) && Registered(mods, fileToModsMap)
      ensures FileShadowing(old(LoadedShadowSets(mods)), old(AllFiles(mods)), unShadowedFiles, shadowingFiles)
      ensures DefinitionShadowing(old(LoadedShadowSets(mods)), old(LoadedShadowers(mods)), old(AllDefinitions(mods)),
                                  unShadowedDefinitions, shadowingDefinitions)
      ensures UndefineAlerts(old(LoadedShadowSets(mods)), old(Undefined(mods)), undefine)
    {
      fileToModsMap := GetFileToModsMap();
      DependenciesUnchanged(mods);
      FilesUnchanged(mods);
      DefinitionsUnchanged(mods);
      ghost var fileToMods := fileToModsMap;
      ComputeFileShadowing();
      assert fileToModsMap == fileToMods;
      DependenciesUnchanged(mods);
      FilesUnchanged(mods);
      DefinitionsUnchanged(mods);
      ghost var files, fileShadowers := unShadowedFiles, shadowingFiles;
      undefine := ComputeDefinitionShadowing(LoadedShadowSets(mods), LoadedShadowers(mods));
      assert fileToModsMap == fileToMods && unShadowedFiles == files && shadowingFiles == fileShadowers;
      DependenciesUnchanged(mods);
      FilesUnchanged(mods);
      FileToModsRegistered(mods);
    }

    /** The stages of `runConflictCheck` from the map of definitions by name to the two conflict searches. */
    method ConflictStages() returns (fileConflicts: seq<Alert>, ghost keys: seq<string>, nameConflicts: seq<Alert>,
                                     ghost groups: seq<(string, GameFolder)>)
      requires Registered(mods, fileToModsMap)
      modifies this`definitionsMap
      ensures DefinitionsMapOf(unShadowedDefinitions, definitionsMap)
      ensures FileConflicts(mods, trueDependencies, vanilla, fileToModsMap, keys, fileConflicts)
      ensures NameConflicts(definitionsMap, groups, nameConflicts)
    {
      ghost var order;
      definitionsMap, order := GetDefinitionsMap();
      fileConflicts, keys := FindFileNameConflicts();
      nameConflicts, groups := FindDefinitionConflicts();
    }

    /** `resolveTrueDependencies`: one breadth-first search per loaded mod, keyed by that mod. */
    method ResolveTrueDependencies()
      requires Valid()
      modifies this`trueDependencies
      ensures trueDependencies == TrueDependencies(mods)
    {
      var modsByName := MapBy(mods, (m: Mod) => m.name);
      ByNameWellFormed(mods);
      var resolved := map[];
      for i := 0 to |mods|
        modifies {}
        invariant forall m :: m in resolved <==> m in mods[..i]
        invariant forall m :: m in resolved ==> resolved[m] == TrueDeps(mods, m)
      {
        var encountered := SearchFrom(modsByName, mods, mods[i]);
        resolved := resolved[mods[i] := encountered];
      }
      assert mods[..|mods|] == mods;
      trueDependencies := resolved;
    }

    /** `isTrueDependency`: once dependencies are resolved, exactly the true-dependency relation of the loaded mods. */
    function IsTrueDependency(dependerMod: Mod, dependeeMod: Mod): (r: bool)
      reads this, mods
      ensures trueDependencies == TrueDependencies(mods) ==> (r <==> DependsOn(mods, dependerMod, dependeeMod))
    {
      dependerMod in trueDependencies && dependeeMod in trueDependencies[dependerMod]
    }

    /** `computeDependerMap`: for each loaded mod, the other loaded mods that depend on it, when there are any. */
    method ComputeDependerMap()
      requires trueDependencies == TrueDependencies(mods)
      modifies this`dependerMap
      ensures dependerMap == DependerMap(mods)
    {
      var result := map[];
      for i := 0 to |mods|
        modifies {}
        invariant result == DependerMapUpTo(mods, i)
      {
        var mod := mods[i];
        var dependers := DependersOf(mod);
        if dependers != {} {
          result := result[mod := dependers];
        }
      }
      dependerMap := result;
    }

    /** The inner loop of `computeDependerMap`: the other loaded mods whose true dependencies hold `mod`. */
    method DependersOf(mod: Mod) returns (dependers: set<Mod>)
      requires trueDependencies == TrueDependencies(mods)
      ensures dependers == Dependers(mods, mod)
    {
      dependers := {};
      for j := 0 to |mods|
        invariant forall m :: m in dependers <==> m in mods[..j] && m != mod && DependsOn(mods, m, mod)
      {
        var mod1 := mods[j];
        if mod != mod1 && IsTrueDependency(mod1, mod) {
          dependers := dependers + {mod1};
        }
      }
      assert mods[..|mods|] == mods;
    }

    /**
     * `computeFileShadowing`: a file whose mod has no dependers, or none of
     * whose dependers registers a file under its name key, is unshadowed; any
     * other file is mapped to the files registered under its key by its dependers.
     */
    method ComputeFileShadowing()
      requires dependerMap == DependerMap(mods)
      modifies this`unShadowedFiles, this`shadowingFiles
      ensures FileShadowing(old(LoadedShadowSets(mods)), old(AllFiles(mods)), unShadowedFiles, shadowingFiles)
    {
      unShadowedFiles, shadowingFiles := ShadowFiles(LoadedShadowSets(mods), AllFiles(mods));
    }

    /** The loops of `computeFileShadowing`, mod by mod in load order. */
    method ShadowFiles(ghost sets: map<ModFile, set<ModFile>>, ghost all: set<ModFile>)
      returns (unShadowed: set<ModFile>, shadowing: map<ModFile, set<ModFile>>)
      requires dependerMap == DependerMap(mods) && sets == LoadedShadowSets(mods) && all == AllFiles(mods)
      ensures FileShadowing(sets, all, unShadowed, shadowing)
    {
      unShadowed, shadowing := {}, map[];
      for i := 0 to |mods|
        invariant FileShadowing(sets, FilesUpTo(mods, i), unShadowed, shadowing)
      {
        LoadedFiles(mods, i);
        unShadowed, shadowing := ShadowFilesOf(mods[i], sets, unShadowed, shadowing, FilesUpTo(mods, i));
      }
    }

    /** The loop of `computeFileShadowing` over one mod's files, in the hash set's order. */
    method ShadowFilesOf(mod: Mod, ghost sets: map<ModFile, set<ModFile>>, unShadowed: set<ModFile>, shadowing: map<ModFile, set<ModFile>>,
                         ghost done: set<ModFile>)
      returns (unShadowed': set<ModFile>, shadowing': map<ModFile, set<ModFile>>)
      requires forall f :: f in mod.files ==> f in sets && sets[f] == ShadowSet(dependerMap, f)
      requires FileShadowing(sets, done, unShadowed, shadowing)
      ensures FileShadowing(sets, done + mod.files, unShadowed', shadowing')
    {
      unShadowed', shadowing' := unShadowed, shadowing;
      var remaining := mod.files;
      ghost var processed := done;
      while remaining != {}
        invariant remaining <= mod.files
        invariant processed == done + (mod.files - remaining)
        invariant FileShadowing(sets, processed, unShadowed', shadowing')
        decreases |remaining|
      {
        var file :| file in remaining;
        remaining := remaining - {file};
        var fileSet := if file.mod in dependerMap then FilesUnder(dependerMap[file.mod], file.name) else {};
        AddFile(sets, processed, unShadowed', shadowing', file, fileSet);
        if fileSet == {} {
          unShadowed' := unShadowed' + {file};
        } else {
          shadowing' := shadowing'[file := fileSet];
        }
        processed := processed + {file};
      }
    }

    /**
     * `computeDefinitionShadowing`: a definition whose file is not overwritten
     * is unshadowed; one whose file is overwritten is mapped to the equivalent
     * definitions of its mod's dependers, or, when there are none, was deleted
     * by the overwriting files and gets an UNDEFINE alert. `sets` and
     * `shadowers` name the overwriting files and definitions of the loaded mods.
     */
    method ComputeDefinitionShadowing(ghost sets: map<ModFile, set<ModFile>>, ghost shadowers: map<Definition, set<Definition>>)
      returns (alerts: seq<Alert>)
      requires AllValid(mods) && dependerMap == DependerMap(mods)
      requires sets == LoadedShadowSets(mods) && shadowers == LoadedShadowers(mods)
      requires FileShadowing(sets, AllFiles(mods), unShadowedFiles, shadowingFiles)
      modifies this`unShadowedDefinitions, this`shadowingDefinitions
      ensures DefinitionShadowing(sets, shadowers, old(AllDefinitions(mods)), unShadowedDefinitions, shadowingDefinitions)
      ensures UndefineAlerts(sets, old(Undefined(mods)), alerts)
    {
      unShadowedDefinitions, shadowingDefinitions, alerts := ShadowAllDefinitions(sets, shadowers, AllDefinitions(mods), Undefined(mods));
    }

    /** The work of `computeDefinitionShadowing`, stated over snapshots of the loaded definitions and the undefined ones. */
    method ShadowAllDefinitions(ghost sets: map<ModFile, set<ModFile>>, ghost shadowers: map<Definition, set<Definition>>,
                                ghost all: set<Definition>, ghost undefined: seq<Definition>)
      returns (unShadowed: set<Definition>, shadowing: map<Definition, set<Definition>>, alerts: seq<Alert>)
      requires AllValid(mods) && dependerMap == DependerMap(mods)
      requires sets == LoadedShadowSets(mods) && shadowers == LoadedShadowers(mods)
      requires all == AllDefinitions(mods) && undefined == Undefined(mods)
      requires FileShadowing(sets, AllFiles(mods), unShadowedFiles, shadowingFiles)
      ensures DefinitionShadowing(sets, shadowers, all, unShadowed, shadowing)
      ensures UndefineAlerts(sets, undefined, alerts)
    {
      ghost var lists, candidates := DefinitionLists(mods), CandidateLists(mods, dependerMap);
      ShadowingSetup(mods, dependerMap, sets, shadowers, lists, candidates, unShadowedFiles, shadowingFiles);
      unShadowed, shadowing, alerts := ShadowDefinitions(sets, shadowers, lists, candidates);
    }

    /** The loop of `computeDefinitionShadowing` over the mods, in load order. */
    method ShadowDefinitions(ghost sets: map<ModFile, set<ModFile>>, ghost shadowers: map<Definition, set<Definition>>,
                             ghost lists: seq<seq<Definition>>, ghost candidates: seq<set<Definition>>)
      returns (unShadowed: set<Definition>, shadowing: map<Definition, set<Definition>>, alerts: seq<Alert>)
      requires |lists| == |mods| && forall k :: 0 <= k < |mods| ==> lists[k] == mods[k].definitions
      requires |candidates| == |mods|
      requires forall k :: 0 <= k < |mods| && mods[k] in dependerMap ==> candidates[k] == DefinitionsOf(dependerMap[mods[k]])
      requires forall k :: 0 <= k < |mods| ==> Covered(sets, shadowers, lists[k], candidates[k], mods[k] in dependerMap)
      requires forall f :: f in sets ==> Lookup(shadowingFiles, f) == sets[f]
      ensures DefinitionShadowing(sets, shadowers, UnionUpTo(lists, |lists|), unShadowed, shadowing)
      ensures UndefineAlerts(sets, UndefinedUpTo(lists, sets, shadowers, |lists|), alerts)
    {
      unShadowed, shadowing, alerts := {}, map[], [];
      for i := 0 to |mods|
        invariant DefinitionShadowing(sets, shadowers, UnionUpTo(lists, i), unShadowed, shadowing)
        invariant UndefineAlerts(sets, UndefinedUpTo(lists, sets, shadowers, i), alerts)
      {
        var mod := mods[i];
        var defs := mod.definitions;
        assert Covered(sets, shadowers, defs, candidates[i], mod in dependerMap);
        if mod in dependerMap {
          assert DefinitionsOf(dependerMap[mod]) == candidates[i];
          unShadowed, shadowing, alerts :=
            ShadowDependeeDefinitions(mod, defs, sets, shadowers, unShadowed, shadowing, alerts,
                                      UnionUpTo(lists, i), UndefinedUpTo(lists, sets, shadowers, i));
        } else {
          NoneUndefined(sets, shadowers, defs);
          AddUnShadowedDefinitions(sets, shadowers, UnionUpTo(lists, i), unShadowed, shadowing, defs);
          unShadowed := unShadowed + Elements(defs);
          assert UndefinedUpTo(lists, sets, shadowers, i) + [] == UndefinedUpTo(lists, sets, shadowers, i);
        }
      }
    }

    /**
     * The loop over the definitions of a mod that has dependers. The stream
     * of its dependers' definitions is the same for every one of them, so it
     * is flattened once.
     */
    method ShadowDependeeDefinitions(mod: Mod, defs: seq<Definition>, ghost sets: map<ModFile, set<ModFile>>,
                                     ghost shadowers: map<Definition, set<Definition>>,
                                     unShadowed: set<Definition>, shadowing: map<Definition, set<Definition>>, alerts: seq<Alert>,
                                     ghost done: set<Definition>, ghost undefined: seq<Definition>)
      returns (unShadowed': set<Definition>, shadowing': map<Definition, set<Definition>>, alerts': seq<Alert>)
      requires mod in dependerMap && Covered(sets, shadowers, defs, DefinitionsOf(dependerMap[mod]), true)
      requires forall f :: f in sets ==> Lookup(shadowingFiles, f) == sets[f]
      requires DefinitionShadowing(sets, shadowers, done, unShadowed, shadowing)
      requires UndefineAlerts(sets, undefined, alerts)
      ensures DefinitionShadowing(sets, shadowers, done + Elements(defs), unShadowed', shadowing')
      ensures UndefineAlerts(sets, undefined + UndefinedIn(sets, shadowers, defs), alerts')
    {
      var flattened := DefinitionsOf(dependerMap[mod]);
      unShadowed', shadowing', alerts' := unShadowed, shadowing, alerts;
      assert defs[..0] == [] && undefined + [] == undefined && done + {} == done;
      assert Covered(sets, shadowers, defs, flattened, true);
      for j := 0 to |defs|
        invariant DefinitionShadowing(sets, shadowers, done + Elements(defs[..j]), unShadowed', shadowing')
        invariant UndefineAlerts(sets, undefined + UndefinedIn(sets, shadowers, defs[..j]), alerts')
      {
        ElementsStep(defs, j);
        UndefinedInStep(sets, shadowers, undefined, defs, j);
        unShadowed', shadowing', alerts' :=
          ShadowDefinition(defs[j], flattened, sets, shadowers, unShadowed', shadowing', alerts', done + Elements(defs[..j]),
                           undefined + UndefinedIn(sets, shadowers, defs[..j]));
      }
      assert defs[..|defs|] == defs;
    }

    /** The body of the loop over one mod's definitions: d is unshadowed, shadowed, or undefined with an alert. */
    method ShadowDefinition(d: Definition, flattened: set<Definition>, ghost sets: map<ModFile, set<ModFile>>,
                            ghost shadowers: map<Definition, set<Definition>>,
                            unShadowed: set<Definition>, shadowing: map<Definition, set<Definition>>,
                            alerts: seq<Alert>, ghost done: set<Definition>, ghost undefined: seq<Definition>)
      returns (unShadowed': set<Definition>, shadowing': map<Definition, set<Definition>>, alerts': seq<Alert>)
      requires forall f :: f in sets ==> Lookup(shadowingFiles, f) == sets[f]
      requires d.file in sets && d in shadowers && shadowers[d] == EquivalentsAmong(flattened, d)
      requires DefinitionShadowing(sets, shadowers, done, unShadowed, shadowing)
      requires UndefineAlerts(sets, undefined, alerts)
      ensures DefinitionShadowing(sets, shadowers, done + {d}, unShadowed', shadowing')
      ensures UndefineAlerts(sets, undefined + (if IsUndefined(sets, shadowers, d) then [d] else []), alerts')
    {
      unShadowed', shadowing', alerts' := unShadowed, shadowing, alerts;
      if d.file !in shadowingFiles || shadowingFiles[d.file] == {} {
        AddUnShadowedDefinition(sets, shadowers, done, unShadowed, shadowing, d);
        unShadowed' := unShadowed + {d};
        assert undefined + [] == undefined;
      } else {
        var fileSet := shadowingFiles[d.file];
        var definitionSet := EquivalentsAmong(flattened, d);
        if definitionSet == {} {
          var alert := UndefineAlert(d, fileSet);
          AddUndefinedDefinition(sets, shadowers, done, unShadowed, shadowing, d);
          UndefineAlertsSnoc(sets, undefined, alerts, d, alert);
          alerts' := alerts + [alert];
        } else {
          AddShadowedDefinition(sets, shadowers, done, unShadowed, shadowing, d);
          shadowing' := shadowing[d := definitionSet];
          assert undefined + [] == undefined;
        }
      }
    }

    /** The UNDEFINE alert of `computeDefinitionShadowing` for d over its file and the files overwriting it. */
    method UndefineAlert(d: Definition, fileSet: set<ModFile>) returns (alert: Alert)
      ensures alert.severity == Warning && alert.kind == Undefine && alert.gameFolder == d.GameFolderOf()
      ensures Sorted(alert.files) && multiset(alert.files) == multiset{d.file} + multiset(fileSet)
      ensures alert.definitionName == Some(d.name)
      ensures alert.message == UndefineMessageHead + d.GameFolderOf().name + UndefineMessageMiddle + d.name + UndefineMessageTail
    {
      var rest := SetToSeq(fileSet);
      var modFiles := [d.file] + rest;
      alert := NewAlert(Warning, Undefine, d.GameFolderOf(), modFiles, Some(d.name),
                        UndefineMessageHead + d.GameFolderOf().name + UndefineMessageMiddle + d.name + UndefineMessageTail);
      NewAlertFiles(Warning, Undefine, d.GameFolderOf(), modFiles, Some(d.name),
                    UndefineMessageHead + d.GameFolderOf().name + UndefineMessageMiddle + d.name + UndefineMessageTail);
    }

    /** `getFileToModsMap`: mod by mod in load order, each file adds its mod to the list of its name key. */
    method GetFileToModsMap() returns (fileToMods: map<string, seq<Mod>>)
      ensures fileToMods == FileToMods(mods)
    {
      fileToMods := map[];
      var loaded := mods;
      for i := 0 to |loaded|
        invariant forall k :: Get(fileToMods, k) == ModsWithKey(loaded[..i], k)
        invariant forall k :: k in fileToMods ==> fileToMods[k] != []
      {
        var next := AddModFiles(fileToMods, loaded[i]);
        ModsWithKeyAdd(loaded, i, fileToMods, next);
        fileToMods := next;
      }
      assert loaded[..|loaded|] == loaded;
      FileToModsByKeys(loaded, fileToMods);
    }

    /** The inner loop of `getFileToModsMap` over one mod's files, in the hash set's order. */
    method AddModFiles(fileToMods: map<string, seq<Mod>>, mod: Mod) returns (fileToMods': map<string, seq<Mod>>)
      requires forall k :: k in fileToMods ==> fileToMods[k] != []
      ensures forall k :: Get(fileToMods', k) == Get(fileToMods, k) + Repeat(mod, |FilesNamed(mod, k)|)
      ensures forall k :: k in fileToMods' ==> fileToMods'[k] != []
    {
      fileToMods' := fileToMods;
      var remaining := mod.files;
      ghost var processed: set<ModFile> := {};
      while remaining != {}
        invariant remaining <= mod.files && processed == mod.files - remaining
        invariant forall k :: Get(fileToMods', k) == Get(fileToMods, k) + Repeat(mod, |Named(processed, k)|)
        invariant forall k :: k in fileToMods' ==> fileToMods'[k] != []
        decreases |remaining|
      {
        var file :| file in remaining;
        remaining := remaining - {file};
        NamedStep(processed, file);
        var list := if file.name in fileToMods' then fileToMods'[file.name] else [];
        fileToMods' := fileToMods'[file.name := list + [mod]];
        processed := processed + {file};
      }
      assert processed == mod.files;
    }

    /**
     * `cleanConflictList`: marks, in a boolean array, each entry other than
     * vanilla that another entry truly depends on, then keeps the unmarked
     * entries in order.
     */
    method CleanConflictList(conflictedMods: seq<Mod>) returns (dirtyMods: seq<Mod>)
      ensures dirtyMods == Cleaned(trueDependencies, vanilla, conflictedMods)
    {
      var n := |conflictedMods|;
      var clean := new bool[n](_ => false);
      for i := 0 to n
        invariant forall i' :: 0 <= i' < i ==> clean[i'] == Removed(trueDependencies, vanilla, conflictedMods, i')
        invariant forall i' :: i <= i' < n ==> !clean[i']
      {
        if conflictedMods[i] != vanilla {
          for j := 0 to n
            invariant forall i' :: 0 <= i' < i ==> clean[i'] == Removed(trueDependencies, vanilla, conflictedMods, i')
            invariant forall i' :: i < i' < n ==> !clean[i']
            invariant clean[i] <==> exists j' :: 0 <= j' < j && j' != i && Depends(trueDependencies, conflictedMods[j'], conflictedMods[i])
          {
            if i != j && IsTrueDependency(conflictedMods[j], conflictedMods[i]) {
              clean[i] := true;
            }
          }
        }
      }
      dirtyMods := [];
      for i := 0 to n
        invariant dirtyMods == KeptUpTo(trueDependencies, vanilla, conflictedMods, i)
      {
        if !clean[i] {
          dirtyMods := dirtyMods + [conflictedMods[i]];
        }
      }
    }

    /**
     * `findFileNameConflicts`: for each key of the multi-map, in its entries'
     * order, a FILE_CONFLICT warning when the cleaned list of more than one
     * mod still has more than two mods, or more than one without vanilla.
     */
    method FindFileNameConflicts() returns (alerts: seq<Alert>, ghost keys: seq<string>)
      requires Registered(mods, fileToModsMap)
      ensures FileConflicts(mods, trueDependencies, vanilla, fileToModsMap, keys, alerts)
      ensures forall i :: 0 <= i < |alerts| ==>
                alerts[i].kind == FileConflict && alerts[i].severity == Warning && alerts[i].definitionName == None
    {
      alerts, keys := [], [];
      var remaining := fileToModsMap.Keys;
      while remaining != {}
        invariant remaining <= fileToModsMap.Keys
        invariant FileConflictsOutside(mods, trueDependencies, vanilla, fileToModsMap, remaining, keys, alerts)
        decreases |remaining|
      {
        var key :| key in remaining;
        var alert := FileNameConflict(key);
        FileConflictsExtend(mods, trueDependencies, vanilla, fileToModsMap, remaining, keys, alerts, key, alert);
        remaining := remaining - {key};
        if alert.Some? {
          alerts, keys := alerts + [alert.value], keys + [key];
        }
      }
      FileConflictsFinished(mods, trueDependencies, vanilla, fileToModsMap, keys, alerts);
      forall i | 0 <= i < |alerts|
        ensures alerts[i].kind == FileConflict && alerts[i].severity == Warning && alerts[i].definitionName == None
      {
        assert IsFileConflictAlert(mods, trueDependencies, vanilla, fileToModsMap, keys[i], alerts[i]);
      }
    }

    /** The body of the loop of `findFileNameConflicts` for one key of the multi-map. */
    method FileNameConflict(key: string) returns (alert: Option<Alert>)
      requires Registered(mods, fileToModsMap) && key in fileToModsMap
      ensures alert.Some? <==> IsFileConflict(trueDependencies, vanilla, fileToModsMap, key)
      ensures alert.Some? ==> IsFileConflictAlert(mods, trueDependencies, vanilla, fileToModsMap, key, alert.value)
    {
      alert := None;
      var group := fileToModsMap[key];
      if |group| > 1 {
        var conflicts := CleanConflictList(group);
        if |conflicts| > 2 || (vanilla !in conflicts && |conflicts| > 1) {
          CleanedGroupRegistered(mods, trueDependencies, vanilla, fileToModsMap, key);
          var modFiles := FilesOf(conflicts, key);
          alert := Some(NewAlert(Warning, FileConflict, modFiles[0].gameFolder, modFiles, None, FileConflictMessage));
        }
      }
    }

    /**
     * `getDefinitionsMap`: `multiMapBy` over the unshadowed definitions in
     * the hash set's order, keyed by name; `order` is that enumeration.
     */
    method GetDefinitionsMap() returns (definitions: map<string, seq<Definition>>, ghost order: seq<Definition>)
      ensures (forall d :: d in order <==> d in unShadowedDefinitions) && (forall i, j :: 0 <= i < j < |order| ==> order[i] != order[j])
      ensures definitions == MultiMapByFn(order, DefinitionName)
      ensures DefinitionsMapOf(unShadowedDefinitions, definitions)
    {
      var values := SetToSeq(unShadowedDefinitions);
      definitions := MultiMapBy(values, DefinitionName);
      DefinitionsMapOfEnumeration(unShadowedDefinitions, values);
      order := values;
    }

    /**
     * `findDefinitionConflicts`: for each name with more than one definition
     * and each folder among them, in their sets' orders, a NAME_CONFLICT
     * alert when the definitions in that folder raise one.
     */
    method FindDefinitionConflicts() returns (alerts: seq<Alert>, ghost groups: seq<(string, GameFolder)>)
      ensures NameConflicts(definitionsMap, groups, alerts)
      ensures forall i :: 0 <= i < |alerts| ==> alerts[i].kind == NameConflict && alerts[i].severity != Trivial
    {
      alerts, groups := [], [];
      var dm := definitionsMap;
      var remaining := dm.Keys;
      while remaining != {}
        invariant remaining <= dm.Keys
        invariant NameConflictsOutside(dm, remaining, groups, alerts)
        decreases |remaining|
      {
        var definitionName :| definitionName in remaining;
        var found := [];
        ghost var folders := [];
        if |dm[definitionName]| > 1 {
          found, folders := FindConflictsOfName(definitionName);
        }
        NameConflictsExtend(dm, remaining, groups, alerts, definitionName, folders, found);
        remaining := remaining - {definitionName};
        alerts, groups := alerts + found, groups + Pairs(definitionName, folders);
      }
      NameConflictsFinished(dm, groups, alerts);
      forall i | 0 <= i < |alerts| ensures alerts[i].kind == NameConflict && alerts[i].severity != Trivial {
        NameConflictAlertSpec(dm, groups[i].0, groups[i].1);
      }
    }

    /**
     * The loop of `findDefinitionConflicts` over the folders of one name's
     * definitions, in the set's order: the alerts raised, and their folders.
     */
    method FindConflictsOfName(definitionName: string) returns (alerts: seq<Alert>, ghost folders: seq<GameFolder>)
      requires definitionName in definitionsMap
      ensures forall i, j :: 0 <= i < j < |folders| ==> folders[i] != folders[j]
      ensures forall i :: 0 <= i < |folders| ==> IsNameConflict(definitionsMap, definitionName, folders[i])
      ensures forall g :: IsNameConflict(definitionsMap, definitionName, g) ==> g in folders
      ensures |alerts| == |folders|
      ensures forall i :: 0 <= i < |folders| ==> IsNameConflictAlert(definitionsMap, definitionName, folders[i], alerts[i])
      ensures forall i :: 0 <= i < |alerts| ==> alerts[i].kind == NameConflict && alerts[i].severity != Trivial
    {
      var duplicateDefinitions := definitionsMap[definitionName];
      var gameFolders := set d | d in duplicateDefinitions :: d.GameFolderOf();
      alerts, folders := [], [];
      var remaining := gameFolders;
      while remaining != {}
        invariant remaining <= gameFolders
        invariant FoldersOutside(definitionsMap, definitionName, gameFolders, remaining, folders, alerts)
        decreases |remaining|
      {
        var gameFolder :| gameFolder in remaining;
        var alert := NameConflictIn(definitionName, gameFolder);
        if alert.Some? {
          FoldersAdd(definitionsMap, definitionName, gameFolders, remaining, folders, alerts, gameFolder, alert.value);
          alerts, folders := alerts + [alert.value], folders + [gameFolder];
        } else {
          FoldersSkip(definitionsMap, definitionName, gameFolders, remaining, folders, alerts, gameFolder);
        }
        remaining := remaining - {gameFolder};
      }
      FoldersFinished(definitionsMap, definitionName, folders, alerts);
      forall i | 0 <= i < |alerts|
        ensures alerts[i].kind == NameConflict && alerts[i].severity != Trivial
      {
        NameConflictAlertSpec(definitionsMap, definitionName, folders[i]);
      }
    }

    /** The body of the loop over folders: the definitions of the name in the folder, and the alert they raise. */
    method NameConflictIn(definitionName: string, gameFolder: GameFolder) returns (alert: Option<Alert>)
      requires definitionName in definitionsMap
      ensures alert.Some? <==> IsNameConflict(definitionsMap, definitionName, gameFolder)
      ensures alert.Some? ==> alert.value == NameConflictAlert(definitionsMap, definitionName, gameFolder)
    {
      alert := None;
      var inFolder := InFolder(definitionsMap[definitionName], gameFolder);
      if |inFolder| > 1 && |FileNamesOf(inFolder)| > 1 {
        var mergeBehaviour := inFolder[0].mergeBehaviour;
        if RanksAboveNoOp(mergeBehaviour) {
          var name := inFolder[0].name;
          var modFiles := FilesOfDefinitions(inFolder);
          alert := Some(NewAlert(SeverityOf(mergeBehaviour), NameConflict, gameFolder, modFiles, Some(name),
                                 NameConflictHead + gameFolder.name + NameConflictMiddle + definitionName + NameConflictTail
                                 + Description(mergeBehaviour)));
        }
      }
    }
  }
}
