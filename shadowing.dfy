/**
 * What `computeFileShadowing` and `computeDefinitionShadowing` compute.
 *
 * Both stages read the dependers' file registries and definition lists. The
 * predicates that describe their fields are stated over value snapshots of
 * what they read: `sets`, the overwriting files of each loaded file, and
 * `shadowers`, the overwriting definitions of each loaded definition. The
 * snapshots are defined from the depender map and the mods, and lemmas state
 * them over the dependers of the loaded mods.
 */
module ShadowingSpec {
  import opened Wrappers
  import opened Severities
  import opened Entities
  import opened Alerts
  import opened ModListSpec

  /** The mods that some key of a depender map maps to. */
  ghost function Members(dm: map<Mod, set<Mod>>): set<Mod>
  {
    set m, x | m in dm && x in dm[m] :: x
  }

  /** The stream of `computeFileShadowing`: the files the given mods register under the key. */
  function FilesUnder(dependers: set<Mod>, key: string): set<ModFile>
    reads dependers
  {
    set mod1 | mod1 in dependers && mod1.GetModFileByName(key) != null :: mod1.GetModFileByName(key)
  }

  /** The files that overwrite f: those registered under f's name key by the mods dm lists as depending on f's mod. */
  ghost function ShadowSet(dm: map<Mod, set<Mod>>, f: ModFile): set<ModFile>
    reads Members(dm)
  {
    if f.mod in dm then FilesUnder(dm[f.mod], f.name) else {}
  }

  /** The overwriting files of each of the given files. */
  ghost function ShadowSets(dm: map<Mod, set<Mod>>, files: set<ModFile>): map<ModFile, set<ModFile>>
    reads Members(dm)
  {
    map f | f in files :: ShadowSet(dm, f)
  }

  /** The overwriting files of the loaded files, over the depender map of the loaded mods. */
  ghost function LoadedShadowSets(mods: seq<Mod>): map<ModFile, set<ModFile>>
    reads mods
  {
    DependerMapSpec(mods);
    ShadowSets(DependerMap(mods), AllFiles(mods))
  }

  /** A loaded file is overwritten by the files under its key of the other loaded mods that depend on its mod. */
  lemma LoadedShadowSetsSpec(mods: seq<Mod>, f: ModFile)
    requires f in AllFiles(mods) && f.mod in mods
    ensures f in LoadedShadowSets(mods)
    ensures LoadedShadowSets(mods)[f] == FilesUnder(Dependers(mods, f.mod), f.name)
  {
    DependerMapSpec(mods);
  }

  /**
   * The file-shadowing fields once the files in `done` are processed: a file
   * is unshadowed when nothing overwrites it, and is otherwise mapped to the
   * files that overwrite it.
   */
  ghost predicate FileShadowing(sets: map<ModFile, set<ModFile>>, done: set<ModFile>, unShadowed: set<ModFile>,
                                shadowing: map<ModFile, set<ModFile>>)
  {
    (forall f :: f in unShadowed ==> f in done && f in sets && sets[f] == {}) &&
    (forall f :: f in shadowing ==> f in done && f in sets && shadowing[f] == sets[f] != {}) &&
    (forall f :: f in done ==> f in unShadowed || f in shadowing)
  }

  /**
   * Processing one more file: with no overwriting files it joins the
   * unshadowed files, and otherwise it is mapped to the files overwriting it.
   */
  lemma AddFile(sets: map<ModFile, set<ModFile>>, done: set<ModFile>, unShadowed: set<ModFile>,
                shadowing: map<ModFile, set<ModFile>>, f: ModFile, fileSet: set<ModFile>)
    requires FileShadowing(sets, done, unShadowed, shadowing) && f in sets && sets[f] == fileSet
    ensures fileSet == {} ==> FileShadowing(sets, done + {f}, unShadowed + {f}, shadowing)
    ensures fileSet != {} ==> FileShadowing(sets, done + {f}, unShadowed, shadowing[f := fileSet])
  {
  }

  /** `shadowingFiles.get(f)`, with a missing entry read as no overwriting files. */
  function Lookup(shadowing: map<ModFile, set<ModFile>>, f: ModFile): set<ModFile>
  {
    if f in shadowing then shadowing[f] else {}
  }

  /** Once every file is processed, looking a file up gives exactly its overwriting files. */
  lemma FileShadowingLookup(sets: map<ModFile, set<ModFile>>, unShadowed: set<ModFile>, shadowing: map<ModFile, set<ModFile>>)
    requires FileShadowing(sets, sets.Keys, unShadowed, shadowing)
    ensures forall f :: f in sets ==> Lookup(shadowing, f) == sets[f]
  {
  }

  /** The flattened stream of `computeDefinitionShadowing`: every definition of the given mods. */
  function DefinitionsOf(dependers: set<Mod>): set<Definition>
    reads dependers
  {
    set mod1, e | mod1 in dependers && e in mod1.definitions :: e
  }

  /** The filter of that stream: the candidates equivalent to d. */
  function EquivalentsAmong(candidates: set<Definition>, d: Definition): set<Definition>
  {
    set e | e in candidates && d.IsEquivalent(e)
  }

  /** The definitions that overwrite d: those of the mods dm lists as depending on d's mod that are equivalent to d. */
  ghost function Shadowers(dm: map<Mod, set<Mod>>, d: Definition): set<Definition>
    reads Members(dm)
  {
    if d.ModOf() in dm then EquivalentsAmong(DefinitionsOf(dm[d.ModOf()]), d) else {}
  }

  /** The overwriting definitions of each of the given definitions. */
  ghost function ShadowersOf(dm: map<Mod, set<Mod>>, defs: set<Definition>): map<Definition, set<Definition>>
    reads Members(dm)
  {
    map d | d in defs :: Shadowers(dm, d)
  }

  /** The overwriting definitions of the loaded definitions, over the depender map of the loaded mods. */
  ghost function LoadedShadowers(mods: seq<Mod>): map<Definition, set<Definition>>
    reads mods
  {
    DependerMapSpec(mods);
    ShadowersOf(DependerMap(mods), AllDefinitions(mods))
  }

  /**
   * A loaded definition is overwritten by exactly the definitions, equivalent
   * to it, of the other loaded mods that depend on its mod.
   */
  lemma LoadedShadowersSpec(mods: seq<Mod>, d: Definition, e: Definition)
    requires d in AllDefinitions(mods) && d.ModOf() in mods
    ensures d in LoadedShadowers(mods)
    ensures e in LoadedShadowers(mods)[d] <==>
            exists m :: m in mods && m != d.ModOf() && DependsOn(mods, m, d.ModOf()) && e in m.definitions && d.IsEquivalent(e)
  {
    DependerMapSpec(mods);
    var dependers := Dependers(mods, d.ModOf());
    assert LoadedShadowers(mods)[d] == EquivalentsAmong(DefinitionsOf(dependers), d);
    if e in LoadedShadowers(mods)[d] {
      var m :| m in dependers && e in m.definitions;
    }
  }

  /** The definition lists of the loaded mods, in load order. */
  ghost function DefinitionLists(mods: seq<Mod>): (lists: seq<seq<Definition>>)
    reads mods
    ensures |lists| == |mods| && forall k :: 0 <= k < |mods| ==> lists[k] == mods[k].definitions
  {
    if mods == [] then [] else DefinitionLists(mods[..|mods| - 1]) + [mods[|mods| - 1].definitions]
  }

  /** For each loaded mod, the definitions of its dependers, or none when it has no dependers. */
  ghost function CandidateLists(mods: seq<Mod>, dm: map<Mod, set<Mod>>): (candidates: seq<set<Definition>>)
    reads mods, Members(dm)
    ensures |candidates| == |mods|
    ensures forall k :: 0 <= k < |mods| ==> candidates[k] == if mods[k] in dm then DefinitionsOf(dm[mods[k]]) else {}
  {
    if mods == [] then [] else
      var k := |mods| - 1;
      CandidateLists(mods[..k], dm) + [if mods[k] in dm then DefinitionsOf(dm[mods[k]]) else {}]
  }

  /**
   * What the loop of `computeDefinitionShadowing` needs about one mod's
   * definitions: each file has an entry among the overwriting files, and each
   * definition one among the overwriting definitions, which are its
   * equivalents among the candidates; without dependers nothing overwrites
   * their files.
   */
  ghost predicate Covered(sets: map<ModFile, set<ModFile>>, shadowers: map<Definition, set<Definition>>,
                          defs: seq<Definition>, candidates: set<Definition>, hasDependers: bool)
  {
    forall d :: d in defs ==>
      d.file in sets && d in shadowers && shadowers[d] == EquivalentsAmong(candidates, d) &&
      (!hasDependers ==> sets[d.file] == {})
  }

  /** Every loaded mod's definitions are covered by the snapshots of the loaded mods. */
  lemma ShadowingFacts(mods: seq<Mod>, dm: map<Mod, set<Mod>>, sets: map<ModFile, set<ModFile>>,
                       shadowers: map<Definition, set<Definition>>, lists: seq<seq<Definition>>,
                       candidates: seq<set<Definition>>)
    requires AllValid(mods) && lists == DefinitionLists(mods) && candidates == CandidateLists(mods, dm)
    requires sets == ShadowSets(dm, AllFiles(mods)) && shadowers == ShadowersOf(dm, AllDefinitions(mods))
    ensures forall k :: 0 <= k < |lists| ==> Covered(sets, shadowers, lists[k], candidates[k], mods[k] in dm)
  {
    forall k | 0 <= k < |lists|
      ensures Covered(sets, shadowers, lists[k], candidates[k], mods[k] in dm)
    {
      LoadedFiles(mods, k);
      LoadedDefinitions(mods, k);
      ValidDefinitions(mods[k]);
      forall d | d in lists[k]
        ensures d.file in sets && d in shadowers && shadowers[d] == EquivalentsAmong(candidates[k], d)
      {
        assert d in Elements(mods[k].definitions);
      }
    }
  }

  /** The definitions of the first k lists. */
  function UnionUpTo(lists: seq<seq<Definition>>, k: nat): set<Definition>
    requires k <= |lists|
  {
    if k == 0 then {} else UnionUpTo(lists, k - 1) + Elements(lists[k - 1])
  }

  lemma {:induction false} UnionUpToDefinitions(mods: seq<Mod>, lists: seq<seq<Definition>>, k: nat)
    requires lists == DefinitionLists(mods) && k <= |mods|
    ensures UnionUpTo(lists, k) == DefinitionsUpTo(mods, k)
  {
    if k > 0 {
      UnionUpToDefinitions(mods, lists, k - 1);
    }
  }

  /**
   * The snapshots `computeDefinitionShadowing` works from, once the files
   * are shadowed: the facts its loop needs, and how its results read over
   * the loaded mods.
   */
  lemma ShadowingSetup(mods: seq<Mod>, dm: map<Mod, set<Mod>>, sets: map<ModFile, set<ModFile>>,
                       shadowers: map<Definition, set<Definition>>, lists: seq<seq<Definition>>,
                       candidates: seq<set<Definition>>, unShadowedFiles: set<ModFile>, shadowingFiles: map<ModFile, set<ModFile>>)
    requires AllValid(mods) && dm == DependerMap(mods)
    requires sets == LoadedShadowSets(mods) && shadowers == LoadedShadowers(mods)
    requires FileShadowing(sets, AllFiles(mods), unShadowedFiles, shadowingFiles)
    requires lists == DefinitionLists(mods) && candidates == CandidateLists(mods, dm)
    ensures |lists| == |mods| && forall k :: 0 <= k < |mods| ==> lists[k] == mods[k].definitions
    ensures |candidates| == |mods|
    ensures forall k :: 0 <= k < |mods| && mods[k] in dm ==> candidates[k] == DefinitionsOf(dm[mods[k]])
    ensures forall k :: 0 <= k < |mods| ==> Covered(sets, shadowers, lists[k], candidates[k], mods[k] in dm)
    ensures forall f :: f in sets ==> Lookup(shadowingFiles, f) == sets[f]
    ensures UnionUpTo(lists, |lists|) == AllDefinitions(mods)
    ensures UndefinedUpTo(lists, sets, shadowers, |lists|) == Undefined(mods)
  {
    UnionUpToDefinitions(mods, lists, |mods|);
    ShadowingFacts(mods, dm, sets, shadowers, lists, candidates);
    FileShadowingLookup(sets, unShadowedFiles, shadowingFiles);
  }

  /** A definition is undefined when its file is overwritten but no overwriting mod defines it again. */
  ghost predicate IsUndefined(sets: map<ModFile, set<ModFile>>, shadowers: map<Definition, set<Definition>>, d: Definition)
  {
    d.file in sets && sets[d.file] != {} && d in shadowers && shadowers[d] == {}
  }

  /**
   * The definition-shadowing fields once the definitions in `done` are
   * processed: a definition is unshadowed when its file is not overwritten,
   * and is mapped to its overwriting definitions when its file is overwritten
   * and it is defined again; the remaining, undefined, ones are in neither.
   */
  ghost predicate DefinitionShadowing(sets: map<ModFile, set<ModFile>>, shadowers: map<Definition, set<Definition>>,
                                      done: set<Definition>, unShadowed: set<Definition>,
                                      shadowing: map<Definition, set<Definition>>)
  {
    (forall d :: d in unShadowed ==> d in done && d.file in sets && sets[d.file] == {}) &&
    (forall d :: d in shadowing ==> d in done && d.file in sets && sets[d.file] != {} &&
                                    d in shadowers && shadowing[d] == shadowers[d] != {}) &&
    (forall d :: d in done ==> d in unShadowed || d in shadowing || IsUndefined(sets, shadowers, d))
  }

  /** Processing a definition whose file nothing overwrites: it joins the unshadowed definitions. */
  lemma AddUnShadowedDefinition(sets: map<ModFile, set<ModFile>>, shadowers: map<Definition, set<Definition>>,
                                done: set<Definition>, unShadowed: set<Definition>,
                                shadowing: map<Definition, set<Definition>>, d: Definition)
    requires DefinitionShadowing(sets, shadowers, done, unShadowed, shadowing)
    requires d.file in sets && sets[d.file] == {}
    ensures DefinitionShadowing(sets, shadowers, done + {d}, unShadowed + {d}, shadowing)
    ensures !IsUndefined(sets, shadowers, d)
  {
  }

  /** Processing a definition that is overwritten and defined again: it is mapped to its overwriting definitions. */
  lemma AddShadowedDefinition(sets: map<ModFile, set<ModFile>>, shadowers: map<Definition, set<Definition>>,
                              done: set<Definition>, unShadowed: set<Definition>,
                              shadowing: map<Definition, set<Definition>>, d: Definition)
    requires DefinitionShadowing(sets, shadowers, done, unShadowed, shadowing)
    requires d.file in sets && sets[d.file] != {} && d in shadowers && shadowers[d] != {}
    ensures DefinitionShadowing(sets, shadowers, done + {d}, unShadowed, shadowing[d := shadowers[d]])
    ensures !IsUndefined(sets, shadowers, d)
  {
    var shadowing' := shadowing[d := shadowers[d]];
    forall e | e in shadowing'
      ensures e in done + {d} && e.file in sets && sets[e.file] != {} && e in shadowers && shadowing'[e] == shadowers[e] != {}
    {
      if e != d {
        assert e in shadowing && shadowing'[e] == shadowing[e];
      }
    }
  }

  /** Processing an undefined definition: it lands in neither field. */
  lemma AddUndefinedDefinition(sets: map<ModFile, set<ModFile>>, shadowers: map<Definition, set<Definition>>,
                               done: set<Definition>, unShadowed: set<Definition>,
                               shadowing: map<Definition, set<Definition>>, d: Definition)
    requires DefinitionShadowing(sets, shadowers, done, unShadowed, shadowing) && IsUndefined(sets, shadowers, d)
    ensures DefinitionShadowing(sets, shadowers, done + {d}, unShadowed, shadowing)
  {
  }

  /** Processing definitions whose files nothing overwrites: they all join the unshadowed definitions. */
  lemma AddUnShadowedDefinitions(sets: map<ModFile, set<ModFile>>, shadowers: map<Definition, set<Definition>>,
                                 done: set<Definition>, unShadowed: set<Definition>,
                                 shadowing: map<Definition, set<Definition>>, defs: seq<Definition>)
    requires DefinitionShadowing(sets, shadowers, done, unShadowed, shadowing)
    requires forall d :: d in defs ==> d.file in sets && sets[d.file] == {}
    ensures DefinitionShadowing(sets, shadowers, done + Elements(defs), unShadowed + Elements(defs), shadowing)
  {
  }

  /** The undefined definitions among defs, in order. */
  ghost function UndefinedIn(sets: map<ModFile, set<ModFile>>, shadowers: map<Definition, set<Definition>>,
                             defs: seq<Definition>): seq<Definition>
  {
    if defs == [] then []
    else
      var n := |defs| - 1;
      UndefinedIn(sets, shadowers, defs[..n]) + (if IsUndefined(sets, shadowers, defs[n]) then [defs[n]] else [])
  }

  lemma UndefinedInStep(sets: map<ModFile, set<ModFile>>, shadowers: map<Definition, set<Definition>>,
                        undefined: seq<Definition>, defs: seq<Definition>, j: nat)
    requires j < |defs|
    ensures undefined + UndefinedIn(sets, shadowers, defs[..j + 1]) ==
            undefined + UndefinedIn(sets, shadowers, defs[..j]) + (if IsUndefined(sets, shadowers, defs[j]) then [defs[j]] else [])
  {
    assert defs[..j + 1][..j] == defs[..j];
  }

  /** None of the definitions whose files nothing overwrites is undefined. */
  lemma {:induction false} NoneUndefined(sets: map<ModFile, set<ModFile>>, shadowers: map<Definition, set<Definition>>,
                                         defs: seq<Definition>)
    requires forall d :: d in defs ==> d.file in sets && sets[d.file] == {}
    ensures UndefinedIn(sets, shadowers, defs) == []
  {
    if defs != [] {
      NoneUndefined(sets, shadowers, defs[..|defs| - 1]);
    }
  }

  /** The undefined definitions of the first k lists, in list order and then definition order. */
  ghost function UndefinedUpTo(lists: seq<seq<Definition>>, sets: map<ModFile, set<ModFile>>,
                               shadowers: map<Definition, set<Definition>>, k: nat): seq<Definition>
    requires k <= |lists|
  {
    if k == 0 then [] else UndefinedUpTo(lists, sets, shadowers, k - 1) + UndefinedIn(sets, shadowers, lists[k - 1])
  }

  /** The undefined definitions of the loaded mods, in the order `computeDefinitionShadowing` meets them. */
  ghost function Undefined(mods: seq<Mod>): seq<Definition>
    reads mods
  {
    UndefinedUpTo(DefinitionLists(mods), LoadedShadowSets(mods), LoadedShadowers(mods), |mods|)
  }

  const UndefineMessageHead: string := "An instance of type "
  const UndefineMessageMiddle: string := "\n with name \""
  const UndefineMessageTail: string := "\"\n was deleted in some overwriting file(s)."

  /** The UNDEFINE alert for d: a warning naming d, over d's file and the files overwriting it, sorted. */
  ghost predicate IsUndefineAlert(sets: map<ModFile, set<ModFile>>, d: Definition, a: Alert)
  {
    d.file in sets &&
    a.severity == Warning && a.kind == Undefine && a.gameFolder == d.GameFolderOf() &&
    Sorted(a.files) && multiset(a.files) == multiset{d.file} + multiset(sets[d.file]) &&
    a.definitionName == Some(d.name) &&
    a.message == UndefineMessageHead + d.GameFolderOf().name + UndefineMessageMiddle + d.name + UndefineMessageTail
  }

  /** The alerts of `computeDefinitionShadowing`: one UNDEFINE alert per undefined definition, in order. */
  ghost predicate UndefineAlerts(sets: map<ModFile, set<ModFile>>, undefined: seq<Definition>, alerts: seq<Alert>)
  {
    |alerts| == |undefined| &&
    (alerts != [] ==>
      var n := |alerts| - 1;
      UndefineAlerts(sets, undefined[..n], alerts[..n]) && IsUndefineAlert(sets, undefined[n], alerts[n]))
  }

  /** Meeting one more undefined definition adds its alert at the end. */
  lemma UndefineAlertsSnoc(sets: map<ModFile, set<ModFile>>, undefined: seq<Definition>, alerts: seq<Alert>,
                           d: Definition, a: Alert)
    requires UndefineAlerts(sets, undefined, alerts) && IsUndefineAlert(sets, d, a)
    ensures UndefineAlerts(sets, undefined + [d], alerts + [a])
  {
    assert (undefined + [d])[..|undefined|] == undefined;
    assert (alerts + [a])[..|alerts|] == alerts;
  }

  /** The i-th alert is the UNDEFINE alert of the i-th undefined definition. */
  lemma {:induction false} UndefineAlertsAt(sets: map<ModFile, set<ModFile>>, undefined: seq<Definition>, alerts: seq<Alert>)
    requires UndefineAlerts(sets, undefined, alerts)
    ensures |alerts| == |undefined|
    ensures forall i :: 0 <= i < |alerts| ==> IsUndefineAlert(sets, undefined[i], alerts[i])
  {
    if alerts != [] {
      var n := |alerts| - 1;
      UndefineAlertsAt(sets, undefined[..n], alerts[..n]);
    }
  }
}
