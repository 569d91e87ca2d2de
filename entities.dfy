/**
 * The loaded-mod entities: a game folder (category), a mod, the files it
 * holds and the definitions found in them (Mod.java, Mod.ModFile,
 * Definition.java, GameFolder.java).
 *
 * Mods and files are updated in place while a mod is parsed, so they are
 * classes; a definition and a game folder never change after creation but
 * are compared by identity (hash sets of definitions, enum constants), so
 * they are classes with constant fields only.
 */
module Entities {
  import opened Wrappers
  import opened MergeBehaviours

  /** How the names of definitions are found in a folder's files. */
  datatype NamingType = TopLevel | SecondLevel | PrefixAnyLevel | IdField | SecondLevelIdField | AnyLevelIdField

  /**
   * A category of game files. `reservedNames` is the predicate of the folder's
   * reserved-name pattern (a match anywhere in the name), or None when the
   * folder has no pattern.
   */
  class GameFolder {
    const name: string
    const mergeBehaviour: MergeBehaviour
    const namingType: NamingType
    const reservedNames: Option<string -> bool>

    constructor (name: string, mergeBehaviour: MergeBehaviour, namingType: NamingType, reservedNames: Option<string -> bool>)
      ensures this.name == name && this.mergeBehaviour == mergeBehaviour
      ensures this.namingType == namingType && this.reservedNames == reservedNames
    {
      this.name := name;
      this.mergeBehaviour := mergeBehaviour;
      this.namingType := namingType;
      this.reservedNames := reservedNames;
    }
  }

  /** The predicate that rejects a name: the reserved-name pattern, or emptiness when there is none. */
  predicate IsBadName(folder: GameFolder, s: string)
  {
    match folder.reservedNames
    case Some(p) => p(s)
    case None => s == []
  }

  /** The name key of a file: its relative path with every '/' turned into '\'. */
  function NameKey(relativePath: string): (r: string)
    ensures |r| == |relativePath|
    ensures forall i :: 0 <= i < |r| ==> r[i] == if relativePath[i] == '/' then '\\' else relativePath[i]
  {
    if relativePath == [] then []
    else
      var n := |relativePath| - 1;
      NameKey(relativePath[..n]) + [if relativePath[n] == '/' then '\\' else relativePath[n]]
  }

  /** A name key holds no '/', and normalising it again changes nothing. */
  lemma NameKeyNormal(relativePath: string)
    ensures '/' !in NameKey(relativePath)
    ensures NameKey(NameKey(relativePath)) == NameKey(relativePath)
  {
    var r := NameKey(relativePath);
    assert forall i :: 0 <= i < |r| ==> r[i] != '/';
  }

  /** Two paths that differ only in which separator they use have the same key. */
  lemma NameKeyIgnoresSeparator(p: string, q: string)
    requires |p| == |q|
    requires forall i :: 0 <= i < |p| ==> p[i] == q[i] || (p[i] in "/\\" && q[i] in "/\\")
    ensures NameKey(p) == NameKey(q)
  {
  }

  /** One file of a mod. Its name key, mod and folder are fixed; its definitions grow while it is parsed. */
  class ModFile {
    const mod: Mod
    const relativePath: string
    const gameFolder: GameFolder
    const name: string
    var definitions: seq<Definition>

    constructor (mod: Mod, relativePath: string, gameFolder: GameFolder)
      ensures this.mod == mod && this.relativePath == relativePath && this.gameFolder == gameFolder
      ensures name == NameKey(relativePath)
      ensures definitions == []
    {
      this.mod := mod;
      this.relativePath := relativePath;
      this.gameFolder := gameFolder;
      this.name := NameKey(relativePath);
      this.definitions := [];
    }
  }

  /** A named definition found in a file, with the merge policy it was tagged with. */
  class Definition {
    const name: string
    const file: ModFile
    const mergeBehaviour: MergeBehaviour

    constructor (name: string, file: ModFile, mergeBehaviour: MergeBehaviour)
      ensures this.name == name && this.file == file && this.mergeBehaviour == mergeBehaviour
    {
      this.name := name;
      this.file := file;
      this.mergeBehaviour := mergeBehaviour;
    }

    /** `getGameFolder`: the folder of the definition's file. */
    function GameFolderOf(): (g: GameFolder)
      ensures g == file.gameFolder
    {
      file.gameFolder
    }

    /** `getMod`: the mod of the definition's file. */
    function ModOf(): (m: Mod)
      ensures m == file.mod
    {
      file.mod
    }

    /** `isEquivalent`: same folder and same name; file, mod and policy play no part. */
    predicate IsEquivalent(other: Definition)
    {
      file.gameFolder == other.file.gameFolder && name == other.name
    }
  }

  /** `isEquivalent` is an equivalence relation. */
  lemma EquivalenceRelation(a: Definition, b: Definition, c: Definition)
    ensures a.IsEquivalent(a)
    ensures a.IsEquivalent(b) ==> b.IsEquivalent(a)
    ensures a.IsEquivalent(b) && b.IsEquivalent(c) ==> a.IsEquivalent(c)
  {
  }

  /** Equivalence is decided by folder and name alone: two definitions agreeing on both are equivalent whatever their files and policies. */
  lemma EquivalentIffSameFolderAndName(a: Definition, b: Definition)
    ensures a.IsEquivalent(b) <==> a.GameFolderOf() == b.GameFolderOf() && a.name == b.name
  {
  }

  /** A definition's name and policy, the part of it the tagging rules decide. */
  type Tag = (string, MergeBehaviour)

  function TagOf(d: Definition): Tag
  {
    (d.name, d.mergeBehaviour)
  }

  /** The tags of a list of definitions, in order. */
  function Tags(defs: seq<Definition>): seq<Tag>
  {
    if defs == [] then [] else Tags(defs[..|defs| - 1]) + [TagOf(defs[|defs| - 1])]
  }

  lemma {:induction false} TagsAppendOne(a: seq<Definition>, d: Definition)
    ensures Tags(a + [d]) == Tags(a) + [TagOf(d)]
  {
    assert (a + [d])[..|a|] == a;
  }

  lemma {:induction false} TagsAppend(a: seq<Definition>, b: seq<Definition>)
    ensures Tags(a + b) == Tags(a) + Tags(b)
    decreases |b|
  {
    if b != [] {
      var n := |b| - 1;
      TagsAppend(a, b[..n]);
      assert (a + b)[..|a + b| - 1] == a + b[..n];
      assert (a + b)[|a + b| - 1] == b[n];
      assert Tags(b) == Tags(b[..n]) + [TagOf(b[n])];
    } else {
      assert a + b == a;
    }
  }

  /** The names a parser visitor extracted from a file, one list per visitor. */
  datatype NameLists = NameLists(
    locKeys: seq<string>,
    topLevel: seq<string>,
    secondLevel: seq<string>,
    titles: seq<string>,
    idField: seq<string>,
    secondLevelIdField: seq<string>,
    anyLevelIdField: seq<string>)

  /** What reading and parsing one file produced: the extracted names and the syntax-error messages, or an exception. */
  datatype ParseOutcome = Parsed(names: NameLists, syntaxErrors: seq<string>) | Threw

  /** The names that are not rejected, each tagged with the given policy, in order. */
  function Keep(folder: GameFolder, names: seq<string>, policy: MergeBehaviour): seq<Tag>
  {
    if names == [] then []
    else
      var n := |names| - 1;
      Keep(folder, names[..n], policy) + (if IsBadName(folder, names[n]) then [] else [(names[n], policy)])
  }

  /** Keep: a tag appears iff its name is an extracted, accepted name and its policy is the given one. */
  lemma {:induction false} KeepMembers(folder: GameFolder, names: seq<string>, policy: MergeBehaviour)
    ensures forall t :: t in Keep(folder, names, policy) <==> t.0 in names && !IsBadName(folder, t.0) && t.1 == policy
  {
    if names != [] {
      var n := |names| - 1;
      KeepMembers(folder, names[..n], policy);
      assert names == names[..n] + [names[n]];
    }
  }

  /** A file name ends in ".csv", ignoring the case of the letters. */
  predicate IsCsv(relativePath: string)
  {
    |relativePath| >= 4 &&
    LowerAscii(relativePath[|relativePath| - 4]) == '.' &&
    LowerAscii(relativePath[|relativePath| - 3]) == 'c' &&
    LowerAscii(relativePath[|relativePath| - 2]) == 's' &&
    LowerAscii(relativePath[|relativePath| - 1]) == 'v'
  }

  function LowerAscii(c: char): char
  {
    if 'A' <= c <= 'Z' then (c as int - 'A' as int + 'a' as int) as char else c
  }

  /**
   * The tags `parseFile` gives a file's definitions: localisation files use
   * their keys; otherwise the folder's naming type picks the visitor, and a
   * second-level folder whose policy is MERGE_GROUPS also records its top-level
   * groups, tagging the groups MERGE_GROUPS and their members REPLACE.
   */
  function TaggedNames(folder: GameFolder, csv: bool, lists: NameLists): seq<Tag>
  {
    var policy := folder.mergeBehaviour;
    if csv then Keep(folder, lists.locKeys, policy)
    else
      match folder.namingType
      case TopLevel => Keep(folder, lists.topLevel, policy)
      case SecondLevel =>
        if policy == MergeGroups then Keep(folder, lists.topLevel, MergeGroups) + Keep(folder, lists.secondLevel, Replace)
        else Keep(folder, lists.secondLevel, policy)
      case PrefixAnyLevel => Keep(folder, lists.titles, policy)
      case IdField => Keep(folder, lists.idField, policy)
      case SecondLevelIdField => Keep(folder, lists.secondLevelIdField, policy)
      case AnyLevelIdField => Keep(folder, lists.anyLevelIdField, policy)
  }

  /** No tagged name is rejected by the folder; without a pattern only the empty name is rejected. */
  lemma TaggedNamesAccepted(folder: GameFolder, csv: bool, lists: NameLists)
    ensures forall t :: t in TaggedNames(folder, csv, lists) ==> !IsBadName(folder, t.0)
    ensures folder.reservedNames.None? ==> forall t :: t in TaggedNames(folder, csv, lists) ==> t.0 != []
  {
    KeepMembers(folder, lists.locKeys, folder.mergeBehaviour);
    KeepMembers(folder, lists.topLevel, folder.mergeBehaviour);
    KeepMembers(folder, lists.topLevel, MergeGroups);
    KeepMembers(folder, lists.secondLevel, Replace);
    KeepMembers(folder, lists.secondLevel, folder.mergeBehaviour);
    KeepMembers(folder, lists.titles, folder.mergeBehaviour);
    KeepMembers(folder, lists.idField, folder.mergeBehaviour);
    KeepMembers(folder, lists.secondLevelIdField, folder.mergeBehaviour);
    KeepMembers(folder, lists.anyLevelIdField, folder.mergeBehaviour);
  }

  /**
   * The policy tags: a second-level MERGE_GROUPS folder yields its accepted
   * top-level names as MERGE_GROUPS followed by its accepted second-level names
   * as REPLACE; every other file tags each name with the folder's policy.
   */
  lemma TaggedNamesPolicy(folder: GameFolder, csv: bool, lists: NameLists)
    ensures !csv && folder.namingType == SecondLevel && folder.mergeBehaviour == MergeGroups ==>
      TaggedNames(folder, csv, lists) == Keep(folder, lists.topLevel, MergeGroups) + Keep(folder, lists.secondLevel, Replace)
    ensures !(!csv && folder.namingType == SecondLevel && folder.mergeBehaviour == MergeGroups) ==>
      forall t :: t in TaggedNames(folder, csv, lists) ==> t.1 == folder.mergeBehaviour
  {
    KeepMembers(folder, lists.locKeys, folder.mergeBehaviour);
    KeepMembers(folder, lists.topLevel, folder.mergeBehaviour);
    KeepMembers(folder, lists.secondLevel, folder.mergeBehaviour);
    KeepMembers(folder, lists.titles, folder.mergeBehaviour);
    KeepMembers(folder, lists.idField, folder.mergeBehaviour);
    KeepMembers(folder, lists.secondLevelIdField, folder.mergeBehaviour);
    KeepMembers(folder, lists.anyLevelIdField, folder.mergeBehaviour);
  }

  /**
   * A loaded mod: its declared dependency names, the files registered while
   * parsing (a set and a map by name key) and all definitions found, in parse order.
   */
  class Mod {
    const name: string
    var dependencies: seq<string>
    var files: set<ModFile>
    var modFileMap: map<string, ModFile>
    var definitions: seq<Definition>

    constructor (name: string, dependencies: seq<string>)
      ensures this.name == name && this.dependencies == dependencies
      ensures files == {} && modFileMap == map[] && definitions == []
      ensures Valid()
    {
      this.name := name;
      this.dependencies := dependencies;
      files := {};
      modFileMap := map[];
      definitions := [];
    }

    /**
     * The registration invariant: every registered file belongs to this mod and
     * its key is mapped; the map sends each key to a registered file with that
     * key; every definition lies in a registered file.
     */
    ghost predicate Valid()
      reads this
    {
      (forall f :: f in files ==> f.mod == this && f.name in modFileMap) &&
      (forall k :: k in modFileMap ==> modFileMap[k] in files && modFileMap[k].name == k) &&
      (forall d :: d in definitions ==> d.file in files)
    }

    /** `getModFileByName`: the file registered under the key, or null when there is none. */
    function GetModFileByName(key: string): (f: ModFile?)
      reads this
      ensures f == null <==> key !in modFileMap
      ensures Valid() && f != null ==> f in files && f.name == key && f.mod == this
    {
      if key in modFileMap then modFileMap[key] else null
    }

    /** Under the invariant, every registered file can be looked up by its own key, and finds a file with that key. */
    lemma RegisteredFilesFound(f: ModFile)
      requires Valid() && f in files
      ensures GetModFileByName(f.name) != null && GetModFileByName(f.name).name == f.name
    {
    }

    /** Appends one name to the declared dependencies (`getDependencies().add`). */
    method AddDependency(dependency: string)
      modifies this
      ensures dependencies == old(dependencies) + [dependency]
      ensures files == old(files) && modFileMap == old(modFileMap) && definitions == old(definitions)
    {
      dependencies := dependencies + [dependency];
    }

    /**
     * `parseFile`: registers a new file under its key, then, unless reading or
     * parsing throws, gives the file one definition per tagged name and appends
     * them to the mod's list. Returns the syntax-error messages of the parse
     * (none when an exception was caught).
     */
    method ParseFile(relativePath: string, gameFolder: GameFolder, outcome: ParseOutcome)
      returns (ghost modFile: ModFile, syntaxErrors: seq<string>)
      requires Valid()
      modifies this
      ensures Valid()
      ensures fresh(modFile) && modFile.mod == this
      ensures modFile.relativePath == relativePath && modFile.gameFolder == gameFolder && modFile.name == NameKey(relativePath)
      ensures files == old(files) + {modFile}
      ensures modFileMap == old(modFileMap)[modFile.name := modFile]
      ensures GetModFileByName(NameKey(relativePath)) == modFile
      ensures dependencies == old(dependencies)
      ensures forall d :: d in modFile.definitions ==> fresh(d) && d.file == modFile && d.GameFolderOf() == gameFolder
      ensures outcome.Parsed? ==>
        Tags(modFile.definitions) == TaggedNames(gameFolder, IsCsv(relativePath), outcome.names) &&
        definitions == old(definitions) + modFile.definitions &&
        syntaxErrors == outcome.syntaxErrors
      ensures outcome.Threw? ==> modFile.definitions == [] && definitions == old(definitions) && syntaxErrors == []
    {
      var file := new ModFile(this, relativePath, gameFolder);
      modFile := file;
      files := files + {file};
      modFileMap := modFileMap[file.name := file];
      if outcome.Threw? {
        syntaxErrors := [];
        return;
      }
      TagDefinitions(file, IsCsv(relativePath), outcome.names);
      definitions := definitions + file.definitions;
      syntaxErrors := outcome.syntaxErrors;
    }
  }

  /** The visitor dispatch of `parseFile`: fills a new file's definitions from the name list its folder calls for. */
  method TagDefinitions(file: ModFile, csv: bool, lists: NameLists)
    requires file.definitions == []
    modifies file
    ensures Tags(file.definitions) == TaggedNames(file.gameFolder, csv, lists)
    ensures forall d :: d in file.definitions ==> fresh(d) && d.file == file
  {
    var policy := file.gameFolder.mergeBehaviour;
    ghost var added;
    if csv {
      added := AddDefinitions(file, lists.locKeys, policy);
    } else {
      match file.gameFolder.namingType
      case TopLevel =>
        added := AddDefinitions(file, lists.topLevel, policy);
      case SecondLevel =>
        if policy == MergeGroups {
          ghost var groups := AddDefinitions(file, lists.topLevel, policy);
          policy := Replace;
          added := AddDefinitions(file, lists.secondLevel, policy);
        } else {
          added := AddDefinitions(file, lists.secondLevel, policy);
        }
      case PrefixAnyLevel =>
        added := AddDefinitions(file, lists.titles, policy);
      case IdField =>
        added := AddDefinitions(file, lists.idField, policy);
      case SecondLevelIdField =>
        added := AddDefinitions(file, lists.secondLevelIdField, policy);
      case AnyLevelIdField =>
        added := AddDefinitions(file, lists.anyLevelIdField, policy);
    }
  }

  /** One loop of `parseFile`: a new definition appended to the file for each accepted name, in order. */
  method AddDefinitions(file: ModFile, names: seq<string>, policy: MergeBehaviour) returns (ghost added: seq<Definition>)
    modifies file
    ensures file.definitions == old(file.definitions) + added
    ensures Tags(added) == Keep(file.gameFolder, names, policy)
    ensures Tags(file.definitions) == Tags(old(file.definitions)) + Keep(file.gameFolder, names, policy)
    ensures forall d :: d in added ==> fresh(d) && d.file == file
  {
    ghost var start := file.definitions;
    added := [];
    for i := 0 to |names|
      invariant file.definitions == start + added
      invariant Tags(added) == Keep(file.gameFolder, names[..i], policy)
      invariant forall d :: d in added ==> fresh(d) && d.file == file
    {
      assert names[..i + 1][..i] == names[..i];
      if !IsBadName(file.gameFolder, names[i]) {
        var d := new Definition(names[i], file, policy);
        TagsAppendOne(added, d);
        file.definitions := file.definitions + [d];
        added := added + [d];
      }
    }
    assert names[..|names|] == names;
    TagsAppend(start, added);
  }
}
