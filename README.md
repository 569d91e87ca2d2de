# Aenigma conflict engine — a Dafny model

Aenigma checks a Crusader Kings II mod list for mods that step on each other.
This project models its conflict engine and proves what the engine computes:

- **Loading the list (`getMods`).** A vanilla pseudo-mod comes first and every
  loaded mod is made to depend on it.
- **Files and definitions (`Mod.parseFile`).** Each parsed file is registered
  under its name key (its relative path with `/` turned into `\`). It
  contributes the definitions its game folder's naming rule finds, except the
  reserved names.
- **True dependencies (`resolveTrueDependencies`).** A breadth-first search over
  dependency names gives each mod its direct and indirect dependencies among
  the loaded mods. `computeDependerMap` inverts that relation.
- **Shadowing.** `computeFileShadowing` finds the files that a depending mod
  overwrites. `computeDefinitionShadowing` finds the definitions such a file
  redefines, and raises an UNDEFINE warning for each overwritten definition
  that the overwriting mods never define again.
- **Conflicts.** `findFileNameConflicts` raises a FILE_CONFLICT warning for
  each name key held by mods that do not depend on each other, after
  `cleanConflictList` has dropped the dependees. `findDefinitionConflicts`
  raises a NAME_CONFLICT alert for each name that distinctly named files of one
  game folder define. The severity comes from that folder's merge behaviour.
- **Alerts.** An `Alert` sorts its files by name key, then by mod name. Two
  renderings exist, `toString` and `formatFiles`. The user interface lists the
  alerts whose severity reaches a threshold that starts at WARNING.
- **Script trees.** `TreeNode` covers post-order numbering, lookup by post
  id, the two pre-order searches the engine uses, deep equality, and the
  line rendering with its per-line annotations.

Everything in the engine that works by mutation is modelled on objects:

- `Mod`, `ModFile` and `ModList` are classes whose fields the methods update.
- `Definition` and `GameFolder` are classes with fixed fields, because the
  engine compares them by identity.
- Each engine stage is a method. Its `ensures` pins the fields it fills to a
  ghost specification over the loaded mods (modules `ModListSpec`,
  `ShadowingSpec`, `ConflictSpec`). Lemmas state what those specifications
  mean.
- Hash-set and hash-map iteration order is modelled as an arbitrary choice.
  The ghost results of the stages record the order chosen, and the
  specifications hold for every order.

Modules and files:

- `severity.dfy` Severities
- `merge_behaviour.dfy` MergeBehaviours
- `entities.dfy` Entities: GameFolder, ModFile, Definition, Mod and parsing
- `alerts.dfy` Alerts
- `util.dfy` Util
- `dependency_graph.dfy` DependencyGraph: the dependency closure and its search
- `mod_list_spec.dfy` ModListSpec
- `shadowing.dfy` ShadowingSpec
- `conflicts_spec.dfy` ConflictSpec
- `mod_list.dfy` ModLists: the `ModList` class
- `tree_node.dfy` Trees
- `wrappers.dfy` Wrappers: Option

## Model

| member | source | states |
|---|---|---|
| Severities.Ordinal | aenigma/src/main/java/jay/aenigma/Severity.java:6-13 | each level's ordinal indexes back to that level in declaration order |
| Severities.StrictlyOrdered | aenigma/src/main/java/jay/aenigma/Severity.java:6-13 | the six levels are pairwise distinct and compare strictly ascending in declaration order |
| Severities.CompareToIsTotalOrder | aenigma/src/main/java/jay/aenigma/Severity.java:6-13 | `compareTo` is zero exactly on equal levels, antisymmetric and transitive |
| Severities.DefaultThresholdShows | aenigma/src/main/java/jay/aenigma/GlobalState.java:30 | with the initial minimal severity WARNING, exactly WARNING, ERROR and CRITICAL alerts are listed |
| Severities.ShownIsMonotone | aenigma/src/main/java/jay/aenigma/gui/Gui.java:623 | raising the minimal severity never lists an alert that a lower one hides |
| MergeBehaviours.Ordinal | aenigma/src/main/java/jay/aenigma/MergeBehaviour.java:7-22 | each policy's ordinal indexes back to that policy in declaration order |
| MergeBehaviours.StrictlyOrdered | aenigma/src/main/java/jay/aenigma/MergeBehaviour.java:7-22 | the ten policies are distinct and compare strictly ascending in declaration order |
| MergeBehaviours.RanksAboveNoOpIffApplicable | aenigma/src/main/java/jay/aenigma/ModList.java:288 | a policy compares above NOT_APPLICABLE exactly when it is not NOT_APPLICABLE |
| MergeBehaviours.SeverityTable | aenigma/src/main/java/jay/aenigma/MergeBehaviour.java:8-21 | which policies carry TRIVIAL, INFO, WARNING and ERROR; none carries BAD_STYLE or CRITICAL |
| MergeBehaviours.SeverityIsMonotone | aenigma/src/main/java/jay/aenigma/MergeBehaviour.java:8-21 | a later policy never carries a lower severity |
| Entities.NameKey | aenigma/src/main/java/jay/aenigma/Mod.java:73 | the key has the path's length, with every `/` replaced by `\` and every other character kept |
| Entities.NameKeyNormal | aenigma/src/main/java/jay/aenigma/Mod.java:73 | a key holds no `/`, and keying a key changes nothing |
| Entities.NameKeyIgnoresSeparator | aenigma/src/main/java/jay/aenigma/Mod.java:73 | paths that differ only in which separator they use share one key |
| Entities.EquivalenceRelation | aenigma/src/main/java/jay/aenigma/Definition.java:62-64 | `isEquivalent` is reflexive, symmetric and transitive |
| Entities.EquivalentIffSameFolderAndName | aenigma/src/main/java/jay/aenigma/Definition.java:62-64 | two definitions are equivalent exactly when they share game folder and name |
| Entities.KeepMembers | aenigma/src/main/java/jay/aenigma/Mod.java:187-190 | a name becomes a definition, tagged with the policy, exactly when the visitor found it and it is not a bad name |
| Entities.TaggedNamesAccepted | aenigma/src/main/java/jay/aenigma/Mod.java:170-171 | no definition carries a reserved name; without a reserved pattern no definition has an empty name |
| Entities.TaggedNamesPolicy | aenigma/src/main/java/jay/aenigma/Mod.java:202-264 | a second-level MERGE_GROUPS folder gives its top-level names as MERGE_GROUPS, then its second-level names as REPLACE; every other file tags each name with its folder's policy |
| Entities.TagDefinitions | aenigma/src/main/java/jay/aenigma/Mod.java:175-265 | the definitions a new file gets are exactly the tagged names of its folder's naming rule, fresh and owned by the file |
| Entities.AddDefinitions | aenigma/src/main/java/jay/aenigma/Mod.java:206-209 | one visitor loop appends a fresh definition for each accepted name, in order, and nothing else |
| Entities.Mod.GetModFileByName | aenigma/src/main/java/jay/aenigma/Mod.java:125-127 | null exactly when no file is registered under the key; otherwise the mod's own file with that key |
| Entities.Mod.RegisteredFilesFound | aenigma/src/main/java/jay/aenigma/Mod.java:165-167 | every registered file is found again under its own key |
| Entities.Mod.AddDependency | aenigma/src/main/java/jay/aenigma/ModList.java:211 | appends one dependency name and leaves files and definitions alone |
| Entities.Mod.ParseFile | aenigma/src/main/java/jay/aenigma/Mod.java:162-272 | registers a fresh file under its key, gives it its folder's tagged names as definitions and appends them to the mod's list and returns the syntax errors; when parsing throws, the file stays registered with no definitions |
| Alerts.KindString | aenigma/src/main/java/jay/aenigma/Alert.java:28-44 | every kind prints as a non-empty text |
| Alerts.KindStringInjective | aenigma/src/main/java/jay/aenigma/Alert.java:28-44 | distinct kinds print distinctly |
| Alerts.StrLeTotalOrder | aenigma/src/main/java/jay/aenigma/Alert.java:20-23 | the lexicographic string order is total, antisymmetric and transitive |
| Alerts.FileLeTotalPreorder | aenigma/src/main/java/jay/aenigma/Alert.java:20-23 | comparing by name key, then by mod name, is a total preorder |
| Alerts.Insert | aenigma/src/main/java/jay/aenigma/Alert.java:60 | inserting a file adds exactly that file to the multiset |
| Alerts.SortFiles | aenigma/src/main/java/jay/aenigma/Alert.java:59-61 | sorting permutes the files |
| Alerts.InsertSorted | aenigma/src/main/java/jay/aenigma/Alert.java:60 | inserting into a sorted list gives a sorted list |
| Alerts.SortFilesSorted | aenigma/src/main/java/jay/aenigma/Alert.java:60 | the sorted files are ordered by the comparator |
| Alerts.SortFilesKeepsSorted | aenigma/src/main/java/jay/aenigma/Alert.java:60 | a list that is already sorted is left exactly as it is |
| Alerts.NewAlert | aenigma/src/main/java/jay/aenigma/Alert.java:54-63 | an alert keeps severity, kind, folder, definition name and message, and holds the given files as a multiset |
| Alerts.NewAlertFiles | aenigma/src/main/java/jay/aenigma/Alert.java:54-63 | an alert's files are sorted and are a permutation of the given files |
| Alerts.NewAlertIdempotent | aenigma/src/main/java/jay/aenigma/Alert.java:54-63 | building an alert again from an alert's own fields gives the same alert |
| Alerts.ToString | aenigma/src/main/java/jay/aenigma/Alert.java:123-143 | builds the header line, the caption line, one quoted line per file and a closing empty line |
| Alerts.AlertTextShape | aenigma/src/main/java/jay/aenigma/Alert.java:123-143 | the text starts with `severity: kind - message` and ends with a line separator |
| Alerts.ListedFilesShape | aenigma/src/main/java/jay/aenigma/Alert.java:112-140 | the `toString` file lines are the `formatFiles` entries, one per file in the same order, each behind a tab; so the lines are one character per file longer |
| Alerts.FormatFiles | aenigma/src/main/java/jay/aenigma/Alert.java:110-120 | builds one entry per file, in order, with the opening quote restored (see Findings) |
| Alerts.FormatEntryUnbalanced | aenigma/src/main/java/jay/aenigma/Alert.java:112-117 | an entry as written holds three quotes where a `toString` line holds four |
| Alerts.QuotedEntryBalanced | aenigma/src/main/java/jay/aenigma/Alert.java:133-139 | the corrected entry holds four quotes and is exactly a `toString` line without its tab |
| Util.MapBy | aenigma/src/main/java/jay/aenigma/Util.java:26-30 | the keys are exactly the keys of the values, and each maps to the last value with that key |
| Util.MapByFnIsLastValue | aenigma/src/main/java/jay/aenigma/Util.java:26-30 | the same, for the function that specifies `mapBy` |
| Util.MultiMapBy | aenigma/src/main/java/jay/aenigma/Util.java:43-52 | the keys are exactly the keys of the values, each mapped to the non-empty list of its values in order |
| Util.MultiMapByFnGroups | aenigma/src/main/java/jay/aenigma/Util.java:43-52 | each group holds exactly the values with that key, and is non-empty |
| Util.MultiMapByFnSizes | aenigma/src/main/java/jay/aenigma/Util.java:43-52 | the group sizes add up to the number of values: each value lands in exactly one group |
| Util.PutAllBy | aenigma/src/main/java/jay/aenigma/Util.java:68-70 | the keys grow by the values' keys; an untouched key keeps its value and a touched one maps to its last value |
| Util.AddAllToBy | aenigma/src/main/java/jay/aenigma/Util.java:82-89 | each key's list is extended by its values in order, and untouched keys keep their lists |
| Util.AddAllFnSpec | aenigma/src/main/java/jay/aenigma/Util.java:82-89 | the same, for the function that specifies `addAllToBy` |
| DependencyGraph.SearchFrom | aenigma/src/main/java/jay/aenigma/ModList.java:360-376 | the encountered set is exactly the set of loaded mods reachable by one or more dependency-name steps |
| DependencyGraph.Search | aenigma/src/main/java/jay/aenigma/ModList.java:361-375 | the breadth-first search ends with a set that holds the direct dependencies, is closed under steps and stays inside any closed bound |
| DependencyGraph.ClosureTransitive | aenigma/src/main/java/jay/aenigma/ModList.java:355-379 | a mod reachable from a reachable mod is reachable |
| ModListSpec.ByNameWellFormed | aenigma/src/main/java/jay/aenigma/ModList.java:358 | the by-name map maps each loaded name to a loaded mod with that name, and has no other keys |
| ModListSpec.DependerMapSpec | aenigma/src/main/java/jay/aenigma/ModList.java:74-86 | a mod has an entry exactly when it is loaded and has a depender, and the entry holds all its dependers |
| ModListSpec.DependsOnTransitive | aenigma/src/main/java/jay/aenigma/ModList.java:64-72 | true dependency is transitive |
| ModListSpec.LoadedDefinitionsOwned | aenigma/src/main/java/jay/aenigma/Definition.java:39-48 | every loaded definition's mod, reached through its file, is a loaded mod that holds both that file and the definition; the definition's folder is its file's folder |
| ModListSpec.VanillaUnderEveryMod | aenigma/src/main/java/jay/aenigma/ModList.java:200-213 | with the list `getMods` builds, and provided no loaded mod is named like vanilla, vanilla depends on nothing and every other loaded mod depends on it |
| ModListSpec.VanillaNameTaken | aenigma/src/main/java/jay/aenigma/ModList.java:200-213 | when a loaded mod carries vanilla's name, the last such mod takes the name in the last-wins name map: vanilla is nobody's true dependency, has no dependers, and that mod depends on itself |
| ShadowingSpec.LoadedShadowSetsSpec | aenigma/src/main/java/jay/aenigma/ModList.java:93-99 | a loaded file is overwritten by the files under its key of the other loaded mods that depend on its mod |
| ShadowingSpec.LoadedShadowersSpec | aenigma/src/main/java/jay/aenigma/ModList.java:123-126 | a definition is redefined by exactly the equivalent definitions of the other loaded mods that depend on its mod |
| ShadowingSpec.FileShadowingLookup | aenigma/src/main/java/jay/aenigma/ModList.java:118-119 | once every file is processed, the lookup of the definition stage gives each file exactly its overwriting files |
| ShadowingSpec.UndefineAlertsAt | aenigma/src/main/java/jay/aenigma/ModList.java:127-138 | the i-th UNDEFINE alert is the warning for the i-th undefined definition, naming it and listing its file and the overwriting files |
| ConflictSpec.Repeat | aenigma/src/main/java/jay/aenigma/ModList.java:318 | a mod added once per file gives a list of that mod of that length |
| ConflictSpec.ModsWithKeyMembers | aenigma/src/main/java/jay/aenigma/ModList.java:313-319 | a mod is listed under a key exactly when it is loaded and holds a file with that key |
| ConflictSpec.FileToModsSpec | aenigma/src/main/java/jay/aenigma/ModList.java:311-322 | a key is present exactly when some loaded mod holds a file with it, and its non-empty list holds exactly those mods |
| ConflictSpec.CleanedSpec | aenigma/src/main/java/jay/aenigma/ModList.java:329-347 | the cleaned list keeps exactly the entries that are vanilla or on which no other entry depends; vanilla stays; a list without dependencies inside it is kept whole |
| ConflictSpec.CleanedWithin | aenigma/src/main/java/jay/aenigma/ModList.java:341-346 | the cleaned list holds only entries of the list |
| ConflictSpec.FilesOf | aenigma/src/main/java/jay/aenigma/ModList.java:252-254 | one file per group member: the file it registers under the key |
| ConflictSpec.FilesOfRegistered | aenigma/src/main/java/jay/aenigma/ModList.java:252-254 | those files carry the key, belong to group members, and every member's file is among them |
| ConflictSpec.FileConflictAlertSpec | aenigma/src/main/java/jay/aenigma/ModList.java:255-257 | a FILE_CONFLICT alert is a warning without definition name, in the first file's folder, listing the same files sorted |
| ConflictSpec.DefinitionsMapOfEnumeration | aenigma/src/main/java/jay/aenigma/ModList.java:406-408 | grouping any enumeration of the unshadowed definitions by name gives the definitions map they specify |
| ConflictSpec.InFolder | aenigma/src/main/java/jay/aenigma/ModList.java:282-284 | the filtered list holds exactly the name's definitions in the folder |
| ConflictSpec.FilesOfDefinitions | aenigma/src/main/java/jay/aenigma/ModList.java:290 | one file per definition: its own |
| ConflictSpec.NameConflictAlertSpec | aenigma/src/main/java/jay/aenigma/ModList.java:285-297 | a NAME_CONFLICT alert is in the folder, carries the severity and name of one of the group's definitions, whose policy is not NOT_APPLICABLE, and lists, sorted, exactly the files of the name's definitions in that folder, once per definition, among them two distinct name keys |
| ConflictSpec.OneFileKeyNoNameConflict | aenigma/src/main/java/jay/aenigma/ModList.java:285-286 | definitions that all lie in files with one name key raise no name conflict |
| ConflictSpec.NameConflictFolderOccurs | aenigma/src/main/java/jay/aenigma/ModList.java:279-281 | only folders that hold one of the name's definitions can conflict |
| ConflictSpec.Pairs | aenigma/src/main/java/jay/aenigma/ModList.java:281 | one (name, folder) pair per conflicting folder, in order |
| ModLists.ModList.constructor | aenigma/src/main/java/jay/aenigma/ModList.java:194-216 | a fresh dependency-free vanilla named after the game comes first, followed by the loaded mods; each loaded mod gets vanilla's name appended to its dependencies |
| ModLists.ModList.RunConflictCheck | aenigma/src/main/java/jay/aenigma/ModList.java:164-186 | runs the stages in order; every field equals its specification, and the alerts are the parse alerts, then the UNDEFINE, FILE_CONFLICT and NAME_CONFLICT alerts, each as its stage specifies |
| ModLists.ModList.DependencyStages | aenigma/src/main/java/jay/aenigma/ModList.java:166-167 | true dependencies, then dependers, as specified |
| ModLists.ModList.LaterStages | aenigma/src/main/java/jay/aenigma/ModList.java:169-185 | the stages after the dependers, each meeting its specification |
| ModLists.ModList.ShadowingStages | aenigma/src/main/java/jay/aenigma/ModList.java:169-175 | the file-to-mods map and both shadowing stages, as specified |
| ModLists.ModList.ConflictStages | aenigma/src/main/java/jay/aenigma/ModList.java:178-184 | the definitions map, then both conflict searches, as specified |
| ModLists.ModList.ResolveTrueDependencies | aenigma/src/main/java/jay/aenigma/ModList.java:355-379 | each loaded mod is mapped to its true dependencies |
| ModLists.ModList.IsTrueDependency | aenigma/src/main/java/jay/aenigma/ModList.java:70-72 | once dependencies are resolved, true exactly when the second mod is a true dependency of the first |
| ModLists.ModList.ComputeDependerMap | aenigma/src/main/java/jay/aenigma/ModList.java:74-86 | the depender map is built as specified |
| ModLists.ModList.DependersOf | aenigma/src/main/java/jay/aenigma/ModList.java:77-84 | the inner loop collects exactly the other loaded mods that depend on the mod |
| ModLists.ModList.ComputeFileShadowing | aenigma/src/main/java/jay/aenigma/ModList.java:88-108 | every loaded file ends either unshadowed, when nothing overwrites it, or mapped to its overwriting files |
| ModLists.ModList.ShadowFiles | aenigma/src/main/java/jay/aenigma/ModList.java:91-107 | the loops of the file-shadowing stage meet that specification |
| ModLists.ModList.ShadowFilesOf | aenigma/src/main/java/jay/aenigma/ModList.java:92-106 | one mod's files are classified as specified |
| ModLists.ModList.ComputeDefinitionShadowing | aenigma/src/main/java/jay/aenigma/ModList.java:110-151 | every loaded definition ends unshadowed, mapped to its redefinitions, or undefined; one UNDEFINE alert per undefined definition, in order |
| ModLists.ModList.ShadowAllDefinitions | aenigma/src/main/java/jay/aenigma/ModList.java:114-149 | the loop over the mods meets that specification |
| ModLists.ModList.ShadowDefinitions | aenigma/src/main/java/jay/aenigma/ModList.java:115-148 | one mod's definitions are classified, whether or not the mod has dependers |
| ModLists.ModList.ShadowDependeeDefinitions | aenigma/src/main/java/jay/aenigma/ModList.java:117-144 | the definitions of a mod with dependers are classified as specified |
| ModLists.ModList.ShadowDefinition | aenigma/src/main/java/jay/aenigma/ModList.java:118-142 | one definition is classified as specified |
| ModLists.ModList.UndefineAlert | aenigma/src/main/java/jay/aenigma/ModList.java:128-138 | the warning names the definition and its folder, and lists its file and the overwriting files, sorted |
| ModLists.ModList.GetFileToModsMap | aenigma/src/main/java/jay/aenigma/ModList.java:311-322 | the map equals its specification |
| ModLists.ModList.AddModFiles | aenigma/src/main/java/jay/aenigma/ModList.java:314-319 | each key's list grows by the mod once per file it holds under that key |
| ModLists.ModList.CleanConflictList | aenigma/src/main/java/jay/aenigma/ModList.java:329-347 | the result is the cleaned list |
| ModLists.ModList.FindFileNameConflicts | aenigma/src/main/java/jay/aenigma/ModList.java:245-265 | one FILE_CONFLICT alert per key whose cleaned list is long enough, each key once; every alert is a warning without definition name |
| ModLists.ModList.FileNameConflict | aenigma/src/main/java/jay/aenigma/ModList.java:249-260 | an alert exactly when the key conflicts, and then the alert the key specifies |
| ModLists.ModList.GetDefinitionsMap | aenigma/src/main/java/jay/aenigma/ModList.java:406-408 | the unshadowed definitions grouped by name, over an enumeration that holds each once |
| ModLists.ModList.FindDefinitionConflicts | aenigma/src/main/java/jay/aenigma/ModList.java:272-305 | one NAME_CONFLICT alert per conflicting (name, folder) pair, each pair once; no alert is TRIVIAL |
| ModLists.ModList.FindConflictsOfName | aenigma/src/main/java/jay/aenigma/ModList.java:279-300 | for one name, exactly the conflicting folders, each once, with their alerts, none of them TRIVIAL |
| ModLists.ModList.NameConflictIn | aenigma/src/main/java/jay/aenigma/ModList.java:282-298 | an alert exactly when the name conflicts in the folder, and then the alert it specifies |
| Trees.TreeNode.constructor | aenigma/src/main/java/jay/aenigma/ckii/TreeNode.java:23-28 | a new node has the given label and children, annotation -1 and post id 0 |
| Trees.IndentedSpec | aenigma/src/main/java/jay/aenigma/ckii/TreeNode.java:147-149 | each moved line is the child's line behind one tab |
| Trees.FirstSpec | aenigma/src/main/java/jay/aenigma/ckii/TreeNode.java:164-195 | the reference search finds a passing node with no passing node before it, or reports that none passes |
| Trees.TreeNode.PreOrderPermutesPostOrder | aenigma/src/main/java/jay/aenigma/ckii/TreeNode.java:30-73 | the pre-order walk of the lookups and the post-order walk of the numbering visit the same nodes |
| Trees.TreeNode.Identify | aenigma/src/main/java/jay/aenigma/ckii/TreeNode.java:30-38 | the k-th node in post order gets id start + k, the next free id is returned, and only post ids are written: every annotation keeps its value |
| Trees.TreeNode.FindByPostIdSpec | aenigma/src/main/java/jay/aenigma/ckii/TreeNode.java:60-73 | a found node has the id and lies in the tree; when none is found no node has it |
| Trees.TreeNode.IdentifiedLookup | aenigma/src/main/java/jay/aenigma/ckii/TreeNode.java:30-73 | after numbering, looking up start + k finds the k-th node in post order, and ids out of range find nothing |
| Trees.TreeNode.FindByLabelIsFirst | aenigma/src/main/java/jay/aenigma/ckii/TreeNode.java:164-177 | the result is the first node in pre-order whose label matches |
| Trees.TreeNode.FindByNameFieldIsFirst | aenigma/src/main/java/jay/aenigma/ckii/TreeNode.java:179-195 | the result is the first node in pre-order with a matching child label, and is never terminal |
| Trees.TreeNode.DeepEqualsReflexive | aenigma/src/main/java/jay/aenigma/ckii/TreeNode.java:197-207 | every tree deep-equals itself |
| Trees.TreeNode.DeepEqualsSymmetric | aenigma/src/main/java/jay/aenigma/ckii/TreeNode.java:197-207 | deep equality is symmetric |
| Trees.TreeNode.DeepEqualsSameLines | aenigma/src/main/java/jay/aenigma/ckii/TreeNode.java:197-207 | deep-equal trees render the same lines |
| Trees.TreeNode.AnnotationPerLine | aenigma/src/main/java/jay/aenigma/ckii/TreeNode.java:105-128 | `annotations` gives exactly one annotation per line of `toStrings` |
| Trees.TreeNode.BlockLines | aenigma/src/main/java/jay/aenigma/ckii/TreeNode.java:142-153 | an inner node renders its opening line, its children's lines each behind a tab, and `}` |
| Trees.TreeNode.LinesNonEmpty | aenigma/src/main/java/jay/aenigma/ckii/TreeNode.java:130-154 | a node that is not the root renders at least one line |
| Trees.TreeNode.ToStrings | aenigma/src/main/java/jay/aenigma/ckii/TreeNode.java:130-154 | the lines built are the node's rendering |
| Trees.TreeNode.ChildStrings | aenigma/src/main/java/jay/aenigma/ckii/TreeNode.java:138-140 | the children's lines, in order |
| Trees.TreeNode.BlockStrings | aenigma/src/main/java/jay/aenigma/ckii/TreeNode.java:142-153 | an inner node's lines, as its rendering specifies |
| Trees.TreeNode.MoveIndented | aenigma/src/main/java/jay/aenigma/ckii/TreeNode.java:146-149 | draining a child's lines appends them, each behind a tab, in order |
| Trees.TreeNode.Annotations | aenigma/src/main/java/jay/aenigma/ckii/TreeNode.java:105-128 | the annotations built are the node's per-line annotations |

## Left out

- `computeEditMapping` (`ckii/TreeNode.java:76-103`) is not modelled. It runs the APTED tree-edit-distance library, which is not part of this model, and writes the resulting annotations.
- `TreeNode.valueOf` and the ANTLR lexers, parsers and name visitors are not modelled. `Mod.ParseFile` takes the parser's outcome as an input: the name lists the visitors found and the syntax errors, or the fact that parsing threw.
- Trees are built by the `TreeNode` constructor with a fixed list of children. The tree library's child insertion lives outside the repository. `annotation` and the post id stay mutable.
- `makeLabelMatcher` and `makeLabelNameMatcher` build regular expressions. The searches take the matcher as a `string -> bool` parameter instead.
- A game folder's reserved-name pattern is likewise a `string -> bool` parameter.
- `TreeNode.toString` joins the rendered lines with CRLF. The model stops at the lines.
- `parseAllModFiles` runs every mod's parse in a thread pool. Threads and file I/O are not modelled. `RunConflictCheck` takes the parse alerts as an input and expects the mods to be parsed already. In the source, parsing runs after `computeDependerMap`; those two stages read only dependency names, so the order does not change what they compute.
- The alerts `AlertErrorListener` builds are not modelled.
- Settings-file reading (`getModPathList`), `Mod.load`, zip file systems, `close`, logging and timing are not modelled.
- Hash iteration order is not modelled. The model chooses an arbitrary order; the ghost results of the stages name it, and the specifications hold for every order.
- Entities.Mod.ParseFile: an exception is modelled as thrown before any definition is added. The source's catch would also keep definitions added to the file before a failure inside a visitor.
- ConflictSpec.NameConflictAlertSpec: states the alert's policy as that of some definition of the name in the folder. `ConflictSpec.NameConflictAlert`, which the methods are proved to produce, takes the first one's, as the source does.
- Alerts.StrLeTotalOrder: strings are compared by Unicode code point, while Java's `String.compareTo` compares UTF-16 code units. The two orders differ only between a supplementary character (U+10000 and above) and one in U+E000-U+FFFF, so `FileLe`, `SortFiles` and the file order of every alert follow the code-point order for names that mix the two.
- ModListSpec.VanillaUnderEveryMod: requires that no loaded mod carries vanilla's name `"(Vanilla) " + game`. `getMods` does not check this, since a mod's name comes from its descriptor. `ModListSpec.VanillaNameTaken` states what happens then: the name map's last-wins rule hands the name to the other mod, which leaves vanilla out of every closure and without dependers, so the shadowing stages find nothing that overwrites vanilla's files.
- Alerts.FormatFiles: builds the corrected entry, not the source's entry without an opening quote (see Findings).
- The names of game folders (`GameFolder.toString`) are a field of the model's `GameFolder`.
- The CK II folder table (`CkiiFolder`) is not modelled. Folders are built by the `GameFolder` constructor from a name, a policy, a naming rule and an optional reserved-name predicate.

## Findings

| source | as written | input that shows it | evidently intended | confidence | as-written member | corrected member |
|---|---|---|---|---|---|---|
| aenigma/src/main/java/jay/aenigma/Alert.java:112-117 | each `formatFiles` entry is `key" in "mod"`: the key has a closing quote but no opening one | a file `common\a.txt` of mod `M` gives `common\a.txt" in "M"`, with three quotes | `"common\a.txt" in "M"`, the same quoting as the file lines of `toString` | not executed | Alerts.FormatEntryUnbalanced | Alerts.QuotedEntryBalanced |
