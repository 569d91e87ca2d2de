/**
 * Alerts (Alert.java): one problem found in the user's setup, with the files
 * involved kept sorted by file name key and then by the owning mod's name, and
 * the two text renderings used by the user interface.
 */
module Alerts {
  import opened Wrappers
  import opened Severities
  import opened Entities

  /** The cause of an alert. */
  datatype Kind = ParseError | FileConflict | NameConflict | Undefine

  /** `Kind.toString()`: the display string fixed for each kind. */
  function KindString(k: Kind): (r: string)
    ensures |r| > 0
  {
    match k
    case ParseError => "Parse error"
    case FileConflict => "File conflict"
    case NameConflict => "Name conflict"
    case Undefine => "Missing definition"
  }

  /** The display strings tell the kinds apart. */
  lemma KindStringInjective(a: Kind, b: Kind)
    ensures KindString(a) == KindString(b) <==> a == b
  {
  }

  /** An alert. `definitionName` is None where the source passes null. */
  datatype Alert = Alert(
    severity: Severity,
    kind: Kind,
    gameFolder: GameFolder,
    files: seq<ModFile>,
    definitionName: Option<string>,
    message: string)

  /**
   * The order of `String.compareTo(a, b) <= 0`: lexicographic by character, a
   * proper prefix first. Characters compare by code point here; Java compares
   * UTF-16 code units, which orders the same except between a supplementary
   * character and one in U+E000-U+FFFF.
   */
  predicate StrLe(a: string, b: string)
  {
    if a == [] then true
    else if b == [] then false
    else if a[0] != b[0] then a[0] < b[0]
    else StrLe(a[1..], b[1..])
  }

  /** The string order is total, antisymmetric and transitive. */
  lemma {:induction false} StrLeTotalOrder(a: string, b: string, c: string)
    ensures StrLe(a, b) || StrLe(b, a)
    ensures StrLe(a, b) && StrLe(b, a) ==> a == b
    ensures StrLe(a, b) && StrLe(b, c) ==> StrLe(a, c)
  {
    if a != [] && b != [] && c != [] {
      StrLeTotalOrder(a[1..], b[1..], c[1..]);
      if StrLe(a, b) && StrLe(b, a) {
        assert a == [a[0]] + a[1..] && b == [b[0]] + b[1..];
      }
    } else if a != [] && b != [] {
      StrLeTotalOrder(a[1..], b[1..], b[1..]);
      if StrLe(a, b) && StrLe(b, a) {
        assert a == [a[0]] + a[1..] && b == [b[0]] + b[1..];
      }
    }
  }

  /**
   * The comparator of the constructor, `comparing(getName).thenComparing(mod name)`,
   * as "x sorts no later than y".
   */
  predicate FileLe(x: ModFile, y: ModFile)
  {
    (StrLe(x.name, y.name) && x.name != y.name) || (x.name == y.name && StrLe(x.mod.name, y.mod.name))
  }

  /** The comparator is a total preorder. */
  lemma FileLeTotalPreorder(x: ModFile, y: ModFile, z: ModFile)
    ensures FileLe(x, y) || FileLe(y, x)
    ensures FileLe(x, y) && FileLe(y, z) ==> FileLe(x, z)
  {
    StrLeTotalOrder(x.name, y.name, z.name);
    StrLeTotalOrder(x.mod.name, y.mod.name, z.mod.name);
  }

  /** Ascending by file name key, then by mod name. */
  ghost predicate Sorted(s: seq<ModFile>)
  {
    forall i, j :: 0 <= i < j < |s| ==> FileLe(s[i], s[j])
  }

  /** Puts x after every element that sorts no later than it, keeping equal elements in their order. */
  function Insert(s: seq<ModFile>, x: ModFile): (r: seq<ModFile>)
    ensures multiset(r) == multiset(s) + multiset{x}
  {
    if s == [] || FileLe(s[|s| - 1], x) then s + [x]
    else
      var n := |s| - 1;
      assert s == s[..n] + [s[n]];
      Insert(s[..n], x) + [s[n]]
  }

  /** The stable sort that `List.sort` performs with the constructor's comparator. */
  function SortFiles(s: seq<ModFile>): (r: seq<ModFile>)
    ensures multiset(r) == multiset(s)
  {
    if s == [] then []
    else
      var n := |s| - 1;
      assert s == s[..n] + [s[n]];
      Insert(SortFiles(s[..n]), s[n])
  }

  lemma {:induction false} InsertSorted(s: seq<ModFile>, x: ModFile)
    requires Sorted(s)
    ensures Sorted(Insert(s, x))
  {
    if s == [] {
    } else if FileLe(s[|s| - 1], x) {
      forall i | 0 <= i < |s| ensures FileLe(s[i], x) {
        FileLeTotalPreorder(s[i], s[|s| - 1], x);
      }
    } else {
      var n := |s| - 1;
      var r := Insert(s[..n], x);
      InsertSorted(s[..n], x);
      FileLeTotalPreorder(x, s[n], s[n]);
      forall i | 0 <= i < |r| ensures FileLe(r[i], s[n]) {
        assert r[i] in multiset(r);
        if r[i] != x {
          assert r[i] in multiset(s[..n]);
          var k :| 0 <= k < n && s[..n][k] == r[i];
          assert s[k] == r[i];
        }
      }
    }
  }

  /** The stored list is sorted by the comparator. */
  lemma {:induction false} SortFilesSorted(s: seq<ModFile>)
    ensures Sorted(SortFiles(s))
  {
    if s != [] {
      var n := |s| - 1;
      SortFilesSorted(s[..n]);
      InsertSorted(SortFiles(s[..n]), s[n]);
    }
  }

  lemma SortedInit(s: seq<ModFile>)
    requires Sorted(s) && s != []
    ensures Sorted(s[..|s| - 1])
    ensures |s| > 1 ==> FileLe(s[..|s| - 1][|s| - 2], s[|s| - 1])
  {
    var init := s[..|s| - 1];
    forall i, j | 0 <= i < j < |init| ensures FileLe(init[i], init[j]) {
      assert init[i] == s[i] && init[j] == s[j];
    }
  }

  /** A list that is already sorted comes back unchanged. */
  lemma {:induction false} SortFilesKeepsSorted(s: seq<ModFile>)
    requires Sorted(s)
    ensures SortFiles(s) == s
  {
    if s != [] {
      var n := |s| - 1;
      var init := s[..n];
      SortedInit(s);
      SortFilesKeepsSorted(init);
      assert SortFiles(s) == Insert(init, s[n]);
      assert init + [s[n]] == s;
    }
  }

  /** The constructor: the file list is copied and sorted; the other fields are stored as given. */
  function NewAlert(severity: Severity, kind: Kind, gameFolder: GameFolder, files: seq<ModFile>,
                    definitionName: Option<string>, message: string): (a: Alert)
    ensures a.severity == severity && a.kind == kind && a.gameFolder == gameFolder
    ensures a.definitionName == definitionName && a.message == message
    ensures multiset(a.files) == multiset(files)
  {
    Alert(severity, kind, gameFolder, SortFiles(files), definitionName, message)
  }

  /** The stored list is sorted and is a permutation of the given one. */
  lemma NewAlertFiles(severity: Severity, kind: Kind, gameFolder: GameFolder, files: seq<ModFile>,
                      definitionName: Option<string>, message: string)
    ensures Sorted(NewAlert(severity, kind, gameFolder, files, definitionName, message).files)
    ensures multiset(NewAlert(severity, kind, gameFolder, files, definitionName, message).files) == multiset(files)
  {
    SortFilesSorted(files);
  }

  /** Building an alert again from an alert's own fields gives the same alert. */
  lemma NewAlertIdempotent(severity: Severity, kind: Kind, gameFolder: GameFolder, files: seq<ModFile>,
                           definitionName: Option<string>, message: string)
    ensures var a := NewAlert(severity, kind, gameFolder, files, definitionName, message);
      NewAlert(a.severity, a.kind, a.gameFolder, a.files, a.definitionName, a.message) == a
  {
    SortFilesSorted(files);
    SortFilesKeepsSorted(SortFiles(files));
  }

  /** The literal pieces the two renderings append. */
  const Quote: string := "\""
  const Tab: string := "\t"
  const InSeparator: string := "\" in \""
  const Caption: string := "The offending files are:"

  /** One entry of `formatFiles` as written: the file's key, `" in "`, the mod's name, a quote and the line separator. */
  function FormatEntry(f: ModFile, lineSeparator: string): string
  {
    f.name + InSeparator + f.mod.name + Quote + lineSeparator
  }

  /** The text `formatFiles` is meant to build: one quoted entry per stored file, in order. */
  function FormatFilesText(files: seq<ModFile>, lineSeparator: string): string
  {
    if files == [] then []
    else FormatFilesText(files[..|files| - 1], lineSeparator) + QuotedEntry(files[|files| - 1], lineSeparator)
  }

  /** `formatFiles` with the opening quote of each entry restored, appending to a builder file by file. */
  method FormatFiles(a: Alert, lineSeparator: string) returns (s: string)
    ensures s == FormatFilesText(a.files, lineSeparator)
  {
    s := [];
    for i := 0 to |a.files|
      invariant s == FormatFilesText(a.files[..i], lineSeparator)
    {
      var file := a.files[i];
      assert a.files[..i + 1][..i] == a.files[..i];
      s := s + Quote;
      s := s + file.name;
      s := s + InSeparator;
      s := s + file.mod.name;
      s := s + Quote;
      s := s + lineSeparator;
    }
    assert a.files[..|a.files|] == a.files;
  }

  /** The first line of `toString`: severity, kind and message. */
  function Header(a: Alert): string
  {
    Name(a.severity) + ": " + KindString(a.kind) + " - " + a.message
  }

  /** One file line of `toString`: a tab, then the key and the mod name, each in quotes. */
  function ListedFile(f: ModFile, lineSeparator: string): string
  {
    Tab + Quote + f.name + InSeparator + f.mod.name + Quote + lineSeparator
  }

  function ListedFiles(files: seq<ModFile>, lineSeparator: string): string
  {
    if files == [] then []
    else ListedFiles(files[..|files| - 1], lineSeparator) + ListedFile(files[|files| - 1], lineSeparator)
  }

  /** The text `toString` builds: the header line, a caption line, one line per file and an empty line. */
  function AlertText(a: Alert, lineSeparator: string): string
  {
    Header(a) + lineSeparator + Caption + lineSeparator + ListedFiles(a.files, lineSeparator) + lineSeparator
  }

  /** `toString`, appending to a builder piece by piece. */
  method ToString(a: Alert, lineSeparator: string) returns (s: string)
    ensures s == AlertText(a, lineSeparator)
  {
    s := Name(a.severity);
    s := s + ": ";
    s := s + KindString(a.kind);
    s := s + " - ";
    s := s + a.message;
    assert s == Header(a);
    s := s + lineSeparator;
    s := s + Caption;
    s := s + lineSeparator;
    ghost var header := s;
    assert header == Header(a) + lineSeparator + Caption + lineSeparator;
    for i := 0 to |a.files|
      invariant s == header + ListedFiles(a.files[..i], lineSeparator)
    {
      var file := a.files[i];
      assert a.files[..i + 1][..i] == a.files[..i];
      s := s + Tab + Quote;
      s := s + file.name;
      s := s + InSeparator;
      s := s + file.mod.name;
      s := s + Quote;
      s := s + lineSeparator;
    }
    assert a.files[..|a.files|] == a.files;
    s := s + lineSeparator;
    assert s == header + ListedFiles(a.files, lineSeparator) + lineSeparator;
  }

  /** The text starts with `severity: kind - message` and ends with an empty line. */
  lemma AlertTextShape(a: Alert, lineSeparator: string)
    ensures AlertText(a, lineSeparator)[..|Header(a)|] == Header(a)
    ensures AlertText(a, lineSeparator)[|AlertText(a, lineSeparator)| - |lineSeparator|..] == lineSeparator
  {
    var t := AlertText(a, lineSeparator);
    var rest := lineSeparator + Caption + lineSeparator + ListedFiles(a.files, lineSeparator) + lineSeparator;
    assert t == Header(a) + rest;
  }

  /** The quoted entries of the files, in order, each behind the given prefix. */
  function Entries(prefix: string, files: seq<ModFile>, lineSeparator: string): string
  {
    if files == [] then []
    else Entries(prefix, files[..|files| - 1], lineSeparator) + prefix + QuotedEntry(files[|files| - 1], lineSeparator)
  }

  /**
   * The file lines of `toString` are the `formatFiles` entries, one per file
   * and in the same order, each behind a tab.
   */
  lemma {:induction false} ListedFilesShape(files: seq<ModFile>, lineSeparator: string)
    ensures ListedFiles(files, lineSeparator) == Entries(Tab, files, lineSeparator)
    ensures FormatFilesText(files, lineSeparator) == Entries([], files, lineSeparator)
    ensures |ListedFiles(files, lineSeparator)| == |files| + |FormatFilesText(files, lineSeparator)|
  {
    if files != [] {
      var n := |files| - 1;
      ListedFilesShape(files[..n], lineSeparator);
      var f := files[n];
      assert ListedFile(f, lineSeparator) == Tab + QuotedEntry(f, lineSeparator);
      assert [] + QuotedEntry(f, lineSeparator) == QuotedEntry(f, lineSeparator);
    }
  }

  /** The number of double quotes in a string. */
  function Quotes(s: string): nat
  {
    multiset(s)['"']
  }

  /**
   * For a key and mod name without quotes and a line separator without quotes,
   * a `toString` line holds four quotes but a `formatFiles` entry only three:
   * the entry lacks its opening quote.
   */
  lemma FormatEntryUnbalanced(f: ModFile, lineSeparator: string)
    requires Quotes(f.name) == 0 && Quotes(f.mod.name) == 0 && Quotes(lineSeparator) == 0
    ensures Quotes(FormatEntry(f, lineSeparator)) == 3
    ensures Quotes(ListedFile(f, lineSeparator)) == 4
  {
    assert Quotes(InSeparator) == 2;
    assert Quotes(Quote) == 1;
    assert Quotes(Tab) == 0;
  }

  /** The entry `formatFiles` evidently means to write: the `toString` line without its tab. */
  function QuotedEntry(f: ModFile, lineSeparator: string): string
  {
    Quote + f.name + InSeparator + f.mod.name + Quote + lineSeparator
  }

  /** The corrected entry quotes both the key and the mod name, and is exactly a `toString` line after its tab. */
  lemma QuotedEntryBalanced(f: ModFile, lineSeparator: string)
    requires Quotes(f.name) == 0 && Quotes(f.mod.name) == 0 && Quotes(lineSeparator) == 0
    ensures Quotes(QuotedEntry(f, lineSeparator)) == 4
    ensures ListedFile(f, lineSeparator) == Tab + QuotedEntry(f, lineSeparator)
  {
    assert Quotes(InSeparator) == 2;
    assert Quotes(Quote) == 1;
  }
}
