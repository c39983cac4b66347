/** The workspace sampler of out/SidebarProvider.js (`getAllWorkspaceFiles`):
    the workspace's text files are compressed and put in buckets by folder,
    at most two files per folder are selected (priority files first, then
    normal files, then configuration files), the selection is regrouped by
    top-level source folder, and the groups are packed into one text of at
    most 40000 characters.

    The workspace search, the reading of each document and the two
    compressors are not part of this model: the files arrive as values and
    the compressors as the functions `strip` (comments removed) and
    `skeleton` (bodies elided). */
module Sampler {
  import opened Wrappers
  import opened Strings

  // ---------------------------------------------------------------------------
  // Constants and file classes
  // ---------------------------------------------------------------------------

  /** `targetSize`: the budget of the packed text, in characters. */
  const TargetSize: nat := 40000

  /** `maxFilesPerFolder`. */
  const MaxFilesPerFolder: nat := 2

  /** The extensions `isTextFile` accepts. */
  const TextExtensions: seq<string> := [
    ".js", ".jsx", ".ts", ".tsx", ".vue", ".svelte", ".astro",
    ".php", ".py", ".rb", ".go", ".rs", ".java", ".c", ".cpp", ".cs", ".scala", ".kt",
    ".html", ".css", ".scss", ".json", ".md", ".txt", ".xml", ".yml", ".yaml", ".ini", ".env",
    ".ejs", ".hbs", ".pug", ".njk"
  ]

  /** The stems of the `isPriorityFile` pattern. The pattern's `types?`,
      `interfaces?` and `routes?` match wherever `type`, `interface` and
      `route` occur, since only the existence of a match is asked. */
  const PriorityStems: seq<string> := [
    "model", "schema", "entity", "type", "interface", "dto", "config", "api", "route", "validation"
  ]

  /** The names `isConfigFile` looks for. */
  const ConfigPatterns: seq<string> := [
    "eslint.config.js", "tsconfig.json", "tsconfig.app.json", "tsconfig.node.json",
    "vite.config", "webpack.config", "postcss.config", "tailwind.config", "package.json"
  ]

  predicate ContainsAny(s: string, pats: seq<string>) {
    exists i :: 0 <= i < |pats| && Contains(s, pats[i])
  }

  /** `isTextFile(filePath)`: the lower-cased extension is in the list. */
  predicate IsTextFile(path: string) {
    ToLower(Extname(path)) in TextExtensions
  }

  /** `isPriorityFile(filePath)`: a stem occurs, in any letter case. */
  predicate IsPriorityFile(path: string) {
    ContainsAny(ToLower(path), PriorityStems)
  }

  /** `isConfigFile(filePath)`: a configuration name occurs, as written. */
  predicate IsConfigFile(path: string) {
    ContainsAny(path, ConfigPatterns)
  }

  /** An occurrence of `pat` holds an occurrence of each part of `pat`. */
  lemma OccursInside(s: string, pat: string, k: nat, sub: string, o: nat)
    requires OccursAt(s, pat, k) && OccursAt(pat, sub, o)
    ensures OccursAt(s, sub, k + o)
  {
    forall j | 0 <= j < |sub|
      ensures s[k + o + j] == sub[j]
    {
      assert s[k + o + j] == s[k..k + |pat|][o + j];
      assert pat[o + j] == pat[o..o + |sub|][j];
    }
  }

  /** Lower-casing keeps an occurrence of a lower-case word. */
  lemma OccursLowered(s: string, sub: string, k: nat)
    requires OccursAt(s, sub, k)
    requires forall j :: 0 <= j < |sub| ==> !('A' <= sub[j] <= 'Z')
    ensures OccursAt(ToLower(s), sub, k)
  {
    forall j | 0 <= j < |sub|
      ensures ToLower(s)[k + j] == sub[j]
    {
      assert s[k + j] == s[k..k + |sub|][j];
    }
  }

  /** Where `config` occurs in each configuration name but the last. */
  function ConfigOffset(i: nat): nat {
    if i == 0 then 7 else if i <= 3 then 2 else if i == 4 then 5 else if i <= 6 then 8 else 9
  }

  lemma ConfigNamesHoldConfig(i: nat)
    requires i < 8
    ensures OccursAt(ConfigPatterns[i], "config", ConfigOffset(i))
  {
    var pat := ConfigPatterns[i];
    match i
    case 0 => ConfigAt(pat, 7);
    case 1 => ConfigAt(pat, 2);
    case 2 => ConfigAt(pat, 2);
    case 3 => ConfigAt(pat, 2);
    case 4 => ConfigAt(pat, 5);
    case 5 => ConfigAt(pat, 8);
    case 6 => ConfigAt(pat, 8);
    case 7 => ConfigAt(pat, 9);
  }

  /** `config` spelled out at `k`. */
  lemma ConfigAt(s: string, k: nat)
    requires k + 6 <= |s|
    requires s[k] == 'c' && s[k + 1] == 'o' && s[k + 2] == 'n'
    requires s[k + 3] == 'f' && s[k + 4] == 'i' && s[k + 5] == 'g'
    ensures OccursAt(s, "config", k)
  {
    assert s[k..k + 6] == "config";
  }

  /** Every configuration name but `package.json` holds `config`, so every
      configuration file but `package.json` is also a priority file: the two
      classes overlap. */
  lemma ConfigIsPriority(path: string)
    requires IsConfigFile(path) && !Contains(path, "package.json")
    ensures IsPriorityFile(path)
  {
    var i :| 0 <= i < |ConfigPatterns| && Contains(path, ConfigPatterns[i]);
    assert i != 8;
    ConfigWordIn(path, i);
    assert PriorityStems[6] == "config";
  }

  /** A path holding one of the first eight configuration names holds
      `config` once lower-cased. */
  lemma ConfigWordIn(path: string, i: nat)
    requires i < 8 && Contains(path, ConfigPatterns[i])
    ensures Contains(ToLower(path), "config")
  {
    var pat := ConfigPatterns[i];
    ContainsIff(path, pat);
    var k :| OccursAt(path, pat, k);
    var o := ConfigOffset(i);
    ConfigNamesHoldConfig(i);
    OccursInside(path, pat, k, "config", o);
    OccursLowered(path, "config", k + o);
    ContainsIff(ToLower(path), "config");
  }

  // ---------------------------------------------------------------------------
  // Candidates
  // ---------------------------------------------------------------------------

  /** A workspace file: its path and its text. */
  datatype WorkspaceFile = WorkspaceFile(fsPath: string, text: string)

  /** An entry of a folder bucket. */
  datatype SampledFile = SampledFile(path: string, code: string, priority: bool, config: bool)

  /** The bucket entry for one file, or `None` when the file is skipped: it
      is not a text file, or it compresses to nothing. */
  function Sample(f: WorkspaceFile, strip: string -> string, skeleton: string -> string): Option<SampledFile> {
    if !IsTextFile(f.fsPath) then None
    else
      var priority := IsPriorityFile(f.fsPath);
      var code := if priority then strip(f.text) else skeleton(f.text);
      if |code| == 0 then None
      else Some(SampledFile(f.fsPath, code, priority, IsConfigFile(f.fsPath)))
  }

  /** The entries of all files, in workspace order. */
  function Candidates(files: seq<WorkspaceFile>, strip: string -> string, skeleton: string -> string)
    : (cs: seq<SampledFile>)
    ensures |cs| <= |files|
  {
    if |files| == 0 then []
    else
      var n := |files| - 1;
      Candidates(files[..n], strip, skeleton) +
        match Sample(files[n], strip, skeleton) case None => [] case Some(c) => [c]
  }

  /** `c` is the entry of workspace file `f`: same path, the classes of that
      path, and the non-empty compression they choose, comments stripped for
      priority files and the skeleton otherwise. */
  predicate EntryOf(c: SampledFile, f: WorkspaceFile, strip: string -> string, skeleton: string -> string) {
    && c.path == f.fsPath
    && IsTextFile(c.path)
    && c.priority == IsPriorityFile(c.path)
    && c.config == IsConfigFile(c.path)
    && c.code == (if c.priority then strip(f.text) else skeleton(f.text))
    && |c.code| > 0
  }

  /** Every entry is the entry of a workspace file. */
  lemma {:induction false} CandidatesSpec(files: seq<WorkspaceFile>, strip: string -> string, skeleton: string -> string)
    ensures forall c :: c in Candidates(files, strip, skeleton) ==>
      exists f :: f in files && EntryOf(c, f, strip, skeleton)
  {
    if |files| > 0 {
      var n := |files| - 1;
      CandidatesSpec(files[..n], strip, skeleton);
      forall c | c in Candidates(files, strip, skeleton)
        ensures exists f :: f in files && EntryOf(c, f, strip, skeleton)
      {
        if c in Candidates(files[..n], strip, skeleton) {
          var f :| f in files[..n] && EntryOf(c, f, strip, skeleton);
          assert f in files;
        } else {
          assert files[n] in files && EntryOf(c, files[n], strip, skeleton);
        }
      }
    }
  }

  // ---------------------------------------------------------------------------
  // Buckets: a dictionary of lists whose keys keep their insertion order
  // ---------------------------------------------------------------------------

  /** A JavaScript object from keys to lists, with `Object.keys` order. */
  datatype Buckets = Buckets(keys: seq<string>, items: map<string, seq<SampledFile>>)

  predicate Distinct(keys: seq<string>) {
    forall i, j :: 0 <= i < j < |keys| ==> keys[i] != keys[j]
  }

  /** `if (!o[key]) o[key] = []; o[key].push(f)`. */
  function Add(b: Buckets, key: string, f: SampledFile): Buckets {
    if key in b.items then b.(items := b.items[key := b.items[key] + [f]])
    else Buckets(b.keys + [key], b.items[key := [f]])
  }

  /** The two ways files are put in buckets. */
  datatype KeyKind = ByFolder | ByGroup

  /** The bucket key of a file. */
  function KeyOf(kind: KeyKind, path: string): string {
    match kind
    case ByFolder => Dirname(path)
    case ByGroup => GroupKey(path)
  }

  /** Every file of `fs` put in its bucket, in order. */
  function GroupBy(fs: seq<SampledFile>, kind: KeyKind): Buckets {
    if |fs| == 0 then Buckets([], map[])
    else
      var n := |fs| - 1;
      Add(GroupBy(fs[..n], kind), KeyOf(kind, fs[n].path), fs[n])
  }

  /** `fs.filter(p)`. */
  function Keep(fs: seq<SampledFile>, p: SampledFile -> bool): (r: seq<SampledFile>)
    ensures |r| <= |fs|
  {
    if |fs| == 0 then []
    else (if p(fs[0]) then [fs[0]] else []) + Keep(fs[1..], p)
  }

  /** The files kept are files of `fs` that pass. */
  lemma {:induction false} KeepMembers(fs: seq<SampledFile>, p: SampledFile -> bool)
    ensures forall f :: f in Keep(fs, p) ==> f in fs && p(f)
  {
    if |fs| > 0 {
      KeepMembers(fs[1..], p);
      assert fs == [fs[0]] + fs[1..];
    }
  }

  lemma {:induction false} KeepConcat(xs: seq<SampledFile>, ys: seq<SampledFile>, p: SampledFile -> bool)
    ensures Keep(xs + ys, p) == Keep(xs, p) + Keep(ys, p)
  {
    if |xs| == 0 {
      assert xs + ys == ys;
    } else {
      var zs := xs + ys;
      assert zs[0] == xs[0] && zs[1..] == xs[1..] + ys;
      KeepConcat(xs[1..], ys, p);
      var h := if p(xs[0]) then [xs[0]] else [];
      calc {
        Keep(zs, p);
        h + Keep(zs[1..], p);
        h + (Keep(xs[1..], p) + Keep(ys, p));
        (h + Keep(xs[1..], p)) + Keep(ys, p);
        Keep(xs, p) + Keep(ys, p);
      }
    }
  }

  lemma {:induction false} KeepNone(xs: seq<SampledFile>, p: SampledFile -> bool)
    requires forall i :: 0 <= i < |xs| ==> !p(xs[i])
    ensures Keep(xs, p) == []
  {
    if |xs| > 0 {
      KeepNone(xs[1..], p);
    }
  }

  lemma {:induction false} KeepAll(xs: seq<SampledFile>, p: SampledFile -> bool)
    requires forall i :: 0 <= i < |xs| ==> p(xs[i])
    ensures Keep(xs, p) == xs
  {
    if |xs| > 0 {
      KeepAll(xs[1..], p);
      assert xs == [xs[0]] + xs[1..];
    }
  }

  /** The test `key(f) === k`. */
  function HasKey(kind: KeyKind, key: string): SampledFile -> bool {
    (f: SampledFile) => KeyOf(kind, f.path) == key
  }

  /** The files of `fs` whose key is `key`, in order. */
  function Filter(fs: seq<SampledFile>, kind: KeyKind, key: string): (r: seq<SampledFile>)
    ensures |r| <= |fs|
  {
    Keep(fs, HasKey(kind, key))
  }

  /** Filtering a list grown by one file. */
  lemma FilterSnoc(fs: seq<SampledFile>, kind: KeyKind)
    requires |fs| > 0
    ensures forall key :: Filter(fs, kind, key) ==
               Filter(fs[..|fs| - 1], kind, key) + if KeyOf(kind, fs[|fs| - 1].path) == key then [fs[|fs| - 1]] else []
  {
    var n := |fs| - 1;
    assert fs == fs[..n] + [fs[n]];
    forall key {
      KeepConcat(fs[..n], [fs[n]], HasKey(kind, key));
    }
  }

  /** `b` is the bucketing of `fs`: the keys are distinct and are exactly
      the keys some file has, and each bucket holds exactly the files with
      its key, in their order. */
  ghost predicate Groups(b: Buckets, fs: seq<SampledFile>, kind: KeyKind) {
    && Distinct(b.keys)
    && (forall k :: k in b.items <==> k in b.keys)
    && (forall k :: k in b.items ==> b.items[k] == Filter(fs, kind, k))
    && (forall k :: k !in b.items ==> Filter(fs, kind, k) == [])
  }

  /** Putting one more file in its bucket keeps the bucketing exact. */
  lemma AddKeepsGroups(b: Buckets, fs: seq<SampledFile>, kind: KeyKind)
    requires |fs| > 0 && Groups(b, fs[..|fs| - 1], kind)
    ensures Groups(Add(b, KeyOf(kind, fs[|fs| - 1].path), fs[|fs| - 1]), fs, kind)
  {
    var key := KeyOf(kind, fs[|fs| - 1].path);
    AddKeepsKeys(b, key, fs[|fs| - 1]);
    AddKeepsItems(b, fs, kind);
  }

  /** Adding keeps the keys distinct and the same as the dictionary's. */
  lemma AddKeepsKeys(b: Buckets, key: string, f: SampledFile)
    requires Distinct(b.keys) && forall k :: k in b.items <==> k in b.keys
    ensures Distinct(Add(b, key, f).keys)
    ensures forall k :: k in Add(b, key, f).items <==> k in Add(b, key, f).keys
  {
    if key !in b.items {
      forall i | 0 <= i < |b.keys| ensures b.keys[i] != key {
        assert b.keys[i] in b.items;
      }
    }
  }

  lemma AddKeepsItems(b: Buckets, fs: seq<SampledFile>, kind: KeyKind)
    requires |fs| > 0
    requires forall k :: k in b.items ==> b.items[k] == Filter(fs[..|fs| - 1], kind, k)
    requires forall k :: k !in b.items ==> Filter(fs[..|fs| - 1], kind, k) == []
    ensures var b' := Add(b, KeyOf(kind, fs[|fs| - 1].path), fs[|fs| - 1]);
      && (forall k :: k in b'.items ==> b'.items[k] == Filter(fs, kind, k))
      && (forall k :: k !in b'.items ==> Filter(fs, kind, k) == [])
  {
    FilterSnoc(fs, kind);
  }

  lemma {:induction false} GroupByBuckets(fs: seq<SampledFile>, kind: KeyKind)
    ensures Groups(GroupBy(fs, kind), fs, kind)
  {
    if |fs| > 0 {
      var n := |fs| - 1;
      GroupByBuckets(fs[..n], kind);
      AddKeepsGroups(GroupBy(fs[..n], kind), fs, kind);
    }
  }

  /** Every file in a bucket has the bucket's key. */
  lemma BucketKeys(fs: seq<SampledFile>, kind: KeyKind)
    ensures var b := GroupBy(fs, kind);
      forall k, f :: k in b.items && f in b.items[k] ==> KeyOf(kind, f.path) == k
  {
    GroupByBuckets(fs, kind);
    var b := GroupBy(fs, kind);
    forall k | k in b.items ensures forall f :: f in b.items[k] ==> KeyOf(kind, f.path) == k {
      KeepMembers(fs, HasKey(kind, k));
    }
  }

  // ---------------------------------------------------------------------------
  // The group key
  // ---------------------------------------------------------------------------

  /** `s.split("/")[0]`: the text before the first `/`. */
  function FirstSegment(s: string): (r: string)
    ensures '/' !in r
    ensures StartsWith(s, r)
    ensures |r| < |s| ==> s[|r|] == '/'
  {
    if |s| == 0 || s[0] == '/' then "" else [s[0]] + FirstSegment(s[1..])
  }

  /** The folder key of the output: `"src/"` and the first segment after
      the first `/src/`, or `"(root)"` without one. The text after `/src/`
      is cut at the next `/src/`, as `split("/src/")[1]` does. */
  function GroupKey(path: string): string {
    match IndexOf(path, "/src/", 0)
    case None => "(root)"
    case Some(i) => "src/" + FirstSegment(SrcPiece(path, i))
  }

  /** `path.split("/src/")[1]`: the text after the `/src/` at `i`, up to the
      next `/src/`. */
  function SrcPiece(path: string, i: nat): string
    requires i + 5 <= |path|
  {
    match IndexOf(path, "/src/", i + 5)
    case None => path[i + 5..]
    case Some(j) => path[i + 5..j]
  }

  /** A prefix of `s` that stops at a `/` or at the end has the same first
      segment as `s`. */
  lemma {:induction false} FirstSegmentOfPrefix(s: string, m: nat)
    requires m <= |s| && (m == |s| || s[m] == '/')
    ensures FirstSegment(s[..m]) == FirstSegment(s)
  {
    if m == |s| {
      assert s[..m] == s;
    } else if m > 0 && s[0] != '/' {
      FirstSegmentOfPrefix(s[1..], m - 1);
      assert s[..m][1..] == s[1..][..m - 1];
    }
  }

  /** The key is `"(root)"` exactly for paths without `/src/`. */
  lemma GroupKeyRoot(path: string)
    ensures GroupKey(path) == "(root)" <==> !Contains(path, "/src/")
  {
    if Contains(path, "/src/") {
      assert GroupKey(path)[0] == 's';
    }
  }

  /** Cutting the text after `/src/` at a later `/src/` does not change its
      first segment. */
  lemma CutAtNextSrc(path: string, i: nat)
    requires i + 5 <= |path|
    ensures FirstSegment(SrcPiece(path, i)) == FirstSegment(path[i + 5..])
  {
    match IndexOf(path, "/src/", i + 5)
    case None =>
    case Some(j) =>
      IndexOfFirst(path, "/src/", i + 5);
      var rest := path[i + 5..];
      assert path[j] == '/' by {
        assert path[j] == path[j..j + 5][0];
      }
      assert path[i + 5..j] == rest[..j - (i + 5)];
      FirstSegmentOfPrefix(rest, j - (i + 5));
  }

  /** With `/src/` in the path, the key is `"src/"` and the segment that
      follows its first occurrence, whatever comes after it. */
  lemma GroupKeySegment(path: string)
    ensures IndexOf(path, "/src/", 0).Some? ==>
      var i := IndexOf(path, "/src/", 0).value;
      GroupKey(path) == "src/" + FirstSegment(path[i + 5..])
  {
    if IndexOf(path, "/src/", 0).Some? {
      CutAtNextSrc(path, IndexOf(path, "/src/", 0).value);
    }
  }

  // ---------------------------------------------------------------------------
  // Sorting by path
  // ---------------------------------------------------------------------------

  /** Code-unit order on paths: `a` is a prefix of `b`, or is smaller at the
      first difference. */
  predicate PathLe(a: string, b: string)
    decreases |a|
  {
    |a| == 0 || (|b| > 0 && (a[0] < b[0] || (a[0] == b[0] && PathLe(a[1..], b[1..]))))
  }

  lemma {:induction false} PathLeTotal(a: string, b: string)
    ensures PathLe(a, b) || PathLe(b, a)
    decreases |a|
  {
    if |a| > 0 && |b| > 0 && a[0] == b[0] {
      PathLeTotal(a[1..], b[1..]);
    }
  }

  predicate SortedByPath(fs: seq<SampledFile>) {
    forall i :: 0 < i < |fs| ==> PathLe(fs[i - 1].path, fs[i].path)
  }

  /** `x` inserted after the files whose path is not after its own. */
  function Insert(fs: seq<SampledFile>, x: SampledFile): (r: seq<SampledFile>)
    ensures |r| == |fs| + 1
  {
    if |fs| == 0 then [x]
    else if PathLe(fs[0].path, x.path) then [fs[0]] + Insert(fs[1..], x)
    else [x] + fs
  }

  /** Inserting adds exactly `x`. */
  lemma {:induction false} InsertPerm(fs: seq<SampledFile>, x: SampledFile)
    ensures multiset(Insert(fs, x)) == multiset(fs) + multiset{x}
  {
    if |fs| > 0 && PathLe(fs[0].path, x.path) {
      InsertPerm(fs[1..], x);
      assert fs == [fs[0]] + fs[1..];
    }
  }

  lemma InsertHead(fs: seq<SampledFile>, x: SampledFile)
    ensures Insert(fs, x)[0] == x || (|fs| > 0 && Insert(fs, x)[0] == fs[0])
  {
  }

  lemma {:induction false} InsertSorted(fs: seq<SampledFile>, x: SampledFile)
    requires SortedByPath(fs)
    ensures SortedByPath(Insert(fs, x))
  {
    if |fs| > 0 {
      if PathLe(fs[0].path, x.path) {
        InsertSorted(fs[1..], x);
        InsertHead(fs[1..], x);
        var r := Insert(fs, x);
        assert r == [fs[0]] + Insert(fs[1..], x);
        forall i | 0 < i < |r| ensures PathLe(r[i - 1].path, r[i].path) {
          if i > 1 {
            assert r[i - 1] == Insert(fs[1..], x)[i - 2] && r[i] == Insert(fs[1..], x)[i - 1];
          }
        }
      } else {
        PathLeTotal(fs[0].path, x.path);
      }
    }
  }

  /** `files.sort((a, b) => a.path.localeCompare(b.path))`, with code-unit
      order for the locale's. */
  function SortByPath(fs: seq<SampledFile>): (r: seq<SampledFile>)
    ensures |r| == |fs|
  {
    if |fs| == 0 then []
    else
      var n := |fs| - 1;
      Insert(SortByPath(fs[..n]), fs[n])
  }

  /** The sort is a permutation. */
  lemma {:induction false} SortPerm(fs: seq<SampledFile>)
    ensures multiset(SortByPath(fs)) == multiset(fs)
  {
    if |fs| > 0 {
      var n := |fs| - 1;
      var pre := SortByPath(fs[..n]);
      SortPerm(fs[..n]);
      InsertPerm(pre, fs[n]);
      PermSnoc(Insert(pre, fs[n]), pre, fs);
    }
  }

  lemma PermSnoc(r: seq<SampledFile>, pre: seq<SampledFile>, fs: seq<SampledFile>)
    requires |fs| > 0 && multiset(pre) == multiset(fs[..|fs| - 1])
    requires multiset(r) == multiset(pre) + multiset{fs[|fs| - 1]}
    ensures multiset(r) == multiset(fs)
  {
    assert fs == fs[..|fs| - 1] + [fs[|fs| - 1]];
  }

  /** The sort is ordered by path. */
  lemma {:induction false} SortSorted(fs: seq<SampledFile>)
    ensures SortedByPath(SortByPath(fs))
  {
    if |fs| > 0 {
      var n := |fs| - 1;
      SortSorted(fs[..n]);
      InsertSorted(SortByPath(fs[..n]), fs[n]);
    }
  }

  // ---------------------------------------------------------------------------
  // Selection within a folder
  // ---------------------------------------------------------------------------

  /** The three lists a folder's bucket is split into. Priority and
      configuration files may overlap. */
  datatype FileClass = Priority | Normal | Config

  predicate InClass(f: SampledFile, c: FileClass) {
    match c
    case Priority => f.priority
    case Normal => !f.priority && !f.config
    case Config => f.config
  }

  /** `bucket.filter(...)` for one class. */
  function OfClass(fs: seq<SampledFile>, c: FileClass): (r: seq<SampledFile>)
    ensures |r| <= |fs|
    ensures forall f :: f in r ==> f in fs && InClass(f, c)
  {
    if |fs| == 0 then []
    else
      var n := |fs| - 1;
      OfClass(fs[..n], c) + if InClass(fs[n], c) then [fs[n]] else []
  }

  /** A class of the bucket, sorted by path. */
  function ClassByPath(bucket: seq<SampledFile>, c: FileClass): (r: seq<SampledFile>)
    ensures |r| == |OfClass(bucket, c)|
    ensures forall f :: f in r ==> f in bucket && InClass(f, c)
  {
    var r := SortByPath(OfClass(bucket, c));
    SortPerm(OfClass(bucket, c));
    assert forall f :: f in r ==> f in multiset(OfClass(bucket, c));
    r
  }

  function Min(a: int, b: int): int {
    if a <= b then a else b
  }

  /** The priority files taken: the first two by path. */
  function TakePriority(bucket: seq<SampledFile>): seq<SampledFile> {
    var p := ClassByPath(bucket, Priority);
    p[..Min(|p|, MaxFilesPerFolder)]
  }

  /** The normal files taken: the first ones by path, into the slots the
      priority files left. */
  function TakeNormal(bucket: seq<SampledFile>): seq<SampledFile> {
    var remainingSlots := MaxFilesPerFolder - Min(|ClassByPath(bucket, Priority)|, MaxFilesPerFolder);
    var n := ClassByPath(bucket, Normal);
    if remainingSlots > 0 then n[..Min(remainingSlots, |n|)] else []
  }

  /** The configuration files taken: the first ones by path, into the slots
      still free. */
  function TakeConfig(bucket: seq<SampledFile>): seq<SampledFile> {
    var finalSlots := MaxFilesPerFolder - (|TakePriority(bucket)| + |TakeNormal(bucket)|);
    var c := ClassByPath(bucket, Config);
    if finalSlots > 0 then c[..Min(finalSlots, |c|)] else []
  }

  /** The files selected from one folder's bucket, in the order pushed. */
  function SelectFolder(bucket: seq<SampledFile>): seq<SampledFile> {
    TakePriority(bucket) + TakeNormal(bucket) + TakeConfig(bucket)
  }

  lemma SortedPrefix(fs: seq<SampledFile>, m: nat)
    requires SortedByPath(fs) && m <= |fs|
    ensures SortedByPath(fs[..m])
  {
    forall i | 0 < i < m ensures PathLe(fs[..m][i - 1].path, fs[..m][i].path) {
      assert fs[..m][i - 1] == fs[i - 1] && fs[..m][i] == fs[i];
    }
  }

  lemma PrefixMembers(fs: seq<SampledFile>, m: nat)
    requires m <= |fs|
    ensures forall f :: f in fs[..m] ==> f in fs
  {
    assert fs == fs[..m] + fs[m..];
  }

  /** Any prefix of a class sorted by path is sorted and holds files of
      that class from the bucket. */
  lemma ClassPrefix(bucket: seq<SampledFile>, c: FileClass, m: nat)
    requires m <= |ClassByPath(bucket, c)|
    ensures SortedByPath(ClassByPath(bucket, c)[..m])
    ensures forall f :: f in ClassByPath(bucket, c)[..m] ==> f in bucket && InClass(f, c)
  {
    var sp := ClassByPath(bucket, c);
    SortSorted(OfClass(bucket, c));
    SortedPrefix(sp, m);
    PrefixMembers(sp, m);
  }

  /** The priority files taken are the first two priority files by path, or
      all of them when there are fewer. */
  lemma TakePrioritySpec(bucket: seq<SampledFile>)
    ensures var p := TakePriority(bucket);
      && p == ClassByPath(bucket, Priority)[..|p|]
      && |p| == Min(|OfClass(bucket, Priority)|, MaxFilesPerFolder)
      && SortedByPath(p)
      && (forall f :: f in p ==> f in bucket && InClass(f, Priority))
  {
    var sp := ClassByPath(bucket, Priority);
    ClassPrefix(bucket, Priority, Min(|sp|, MaxFilesPerFolder));
  }

  /** Normal files are taken only when fewer than two priority files exist,
      the first by path, into the slots left. */
  lemma TakeNormalSpec(bucket: seq<SampledFile>)
    ensures var n := TakeNormal(bucket);
      && n == ClassByPath(bucket, Normal)[..|n|]
      && (|n| > 0 ==> |OfClass(bucket, Priority)| < MaxFilesPerFolder)
      && |n| == (if |OfClass(bucket, Priority)| >= MaxFilesPerFolder then 0
                 else Min(|OfClass(bucket, Normal)|, MaxFilesPerFolder - |OfClass(bucket, Priority)|))
      && SortedByPath(n)
      && (forall f :: f in n ==> f in bucket && InClass(f, Normal))
  {
    var n := TakeNormal(bucket);
    if |OfClass(bucket, Priority)| >= MaxFilesPerFolder {
      assert n == [];
    } else {
      var sn := ClassByPath(bucket, Normal);
      var m := Min(|sn|, MaxFilesPerFolder - |OfClass(bucket, Priority)|);
      assert n == sn[..m];
      ClassPrefix(bucket, Normal, m);
    }
  }

  /** Configuration files are taken, the first by path, only into the slots
      the priority and normal files left free. */
  lemma TakeConfigSpec(bucket: seq<SampledFile>)
    ensures var c := TakeConfig(bucket);
      && c == ClassByPath(bucket, Config)[..|c|]
      && |c| == Min(|OfClass(bucket, Config)|,
                    MaxFilesPerFolder - |TakePriority(bucket)| - |TakeNormal(bucket)|)
      && SortedByPath(c)
      && (forall f :: f in c ==> f in bucket && InClass(f, Config))
  {
    var c := TakeConfig(bucket);
    var used := |TakePriority(bucket)| + |TakeNormal(bucket)|;
    var sc := ClassByPath(bucket, Config);
    SlotsUsed(bucket);
    if MaxFilesPerFolder - used > 0 {
      var m := Min(MaxFilesPerFolder - used, |sc|);
      assert c == sc[..m];
      ClassPrefix(bucket, Config, m);
    } else {
      assert c == [];
    }
  }

  /** The priority and normal files taken together fill at most the two
      slots of a folder. */
  lemma SlotsUsed(bucket: seq<SampledFile>)
    ensures |TakePriority(bucket)| + |TakeNormal(bucket)| <= MaxFilesPerFolder
  {
    var p := |ClassByPath(bucket, Priority)|;
    assert |TakePriority(bucket)| == Min(p, MaxFilesPerFolder);
    if MaxFilesPerFolder - Min(p, MaxFilesPerFolder) > 0 {
      assert |TakeNormal(bucket)| <= MaxFilesPerFolder - Min(p, MaxFilesPerFolder);
    }
  }

  /** At most two files are selected from a folder, all from its bucket,
      priority files first, then normal, then configuration files. */
  lemma SelectFolderSpec(bucket: seq<SampledFile>)
    ensures |SelectFolder(bucket)| <= MaxFilesPerFolder
    ensures forall f :: f in SelectFolder(bucket) ==> f in bucket
  {
    TakePrioritySpec(bucket);
    TakeNormalSpec(bucket);
    TakeConfigSpec(bucket);
  }

  /** The file that is both a priority and a configuration file is pushed
      twice when it is alone in its folder. */
  lemma SelectedTwice(folder: string)
    ensures var f := SampledFile(folder + "/tsconfig.json", "{}", true, true);
      SelectFolder([f]) == [f, f]
  {
    var f := SampledFile(folder + "/tsconfig.json", "{}", true, true);
    assert OfClass([f], Priority) == [f] by { assert [f][..0] == []; }
    assert OfClass([f], Normal) == [] by { assert [f][..0] == []; }
    assert OfClass([f], Config) == [f] by { assert [f][..0] == []; }
    assert SortByPath([f]) == [f] by { assert [f][..0] == []; }
  }

  // ---------------------------------------------------------------------------
  // Selection over all folders
  // ---------------------------------------------------------------------------

  /** Buckets by folder: distinct keys, each holding files of that folder. */
  ghost predicate FolderBuckets(b: Buckets) {
    && Distinct(b.keys)
    && (forall k :: k in b.items <==> k in b.keys)
    && (forall k, f :: k in b.items && f in b.items[k] ==> Dirname(f.path) == k)
  }

  lemma GroupByFolders(fs: seq<SampledFile>)
    ensures FolderBuckets(GroupBy(fs, ByFolder))
  {
    GroupByBuckets(fs, ByFolder);
    BucketKeys(fs, ByFolder);
  }

  /** The selection from the folders `keys`, in order. */
  function SelectAll(keys: seq<string>, items: map<string, seq<SampledFile>>): seq<SampledFile>
    requires forall k :: k in keys ==> k in items
  {
    if |keys| == 0 then []
    else
      var n := |keys| - 1;
      SelectAll(keys[..n], items) + SelectFolder(items[keys[n]])
  }

  lemma SelectAllSnoc(keys: seq<string>, items: map<string, seq<SampledFile>>, i: nat)
    requires forall k :: k in keys ==> k in items
    requires i < |keys|
    ensures SelectAll(keys[..i + 1], items) == SelectAll(keys[..i], items) + SelectFolder(items[keys[i]])
  {
    assert keys[..i + 1][..i] == keys[..i];
  }

  /** Of a folder's own selection, the folder filter keeps everything for
      that folder and nothing for any other. */
  lemma OwnSelection(bucket: seq<SampledFile>, folder: string, other: string)
    requires forall f :: f in bucket ==> Dirname(f.path) == folder
    ensures Filter(SelectFolder(bucket), ByFolder, other) == if other == folder then SelectFolder(bucket) else []
  {
    var s := SelectFolder(bucket);
    SelectFolderSpec(bucket);
    if other == folder {
      forall j | 0 <= j < |s| ensures HasKey(ByFolder, other)(s[j]) {
        assert s[j] in s;
      }
      KeepAll(s, HasKey(ByFolder, other));
    } else {
      forall j | 0 <= j < |s| ensures !HasKey(ByFolder, other)(s[j]) {
        assert s[j] in s;
      }
      KeepNone(s, HasKey(ByFolder, other));
    }
  }

  lemma DistinctPrefix(keys: seq<string>, n: nat)
    requires Distinct(keys) && n < |keys|
    ensures Distinct(keys[..n]) && keys[n] !in keys[..n]
  {
  }

  lemma InPrefix(keys: seq<string>, n: nat, x: string)
    requires n < |keys| && x != keys[n] && n == |keys| - 1
    ensures x in keys <==> x in keys[..n]
  {
    if x in keys {
      var i :| 0 <= i < |keys| && keys[i] == x;
      assert keys[..n][i] == x;
    }
  }

  /** The files selected for a folder, over all folders, are that folder's
      own selection: no other folder contributes any. */
  lemma {:induction false} SelectedByFolder(keys: seq<string>, items: map<string, seq<SampledFile>>, folder: string)
    requires Distinct(keys) && forall k :: k in keys ==> k in items
    requires forall k, f :: k in items && f in items[k] ==> Dirname(f.path) == k
    ensures Filter(SelectAll(keys, items), ByFolder, folder) ==
              if folder in keys then SelectFolder(items[folder]) else []
  {
    if |keys| > 0 {
      var n := |keys| - 1;
      DistinctPrefix(keys, n);
      var pre, last := SelectAll(keys[..n], items), SelectFolder(items[keys[n]]);
      var p := HasKey(ByFolder, folder);
      assert SelectAll(keys, items) == pre + last;
      SelectedByFolder(keys[..n], items, folder);
      OwnSelection(items[keys[n]], keys[n], folder);
      KeepConcat(pre, last, p);
      if folder == keys[n] {
        assert Keep(pre, p) == [] && Keep(last, p) == last;
      } else {
        assert Keep(last, p) == [];
        InPrefix(keys, n, folder);
      }
    }
  }

  /** At most two files are selected from any folder, over all folders. */
  lemma AtMostTwoPerFolder(keys: seq<string>, items: map<string, seq<SampledFile>>, folder: string)
    requires Distinct(keys) && forall k :: k in keys ==> k in items
    requires forall k, f :: k in items && f in items[k] ==> Dirname(f.path) == k
    ensures |Filter(SelectAll(keys, items), ByFolder, folder)| <= MaxFilesPerFolder
  {
    SelectedByFolder(keys, items, folder);
    if folder in keys {
      SelectFolderSpec(items[folder]);
    }
  }

  /** One pass of the per-folder selection: the sorted priority files
      first, then normal files into the remaining slots, then configuration
      files into the slots still free, counted over everything selected so
      far whose folder is this one. */
  method SelectFolderInto(selected: seq<SampledFile>, folder: string, bucket: seq<SampledFile>)
    returns (r: seq<SampledFile>)
    requires Filter(selected, ByFolder, folder) == []
    requires forall f :: f in bucket ==> Dirname(f.path) == folder
    ensures r == selected + SelectFolder(bucket)
  {
    var taken := TakePriorityAndNormal(bucket);
    OwnMid(selected, folder, bucket);
    r := selected + taken;
    r := AddConfig(r, folder, bucket);
    ConcatAssoc(selected, taken, TakeConfig(bucket));
  }

  /** The first steps of one folder's pass: at most two priority files by
      path, then normal files by path into the slots they leave. */
  method TakePriorityAndNormal(bucket: seq<SampledFile>) returns (taken: seq<SampledFile>)
    ensures taken == TakePriority(bucket) + TakeNormal(bucket)
  {
    var priorityFiles := ClassByPath(bucket, Priority);
    var normalFiles := ClassByPath(bucket, Normal);
    taken := priorityFiles[..Min(|priorityFiles|, MaxFilesPerFolder)];
    var remainingSlots := MaxFilesPerFolder - Min(|priorityFiles|, MaxFilesPerFolder);
    if remainingSlots > 0 {
      taken := taken + normalFiles[..Min(remainingSlots, |normalFiles|)];
    }
  }

  /** The last step of one folder's pass: configuration files go into the
      slots that the files already selected from this folder leave free. */
  method AddConfig(selected: seq<SampledFile>, folder: string, bucket: seq<SampledFile>)
    returns (r: seq<SampledFile>)
    requires |Filter(selected, ByFolder, folder)| == |TakePriority(bucket)| + |TakeNormal(bucket)|
    ensures r == selected + TakeConfig(bucket)
  {
    var configFiles := ClassByPath(bucket, Config);
    r := selected;
    var finalSlots := MaxFilesPerFolder - |Filter(selected, ByFolder, folder)|;
    if finalSlots > 0 {
      r := r + configFiles[..Min(finalSlots, |configFiles|)];
    }
  }

  /** Before the configuration files of a folder are considered, the files
      selected from it are its priority and normal files. */
  lemma OwnMid(selected: seq<SampledFile>, folder: string, bucket: seq<SampledFile>)
    requires Filter(selected, ByFolder, folder) == []
    requires forall f :: f in bucket ==> Dirname(f.path) == folder
    ensures |Filter(selected + (TakePriority(bucket) + TakeNormal(bucket)), ByFolder, folder)|
              == |TakePriority(bucket)| + |TakeNormal(bucket)|
  {
    var mid := TakePriority(bucket) + TakeNormal(bucket);
    TakePrioritySpec(bucket);
    TakeNormalSpec(bucket);
    forall j | 0 <= j < |mid| ensures HasKey(ByFolder, folder)(mid[j]) {
      assert mid[j] in TakePriority(bucket) || mid[j] in TakeNormal(bucket);
    }
    KeepAll(mid, HasKey(ByFolder, folder));
    KeepConcat(selected, mid, HasKey(ByFolder, folder));
  }

  /** The per-folder selection loop over the folders in bucket order. */
  method SelectFiles(folderBuckets: Buckets) returns (selected: seq<SampledFile>)
    requires FolderBuckets(folderBuckets)
    ensures selected == SelectAll(folderBuckets.keys, folderBuckets.items)
  {
    var keys, items := folderBuckets.keys, folderBuckets.items;
    selected := [];
    for i := 0 to |keys|
      invariant selected == SelectAll(keys[..i], items)
    {
      SelectAllSnoc(keys, items, i);
      DistinctPrefix(keys, i);
      SelectedByFolder(keys[..i], items, keys[i]);
      selected := SelectFolderInto(selected, keys[i], items[keys[i]]);
    }
    assert keys[..|keys|] == keys;
  }

  // ---------------------------------------------------------------------------
  // Bucketing and regrouping loops
  // ---------------------------------------------------------------------------

  /** `if (!o[key]) o[key] = []; o[key].push(f)`: a missing key gets an
      empty list, appended to the keys, before `f` is pushed. */
  method Push(b: Buckets, key: string, f: SampledFile) returns (r: Buckets)
    ensures r == Add(b, key, f)
    ensures r.keys == if key in b.items then b.keys else b.keys + [key]
    ensures key in r.items && r.items[key] == (if key in b.items then b.items[key] else []) + [f]
    ensures forall k :: k != key ==> (k in r.items <==> k in b.items)
    ensures forall k :: k != key && k in b.items ==> r.items[k] == b.items[k]
  {
    r := b;
    if key !in r.items {
      r := Buckets(r.keys + [key], r.items[key := []]);
      assert r.items[key] + [f] == [f];
      assert r.items[key := r.items[key] + [f]] == b.items[key := [f]];
    }
    r := r.(items := r.items[key := r.items[key] + [f]]);
  }

  lemma CandidatesSnoc(files: seq<WorkspaceFile>, strip: string -> string, skeleton: string -> string, i: nat)
    requires i < |files|
    ensures Candidates(files[..i + 1], strip, skeleton) ==
      Candidates(files[..i], strip, skeleton) +
        match Sample(files[i], strip, skeleton) case None => [] case Some(c) => [c]
  {
    assert files[..i + 1][..i] == files[..i];
  }

  lemma GroupBySnoc(fs: seq<SampledFile>, kind: KeyKind, f: SampledFile)
    ensures GroupBy(fs + [f], kind) == Add(GroupBy(fs, kind), KeyOf(kind, f.path), f)
  {
    assert (fs + [f])[..|fs|] == fs;
  }

  lemma GroupByStep(fs: seq<SampledFile>, kind: KeyKind, i: nat)
    requires i < |fs|
    ensures GroupBy(fs[..i + 1], kind) == Add(GroupBy(fs[..i], kind), KeyOf(kind, fs[i].path), fs[i])
  {
    assert fs[..i + 1] == fs[..i] + [fs[i]];
    GroupBySnoc(fs[..i], kind, fs[i]);
  }

  lemma BucketsSnoc(files: seq<WorkspaceFile>, strip: string -> string, skeleton: string -> string, i: nat)
    requires i < |files|
    ensures GroupBy(Candidates(files[..i + 1], strip, skeleton), ByFolder) ==
      match Sample(files[i], strip, skeleton)
      case None => GroupBy(Candidates(files[..i], strip, skeleton), ByFolder)
      case Some(c) => Add(GroupBy(Candidates(files[..i], strip, skeleton), ByFolder), KeyOf(ByFolder, c.path), c)
  {
    var pre := Candidates(files[..i], strip, skeleton);
    CandidatesSnoc(files, strip, skeleton, i);
    match Sample(files[i], strip, skeleton)
    case None =>
      assert Candidates(files[..i + 1], strip, skeleton) == pre;
    case Some(c) =>
      assert Candidates(files[..i + 1], strip, skeleton) == pre + [c];
      GroupBySnoc(pre, ByFolder, c);
  }

  /** One pass of the first loop: a text file whose compression is not empty
      goes into the bucket of its folder; any other file is passed over. */
  method BucketFile(folderBuckets: Buckets, file: WorkspaceFile, strip: string -> string, skeleton: string -> string)
    returns (r: Buckets)
    ensures r == match Sample(file, strip, skeleton)
                 case None => folderBuckets
                 case Some(c) => Add(folderBuckets, KeyOf(ByFolder, c.path), c)
  {
    r := folderBuckets;
    if !IsTextFile(file.fsPath) {
      return;
    }
    var priority := IsPriorityFile(file.fsPath);
    var config := IsConfigFile(file.fsPath);
    var compressed := if priority then strip(file.text) else skeleton(file.text);
    if |compressed| == 0 {
      return;
    }
    var folderName := Dirname(file.fsPath);
    r := Push(r, folderName, SampledFile(file.fsPath, compressed, priority, config));
  }

  /** The first loop: every text file whose compression is not empty goes
      into the bucket of its folder, in workspace order. */
  method BucketFiles(files: seq<WorkspaceFile>, strip: string -> string, skeleton: string -> string)
    returns (folderBuckets: Buckets)
    ensures folderBuckets == GroupBy(Candidates(files, strip, skeleton), ByFolder)
  {
    folderBuckets := Buckets([], map[]);
    for i := 0 to |files|
      invariant folderBuckets == GroupBy(Candidates(files[..i], strip, skeleton), ByFolder)
    {
      BucketsSnoc(files, strip, skeleton, i);
      folderBuckets := BucketFile(folderBuckets, files[i], strip, skeleton);
    }
    assert files[..|files|] == files;
  }

  /** The regrouping loop: every selected file goes into the group of its
      top-level source folder, in selection order. */
  method GroupSelected(selected: seq<SampledFile>) returns (grouped: Buckets)
    ensures grouped == GroupBy(selected, ByGroup)
  {
    grouped := Buckets([], map[]);
    for i := 0 to |selected|
      invariant grouped == GroupBy(selected[..i], ByGroup)
    {
      var f := selected[i];
      var folderKey := GroupKey(f.path);
      GroupByStep(selected, ByGroup, i);
      grouped := Push(grouped, folderKey, f);
    }
    assert selected[..|selected|] == selected;
  }

  // ---------------------------------------------------------------------------
  // Packing the groups into one text
  // ---------------------------------------------------------------------------

  /** The line that opens a group in the packed text. */
  function Header(folder: string): string {
    "\n\n// ===== Folder: " + folder + " =====\n"
  }

  /** The text of one file in the packed text. */
  function Snippet(f: SampledFile): string {
    "// File: " + f.path + "\n" + f.code + "\n\n"
  }

  /** The snippets of `fs` appended to `acc`, each one only if it still fits
      in the budget; a snippet that does not fit is skipped and the next ones
      are still tried. */
  function PackFiles(acc: string, fs: seq<SampledFile>): (r: string)
    requires |acc| <= TargetSize
    ensures |acc| <= |r| <= TargetSize
    ensures r[..|acc|] == acc
    decreases |fs|
  {
    if |fs| == 0 then acc
    else
      var snippet := Snippet(fs[0]);
      PackFiles(if |acc| + |snippet| <= TargetSize then acc + snippet else acc, fs[1..])
  }

  /** The groups `keys` appended to `acc`: a group whose header does not fit
      is skipped whole; otherwise its header and the files that fit. */
  function PackFolders(acc: string, keys: seq<string>, items: map<string, seq<SampledFile>>): (r: string)
    requires |acc| <= TargetSize
    requires forall k :: k in keys ==> k in items
    ensures |acc| <= |r| <= TargetSize
    ensures r[..|acc|] == acc
    decreases |keys|
  {
    if |keys| == 0 then acc
    else
      var header := Header(keys[0]);
      if |acc| + |header| <= TargetSize then PackFolders(PackFiles(acc + header, items[keys[0]]), keys[1..], items)
      else PackFolders(acc, keys[1..], items)
  }

  /** The snippets of `fs`, one after the other. */
  function AllSnippets(fs: seq<SampledFile>): string {
    if |fs| == 0 then "" else Snippet(fs[0]) + AllSnippets(fs[1..])
  }

  /** Within the budget nothing is skipped: all snippets are appended. */
  lemma {:induction false} PackFilesAllFit(acc: string, fs: seq<SampledFile>)
    requires |acc| + |AllSnippets(fs)| <= TargetSize
    ensures PackFiles(acc, fs) == acc + AllSnippets(fs)
    decreases |fs|
  {
    if |fs| > 0 {
      var s := Snippet(fs[0]);
      var rest := AllSnippets(fs[1..]);
      assert AllSnippets(fs) == s + rest;
      TakeSnippet(acc, fs);
      PackFilesAllFit(acc + s, fs[1..]);
      ConcatAssoc(acc, s, rest);
    }
  }

  /** A snippet too large for the budget left does not stop a later one that
      fits. */
  lemma SkippedThenFits(acc: string, big: SampledFile, small: SampledFile)
    requires |acc| <= TargetSize
    requires |acc| + |Snippet(big)| > TargetSize
    requires |acc| + |Snippet(small)| <= TargetSize
    ensures PackFiles(acc, [big, small]) == acc + Snippet(small)
  {
    SkipSnippet(acc, [big, small]);
    assert [big, small][1..] == [small];
    TakeSnippet(acc, [small]);
    assert [small][1..] == [];
  }

  lemma SkipSnippet(acc: string, fs: seq<SampledFile>)
    requires |acc| <= TargetSize && |fs| > 0 && |acc| + |Snippet(fs[0])| > TargetSize
    ensures PackFiles(acc, fs) == PackFiles(acc, fs[1..])
  {
  }

  lemma TakeSnippet(acc: string, fs: seq<SampledFile>)
    requires |fs| > 0 && |acc| + |Snippet(fs[0])| <= TargetSize
    ensures PackFiles(acc, fs) == PackFiles(acc + Snippet(fs[0]), fs[1..])
  {
  }

  /** A group whose header no longer fits contributes nothing. */
  lemma HeaderTooLarge(acc: string, keys: seq<string>, items: map<string, seq<SampledFile>>)
    requires |acc| <= TargetSize
    requires forall k :: k in keys ==> k in items
    requires |keys| > 0 && |acc| + |Header(keys[0])| > TargetSize
    ensures PackFolders(acc, keys, items) == PackFolders(acc, keys[1..], items)
  {
  }

  /** The inner loop over the files of one group. */
  method PackGroup(allCode: string, totalSize: nat, fs: seq<SampledFile>) returns (code: string, size: nat)
    requires totalSize == |allCode| <= TargetSize
    ensures size == |code| && code == PackFiles(allCode, fs)
  {
    code, size := allCode, totalSize;
    for j := 0 to |fs|
      invariant size == |code| <= TargetSize
      invariant PackFiles(code, fs[j..]) == PackFiles(allCode, fs)
    {
      var snippet := Snippet(fs[j]);
      assert fs[j..][0] == fs[j] && fs[j..][1..] == fs[j + 1..];
      if size + |snippet| <= TargetSize {
        code := code + snippet;
        size := size + |snippet|;
      }
    }
  }

  /** The packing loop over the groups, in group order. */
  method PackGroups(grouped: Buckets) returns (allCode: string)
    requires forall k :: k in grouped.keys ==> k in grouped.items
    ensures allCode == PackFolders("", grouped.keys, grouped.items)
  {
    var keys, items := grouped.keys, grouped.items;
    allCode := "";
    var totalSize: nat := 0;
    for i := 0 to |keys|
      invariant totalSize == |allCode| <= TargetSize
      invariant PackFolders(allCode, keys[i..], items) == PackFolders("", keys, items)
    {
      var folder := keys[i];
      var folderHeader := Header(folder);
      assert keys[i..][0] == folder && keys[i..][1..] == keys[i + 1..];
      if totalSize + |folderHeader| <= TargetSize {
        allCode := allCode + folderHeader;
        totalSize := totalSize + |folderHeader|;
      } else {
        continue;
      }
      allCode, totalSize := PackGroup(allCode, totalSize, items[folder]);
    }
  }

  // ---------------------------------------------------------------------------
  // The whole sampler
  // ---------------------------------------------------------------------------

  /** The files selected from the workspace, in selection order. */
  function Selection(files: seq<WorkspaceFile>, strip: string -> string, skeleton: string -> string): seq<SampledFile> {
    var cs := Candidates(files, strip, skeleton);
    GroupByFolders(cs);
    var b := GroupBy(cs, ByFolder);
    SelectAll(b.keys, b.items)
  }

  /** The packed text the sampler returns. */
  function Sampled(files: seq<WorkspaceFile>, strip: string -> string, skeleton: string -> string): string {
    var selected := Selection(files, strip, skeleton);
    GroupByBuckets(selected, ByGroup);
    var g := GroupBy(selected, ByGroup);
    PackFolders("", g.keys, g.items)
  }

  /** `getAllWorkspaceFiles` on the files found in the workspace. */
  method GetAllWorkspaceFiles(files: seq<WorkspaceFile>, strip: string -> string, skeleton: string -> string)
    returns (allCode: string)
    ensures allCode == Sampled(files, strip, skeleton)
    ensures |allCode| <= TargetSize
  {
    var folderBuckets := BucketFiles(files, strip, skeleton);
    GroupByFolders(Candidates(files, strip, skeleton));
    var selected := SelectFiles(folderBuckets);
    var grouped := GroupSelected(selected);
    GroupByBuckets(selected, ByGroup);
    allCode := PackGroups(grouped);
  }

  /** No folder of the workspace has more than two files in the selection. */
  lemma SelectionPerFolder(files: seq<WorkspaceFile>, strip: string -> string, skeleton: string -> string, folder: string)
    ensures |Filter(Selection(files, strip, skeleton), ByFolder, folder)| <= MaxFilesPerFolder
  {
    var cs := Candidates(files, strip, skeleton);
    GroupByFolders(cs);
    var b := GroupBy(cs, ByFolder);
    AtMostTwoPerFolder(b.keys, b.items, folder);
  }
}
