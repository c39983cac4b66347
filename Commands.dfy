/** Three commands of src/extension.ts: the path cleanup shared by
    `vibe-coding.writeFile`, `applyCodeSelection` and `keepAllModifiedFiles`;
    the text `applyCodeSelection` proposes; the `keepAllModifiedFiles` loop
    with its success and failure counters; and the indentation tally of
    `deriveStyleHints`.

    Dialogs, editor commands and the temporary file `applyCodeSelection`
    writes are not part of this model: its proposed text is the value it
    writes there. */
module Commands {
  import opened Wrappers
  import opened Strings
  import opened DiffManager
  import opened WriteFile

  // ---------------------------------------------------------------------------
  // Path cleanup
  // ---------------------------------------------------------------------------

  predicate IsSeparator(c: char) {
    c == '/' || c == '\\'
  }

  /** `filePath.trim()`, then one leading `/` or `\` dropped. */
  function CleanPath(p: string): (r: string)
    ensures var t := Trim(p); t == r || (|t| > 0 && IsSeparator(t[0]) && t[1..] == r)
    ensures var t := Trim(p); |t| > 0 && IsSeparator(t[0]) ==> |r| == |t| - 1
  {
    var t := Trim(p);
    if StartsWith(t, "/") || StartsWith(t, "\\") then t[1..] else t
  }

  /** A separator is left at the head only when the trimmed path began with
      two of them; without a leading separator the trimmed path is kept
      whole. */
  lemma CleanPathDropsOne(p: string)
    ensures var t, r := Trim(p), CleanPath(p);
      (|r| > 0 && IsSeparator(r[0]) ==> |t| > 1 && IsSeparator(t[0]) && IsSeparator(t[1]))
      && ((|t| == 0 || !IsSeparator(t[0])) ==> r == t)
  {
    var t := Trim(p);
    if |t| > 0 && IsSeparator(t[0]) {
      assert t[..1] == [t[0]];
    } else if |t| > 0 {
      assert !StartsWith(t, "/") && !StartsWith(t, "\\") by {
        assert t[..1] == [t[0]];
      }
    }
  }

  /** A path whose cleaned form has a named segment and no `..` segment is
      joined under a project root in normal form, whatever separators it
      started with; with a `..` segment it can leave the root
      (`Strings.ParentLeavesRoot`). */
  lemma CleanPathUnderRoot(root: string, p: string)
    requires NormalAbsolute(root)
    requires ".." !in Split(CleanPath(p))
    requires NamedSegments(Split(CleanPath(p))) != []
    ensures StartsWith(PathJoin(root, CleanPath(p)), root + "/")
  {
    var c := CleanPath(p);
    var named := NamedSegments(Split(c));
    JoinBelowRoot(root, c);
    var j := PathJoin(root, c);
    assert j == root + "/" + (JoinSegments(named) + (if c != "" && c[|c| - 1] == '/' then "/" else ""));
    assert j[..|root + "/"|] == root + "/";
  }

  // ---------------------------------------------------------------------------
  // applyCodeSelection: the proposed text
  // ---------------------------------------------------------------------------

  /** A selection as document offsets; VS Code keeps `start` before `end`. */
  datatype Selection = Selection(start: nat, end: nat)

  /** `original` with the range `[start, end)` replaced by `code`. */
  function Splice(original: string, start: nat, end: nat, code: string): (r: string)
    requires start <= end <= |original|
    ensures |r| == |original| - (end - start) + |code|
    ensures r[..start] == original[..start]
    ensures r[start..start + |code|] == code
    ensures r[start + |code|..] == original[end..]
  {
    original[..start] + code + original[end..]
  }

  /** Splicing the replaced text back over the inserted code restores the
      original. */
  lemma SpliceUndo(original: string, start: nat, end: nat, code: string)
    requires start <= end <= |original|
    ensures Splice(Splice(original, start, end, code), start, start + |code|, original[start..end]) == original
  {
    var r := Splice(original, start, end, code);
    var back := Splice(r, start, start + |code|, original[start..end]);
    assert back == original[..start] + original[start..end] + original[end..];
    assert original == original[..start] + original[start..end] + original[end..];
  }

  /** The text `applyCodeSelection` proposes for the document: with no file
      path (an empty one is absent) and a non-empty selection, `code`
      replaces the selection; otherwise `code` is the whole new text. */
  function ProposedText(original: string, code: string, filePath: string, selection: Option<Selection>): (r: string)
    requires selection.Some? ==> selection.value.start <= selection.value.end <= |original|
    ensures filePath == "" && selection.Some? && selection.value.start < selection.value.end ==>
      var (a, b) := (selection.value.start, selection.value.end);
      && |r| == |original| - (b - a) + |code|
      && r[..a] == original[..a]
      && r[a..a + |code|] == code
      && r[a + |code|..] == original[b..]
    ensures !(filePath == "" && selection.Some? && selection.value.start < selection.value.end) ==> r == code
  {
    if filePath == "" && selection.Some? && selection.value.start != selection.value.end then
      Splice(original, selection.value.start, selection.value.end, code)
    else
      code
  }

  /** Only the selected range changes: the proposal is the original outside
      it, and keeping the original text of the range gives the original
      back. */
  lemma ProposalKeepsOutside(original: string, code: string, sel: Selection)
    requires sel.start < sel.end <= |original|
    ensures var r := ProposedText(original, code, "", Some(sel));
      r == original[..sel.start] + code + original[sel.end..]
    ensures ProposedText(original, original[sel.start..sel.end], "", Some(sel)) == original
  {
    var r := ProposedText(original, code, "", Some(sel));
    assert r == original[..sel.start] + r[sel.start..sel.start + |code|] + r[sel.start + |code|..];
    assert original == original[..sel.start] + original[sel.start..sel.end] + original[sel.end..];
  }

  // ---------------------------------------------------------------------------
  // keepAllModifiedFiles
  // ---------------------------------------------------------------------------

  /** One element of `args.files`. */
  datatype KeepRequest = KeepRequest(filePath: string, code: string)

  /** The path a request is written to. */
  function KeepPath(root: string, f: KeepRequest): string {
    PathJoin(root, CleanPath(f.filePath))
  }

  /** One iteration of the loop: unless a step of the `try` block throws
      before `acceptFile`, the code is written to the file and its pending
      diff, if any, is accepted. */
  function KeepOne(s: Snapshot, root: string, f: KeepRequest, fails: bool, active: Option<string>): Snapshot {
    if fails then s
    else
      var path := KeepPath(root, f);
      AcceptFileStep(s.(disk := s.disk[path := f.code]), path, active)
  }

  /** The state after the loop over the first `n` files of `fs`, the `k`-th
      failing when `k in failing`. */
  function KeepFiles(s: Snapshot, root: string, fs: seq<KeepRequest>, n: nat, failing: set<nat>,
                     active: Option<string>): Snapshot
    requires n <= |fs|
  {
    if n == 0 then s
    else KeepOne(KeepFiles(s, root, fs, n - 1, failing, active), root, fs[n - 1], n - 1 in failing, active)
  }

  /** Files among the first `n` whose write succeeded. */
  function Successes(n: nat, failing: set<nat>): (c: nat)
    ensures c <= n
  {
    if n == 0 then 0 else Successes(n - 1, failing) + if n - 1 in failing then 0 else 1
  }

  /** Files among the first `n` whose write failed. */
  function Failures(n: nat, failing: set<nat>): (c: nat)
    ensures c <= n
  {
    if n == 0 then 0 else Failures(n - 1, failing) + if n - 1 in failing then 1 else 0
  }

  /** Every file counts once: as a success or as a failure. */
  lemma {:induction false} KeepCounts(n: nat, failing: set<nat>)
    ensures Successes(n, failing) + Failures(n, failing) == n
  {
    if n > 0 {
      KeepCounts(n - 1, failing);
    }
  }

  /** The failures are the failing indices among the first `n`. */
  lemma {:induction false} FailuresAreFailingIndices(n: nat, failing: set<nat>)
    ensures Failures(n, failing) == |set k: nat | k < n && k in failing|
  {
    if n == 0 {
      assert (set k: nat | k < n && k in failing) == {};
    } else {
      FailuresAreFailingIndices(n - 1, failing);
      var before := set k: nat | k < n - 1 && k in failing;
      if n - 1 in failing {
        assert (set k: nat | k < n && k in failing) == before + {n - 1};
      } else {
        assert (set k: nat | k < n && k in failing) == before;
      }
    }
  }

  /** Without failures every file succeeds; when every write fails, none
      does. */
  lemma {:induction false} CountsAtExtremes(n: nat, failing: set<nat>)
    ensures failing == {} ==> Successes(n, failing) == n
    ensures (forall k :: 0 <= k < n ==> k in failing) ==> Successes(n, failing) == 0
  {
    if n > 0 {
      CountsAtExtremes(n - 1, failing);
    }
  }

  /** When every write fails, nothing changes. */
  lemma {:induction false} AllFailKeepsState(s: Snapshot, root: string, fs: seq<KeepRequest>, n: nat,
                                             failing: set<nat>, active: Option<string>)
    requires n <= |fs|
    requires forall k :: 0 <= k < n ==> k in failing
    ensures KeepFiles(s, root, fs, n, failing, active) == s
  {
    if n > 0 {
      AllFailKeepsState(s, root, fs, n - 1, failing, active);
    }
  }

  /** A file kept without failure holds its code and has no pending diff
      left, unless its path is the backup file of some pending diff. */
  lemma KeepOneEffect(s: Snapshot, root: string, f: KeepRequest, active: Option<string>)
    requires KeysDistinct(s.pending)
    requires forall e :: e in s.pending ==> e.temp != KeepPath(root, f)
    ensures var s' := KeepOne(s, root, f, false, active);
      && KeepPath(root, f) in s'.disk && s'.disk[KeepPath(root, f)] == f.code
      && Lookup(s'.pending, KeepPath(root, f)) == None
  {
    var path := KeepPath(root, f);
    var s1 := s.(disk := s.disk[path := f.code]);
    var found := FindEntry(s1.pending, path);
    if found.Some? {
      CleanupOnlyOwn(s1, found.value, active);
    }
  }

  /** The `try` block for one file: write its code, then accept its diff. */
  method KeepFile(dm: DiffManager, root: string, f: KeepRequest, fails: bool, active: Option<string>)
    returns (ok: bool)
    requires dm.Valid()
    modifies dm, dm.disk
    ensures dm.Valid()
    ensures ok == !fails
    ensures dm.Snap() == KeepOne(old(dm.Snap()), root, f, fails, active)
  {
    if fails {
      return false;
    }
    var fullPath := PathJoin(root, CleanPath(f.filePath));
    dm.disk.files := dm.disk.files[fullPath := f.code];
    dm.AcceptFile(fullPath, active);
    return true;
  }

  /** The counter update after one file. */
  method Tick(ok: bool, successCount: nat, failCount: nat) returns (s: nat, f: nat)
    ensures ok ==> s == successCount + 1 && f == failCount
    ensures !ok ==> s == successCount && f == failCount + 1
  {
    if ok {
      s, f := successCount + 1, failCount;
    } else {
      s, f := successCount, failCount + 1;
    }
  }

  /** `keepAllModifiedFiles(args)`: nothing without files or without a
      workspace; otherwise each file in turn, counting successes and
      failures. */
  method KeepAllModifiedFiles(dm: DiffManager, root: Option<string>, files: seq<KeepRequest>,
                              failing: set<nat>, active: Option<string>)
    returns (successCount: nat, failCount: nat)
    requires dm.Valid()
    modifies dm, dm.disk
    ensures dm.Valid()
    ensures |files| == 0 || root.None? ==> dm.Snap() == old(dm.Snap()) && successCount == failCount == 0
    ensures |files| > 0 && root.Some? ==>
      && dm.Snap() == KeepFiles(old(dm.Snap()), root.value, files, |files|, failing, active)
      && successCount == Successes(|files|, failing)
      && failCount == Failures(|files|, failing)
  {
    successCount, failCount := 0, 0;
    if |files| == 0 || root.None? {
      return;
    }
    successCount, failCount := KeepEach(dm, root.value, files, failing, active);
  }

  /** The loop of `keepAllModifiedFiles` over a non-empty list. */
  method KeepEach(dm: DiffManager, root: string, files: seq<KeepRequest>, failing: set<nat>,
                  active: Option<string>)
    returns (successCount: nat, failCount: nat)
    requires dm.Valid()
    modifies dm, dm.disk
    ensures dm.Valid()
    ensures dm.Snap() == KeepFiles(old(dm.Snap()), root, files, |files|, failing, active)
    ensures successCount == Successes(|files|, failing) && failCount == Failures(|files|, failing)
  {
    successCount, failCount := 0, 0;
    ghost var s0 := dm.Snap();
    for i := 0 to |files|
      invariant dm.Valid()
      invariant dm.Snap() == KeepFiles(s0, root, files, i, failing, active)
      invariant successCount == Successes(i, failing) && failCount == Failures(i, failing)
    {
      var ok := KeepFile(dm, root, files[i], i in failing, active);
      successCount, failCount := Tick(ok, successCount, failCount);
    }
  }

  // ---------------------------------------------------------------------------
  // The indentation hint of deriveStyleHints
  // ---------------------------------------------------------------------------

  /** The line terminators at which `^` matches under the `m` flag. */
  predicate IsLineTerminator(c: char) {
    c == '\n' || c == '\r' || c == '\U{2028}' || c == '\U{2029}'
  }

  /** The text cut at every line terminator. */
  function Lines(text: string): (ls: seq<string>)
    ensures |ls| > 0
    decreases |text|
  {
    if |text| == 0 then [""]
    else
      var rest := Lines(text[1..]);
      if IsLineTerminator(text[0]) then [""] + rest else [[text[0]] + rest[0]] + rest[1..]
  }

  /** The length of the run of `c` a line starts with. */
  function LeadingRun(line: string, c: char): (n: nat)
    ensures n <= |line|
    ensures forall j :: 0 <= j < n ==> line[j] == c
    ensures n < |line| ==> line[n] != c
  {
    if |line| > 0 && line[0] == c then 1 + LeadingRun(line[1..], c) else 0
  }

  /** How many lines start with `c`: the matches of `/^c+/gm`. */
  function LinesStartingWith(ls: seq<string>, c: char): (n: nat)
    ensures n <= |ls|
  {
    if |ls| == 0 then 0 else LinesStartingWith(ls[..|ls| - 1], c) + if LeadingRun(ls[|ls| - 1], c) > 0 then 1 else 0
  }

  /** The lengths of the leading space runs, those of 2 or more. */
  function SpaceIndents(ls: seq<string>): (ns: seq<nat>)
    ensures |ns| <= |ls|
    ensures forall n :: n in ns ==> n >= 2
  {
    if |ls| == 0 then []
    else
      var n := LeadingRun(ls[|ls| - 1], ' ');
      SpaceIndents(ls[..|ls| - 1]) + if n >= 2 then [n] else []
  }

  /** The indents that are a multiple of 4. */
  function Fours(ns: seq<nat>): (c: nat)
    ensures c <= |ns|
  {
    if |ns| == 0 then 0 else Fours(ns[..|ns| - 1]) + if ns[|ns| - 1] % 4 == 0 then 1 else 0
  }

  /** The indents that are even but not a multiple of 4. */
  function Twos(ns: seq<nat>): (c: nat)
    ensures c <= |ns|
  {
    if |ns| == 0 then 0 else Twos(ns[..|ns| - 1]) + if ns[|ns| - 1] % 4 != 0 && ns[|ns| - 1] % 2 == 0 then 1 else 0
  }

  /** The even indents. */
  function Evens(ns: seq<nat>): (c: nat)
    ensures c <= |ns|
  {
    if |ns| == 0 then 0 else Evens(ns[..|ns| - 1]) + if ns[|ns| - 1] % 2 == 0 then 1 else 0
  }

  lemma {:induction false} FourIsEven(n: nat)
    ensures n % 4 == 0 ==> n % 2 == 0
  {
    if n >= 4 {
      FourIsEven(n - 4);
    }
  }

  /** Each even indent is counted once, as a four or as a two; odd ones are
      not counted. */
  lemma {:induction false} TallySplitsEvens(ns: seq<nat>)
    ensures Fours(ns) + Twos(ns) == Evens(ns) <= |ns|
  {
    if |ns| > 0 {
      TallySplitsEvens(ns[..|ns| - 1]);
      FourIsEven(ns[|ns| - 1]);
    }
  }

  /** The tally loop over the space indents. */
  method Tally(ns: seq<nat>) returns (two: nat, four: nat)
    ensures four == Fours(ns) && two == Twos(ns)
  {
    two, four := 0, 0;
    for i := 0 to |ns|
      invariant four == Fours(ns[..i]) && two == Twos(ns[..i])
    {
      assert ns[..i + 1][..i] == ns[..i];
      var n := ns[i];
      if n % 4 == 0 {
        four := four + 1;
      } else if n % 2 == 0 {
        two := two + 1;
      }
    }
    assert ns[..|ns|] == ns;
  }

  /** The indentation part of the hint for JavaScript and TypeScript. */
  function IndentHint(text: string): string {
    var ls := Lines(text);
    if LinesStartingWith(ls, '\t') > LinesStartingWith(ls, ' ') then "use tabs"
    else
      var ns := SpaceIndents(ls);
      if Fours(ns) >= Twos(ns) then "use 4-space indent" else "use 2-space indent"
  }

  /** The hint, computed with the tally loop. */
  method DeriveIndentHint(text: string) returns (hint: string)
    ensures hint == IndentHint(text)
    ensures hint == "use tabs" <==> LinesStartingWith(Lines(text), '\t') > LinesStartingWith(Lines(text), ' ')
  {
    var ls := Lines(text);
    if LinesStartingWith(ls, '\t') > LinesStartingWith(ls, ' ') {
      hint := "use tabs";
    } else {
      var two, four := Tally(SpaceIndents(ls));
      hint := if four >= two then "use 4-space indent" else "use 2-space indent";
    }
  }
}
