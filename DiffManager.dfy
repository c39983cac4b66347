/** The pending-diff bookkeeping of `DiffManager` (src/DiffManager.ts and its
    compiled twin out/DiffManager.js).

    A URI is identified with its file-system path (every URI here has the
    `file` scheme, and `toString` is injective on those). The file system is a
    map from path to text, shared by the workspace files and the backup files
    in the temporary directory. `pendingDiffs` is a JavaScript `Map`, which
    iterates in insertion order; it is modelled as a sequence of entries in
    that order, keyed by `original`. */
module DiffManager {
  import opened Wrappers
  import opened Strings

  /** One pending diff: the file, its backup file and the text it had before. */
  datatype DiffEntry = DiffEntry(original: string, temp: string, originalContent: string)

  // ---------------------------------------------------------------------------
  // The Map<string, DiffEntry> as an insertion-ordered sequence
  // ---------------------------------------------------------------------------

  /** At most one entry per key: the property a `Map` keeps by construction. */
  predicate KeysDistinct(t: seq<DiffEntry>) {
    forall i, j :: 0 <= i < j < |t| ==> t[i].original != t[j].original
  }

  /** `pendingDiffs.get(key)`. */
  function Lookup(t: seq<DiffEntry>, key: string): (r: Option<DiffEntry>)
    ensures r.Some? ==> r.value in t && r.value.original == key
    ensures r.None? ==> forall e :: e in t ==> e.original != key
  {
    if |t| == 0 then None
    else if t[0].original == key then Some(t[0])
    else Lookup(t[1..], key)
  }

  /** `pendingDiffs.set(e.original, e)`: an existing key keeps its place and
      gets the new entry; a new key goes at the end. */
  function Set(t: seq<DiffEntry>, e: DiffEntry): (r: seq<DiffEntry>)
    ensures Lookup(t, e.original).None? ==> r == t + [e]
    ensures Lookup(t, e.original).Some? ==> |r| == |t|
    ensures forall x :: x in r ==> x == e || x in t
  {
    if |t| == 0 then [e]
    else if t[0].original == e.original then [e] + t[1..]
    else [t[0]] + Set(t[1..], e)
  }

  lemma {:induction false} SetLookup(t: seq<DiffEntry>, e: DiffEntry, k: string)
    ensures Lookup(Set(t, e), k) == if k == e.original then Some(e) else Lookup(t, k)
  {
    if |t| > 0 && t[0].original != e.original {
      SetLookup(t[1..], e, k);
      assert Set(t, e)[1..] == Set(t[1..], e);
    }
  }

  /** The tail of a table with distinct keys has distinct keys, none of them
      the head's. */
  lemma {:induction false} TailKeysDistinct(t: seq<DiffEntry>)
    requires |t| > 0 && KeysDistinct(t)
    ensures KeysDistinct(t[1..])
    ensures forall y :: y in t[1..] ==> y.original != t[0].original
  {
    forall i, j | 0 <= i < j < |t[1..]| ensures t[1..][i].original != t[1..][j].original {
      assert t[1..][i] == t[i + 1] && t[1..][j] == t[j + 1];
    }
    forall y | y in t[1..] ensures y.original != t[0].original {
      var m :| 0 <= m < |t[1..]| && t[1..][m] == y;
      assert t[m + 1] == y;
    }
  }

  /** An entry put in front of a table with distinct keys, none of them its
      own, gives a table with distinct keys. */
  lemma {:induction false} ConsKeysDistinct(x: DiffEntry, rest: seq<DiffEntry>)
    requires KeysDistinct(rest)
    requires forall y :: y in rest ==> y.original != x.original
    ensures KeysDistinct([x] + rest)
  {
    var r := [x] + rest;
    forall i, j | 0 <= i < j < |r| ensures r[i].original != r[j].original {
      assert r[j] == rest[j - 1];
      if i > 0 {
        assert r[i] == rest[i - 1];
      }
    }
  }

  lemma {:induction false} SetKeepsKeysDistinct(t: seq<DiffEntry>, e: DiffEntry)
    requires KeysDistinct(t)
    ensures KeysDistinct(Set(t, e))
  {
    if |t| == 0 {
      assert Set(t, e) == [e];
    } else {
      TailKeysDistinct(t);
      if t[0].original == e.original {
        ConsKeysDistinct(e, t[1..]);
      } else {
        SetKeepsKeysDistinct(t[1..], e);
        ConsKeysDistinct(t[0], Set(t[1..], e));
      }
    }
  }

  /** `pendingDiffs.delete(key)`: the order of the other entries is kept. */
  function Delete(t: seq<DiffEntry>, key: string): (r: seq<DiffEntry>)
    ensures Lookup(r, key) == None
    ensures forall k :: k != key ==> Lookup(r, k) == Lookup(t, k)
    ensures forall x :: x in r <==> x in t && x.original != key
    ensures |r| <= |t|
  {
    if |t| == 0 then []
    else if t[0].original == key then Delete(t[1..], key)
    else
      var rest := Delete(t[1..], key);
      assert t == [t[0]] + t[1..];
      [t[0]] + rest
  }

  /** Deleting a key keeps the keys distinct. */
  lemma {:induction false} DeleteKeepsKeysDistinct(t: seq<DiffEntry>, key: string)
    requires KeysDistinct(t)
    ensures KeysDistinct(Delete(t, key))
  {
    if |t| > 0 {
      TailKeysDistinct(t);
      DeleteKeepsKeysDistinct(t[1..], key);
      if t[0].original != key {
        ConsKeysDistinct(t[0], Delete(t[1..], key));
      }
    }
  }

  /** The test `findEntry` and `updateContext` apply to each entry. */
  predicate Matches(e: DiffEntry, uri: string) {
    e.original == uri || e.temp == uri
  }

  /** Index of the first entry, in insertion order, whose file or backup file
      is `uri`. */
  function FindIndex(t: seq<DiffEntry>, uri: string): (r: Option<nat>)
    ensures r.Some? ==> r.value < |t| && Matches(t[r.value], uri)
    ensures r.Some? ==> forall j :: 0 <= j < r.value ==> !Matches(t[j], uri)
    ensures r.None? ==> forall j :: 0 <= j < |t| ==> !Matches(t[j], uri)
  {
    if |t| == 0 then None
    else if Matches(t[0], uri) then Some(0)
    else match FindIndex(t[1..], uri)
      case None => None
      case Some(i) => Some(i + 1)
  }

  /** `findEntry(uri)`: the first entry, in insertion order, whose file or
      backup file is `uri`. */
  function FindEntry(t: seq<DiffEntry>, uri: string): (r: Option<DiffEntry>)
    ensures r.Some? ==> r.value in t && Matches(r.value, uri)
    ensures r.None? ==> forall e :: e in t ==> !Matches(e, uri)
  {
    match FindIndex(t, uri)
    case None => None
    case Some(i) => Some(t[i])
  }

  /** The value `updateContext` gives the `vibe-coding.isVicoDiff` context key
      for the active editor's document. */
  predicate IsVicoDiff(t: seq<DiffEntry>, editor: Option<string>) {
    editor.Some? && exists e :: e in t && Matches(e, editor.value)
  }

  /** The context key is set exactly when `findEntry` would find an entry for
      the active editor. */
  lemma VicoDiffIffFound(t: seq<DiffEntry>, editor: Option<string>)
    ensures IsVicoDiff(t, editor) <==> editor.Some? && FindEntry(t, editor.value).Some?
  {
    if editor.Some? && FindEntry(t, editor.value).Some? {
      assert FindEntry(t, editor.value).value in t;
    }
  }

  // ---------------------------------------------------------------------------
  // The manager's operations as transitions of a snapshot
  // ---------------------------------------------------------------------------

  /** What the manager reads and changes: its table, the file system and the
      context key it last set. */
  datatype Snapshot = Snapshot(pending: seq<DiffEntry>, disk: map<string, string>, flag: bool)

  /** Which step of `openDiff` throws, if any. Reading a missing file is not a
      fault: `openDiff` catches it and uses "". */
  datatype OpenFault = NoFault | WriteFails | BackupFails | DiffViewFails

  /** The value out/DiffManager.js's `openDiff` returns; src/DiffManager.ts
      returns `success` alone. */
  datatype OpenResult = OpenResult(success: bool, originalContent: Option<string>)

  /** The backup file's path: `vico_backup_<md5 of the path>_<base name>` in
      the temporary directory, with md5 given as `digest`. */
  function TempPath(tmpDir: string, digest: string -> string, file: string): string {
    tmpDir + "/vico_backup_" + digest(file) + "_" + Basename(file)
  }

  /** The text `openDiff` reads as the file's old content: "" when the file
      cannot be read. */
  function Prior(disk: map<string, string>, file: string): string {
    if file in disk then disk[file] else ""
  }

  /** `updateContext(editor)`. */
  function UpdateContextStep(s: Snapshot, editor: Option<string>): Snapshot {
    s.(flag := IsVicoDiff(s.pending, editor))
  }

  /** `openDiff(file, newContent)`: read the old text ("" when missing), write
      the new text, write the old text to the backup, record the entry, open
      the diff view, refresh the context key for the editor then `active`. A
      throwing step ends the call with `{success: false, originalContent: null}`
      and leaves what the earlier steps did. */
  function OpenDiffStep(s: Snapshot, file: string, newContent: string, temp: string,
                        fault: OpenFault, active: Option<string>): (Snapshot, OpenResult)
  {
    var existed := file in s.disk;
    var oldContent := Prior(s.disk, file);
    if fault == WriteFails then (s, OpenResult(false, None))
    else
      var written := s.disk[file := newContent];
      if fault == BackupFails then (s.(disk := written), OpenResult(false, None))
      else
        var backedUp := written[temp := oldContent];
        var table := Set(s.pending, DiffEntry(file, temp, oldContent));
        if fault == DiffViewFails then (Snapshot(table, backedUp, s.flag), OpenResult(false, None))
        else
          (UpdateContextStep(Snapshot(table, backedUp, s.flag), active),
           OpenResult(true, if existed then Some(oldContent) else None))
  }

  /** `cleanup(e)`: drop the entry's key, delete its backup file if present,
      refresh the context key. */
  function CleanupStep(s: Snapshot, e: DiffEntry, active: Option<string>): Snapshot {
    UpdateContextStep(s.(pending := Delete(s.pending, e.original), disk := s.disk - {e.temp}), active)
  }

  /** `acceptFile(file)`. */
  function AcceptFileStep(s: Snapshot, file: string, active: Option<string>): Snapshot {
    match FindEntry(s.pending, file)
    case None => s
    case Some(e) => CleanupStep(s, e, active)
  }

  /** `acceptDiff()` with the active editor's document `editor`; `dirty` holds
      the unsaved text of each open, modified document, which is saved first
      for the entry's file. */
  function AcceptDiffStep(s: Snapshot, editor: Option<string>, dirty: map<string, string>,
                          active: Option<string>): Snapshot
  {
    if editor.None? then s
    else match FindEntry(s.pending, editor.value)
      case None => s
      case Some(e) =>
        var saved := if e.original in dirty then s.disk[e.original := dirty[e.original]] else s.disk;
        CleanupStep(s.(disk := saved), e, active)
  }

  /** `rejectDiff()` with the active editor's document `editor`: write the
      recorded text back (unless that write throws), then clean up. */
  function RejectDiffStep(s: Snapshot, editor: Option<string>, revertFails: bool,
                          active: Option<string>): Snapshot
  {
    if editor.None? then s
    else match FindEntry(s.pending, editor.value)
      case None => s
      case Some(e) =>
        var reverted := if revertFails then s.disk else s.disk[e.original := e.originalContent];
        CleanupStep(s.(disk := reverted), e, active)
  }

  // ---------------------------------------------------------------------------
  // Properties
  // ---------------------------------------------------------------------------

  /** A successful `openDiff` leaves the new text in the file, the old text in
      the backup, and one entry for the file that records the old text ("" for
      a file that did not exist); it reports `null` for a missing file and the
      old text otherwise. */
  lemma OpenDiffRecords(s: Snapshot, file: string, newContent: string, temp: string,
                        active: Option<string>)
    requires temp != file
    ensures var (s', res) := OpenDiffStep(s, file, newContent, temp, NoFault, active);
      var prior := Prior(s.disk, file);
      && res.success
      && res.originalContent == (if file in s.disk then Some(s.disk[file]) else None)
      && s'.disk == s.disk[file := newContent][temp := prior]
      && Lookup(s'.pending, file) == Some(DiffEntry(file, temp, prior))
      && (forall k :: k != file ==> Lookup(s'.pending, k) == Lookup(s.pending, k))
      && s'.flag == IsVicoDiff(s'.pending, active)
  {
    var prior := Prior(s.disk, file);
    forall k {
      SetLookup(s.pending, DiffEntry(file, temp, prior), k);
    }
  }

  /** Every throwing step makes `openDiff` report `{success: false,
      originalContent: null}`; a failed first write changes nothing, a failed
      backup leaves the new text written but no entry. */
  lemma OpenDiffFails(s: Snapshot, file: string, newContent: string, temp: string,
                      fault: OpenFault, active: Option<string>)
    requires fault != NoFault
    ensures var (s', res) := OpenDiffStep(s, file, newContent, temp, fault, active);
      && res == OpenResult(false, None)
      && (fault == WriteFails ==> s' == s)
      && (fault == BackupFails ==> s'.pending == s.pending && s'.disk == s.disk[file := newContent])
      && (fault == DiffViewFails ==> Lookup(s'.pending, file).Some?)
  {
    var prior := Prior(s.disk, file);
    SetLookup(s.pending, DiffEntry(file, temp, prior), file);
  }

  /** A second `openDiff` on the same file replaces the entry, and the text it
      records is what the first call wrote. */
  lemma OpenTwiceReplaces(s: Snapshot, file: string, c1: string, c2: string, temp: string,
                          a1: Option<string>, a2: Option<string>)
    requires temp != file
    requires KeysDistinct(s.pending)
    ensures var s1 := OpenDiffStep(s, file, c1, temp, NoFault, a1).0;
      var s2 := OpenDiffStep(s1, file, c2, temp, NoFault, a2).0;
      && KeysDistinct(s2.pending)
      && Lookup(s2.pending, file) == Some(DiffEntry(file, temp, c1))
      && |s2.pending| == |s1.pending|
      && s2.disk[file] == c2
  {
    var prior := Prior(s.disk, file);
    var s1 := OpenDiffStep(s, file, c1, temp, NoFault, a1).0;
    assert s1.pending == Set(s.pending, DiffEntry(file, temp, prior));
    assert file in s1.disk && s1.disk[file] == c1;
    SetKeepsKeysDistinct(s.pending, DiffEntry(file, temp, prior));
    SetLookup(s.pending, DiffEntry(file, temp, prior), file);
    SetKeepsKeysDistinct(s1.pending, DiffEntry(file, temp, c1));
    SetLookup(s1.pending, DiffEntry(file, temp, c1), file);
  }

  /** No other entry can be confused with `file` or its backup `temp` by
      `findEntry`, and the backup is a different file. */
  predicate Unambiguous(t: seq<DiffEntry>, file: string, temp: string) {
    temp != file &&
    forall e :: e in t && e.original != file ==>
      e.original != temp && e.temp != temp && e.temp != file
  }

  /** Rejecting, from an editor on the file or on its backup, right after a
      successful `openDiff` restores the file's text, deletes the backup and
      drops the entry; the rest of the table is as before. A file that did not
      exist is left holding "". */
  lemma OpenThenRejectRestores(s: Snapshot, file: string, newContent: string, temp: string,
                               a1: Option<string>, editor: string, a2: Option<string>)
    requires Unambiguous(s.pending, file, temp)
    requires editor == file || editor == temp
    ensures var s1 := OpenDiffStep(s, file, newContent, temp, NoFault, a1).0;
      var s2 := RejectDiffStep(s1, Some(editor), false, a2);
      && s2.disk == (if file in s.disk then s.disk else s.disk[file := ""]) - {temp}
      && Lookup(s2.pending, file) == None
      && (forall k :: k != file ==> Lookup(s2.pending, k) == Lookup(s.pending, k))
  {
    var prior := Prior(s.disk, file);
    var e := DiffEntry(file, temp, prior);
    var d1 := s.disk[file := newContent][temp := prior];
    var s1 := OpenDiffStep(s, file, newContent, temp, NoFault, a1).0;
    OpenedShape(s, file, newContent, temp, a1);
    FoundAfterSet(s.pending, file, temp, prior, editor);
    RejectFoundShape(s1, editor, e, false, a2);
    var s2 := RejectDiffStep(s1, Some(editor), false, a2);
    assert s2.pending == Delete(s1.pending, file);
    forall k | k != file ensures Lookup(s2.pending, k) == Lookup(s.pending, k) {
      SetLookup(s.pending, e, k);
    }
    assert s2.disk == d1[file := prior] - {temp};
    RevertedDisk(s.disk, file, newContent, temp);
  }

  /** Writing the new text and the backup, then the old text back, then
      deleting the backup leaves the disk as before, less the backup (and with
      "" for a file that was missing). */
  lemma RevertedDisk(disk: map<string, string>, file: string, c: string, temp: string)
    requires temp != file
    ensures var prior := Prior(disk, file);
      disk[file := c][temp := prior][file := prior] - {temp}
        == (if file in disk then disk else disk[file := ""]) - {temp}
  {
    var prior := Prior(disk, file);
    var lhs := disk[file := c][temp := prior][file := prior] - {temp};
    var rhs := (if file in disk then disk else disk[file := ""]) - {temp};
    assert lhs.Keys == rhs.Keys;
    forall p | p in lhs ensures lhs[p] == rhs[p] {
    }
  }

  /** The state after a successful `openDiff`. */
  lemma OpenedShape(s: Snapshot, file: string, c: string, temp: string, active: Option<string>)
    ensures var t := Set(s.pending, DiffEntry(file, temp, Prior(s.disk, file)));
      OpenDiffStep(s, file, c, temp, NoFault, active).0
        == Snapshot(t, s.disk[file := c][temp := Prior(s.disk, file)], IsVicoDiff(t, active))
  {
  }

  /** The state after `rejectDiff` finds entry `e`. */
  lemma RejectFoundShape(s: Snapshot, editor: string, e: DiffEntry, revertFails: bool, active: Option<string>)
    requires FindEntry(s.pending, editor) == Some(e)
    ensures RejectDiffStep(s, Some(editor), revertFails, active)
      == CleanupStep(s.(disk := if revertFails then s.disk else s.disk[e.original := e.originalContent]), e, active)
  {
  }

  /** After recording the entry for `file`, `findEntry` on the file or its
      backup finds that entry. */
  lemma {:induction false} FoundAfterSet(t: seq<DiffEntry>, file: string, temp: string, prior: string, editor: string)
    requires Unambiguous(t, file, temp)
    requires editor == file || editor == temp
    ensures FindEntry(Set(t, DiffEntry(file, temp, prior)), editor) == Some(DiffEntry(file, temp, prior))
  {
    var e := DiffEntry(file, temp, prior);
    var r := Set(t, e);
    if |t| == 0 {
      assert r == [e];
      assert FindIndex(r, editor) == Some(0);
    } else if t[0].original == file {
      assert r == [e] + t[1..];
      assert FindIndex(r, editor) == Some(0);
    } else {
      assert Unambiguous(t[1..], file, temp) by {
        forall x | x in t[1..] ensures x in t { }
      }
      FoundAfterSet(t[1..], file, temp, prior, editor);
      FoundPastHead(t, e, editor);
    }
  }

  /** `findEntry` past a head that does not match finds what it finds in
      the tail. */
  lemma {:induction false} FindEntryPastHead(x: DiffEntry, rest: seq<DiffEntry>, uri: string)
    requires !Matches(x, uri)
    ensures FindEntry([x] + rest, uri) == FindEntry(rest, uri)
  {
    var r := [x] + rest;
    assert r[0] == x && r[1..] == rest;
    match FindIndex(rest, uri)
    case None =>
    case Some(i) =>
      assert FindIndex(r, uri) == Some(i + 1);
      assert r[i + 1] == rest[i];
  }

  /** An entry `findEntry` finds after the head, when the head does not
      match, is still found once the head is put back. */
  lemma {:induction false} FoundPastHead(t: seq<DiffEntry>, e: DiffEntry, editor: string)
    requires |t| > 0 && t[0].original != e.original && !Matches(t[0], editor)
    requires FindEntry(Set(t[1..], e), editor) == Some(e)
    ensures FindEntry(Set(t, e), editor) == Some(e)
  {
    FindEntryPastHead(t[0], Set(t[1..], e), editor);
  }

  /** `rejectDiff` drops the entry and the backup even when writing the old
      text back throws; the file then keeps whatever it held. */
  lemma RejectWhenRevertFails(s: Snapshot, editor: string, active: Option<string>)
    requires FindEntry(s.pending, editor).Some?
    ensures var e := FindEntry(s.pending, editor).value;
      var s' := RejectDiffStep(s, Some(editor), true, active);
      && Lookup(s'.pending, e.original) == None
      && s'.disk == s.disk - {e.temp}
  {
  }

  /** Accepting drops the entry and the backup and does not rewrite the file:
      the file keeps its text, except that `acceptDiff` first saves a dirty
      buffer of it. */
  lemma AcceptKeepsFile(s: Snapshot, editor: string, dirty: map<string, string>, active: Option<string>)
    requires FindEntry(s.pending, editor).Some?
    ensures var e := FindEntry(s.pending, editor).value;
      var s1 := AcceptDiffStep(s, Some(editor), dirty, active);
      var s2 := AcceptFileStep(s, editor, active);
      && Lookup(s1.pending, e.original) == None
      && Lookup(s2.pending, e.original) == None
      && s1.disk == (if e.original in dirty then s.disk[e.original := dirty[e.original]] else s.disk) - {e.temp}
      && s2.disk == s.disk - {e.temp}
  {
  }

  /** Accepting right after a successful `openDiff` (nothing unsaved) keeps the
      new text and removes the backup and the entry. */
  lemma OpenThenAcceptKeeps(s: Snapshot, file: string, newContent: string, temp: string,
                            a1: Option<string>, editor: string, a2: Option<string>)
    requires Unambiguous(s.pending, file, temp)
    requires editor == file || editor == temp
    ensures var s1 := OpenDiffStep(s, file, newContent, temp, NoFault, a1).0;
      var s2 := AcceptDiffStep(s1, Some(editor), map[], a2);
      && s2.disk == s.disk[file := newContent] - {temp}
      && Lookup(s2.pending, file) == None
      && (forall k :: k != file ==> Lookup(s2.pending, k) == Lookup(s.pending, k))
  {
    var prior := Prior(s.disk, file);
    var e := DiffEntry(file, temp, prior);
    var d1 := s.disk[file := newContent][temp := prior];
    var s1 := OpenDiffStep(s, file, newContent, temp, NoFault, a1).0;
    OpenedShape(s, file, newContent, temp, a1);
    FoundAfterSet(s.pending, file, temp, prior, editor);
    var s2 := AcceptDiffStep(s1, Some(editor), map[], a2);
    assert s2 == CleanupStep(s1, e, a2);
    forall k | k != file ensures Lookup(s2.pending, k) == Lookup(s.pending, k) {
      SetLookup(s.pending, e, k);
    }
    assert s2.disk == d1 - {temp};
    BackupDropped(s.disk[file := newContent], temp, prior);
  }

  /** Writing a file and then deleting it is deleting it. */
  lemma BackupDropped(disk: map<string, string>, temp: string, c: string)
    ensures disk[temp := c] - {temp} == disk - {temp}
  {
    assert (disk[temp := c] - {temp}).Keys == (disk - {temp}).Keys;
  }

  /** `cleanup` removes its own key and backup only: every other entry and
      every other file is unchanged, and the table keeps one entry per key. */
  lemma CleanupOnlyOwn(s: Snapshot, e: DiffEntry, active: Option<string>)
    requires KeysDistinct(s.pending)
    ensures var s' := CleanupStep(s, e, active);
      && KeysDistinct(s'.pending)
      && Lookup(s'.pending, e.original) == None
      && (forall k :: k != e.original ==> Lookup(s'.pending, k) == Lookup(s.pending, k))
      && (forall p :: p != e.temp ==> (p in s'.disk <==> p in s.disk))
      && (forall p :: p != e.temp && p in s.disk ==> s'.disk[p] == s.disk[p])
      && e.temp !in s'.disk
  {
    DeleteKeepsKeysDistinct(s.pending, e.original);
  }

  /** Without an active editor, or when nothing matches its document,
      `acceptDiff` and `rejectDiff` change nothing. */
  lemma NoMatchNoChange(s: Snapshot, editor: Option<string>, dirty: map<string, string>,
                        revertFails: bool, active: Option<string>)
    requires editor.None? || forall e :: e in s.pending ==> !Matches(e, editor.value)
    ensures AcceptDiffStep(s, editor, dirty, active) == s
    ensures RejectDiffStep(s, editor, revertFails, active) == s
  {
    if editor.Some? {
      var r := FindEntry(s.pending, editor.value);
    }
  }

  /** `cleanup` keeps at most one entry per file, whatever the disk. */
  lemma CleanupKeepsKeysDistinct(s: Snapshot, e: DiffEntry, disk: map<string, string>,
                                 active: Option<string>)
    requires KeysDistinct(s.pending)
    ensures KeysDistinct(CleanupStep(s.(disk := disk), e, active).pending)
  {
    DeleteKeepsKeysDistinct(s.pending, e.original);
  }

  /** `openDiff` keeps at most one entry per file. */
  lemma OpenKeepsKeysDistinct(s: Snapshot, file: string, c: string, temp: string, fault: OpenFault,
                              active: Option<string>)
    requires KeysDistinct(s.pending)
    ensures KeysDistinct(OpenDiffStep(s, file, c, temp, fault, active).0.pending)
  {
    SetKeepsKeysDistinct(s.pending, DiffEntry(file, temp, Prior(s.disk, file)));
  }

  /** `acceptFile` keeps at most one entry per file. */
  lemma AcceptFileKeepsKeysDistinct(s: Snapshot, file: string, active: Option<string>)
    requires KeysDistinct(s.pending)
    ensures KeysDistinct(AcceptFileStep(s, file, active).pending)
  {
    var f := FindEntry(s.pending, file);
    if f.Some? {
      CleanupKeepsKeysDistinct(s, f.value, s.disk, active);
      assert s.(disk := s.disk) == s;
    }
  }

  /** `acceptDiff` keeps at most one entry per file. */
  lemma AcceptDiffKeepsKeysDistinct(s: Snapshot, editor: Option<string>, dirty: map<string, string>,
                                    active: Option<string>)
    requires KeysDistinct(s.pending)
    ensures KeysDistinct(AcceptDiffStep(s, editor, dirty, active).pending)
  {
    if editor.Some? {
      var g := FindEntry(s.pending, editor.value);
      if g.Some? {
        var e := g.value;
        CleanupKeepsKeysDistinct(s, e, if e.original in dirty then s.disk[e.original := dirty[e.original]] else s.disk, active);
      }
    }
  }

  /** `rejectDiff` keeps at most one entry per file. */
  lemma RejectKeepsKeysDistinct(s: Snapshot, editor: Option<string>, b: bool, active: Option<string>)
    requires KeysDistinct(s.pending)
    ensures KeysDistinct(RejectDiffStep(s, editor, b, active).pending)
  {
    if editor.Some? {
      var g := FindEntry(s.pending, editor.value);
      if g.Some? {
        var e := g.value;
        CleanupKeepsKeysDistinct(s, e, if b then s.disk else s.disk[e.original := e.originalContent], active);
      }
    }
  }

  /** Every operation keeps at most one entry per file, together. */
  lemma StepsKeepKeysDistinct(s: Snapshot, file: string, c: string, temp: string, fault: OpenFault,
                              editor: Option<string>, dirty: map<string, string>, b: bool,
                              active: Option<string>)
    requires KeysDistinct(s.pending)
    ensures KeysDistinct(OpenDiffStep(s, file, c, temp, fault, active).0.pending)
    ensures KeysDistinct(AcceptFileStep(s, file, active).pending)
    ensures KeysDistinct(AcceptDiffStep(s, editor, dirty, active).pending)
    ensures KeysDistinct(RejectDiffStep(s, editor, b, active).pending)
  {
    OpenKeepsKeysDistinct(s, file, c, temp, fault, active);
    AcceptFileKeepsKeysDistinct(s, file, active);
    AcceptDiffKeepsKeysDistinct(s, editor, dirty, active);
    RejectKeepsKeysDistinct(s, editor, b, active);
  }

  // ---------------------------------------------------------------------------
  // The class
  // ---------------------------------------------------------------------------

  /** The file system, as the editor and Node's `fs` module see it. */
  class Disk {
    var files: map<string, string>

    constructor (files: map<string, string>)
      ensures this.files == files
    {
      this.files := files;
    }
  }

  class DiffManager {
    var pendingDiffs: seq<DiffEntry>
    /** The last value given to the `vibe-coding.isVicoDiff` context key. */
    var isVicoDiff: bool
    const disk: Disk
    /** The operating system's temporary directory. */
    const tmpDir: string
    /** md5 of a path, as a hexadecimal string. */
    const digest: string -> string
    /** Where the backup of each file is kept: `TempPath(tmpDir, digest, _)`. */
    const backupPath: string -> string

    ghost predicate Valid()
      reads this
    {
      KeysDistinct(pendingDiffs) &&
      forall e :: e in pendingDiffs ==> e.temp == backupPath(e.original)
    }

    function Snap(): Snapshot
      reads this, disk
    {
      Snapshot(pendingDiffs, disk.files, isVicoDiff)
    }

    constructor (disk: Disk, tmpDir: string, digest: string -> string)
      ensures Valid()
      ensures pendingDiffs == [] && !isVicoDiff
      ensures this.disk == disk && this.tmpDir == tmpDir && this.digest == digest
      ensures forall file :: backupPath(file) == TempPath(tmpDir, digest, file)
    {
      this.disk := disk;
      this.tmpDir := tmpDir;
      this.digest := digest;
      this.backupPath := file => TempPath(tmpDir, digest, file);
      pendingDiffs := [];
      isVicoDiff := false;
    }

    method UpdateContext(editor: Option<string>)
      modifies this`isVicoDiff
      ensures isVicoDiff == IsVicoDiff(pendingDiffs, editor)
    {
      if editor.None? {
        isVicoDiff := false;
        return;
      }
      var uri := editor.value;
      isVicoDiff := exists e :: e in pendingDiffs && Matches(e, uri);
    }

    method OpenDiff(fileUri: string, newContent: string, fault: OpenFault, active: Option<string>)
      returns (success: bool, originalContent: Option<string>)
      requires Valid()
      modifies this, disk
      ensures Valid()
      ensures Snap() == OpenDiffStep(old(Snap()), fileUri, newContent, backupPath(fileUri), fault, active).0
      ensures OpenResult(success, originalContent)
        == OpenDiffStep(old(Snap()), fileUri, newContent, backupPath(fileUri), fault, active).1
    {
      // 1. the existing text, "" when the file cannot be read
      var oldContent := "";
      var fileExists := false;
      if fileUri in disk.files {
        oldContent := disk.files[fileUri];
        fileExists := true;
      }
      // 2. the new text goes to the file itself
      if fault == WriteFails {
        return false, None;
      }
      disk.files := disk.files[fileUri := newContent];
      // 3. the old text goes to the backup file
      var tempFilePath := backupPath(fileUri);
      if fault == BackupFails {
        return false, None;
      }
      disk.files := disk.files[tempFilePath := oldContent];
      // 4. the entry
      SetKeepsKeysDistinct(pendingDiffs, DiffEntry(fileUri, tempFilePath, oldContent));
      pendingDiffs := Set(pendingDiffs, DiffEntry(fileUri, tempFilePath, oldContent));
      // 5. the diff view
      if fault == DiffViewFails {
        return false, None;
      }
      // 6. the context key
      UpdateContext(active);
      return true, if fileExists then Some(oldContent) else None;
    }

    method AcceptFile(fileUri: string, active: Option<string>)
      requires Valid()
      modifies this, disk
      ensures Valid()
      ensures Snap() == AcceptFileStep(old(Snap()), fileUri, active)
    {
      var entry := FindEntry(pendingDiffs, fileUri);
      if entry.Some? {
        Cleanup(entry.value, active);
      }
    }

    method AcceptDiff(editor: Option<string>, dirty: map<string, string>, active: Option<string>)
      requires Valid()
      modifies this, disk
      ensures Valid()
      ensures Snap() == AcceptDiffStep(old(Snap()), editor, dirty, active)
    {
      if editor.None? {
        return;
      }
      var entry := FindEntry(pendingDiffs, editor.value);
      if entry.Some? {
        var e := entry.value;
        if e.original in dirty {
          disk.files := disk.files[e.original := dirty[e.original]];
        }
        Cleanup(e, active);
      }
    }

    method RejectDiff(editor: Option<string>, revertFails: bool, active: Option<string>)
      requires Valid()
      modifies this, disk
      ensures Valid()
      ensures Snap() == RejectDiffStep(old(Snap()), editor, revertFails, active)
    {
      if editor.None? {
        return;
      }
      var entry := FindEntry(pendingDiffs, editor.value);
      if entry.Some? {
        var e := entry.value;
        if !revertFails {
          disk.files := disk.files[e.original := e.originalContent];
        }
        Cleanup(e, active);
      }
    }

    method Cleanup(e: DiffEntry, active: Option<string>)
      requires Valid()
      modifies this, disk
      ensures Valid()
      ensures Snap() == CleanupStep(old(Snap()), e, active)
    {
      DeleteKeepsKeysDistinct(pendingDiffs, e.original);
      pendingDiffs := Delete(pendingDiffs, e.original);
      if e.temp in disk.files {
        disk.files := disk.files - {e.temp};
      }
      UpdateContext(active);
    }
  }
}
