# Vibe Coding extension: a verified model of its core

This project models, in Dafny, the logic of the Vibe Coding editor extension
that can be stated without the editor, the network or the file system's
implementation:

- **Pending diffs** (`DiffManager.dfy`). `DiffManager` keeps a `Map` from each
  file to its pending diff. `openDiff` writes the assistant's text into the
  file, keeps the old text in a backup file and records an entry.
  `acceptDiff` and `acceptFile` keep the new text. `rejectDiff` writes the old
  text back. `cleanup` drops the entry and the backup. `updateContext`
  computes the `vibe-coding.isVicoDiff` context key.
  - The map is an insertion-ordered sequence of entries, as a JavaScript `Map`
    iterates.
  - The file system is a map from path to text.
  - Each operation is a function over a snapshot of that state. A `class
    DiffManager` has methods that update its fields in place, and each method
    is proved equal to its function.
- **Applying an answer** (`WriteFile.dfy`). `writeFileVico` cuts the stored
  answer into `[writeFile]` blocks. From them it takes the
  `[file name="…"]…[/file]` blocks, and falls back to `<file path="…">…</file>`
  blocks when none could be opened. It opens each block as a pending diff.
  - The three regular expressions are written out as scanners with
    JavaScript's `exec` semantics: the leftmost match, and a lazy body.
  - Rendering blocks and scanning them back gives the blocks again.
- **Inline suggestions** (`Suggestions.dfy`). This covers:
  - `stripPrefix` and `normalizeInlineSuggestion`;
  - `presentSuggestions`;
  - the part of `fetchSuggestions` before the HTTP call: the source line, the
    context window, the `contextCode` loop and the request counter;
  - the handling of the response, which drops stale and off-line answers and
    applies the HTML filter;
  - the two completion providers.

  The module-level variables of `src/extension.ts` are the fields of a class.
- **Commands** (`Commands.dfy`). This covers:
  - the leading-separator path cleanup;
  - the text `applyCodeSelection` proposes, a splice of the selection;
  - the `keepAllModifiedFiles` loop with its success and failure counters;
  - the indentation tally of `deriveStyleHints`.
- **The workspace sampler** (`Sampler.dfy`). `getAllWorkspaceFiles` in
  `out/SidebarProvider.js` works in four steps:
  - it puts the text files into buckets by folder;
  - it selects at most two files per folder: priority files first, then
    normal files, then configuration files, each class sorted by path;
  - it regroups the selection under `src/<segment>` or `(root)`;
  - it packs the groups greedily into at most 40000 characters.

  Each loop is a method proved equal to a function on sequences and maps.
  The lemmas are about those functions.
- `Strings.dfy` holds the JavaScript string operations and Node's posix
  `path` functions that the above use. `path.join` and `vscode.Uri.joinPath`
  both normalise their result: runs of `/` collapse, `.` segments go and each
  `..` removes the segment before it. `Wrappers.dfy` holds `Option`.

Where this logic exists in both `src/DiffManager.ts` and `out/DiffManager.js`,
the two differ in one respect. The compiled `openDiff` returns
`{success, originalContent}`, and the TypeScript `openDiff` returns `success`
alone. The model returns both fields, and `success` is the TypeScript result.
The sampler exists only in `out/SidebarProvider.js`. The code comment at line
209 there says "max 3 priority files", but the code takes
`maxFilesPerFolder` (2). The model follows the code.

## Model

| member | source | states |
|---|---|---|
| Strings.TrimEnds | src/extension.ts:65 | what `trim()` keeps starts and ends with a non-white-space character |
| Strings.TrimIsSlice | src/extension.ts:72 | `trim()` returns a slice of its input with only white space cut off on either side |
| Strings.BlankIffAllWhite | src/extension.ts:70 | `!s.trim()` holds exactly when every character of `s` is white space |
| Strings.IndexOfFirst | out/SidebarProvider.js:224-225 | `indexOf` finds the first occurrence at or after `from`, and finds nothing only when there is none |
| Strings.ContainsIff | out/SidebarProvider.js:332 | `includes` holds exactly when the pattern occurs at some index |
| Strings.ToLower | out/SidebarProvider.js:312 | `toLowerCase` keeps the length and lower-cases each character in place |
| Strings.BasenameLastSegment | src/DiffManager.ts:70 | `path.basename` is the suffix of the path, trailing `/` dropped, after its last `/`: it holds no `/` and is preceded by one unless it is the whole |
| Strings.Extname | out/SidebarProvider.js:312 | `path.extname` is empty or starts with `.` |
| Strings.ExtnameOfBasename | out/SidebarProvider.js:312 | `path.extname` is "" exactly when the base name has no `.` after its first character or is `..`; otherwise it is the base name's suffix from its last `.`, which is not the first character |
| Strings.Dirname | out/SidebarProvider.js:195 | `path.dirname` is never empty |
| Strings.DirnameBasename | out/SidebarProvider.js:195 | for a path not ending in `/` whose last `/` is at `i`: the base name is what follows it, and the directory is `"/"` when `i` is 0, `"//"` when the path starts `//` and `i` is 1, and otherwise the text before it, so directory + `/` + base name is the path |
| Strings.DirnameNoSlash | out/SidebarProvider.js:195 | a path without `/` is its own base name, in the directory `.` |
| Strings.JoinSplit | src/extension.ts:342 | joining the pieces of `split("/")` with `/` gives the text back |
| Strings.SplitJoin | src/extension.ts:342 | splitting the `/`-join of segments free of `/` gives them back |
| Strings.Normalize | src/extension.ts:342 | `path.normalize` never gives "" and keeps an absolute path absolute |
| Strings.PathJoin | src/extension.ts:342 | `path.join`, and the path of `Uri.joinPath`, is never "" and is absolute when the root is |
| Strings.JoinBelowRoot | src/extension.ts:342 | joined to a root in normal form, a relative path without `..` segments gives the root, then its named segments each after one `/`, and its trailing `/`: runs of `/` and `.` segments vanish |
| Strings.ParentLeavesRoot | src/extension.ts:342 | joined to a root in normal form, `"../" + name` replaces the root's last segment by `name` and is not under the root |
| DiffManager.Lookup | src/DiffManager.ts:16 | `get(key)` returns an entry of the map with that key, and nothing only when no entry has it |
| DiffManager.Set | src/DiffManager.ts:101-106 | `set` appends an entry for a new key, keeps the size for an existing key, and adds no entry other than the new one |
| DiffManager.SetLookup | src/DiffManager.ts:101-106 | after `set`, the key maps to the new entry and every other key maps to what it did before |
| DiffManager.SetKeepsKeysDistinct | src/DiffManager.ts:101-106 | `set` keeps one entry per key |
| DiffManager.Delete | src/DiffManager.ts:199 | `delete(key)` removes that key only: every other key maps to what it did, and no entry is added |
| DiffManager.DeleteKeepsKeysDistinct | src/DiffManager.ts:199 | `delete` keeps one entry per key |
| DiffManager.FindIndex | src/DiffManager.ts:190-196 | the first entry in insertion order whose file or backup is the URI; none only when no entry matches |
| DiffManager.FindEntry | src/DiffManager.ts:190-196 | `findEntry` returns an entry of the map matching the URI on its file or backup; nothing only when none matches |
| DiffManager.VicoDiffIffFound | src/DiffManager.ts:47-65 | the context key is false without an editor, and otherwise true exactly when `findEntry` finds an entry for the editor's document |
| DiffManager.OpenDiffRecords | out/DiffManager.js:68-111 | a successful `openDiff` leaves the new text in the file and the old text ("" for a missing file) in the backup; it records that text under the file's key and leaves other keys alone; it returns `originalContent` null for a missing file and the old text otherwise |
| DiffManager.OpenDiffFails | out/DiffManager.js:83-116 | any throwing step returns `{success: false, originalContent: null}`; a failed first write changes nothing; a failed backup leaves the new text and no entry; a failed diff view keeps the entry |
| DiffManager.OpenTwiceReplaces | src/DiffManager.ts:101-106 | a second `openDiff` on a file replaces its entry, keeps the map's size and one entry per key, and records the text the first call wrote |
| DiffManager.OpenThenRejectRestores | src/DiffManager.ts:164-187 | `openDiff` then `rejectDiff` (editor on the file or its backup) restores the file's old text, removes the backup and the entry, and leaves the other entries alone; a file that did not exist is left holding "" |
| DiffManager.FoundAfterSet | src/DiffManager.ts:190-196 | after recording a file's entry, `findEntry` on the file or its backup finds that entry |
| DiffManager.RejectWhenRevertFails | src/DiffManager.ts:171-186 | when writing the old text back throws, `rejectDiff` still drops the entry and the backup and touches nothing else |
| DiffManager.AcceptKeepsFile | src/DiffManager.ts:132-162 | `acceptDiff` and `acceptFile` drop the entry and the backup and do not rewrite the file, except that `acceptDiff` first saves a dirty buffer of it |
| DiffManager.OpenThenAcceptKeeps | src/DiffManager.ts:139-161 | `openDiff` then `acceptDiff` leaves the new text in the file, removes the backup and the entry, and leaves the other entries alone |
| DiffManager.CleanupOnlyOwn | src/DiffManager.ts:198-208 | `cleanup` removes only its own key and its own backup file; every other entry and every other file is unchanged |
| DiffManager.NoMatchNoChange | src/DiffManager.ts:139-169 | without an active editor, or when no entry matches its document, `acceptDiff` and `rejectDiff` change nothing |
| DiffManager.CleanupKeepsKeysDistinct | src/DiffManager.ts:198-199 | `cleanup` keeps one entry per key |
| DiffManager.OpenKeepsKeysDistinct | src/DiffManager.ts:67-130 | `openDiff` keeps one entry per key, whichever step fails |
| DiffManager.AcceptFileKeepsKeysDistinct | src/DiffManager.ts:132-137 | `acceptFile` keeps one entry per key |
| DiffManager.AcceptDiffKeepsKeysDistinct | src/DiffManager.ts:139-162 | `acceptDiff` keeps one entry per key |
| DiffManager.RejectKeepsKeysDistinct | src/DiffManager.ts:164-188 | `rejectDiff` keeps one entry per key |
| DiffManager.StepsKeepKeysDistinct | src/DiffManager.ts:16 | every operation keeps at most one pending diff per file |
| DiffManager.DiffManager.constructor | src/DiffManager.ts:19-38 | a new manager has no pending diffs and the context key false |
| DiffManager.DiffManager.UpdateContext | src/DiffManager.ts:47-65 | sets the flag to whether some entry matches the editor's document |
| DiffManager.DiffManager.OpenDiff | out/DiffManager.js:68-117 | the new state and the returned `{success, originalContent}` are those of the `openDiff` transition, so the lemmas about that transition apply to it |
| DiffManager.DiffManager.AcceptFile | src/DiffManager.ts:132-137 | the new state is that of the `acceptFile` transition |
| DiffManager.DiffManager.AcceptDiff | src/DiffManager.ts:139-162 | the new state is that of the `acceptDiff` transition |
| DiffManager.DiffManager.RejectDiff | src/DiffManager.ts:164-188 | the new state is that of the `rejectDiff` transition |
| DiffManager.DiffManager.Cleanup | src/DiffManager.ts:198-208 | the new state is that of the `cleanup` transition |
| Suggestions.StripPrefix | src/extension.ts:32-37 | when the suggestion starts with the prefix, prefix + result is the suggestion; otherwise the result is the suggestion |
| Suggestions.RemoveChar | src/extension.ts:214 | the character no longer occurs and nothing is added |
| Suggestions.RemoveKeepsAbsent | src/extension.ts:214 | removing one character brings back no character that was absent |
| Suggestions.RemoveCharConcat | src/extension.ts:214 | `replace(/c/g, "")` works character by character: the removal of a concatenation is the concatenation of the removals, a single `c` goes and any other single character stays |
| Suggestions.WithoutBreaks | src/extension.ts:214 | a single filter of the characters that are not `\n` or `\r`; its result holds no line break |
| Suggestions.RemoveBreaksIsFilter | src/extension.ts:214 | removing `\n` and then `\r` keeps exactly the characters that are not line breaks, in order |
| Suggestions.NormalizeInlineSuggestion | src/extension.ts:213-215 | the result holds no `\n` or `\r` and has at most 120 characters |
| Suggestions.NormalizeKeepsFirstCharacters | src/extension.ts:213-215 | the suggestion shown is the first 120 of the text's characters other than line breaks, in order, or all of them when there are fewer |
| Suggestions.NormalizeIdempotent | src/extension.ts:213-215 | normalizing twice is normalizing once |
| Suggestions.NormalizeKeepsShortLine | src/extension.ts:213-215 | a line without line breaks and of at most 120 characters is kept as it is |
| Suggestions.SourceLine | src/extension.ts:61-68 | the source line is the cursor's line, or the one above exactly when the cursor's line is blank and not the first |
| Suggestions.ContextRadius | src/extension.ts:93-96 | the radius is 80 exactly for Python (by language or `.py` name), 40 otherwise |
| Suggestions.ContextWindow | src/extension.ts:97-102 | `0 <= start <= source <= end <= lineCount - 1`, at most `2 * radius` wide, each side clipped only at the document's edge |
| Suggestions.SplitJoined | src/extension.ts:104-107 | cutting the context text at its line breaks gives back exactly the window's lines |
| Suggestions.ContextCode | src/extension.ts:104-107 | the loop builds the lines `start..end`, each followed by `\n` |
| Suggestions.RequestContext | src/extension.ts:91-107 | the context sent is the window of the language's radius around the source line |
| Suggestions.InlineState.constructor | src/extension.ts:39-45 | the module starts with no suggestion, no request line or prefix, and request number 0 |
| Suggestions.InlineState.ClearSuggestion | src/extension.ts:533-535 | the clear command drops the suggestion |
| Suggestions.InlineState.PresentSuggestions | src/extension.ts:253-266 | a blank suggestion changes nothing; otherwise the stored suggestion is the normalized text, with the prefix stripped only when one is given and non-empty |
| Suggestions.InlineState.FetchSuggestions | src/extension.ts:47-107 | disabled: nothing; enabled: the request number goes up by one; the request line, prefix and new-line flag are recorded exactly when the source line is non-blank and (on a new line, or the cleaned input has 3 or more characters); a request is sent exactly when additionally a token exists, carrying that number, line, flag, cleaned input and context |
| Suggestions.InlineState.HandleResponse | src/extension.ts:162-190 | a failed, stale or off-line response, or a dropped HTML suggestion, leaves the suggestion unchanged; otherwise a non-blank answer is presented against the request line's current text |
| Suggestions.InlineState.ProvideInlineItems | src/extension.ts:575-597 | exactly one item, an empty range at the cursor holding the suggestion, when enabled, a suggestion exists, the request line is the cursor's line, and the line is blank or starts with the request prefix; none otherwise |
| Suggestions.InlineState.CompletionItems | src/extension.ts:509-525 | one item holding the suggestion exactly when a non-blank suggestion exists |
| Suggestions.StaleResponseIsDropped | src/extension.ts:57-167 | after two requests, the answer to the first is dropped and the shown suggestion stays as it was |
| WriteFile.BodyIsLazy | src/extension.ts:310 | a lazy body ends at the first closing tag after it, and there is no body without a closing tag |
| WriteFile.MatchIsFramed | src/extension.ts:333-334 | a match runs from an opening tag to a closing tag just after its body; a file pattern's name is non-empty and holds no `"` |
| WriteFile.NextFirst | src/extension.ts:315 | `exec` finds the leftmost match at or after its start index, and nothing only when no index matches |
| WriteFile.AllFromMatches | src/extension.ts:338 | every match the global `exec` loop lists is a match, in increasing order, without overlap |
| WriteFile.Blocks | src/extension.ts:339-340 | one block per match |
| WriteFile.CollectMatches | src/extension.ts:338 | the `exec` loop collects every match of the pattern, in order |
| WriteFile.CollectContent | src/extension.ts:308-329 | the content processed is each `[writeFile]` body followed by `\n`; when that is blank, the text after the first `[writeFile]`, or else the whole answer |
| WriteFile.WrappedContent | src/extension.ts:308-329 | a non-blank text wrapped in one `[writeFile]` block is processed as that text followed by `\n` |
| WriteFile.MatchRenderedAt | src/extension.ts:333-334 | a rendered well-formed block is the match at its position, with its own name and body |
| WriteFile.ParseRenderedAt | src/extension.ts:338-340 | scanning rendered well-formed blocks gives them back, in order |
| WriteFile.ParseRendered | src/extension.ts:333-340 | scanning from where rendered well-formed `[file]` or `<file>` blocks start, with fewer than 5 characters after them, gives the blocks back in order |
| WriteFile.OpenBlocksSnoc | src/extension.ts:338-356 | opening one more block opens it in the state the earlier ones left, and counts it only if its `handleDiff` succeeded |
| WriteFile.NoFaultsOpenAll | src/extension.ts:349-355 | when no call fails, every block counts in `filesCreated` |
| WriteFile.FilePassWins | src/extension.ts:358-359 | when the `[file]` blocks open at least one file, the `<file>` fallback does not run |
| WriteFile.XmlFallback | src/extension.ts:358-375 | when no `[file]` block is found, the `<file>` blocks are the ones opened |
| WriteFile.WriteRenderedFiles | src/extension.ts:307-375 | an answer made of one `[writeFile]` block of rendered well-formed `[file]` blocks opens exactly those blocks, in order, and counts all of them |
| WriteFile.HandleDiff | src/extension.ts:268-284 | `handleDiff` opens the block's content as a pending diff of its path under the root and reports its success |
| WriteFile.HandleAll | src/extension.ts:338-356 | the loop opens each block in turn and counts the successful calls |
| WriteFile.OpenMatches | src/extension.ts:338-356 | the matches of a pattern, trimmed, each opened in turn; one call per match |
| WriteFile.WriteFileVico | src/extension.ts:286-397 | the whole command: nothing without an answer or a workspace; otherwise the `[file]` pass, then the `<file>` pass only when nothing was created, and `filesCreated` as counted |
| Commands.CleanPath | src/extension.ts:432-435 | the trimmed path, with one leading `/` or `\` dropped when present |
| Commands.CleanPathDropsOne | src/extension.ts:432-435 | only one separator is dropped: one is left at the head only when the path began with two; a path without one is kept whole |
| Commands.CleanPathUnderRoot | src/extension.ts:432-437 | a cleaned path with a named segment and no `..` segment is joined under a project root in normal form, whatever separators it started with |
| Commands.Splice | src/extension.ts:715-718 | the text before the selection, then the code, then the text after it |
| Commands.SpliceUndo | src/extension.ts:715-718 | splicing the replaced text back over the code restores the original |
| Commands.ProposedText | src/extension.ts:712-727 | with no file path and a non-empty selection, the code replaces the selection and the text around it is kept; otherwise the code is the whole new text |
| Commands.ProposalKeepsOutside | src/extension.ts:712-718 | the proposal is the original outside the selection, and proposing the selection's own text gives the original back |
| Commands.Successes | src/extension.ts:816-843 | no more successes than files |
| Commands.Failures | src/extension.ts:816-843 | no more failures than files |
| Commands.FailuresAreFailingIndices | src/extension.ts:816-843 | the failures are the number of failing indices among the files |
| Commands.KeepCounts | src/extension.ts:816-843 | every file counts once, as a success or as a failure |
| Commands.CountsAtExtremes | src/extension.ts:816-843 | with no failure every file succeeds; when every write fails none does |
| Commands.AllFailKeepsState | src/extension.ts:819-843 | when every write fails, the files and the pending diffs are unchanged |
| Commands.KeepOneEffect | src/extension.ts:821-836 | a kept file holds its code and has no pending diff left |
| Commands.KeepFile | src/extension.ts:820-838 | one `try` block: the file is written and its diff accepted, or nothing happens when it throws |
| Commands.Tick | src/extension.ts:838-841 | a success raises `successCount`, a failure raises `failCount` |
| Commands.KeepAllModifiedFiles | src/extension.ts:802-857 | nothing without files or a workspace; otherwise every file handled in turn, and the counters are the successes and the failures |
| Commands.KeepEach | src/extension.ts:819-843 | the loop's final state and counters |
| Commands.Lines | src/extension.ts:228-229 | a text has at least one line |
| Commands.LeadingRun | src/extension.ts:228-229 | the run of a character a line starts with, and the longest one |
| Commands.LinesStartingWith | src/extension.ts:228-231 | no more matches of `/^c+/gm` than lines |
| Commands.SpaceIndents | src/extension.ts:235-237 | the space indents kept are all at least 2, one per line at most |
| Commands.TallySplitsEvens | src/extension.ts:240-243 | each even indent is counted once, as four or as two, and odd ones are not counted |
| Commands.Tally | src/extension.ts:238-243 | the loop counts the indents that are multiples of 4, and the even ones that are not |
| Commands.DeriveIndentHint | src/extension.ts:228-245 | the hint is "use tabs" exactly when more lines start with tabs than with spaces; otherwise the 4- or 2-space hint from the tally |
| Sampler.ConfigNamesHoldConfig | out/SidebarProvider.js:321-329 | each configuration name but `package.json` holds `config` |
| Sampler.ConfigWordIn | out/SidebarProvider.js:316-332 | a path holding one of those names holds `config` once lower-cased |
| Sampler.ConfigIsPriority | out/SidebarProvider.js:316-333 | every configuration file not named through `package.json` is also a priority file, so the classes overlap |
| Sampler.Candidates | out/SidebarProvider.js:183-199 | no more entries than workspace files |
| Sampler.CandidatesSpec | out/SidebarProvider.js:183-198 | every bucketed entry comes from a workspace file with a text extension; it has that file's path and classes, and non-empty code compressed as its class says |
| Sampler.KeepMembers | out/SidebarProvider.js:202-204 | a filter keeps only files of the list that pass |
| Sampler.GroupByBuckets | out/SidebarProvider.js:196-198 | bucketing gives distinct keys, exactly the keys some file has, each bucket holding exactly the files with its key in their order |
| Sampler.AddKeepsGroups | out/SidebarProvider.js:196-198 | pushing one more file into its bucket keeps the bucketing exact |
| Sampler.BucketKeys | out/SidebarProvider.js:196-198 | every file in a bucket has the bucket's key |
| Sampler.FirstSegment | out/SidebarProvider.js:225 | `split("/")[0]`: a prefix without `/`, followed by `/` or the end |
| Sampler.GroupKeyRoot | out/SidebarProvider.js:224-226 | the key is `(root)` exactly when the path has no `/src/` |
| Sampler.GroupKeySegment | out/SidebarProvider.js:224-226 | otherwise the key is `src/` and the segment after the first `/src/` |
| Sampler.CutAtNextSrc | out/SidebarProvider.js:225 | cutting at a later `/src/`, as `split` does, does not change that segment |
| Sampler.PathLeTotal | out/SidebarProvider.js:206-208 | any two paths are ordered |
| Sampler.InsertPerm | out/SidebarProvider.js:206-208 | inserting adds exactly the one file |
| Sampler.InsertSorted | out/SidebarProvider.js:206-208 | inserting into a sorted list keeps it sorted |
| Sampler.SortByPath | out/SidebarProvider.js:206-208 | the sort keeps the length |
| Sampler.SortPerm | out/SidebarProvider.js:206-208 | the sort is a permutation |
| Sampler.SortSorted | out/SidebarProvider.js:206-208 | the sort orders the files by path |
| Sampler.OfClass | out/SidebarProvider.js:202-204 | a class holds only files of the bucket in that class |
| Sampler.ClassByPath | out/SidebarProvider.js:202-208 | a sorted class has the class's size and only its files |
| Sampler.TakePrioritySpec | out/SidebarProvider.js:210 | the priority files taken are the first two by path, or all when fewer |
| Sampler.TakeNormalSpec | out/SidebarProvider.js:211-214 | normal files are taken only when fewer than two priority files exist, the first by path, as many as the slots left allow |
| Sampler.TakeConfigSpec | out/SidebarProvider.js:216-219 | configuration files are taken by path only into the slots the priority and normal files left free |
| Sampler.SlotsUsed | out/SidebarProvider.js:210-214 | the priority and normal files fill at most the two slots |
| Sampler.SelectFolderSpec | out/SidebarProvider.js:209-219 | at most two files per folder, all from its bucket |
| Sampler.SelectedTwice | out/SidebarProvider.js:202-219 | a file that is both priority and configuration, alone in its folder, is pushed twice |
| Sampler.GroupByFolders | out/SidebarProvider.js:195-198 | the folder buckets have distinct keys and each holds only files of its folder |
| Sampler.OwnSelection | out/SidebarProvider.js:216 | the folder filter keeps all of a folder's own selection and none of another's |
| Sampler.SelectedByFolder | out/SidebarProvider.js:201-219 | over all folders, the files selected for a folder are exactly that folder's own selection |
| Sampler.AtMostTwoPerFolder | out/SidebarProvider.js:209-219 | at most two files are selected for any folder, over all folders |
| Sampler.OwnMid | out/SidebarProvider.js:216 | before the configuration step, the files counted for the folder are its priority and normal files |
| Sampler.SelectFolderInto | out/SidebarProvider.js:201-219 | one folder's pass appends priority, then normal, then configuration files to the selection |
| Sampler.TakePriorityAndNormal | out/SidebarProvider.js:206-214 | the priority files taken, then the normal files taken |
| Sampler.AddConfig | out/SidebarProvider.js:216-219 | the configuration files fill the slots the folder's files so far leave free |
| Sampler.SelectFiles | out/SidebarProvider.js:200-220 | the selection loop selects from each folder in bucket order |
| Sampler.Push | out/SidebarProvider.js:196-198 | a missing key is appended with an empty list before the file is pushed; other buckets are unchanged |
| Sampler.BucketFile | out/SidebarProvider.js:184-198 | a text file with non-empty compression goes into its folder's bucket; any other file changes nothing |
| Sampler.BucketFiles | out/SidebarProvider.js:182-199 | the first loop buckets every candidate by folder, in workspace order |
| Sampler.GroupSelected | out/SidebarProvider.js:222-230 | the regrouping loop buckets the selection by group key, in selection order |
| Sampler.PackFiles | out/SidebarProvider.js:245-254 | appending snippets keeps what was packed and never exceeds 40000 characters |
| Sampler.PackFolders | out/SidebarProvider.js:235-256 | appending groups keeps what was packed and never exceeds 40000 characters |
| Sampler.PackFilesAllFit | out/SidebarProvider.js:245-254 | within the budget no snippet is skipped |
| Sampler.SkippedThenFits | out/SidebarProvider.js:245-254 | a snippet too large is skipped and a later one that fits is still appended |
| Sampler.HeaderTooLarge | out/SidebarProvider.js:236-244 | a group whose header does not fit is skipped whole |
| Sampler.PackGroup | out/SidebarProvider.js:245-255 | the inner loop keeps `totalSize` equal to the packed length |
| Sampler.PackGroups | out/SidebarProvider.js:232-256 | the packing loop packs the groups in group order |
| Sampler.GetAllWorkspaceFiles | out/SidebarProvider.js:179-258 | the sampler returns the packed selection, of at most 40000 characters |
| Sampler.SelectionPerFolder | out/SidebarProvider.js:200-220 | no folder of the workspace has more than two files in the selection |

## Left out

- HTTP: the suggestion endpoint's `fetch` and `triggerCodeCompletion`. `FetchSuggestions` ends with the request it would send, and `HandleResponse` starts from the response it got.
- Timers and cancellation: `debounce`, `setTimeout` and the `AbortController`. They are not part of this model. Stale responses are modelled by the sequential request counter.
- Editor glue is not part of this model. This covers the status bar, dialogs, notifications, the `vscode.diff` view, closing editors, `updateWebview` and the message routers of the sidebar. `applyCodeSelection` is modelled up to the text it proposes. The `vibe-coding.openDiff` command only writes a temporary file and opens a view.
- `removeCommentTags`, `stripComments` and `compressCodeSkeleton` are regular-expression chains. They are parameters of the members that use them.
- `deriveStyleHints`: only the indentation part is modelled. The semicolon hint compares a count with a floating-point `lineCount * 0.1`, and the quote hint counts string literals with regular expressions.
- md5 is a parameter `digest` of the manager. `os.tmpdir()` is a parameter `tmpDir`.
- Sampler.SortByPath: `localeCompare` is modelled as code-unit order, not the locale's collation.
- Strings.ToLower: only ASCII letters are lower-cased.
- Lengths are counted in characters, not UTF-16 code units. Strings hold no encoding.
- Commands.CleanPathUnderRoot: holds only for paths without `..` segments. `Uri.joinPath` and `path.join` resolve `..`, so a path such as `../../etc/x` leaves the project root in the program and in the model (`Strings.ParentLeavesRoot`).
- WriteFile.WriteFileVico: `createDirectory` is not modelled. When it throws (src/extension.ts:346 and 366), the program leaves through the outer `catch` (391-396) and abandons the remaining blocks and the `<file>` pass; in the model every block reaches `handleDiff`.
- Commands.KeepFile: `mkdirSync` is not modelled. A failing file is one whose `try` block throws before anything is written.
- Paths are POSIX paths. URIs are identified with their `file` paths, so Windows paths and `Uri.toString` encoding are not modelled.
- Sampler.GetAllWorkspaceFiles:
  - the `findFiles` call and its exclude glob are not modelled; the files arrive as values;
  - the `catch` that returns `''` is not modelled;
  - `Object.keys` order is insertion order, which holds because a folder path is never an integer-like key.
- DiffManager.DiffManager.Cleanup: a failing `unlinkSync` is not modelled. It is caught and logged, and the backup is then left behind.
- The faults of `openDiff`, `handleDiff` and `keepAllModifiedFiles` are given as parameters: a fault kind per call, or a set of failing indices. A failing write writes nothing.
- out/extension.js is an older build of the extension and is not part of this model. src/SidebarProvider.ts is an older sidebar without the sampler and is not part of this model.
