/** `writeFileVico` in src/extension.ts: the assistant's answer is cut into
    file blocks, and every block is opened as a pending diff.

    The three regular expressions it uses are written out as scanners with
    JavaScript's semantics: a global `exec` loop tries every start index from
    the last match's end, takes the leftmost match, and a lazy `*?` body ends
    at the first closing tag. Each pattern has one way to match at a given
    index (`\s+` must stop before `name`, `[^"]+` before the first `"`, and
    the optional `type` attribute and a bare `]` exclude each other), so a
    match is determined by its start. */
module WriteFile {
  import opened Wrappers
  import opened Strings
  import opened DM = DiffManager

  // ---------------------------------------------------------------------------
  // The three patterns
  // ---------------------------------------------------------------------------

  /** `\[writeFile\]([\s\S]*?)\[\/writeFile\]`,
      `\[file\s+name="([^"]+)"(?:\s+type="[^"]+")?\]([\s\S]*?)\[\/file\]` and
      `<file\s+path="([^"]+)">([\s\S]*?)<\/file>`. */
  datatype Pattern = Block | FileTag | XmlTag

  /** A match: where it starts, the captured name (empty for `Block`), the
      captured body, and the index just after the closing tag. */
  datatype Hit = Hit(start: nat, name: string, body: string, end: nat)

  /** A file the assistant wants written. */
  datatype FileBlock = FileBlock(name: string, body: string)

  function OpenTag(pat: Pattern): string {
    match pat
    case Block => "[writeFile]"
    case FileTag => "[file"
    case XmlTag => "<file"
  }

  function CloseTag(pat: Pattern): string {
    match pat
    case Block => "[/writeFile]"
    case FileTag => "[/file]"
    case XmlTag => "</file>"
  }

  /** The end of the run of white space that starts at `i`. */
  function WhiteEnd(s: string, i: nat): (r: nat)
    requires i <= |s|
    ensures i <= r <= |s|
    decreases |s| - i
  {
    if i < |s| && IsWhite(s[i]) then WhiteEnd(s, i + 1) else i
  }

  /** The run is white space, and the longest one. */
  lemma {:induction false} WhiteRun(s: string, i: nat)
    requires i <= |s|
    ensures forall j :: i <= j < WhiteEnd(s, i) ==> IsWhite(s[j])
    ensures WhiteEnd(s, i) < |s| ==> !IsWhite(s[WhiteEnd(s, i)])
    decreases |s| - i
  {
    if i < |s| && IsWhite(s[i]) {
      WhiteRun(s, i + 1);
    }
  }

  /** The first `"` at or after `j`. */
  function QuoteFrom(s: string, j: nat): (r: Option<nat>)
    ensures r.Some? ==> j <= r.value < |s| && s[r.value] == '"'
    decreases |s| - j
  {
    if j >= |s| then None else if s[j] == '"' then Some(j) else QuoteFrom(s, j + 1)
  }

  /** No `"` lies between `j` and the quote found, nor after `j` when none is
      found. */
  lemma {:induction false} QuoteFromFirst(s: string, j: nat)
    ensures QuoteFrom(s, j).Some? ==> forall x :: j <= x < QuoteFrom(s, j).value ==> s[x] != '"'
    ensures QuoteFrom(s, j).None? ==> forall x :: j <= x < |s| ==> s[x] != '"'
    decreases |s| - j
  {
    if j < |s| && s[j] != '"' {
      QuoteFromFirst(s, j + 1);
    }
  }

  /** `\s+<key>([^"]+)"` at index `i`, where `key` is an attribute name with
      its `="`: the value's first index and the index of its closing quote. */
  function AttrAt(s: string, i: nat, key: string): (r: Option<(nat, nat)>)
    ensures r.Some? ==> i < r.value.0 < r.value.1 < |s|
  {
    if i >= |s| then None
    else
      var j := WhiteEnd(s, i);
      if j == i || !OccursAt(s, key, j) then None
      else
        var k := j + |key|;
        match QuoteFrom(s, k)
        case None => None
        case Some(q) => if q == k then None else Some((k, q))
  }

  /** An attribute value is followed by a quote and holds none. */
  lemma {:induction false} AttrValue(s: string, i: nat, key: string)
    ensures var r := AttrAt(s, i, key);
      r.Some? ==> s[r.value.1] == '"' && '"' !in s[r.value.0..r.value.1]
  {
    var r := AttrAt(s, i, key);
    if r.Some? {
      var k, q := r.value.0, r.value.1;
      QuoteFromFirst(s, k);
      assert forall x :: k <= x < q ==> s[k..q][x - k] == s[x];
    }
  }

  /** The end of a `[file …]` header whose name's closing quote is at `q`:
      either `]` follows, or a `type` attribute and then `]`. */
  function FileHeaderEnd(s: string, q: nat): (r: Option<nat>)
    requires q < |s|
    ensures r.Some? ==> q + 1 < r.value <= |s| && s[r.value - 1] == ']'
  {
    if q + 1 < |s| && s[q + 1] == ']' then Some(q + 2)
    else
      match AttrAt(s, q + 1, "type=\"")
      case None => None
      case Some(t) => if t.1 + 1 < |s| && s[t.1 + 1] == ']' then Some(t.1 + 2) else None
  }

  /** `h` runs from an opening tag of `pat` at `h.start` to a closing tag
      that ends at `h.end`, and its body sits just before that closing tag. */
  predicate Framed(pat: Pattern, s: string, h: Hit) {
    && h.start + |OpenTag(pat)| + |h.body| + |CloseTag(pat)| <= h.end <= |s|
    && OccursAt(s, OpenTag(pat), h.start)
    && OccursAt(s, CloseTag(pat), h.end - |CloseTag(pat)|)
    && s[h.end - |CloseTag(pat)| - |h.body|..h.end - |CloseTag(pat)|] == h.body
  }

  /** The lazy body from `bodyStart` up to the first closing tag. */
  function BodyFrom(pat: Pattern, s: string, start: nat, name: string, bodyStart: nat): (r: Option<Hit>)
    ensures r.Some? ==> r.value.start == start && r.value.name == name
    ensures r.Some? ==> r.value.end == bodyStart + |r.value.body| + |CloseTag(pat)| <= |s|
  {
    match IndexOf(s, CloseTag(pat), bodyStart)
    case None => None
    case Some(c) => Some(Hit(start, name, s[bodyStart..c], c + |CloseTag(pat)|))
  }

  /** The body ends at the first closing tag after `bodyStart`: it holds
      none, the closing tag follows it, and without a closing tag after
      `bodyStart` there is no body. */
  lemma {:induction false} BodyIsLazy(pat: Pattern, s: string, start: nat, name: string, bodyStart: nat)
    ensures var r := BodyFrom(pat, s, start, name, bodyStart);
      r.Some? ==> (&& OccursAt(s, CloseTag(pat), r.value.end - |CloseTag(pat)|)
                   && s[bodyStart..r.value.end - |CloseTag(pat)|] == r.value.body
                   && forall j :: bodyStart <= j < r.value.end - |CloseTag(pat)| ==> !OccursAt(s, CloseTag(pat), j))
    ensures BodyFrom(pat, s, start, name, bodyStart).None? ==> forall j :: bodyStart <= j ==> !OccursAt(s, CloseTag(pat), j)
  {
    IndexOfFirst(s, CloseTag(pat), bodyStart);
  }

  /** A `[file name="…"]` or `[file name="…" type="…"]` block at `p`. */
  function FileAt(s: string, p: nat): (r: Option<Hit>)
    ensures r.Some? ==> r.value.start == p < r.value.end <= |s|
  {
    match AttrAt(s, p + 5, "name=\"")
    case None => None
    case Some(a) =>
      match FileHeaderEnd(s, a.1)
      case None => None
      case Some(e) => BodyFrom(FileTag, s, p, s[a.0..a.1], e)
  }

  /** The end of a `<file …>` header whose path's closing quote is at `q`. */
  function XmlHeaderEnd(s: string, q: nat): (r: Option<nat>)
    requires q < |s|
    ensures r.Some? ==> r.value == q + 2 <= |s| && s[q + 1] == '>'
  {
    if q + 1 < |s| && s[q + 1] == '>' then Some(q + 2) else None
  }

  /** A `<file path="…">` block at `p`. */
  function XmlAt(s: string, p: nat): (r: Option<Hit>)
    ensures r.Some? ==> r.value.start == p < r.value.end <= |s|
  {
    match AttrAt(s, p + 5, "path=\"")
    case None => None
    case Some(a) =>
      match XmlHeaderEnd(s, a.1)
      case None => None
      case Some(e) => BodyFrom(XmlTag, s, p, s[a.0..a.1], e)
  }

  /** The match of `pat` that starts at index `p`, if there is one. */
  function MatchAt(pat: Pattern, s: string, p: nat): (r: Option<Hit>)
    ensures r.Some? ==> r.value.start == p < r.value.end <= |s|
  {
    if !OccursAt(s, OpenTag(pat), p) then None
    else
      match pat
      case Block => BodyFrom(Block, s, p, "", p + |OpenTag(Block)|)
      case FileTag => FileAt(s, p)
      case XmlTag => XmlAt(s, p)
  }

  /** A body found after an opening tag makes a framed match. */
  lemma {:induction false} BodyIsFramed(pat: Pattern, s: string, p: nat, name: string, bodyStart: nat)
    requires OccursAt(s, OpenTag(pat), p) && p + |OpenTag(pat)| <= bodyStart
    ensures var r := BodyFrom(pat, s, p, name, bodyStart); r.Some? ==> Framed(pat, s, r.value)
  {
    BodyIsLazy(pat, s, p, name, bodyStart);
  }

  /** A match runs from an opening tag to a closing tag with its body just
      before it, and the file patterns capture a non-empty name without
      `"`. */
  lemma {:induction false} MatchIsFramed(pat: Pattern, s: string, p: nat)
    ensures var r := MatchAt(pat, s, p);
      r.Some? ==> Framed(pat, s, r.value) && (pat != Block ==> r.value.name != "" && '"' !in r.value.name)
  {
    match pat
    case Block => BlockIsFramed(pat, s, p);
    case FileTag => FileIsFramed(pat, s, p);
    case XmlTag => XmlIsFramed(pat, s, p);
  }

  /** `MatchIsFramed` for `[writeFile]` blocks. */
  lemma {:induction false} BlockIsFramed(pat: Pattern, s: string, p: nat)
    requires pat == Block
    ensures var r := MatchAt(pat, s, p);
      r.Some? ==> Framed(pat, s, r.value)
  {
    if OccursAt(s, OpenTag(pat), p) {
      BodyIsFramed(Block, s, p, "", p + 11);
    }
  }

  /** `MatchIsFramed` for `[file]` blocks. */
  lemma {:induction false} FileIsFramed(pat: Pattern, s: string, p: nat)
    requires pat == FileTag
    ensures var r := MatchAt(pat, s, p);
      r.Some? ==> Framed(pat, s, r.value) && r.value.name != "" && '"' !in r.value.name
  {
    if OccursAt(s, OpenTag(pat), p) {
      AttrValue(s, p + 5, "name=\"");
      var a := AttrAt(s, p + 5, "name=\"");
      if a.Some? && FileHeaderEnd(s, a.value.1).Some? {
        BodyIsFramed(FileTag, s, p, s[a.value.0..a.value.1], FileHeaderEnd(s, a.value.1).value);
      }
    }
  }

  /** `MatchIsFramed` for `<file>` blocks. */
  lemma {:induction false} XmlIsFramed(pat: Pattern, s: string, p: nat)
    requires pat == XmlTag
    ensures var r := MatchAt(pat, s, p);
      r.Some? ==> Framed(pat, s, r.value) && r.value.name != "" && '"' !in r.value.name
  {
    if OccursAt(s, OpenTag(pat), p) {
      AttrValue(s, p + 5, "path=\"");
      var a := AttrAt(s, p + 5, "path=\"");
      if a.Some? && XmlHeaderEnd(s, a.value.1).Some? {
        BodyIsFramed(XmlTag, s, p, s[a.value.0..a.value.1], XmlHeaderEnd(s, a.value.1).value);
      }
    }
  }

  /** `regex.exec(s)` with `lastIndex == from`: the leftmost match at or
      after `from`. */
  function Next(pat: Pattern, s: string, from: nat): (r: Option<Hit>)
    ensures r.Some? ==> from <= r.value.start < r.value.end <= |s|
    decreases |s| + 1 - from
  {
    if from > |s| then None
    else
      var m := MatchAt(pat, s, from);
      if m.Some? then m else Next(pat, s, from + 1)
  }

  /** A match at `from` is the next one. */
  lemma {:induction false} NextAtMatch(pat: Pattern, s: string, from: nat, h: Hit)
    requires MatchAt(pat, s, from) == Some(h)
    ensures Next(pat, s, from) == Some(h)
  {
  }

  /** The match `Next` finds heads the matches listed from `from`, and the
      listing goes on where it ends. */
  lemma {:induction false} AllFromNext(pat: Pattern, s: string, from: nat, h: Hit)
    requires Next(pat, s, from) == Some(h)
    ensures AllFrom(pat, s, from) == [h] + AllFrom(pat, s, h.end)
  {
  }

  /** A match at `from` heads the matches listed from `from`, and the
      listing goes on where it ends. */
  lemma {:induction false} AllFromAtMatch(pat: Pattern, s: string, from: nat, h: Hit)
    requires MatchAt(pat, s, from) == Some(h)
    ensures AllFrom(pat, s, from) == [h] + AllFrom(pat, s, h.end)
  {
    NextAtMatch(pat, s, from, h);
    AllFromNext(pat, s, from, h);
  }

  /** `Next` finds the first match: there is a match where it stops and none
      between `from` and there, and none at all after `from` when it finds
      nothing. */
  lemma {:induction false} NextFirst(pat: Pattern, s: string, from: nat)
    ensures Next(pat, s, from).Some? ==> MatchAt(pat, s, Next(pat, s, from).value.start) == Next(pat, s, from)
    ensures Next(pat, s, from).Some? ==>
      forall p :: from <= p < Next(pat, s, from).value.start ==> MatchAt(pat, s, p).None?
    ensures Next(pat, s, from).None? ==> forall p :: from <= p ==> MatchAt(pat, s, p).None?
    decreases |s| + 1 - from
  {
    if from > |s| {
      forall p | from <= p
        ensures MatchAt(pat, s, p).None?
      {
        NoMatchPastEnd(pat, s, p);
      }
    } else if MatchAt(pat, s, from).None? {
      var n := Next(pat, s, from + 1);
      NextFirst(pat, s, from + 1);
      assert Next(pat, s, from) == n;
      if n.None? {
        forall p | from <= p
          ensures MatchAt(pat, s, p).None?
        {
          if p != from {
            assert from + 1 <= p;
          }
        }
      } else {
        forall p | from <= p < n.value.start
          ensures MatchAt(pat, s, p).None?
        {
          if p != from {
            assert from + 1 <= p;
          }
        }
      }
    }
  }

  /** No match starts at or after the end of the text. */
  lemma NoMatchPastEnd(pat: Pattern, s: string, p: nat)
    requires p >= |s|
    ensures MatchAt(pat, s, p).None?
  {
  }

  /** Every match the global `exec` loop finds, starting at `from`. */
  function AllFrom(pat: Pattern, s: string, from: nat): (hs: seq<Hit>)
    decreases |s| + 1 - from
  {
    match Next(pat, s, from)
    case None => []
    case Some(h) => [h] + AllFrom(pat, s, h.end)
  }

  /** A match followed by ordered matches that start after it are ordered
      matches. */
  lemma {:induction false} ConsMatches(pat: Pattern, s: string, from: nat, h: Hit, rest: seq<Hit>)
    requires from <= h.start && MatchAt(pat, s, h.start) == Some(h)
    requires forall i :: 0 <= i < |rest| ==> h.end <= rest[i].start && MatchAt(pat, s, rest[i].start) == Some(rest[i])
    requires forall i :: 0 <= i < |rest| - 1 ==> rest[i].end <= rest[i + 1].start
    ensures forall i :: 0 <= i < |[h] + rest| ==>
      from <= ([h] + rest)[i].start && MatchAt(pat, s, ([h] + rest)[i].start) == Some(([h] + rest)[i])
    ensures forall i :: 0 <= i < |[h] + rest| - 1 ==> ([h] + rest)[i].end <= ([h] + rest)[i + 1].start
  {
    var hs := [h] + rest;
    forall i | 0 < i < |hs| ensures hs[i] == rest[i - 1] && h.start < h.end {
    }
  }

  /** The matches `AllFrom` lists are matches, in order, and do not overlap. */
  lemma {:induction false} AllFromMatches(pat: Pattern, s: string, from: nat)
    ensures forall i :: 0 <= i < |AllFrom(pat, s, from)| ==>
      from <= AllFrom(pat, s, from)[i].start && MatchAt(pat, s, AllFrom(pat, s, from)[i].start) == Some(AllFrom(pat, s, from)[i])
    ensures forall i :: 0 <= i < |AllFrom(pat, s, from)| - 1 ==> AllFrom(pat, s, from)[i].end <= AllFrom(pat, s, from)[i + 1].start
    decreases |s| + 1 - from
  {
    NextFirst(pat, s, from);
    match Next(pat, s, from)
    case None =>
    case Some(h) =>
      AllFromMatches(pat, s, h.end);
      AllFromNext(pat, s, from, h);
      ConsMatches(pat, s, from, h, AllFrom(pat, s, h.end));
  }

  /** The names and bodies the matches capture. */
  function Blocks(hs: seq<Hit>): (bs: seq<FileBlock>)
    ensures |bs| == |hs|
  {
    if |hs| == 0 then [] else [FileBlock(hs[0].name, hs[0].body)] + Blocks(hs[1..])
  }

  /** A block as the loop over the matches reads it: the path and the
      content trimmed. */
  function TrimBlock(b: FileBlock): FileBlock {
    FileBlock(Trim(b.name), Trim(b.body))
  }

  /** Every block trimmed. */
  function Trimmed(bs: seq<FileBlock>): seq<FileBlock> {
    seq(|bs|, i requires 0 <= i < |bs| => TrimBlock(bs[i]))
  }

  /** One more block of the list, trimmed, extends the trimmed prefix. */
  lemma {:induction false} TrimmedSnoc(bs: seq<FileBlock>, i: nat)
    requires i < |bs|
    ensures Trimmed(bs)[..i + 1] == Trimmed(bs)[..i] + [TrimBlock(bs[i])]
  {
    var t := Trimmed(bs);
    assert t[i] == TrimBlock(bs[i]);
    assert t[..i + 1] == t[..i] + [t[i]];
  }

  /** Each body followed by a line break. */
  function Bodies(hs: seq<Hit>): string {
    if |hs| == 0 then "" else hs[0].body + "\n" + Bodies(hs[1..])
  }

  /** The bodies of `[h] + rest`, appended to `acc`. */
  lemma {:induction false} BodiesCons(acc: string, h: Hit, rest: seq<Hit>)
    ensures acc + Bodies([h] + rest) == (acc + h.body + "\n") + Bodies(rest)
  {
    assert ([h] + rest)[1..] == rest;
  }

  /** `contentToProcess`: the bodies of all `[writeFile]` blocks, each
      followed by a line break; when that is blank, everything after the
      first `[writeFile]`, or the whole answer when there is none. */
  function ContentToProcess(writeContent: string): string {
    var joined := Bodies(AllFrom(Block, writeContent, 0));
    if !IsBlank(joined) then joined
    else
      match IndexOf(writeContent, OpenTag(Block), 0)
      case Some(p) => writeContent[p + |OpenTag(Block)|..]
      case None => writeContent
  }

  /** The loop that accumulates `contentToProcess`, then the fallback. */
  method CollectContent(writeContent: string) returns (content: string)
    ensures content == ContentToProcess(writeContent)
  {
    content := "";
    var from := 0;
    var m := Next(Block, writeContent, from);
    while m.Some?
      invariant m == Next(Block, writeContent, from)
      invariant content + Bodies(AllFrom(Block, writeContent, from)) == Bodies(AllFrom(Block, writeContent, 0))
      decreases |writeContent| + 1 - from
    {
      var h := m.value;
      ghost var rest := AllFrom(Block, writeContent, h.end);
      assert AllFrom(Block, writeContent, from) == [h] + rest;
      BodiesCons(content, h, rest);
      content := content + h.body + "\n";
      from := h.end;
      m := Next(Block, writeContent, from);
    }
    assert AllFrom(Block, writeContent, from) == [];
    assert content + "" == content;
    assert content == Bodies(AllFrom(Block, writeContent, 0));
    if IsBlank(content) {
      var open := IndexOf(writeContent, OpenTag(Block), 0);
      if open.Some? {
        content := writeContent[open.value + |OpenTag(Block)|..];
      } else {
        content := writeContent;
      }
    }
  }

  // ---------------------------------------------------------------------------
  // Rendering and parsing back
  // ---------------------------------------------------------------------------

  /** The attribute a file pattern names its file by, with its `="`. */
  function Attr(pat: Pattern): string {
    if pat == FileTag then "name=\"" else "path=\""
  }

  /** The literal text a rendered block of `pat` starts with: the opening
      tag, and for the file patterns the attribute up to its opening quote. */
  function Prefix(pat: Pattern): string {
    if pat == Block then OpenTag(pat) else OpenTag(pat) + " " + Attr(pat)
  }

  /** The literal text between a rendered block's name and its body. */
  function Suffix(pat: Pattern): string {
    match pat
    case Block => ""
    case FileTag => "\"]"
    case XmlTag => "\">"
  }

  /** The name as it appears in a rendered block (`Block` carries none). */
  function Label(pat: Pattern, b: FileBlock): string {
    if pat == Block then "" else b.name
  }

  /** The text an assistant writes for one block of `pat`:
      `[writeFile]…[/writeFile]`, `[file name="…"]…[/file]` or
      `<file path="…">…</file>`. */
  function Render(pat: Pattern, b: FileBlock): string {
    Prefix(pat) + Label(pat, b) + Suffix(pat) + b.body + CloseTag(pat)
  }

  function RenderAll(pat: Pattern, bs: seq<FileBlock>): string {
    if |bs| == 0 then "" else Render(pat, bs[0]) + RenderAll(pat, bs[1..])
  }

  /** A block the patterns can capture: a non-empty name without `"` (for
      the two file patterns) and a body without the closing tag. */
  ghost predicate WellFormed(pat: Pattern, b: FileBlock) {
    (pat == Block || (b.name != "" && '"' !in b.name))
    && forall j :: !OccursAt(b.body, CloseTag(pat), j)
  }

  /** The first occurrence of `pat` at or after `from` is at `q`. */
  lemma {:induction false} IndexOfIs(s: string, pat: string, from: nat, q: nat)
    requires from <= q && OccursAt(s, pat, q)
    requires forall j :: from <= j < q ==> !OccursAt(s, pat, j)
    ensures IndexOf(s, pat, from) == Some(q)
    decreases q - from
  {
    assert from + |pat| <= |s|;
    if from < q {
      assert !OccursAt(s, pat, from);
      IndexOfIs(s, pat, from + 1, q);
    }
  }

  /** An occurrence, character by character. */
  lemma {:induction false} OccursChars(s: string, x: string, i: nat)
    requires OccursAt(s, x, i)
    ensures forall j :: 0 <= j < |x| ==> s[i + j] == x[j]
  {
    forall j | 0 <= j < |x| ensures s[i + j] == x[j] {
      assert s[i..i + |x|][j] == s[i + j];
    }
  }

  /** Characters that agree make an occurrence. */
  lemma {:induction false} CharsOccur(s: string, x: string, i: nat)
    requires i + |x| <= |s|
    requires forall j :: 0 <= j < |x| ==> s[i + j] == x[j]
    ensures OccursAt(s, x, i)
  {
    assert s[i..i + |x|] == x;
  }

  /** A part of an occurrence is an occurrence. */
  lemma {:induction false} OccursPart(s: string, x: string, i: nat, a: nat, b: nat)
    requires OccursAt(s, x, i) && a <= b <= |x|
    ensures OccursAt(s, x[a..b], i + a)
  {
    OccursChars(s, x, i);
    CharsOccur(s, x[a..b], i + a);
  }

  /** The two halves of an occurrence of a concatenation. */
  lemma {:induction false} OccursConcat(s: string, x: string, y: string, i: nat)
    requires OccursAt(s, x + y, i)
    ensures OccursAt(s, x, i) && OccursAt(s, y, i + |x|)
  {
    OccursChars(s, x + y, i);
    forall j | 0 <= j < |x| ensures s[i + j] == x[j] {
      assert (x + y)[j] == x[j];
    }
    CharsOccur(s, x, i);
    forall j | 0 <= j < |y| ensures s[i + |x| + j] == y[j] {
      assert (x + y)[|x| + j] == y[j];
    }
    CharsOccur(s, y, i + |x|);
  }

  /** As `OccursConcat`, with the position of `y` given as `j`. */
  lemma {:induction false} OccursConcatAt(s: string, x: string, y: string, i: nat, j: nat)
    requires j == i + |x| && OccursAt(s, x + y, i)
    ensures OccursAt(s, x, i) && OccursAt(s, y, j)
  {
    OccursConcat(s, x, y, i);
  }

  /** An occurrence in the middle part of a concatenation. */
  lemma {:induction false} OccursInside(pre: string, t: string, rest: string, x: string, i: nat)
    requires OccursAt(t, x, i)
    ensures OccursAt(pre + t + rest, x, |pre| + i)
  {
    OccursChars(t, x, i);
    CharsOccur(pre + t + rest, x, |pre| + i);
  }

  lemma {:induction false} CloseTagsHaveNoBorder(pat: Pattern)
    ensures |CloseTag(pat)| > 0
    ensures forall i :: 0 < i < |CloseTag(pat)| ==> CloseTag(pat)[i] != CloseTag(pat)[0]
  {
  }

  /** A body without the closing tag, followed by the closing tag at `c`:
      the first closing tag from the body's start `k` is the one at `c`. */
  lemma {:induction false} FirstCloseAfterBody(pat: Pattern, s: string, k: nat, body: string, c: nat)
    requires c == k + |body|
    requires OccursAt(s, body, k) && OccursAt(s, CloseTag(pat), c)
    requires forall j :: !OccursAt(body, CloseTag(pat), j)
    ensures IndexOf(s, CloseTag(pat), k) == Some(c)
  {
    var tag := CloseTag(pat);
    CloseTagsHaveNoBorder(pat);
    OccursChars(s, body, k);
    forall j | k <= j < c ensures !OccursAt(s, tag, j) {
      if j + |tag| <= c {
        assert !OccursAt(body, tag, j - k);
        var w, v := s[j..j + |tag|], body[j - k..j - k + |tag|];
        forall i | 0 <= i < |tag| ensures w[i] == v[i] {
          assert s[k + (j - k + i)] == body[j - k + i];
        }
        assert w == v;
      } else if j + |tag| <= |s| {
        assert s[c] == tag[0] by {
          assert s[c..c + |tag|][0] == s[c];
        }
        assert s[j..j + |tag|][c - j] == s[c];
        assert tag[c - j] != tag[0];
      }
    }
    IndexOfIs(s, tag, k, c);
  }

  /** The opening tag and the attribute a rendered file block starts with. */
  lemma {:induction false} PrefixParts(pat: Pattern, s: string, p: nat)
    requires pat != Block && OccursAt(s, Prefix(pat), p)
    ensures OccursAt(s, OpenTag(pat), p) && OccursAt(s, " ", p + 5) && OccursAt(s, Attr(pat), p + 6)
  {
    OccursConcat(s, OpenTag(pat) + " ", Attr(pat), p);
    OccursConcat(s, OpenTag(pat), " ", p);
  }

  /** The text `t` occurs in `pre + t + rest` right after `pre`. */
  lemma {:induction false} OccursWhole(pre: string, t: string, rest: string)
    ensures OccursAt(pre + t + rest, t, |pre|)
  {
    var s := pre + t + rest;
    forall j | 0 <= j < |t| ensures s[|pre| + j] == t[j] {
    }
    CharsOccur(s, t, |pre|);
  }

  /** The first `"` at or after `j` is at `q`. */
  lemma {:induction false} QuoteFromIs(s: string, j: nat, q: nat)
    requires j <= q < |s| && s[q] == '"'
    requires forall x :: j <= x < q ==> s[x] != '"'
    ensures QuoteFrom(s, j) == Some(q)
    decreases q - j
  {
    if j < q {
      QuoteFromIs(s, j + 1, q);
    }
  }

  /** `\s+<key>"<value>"` at `i` in a rendered header: one space, the
      attribute with its `="`, the value and the closing quote. */
  lemma {:induction false} AttrOfRendered(s: string, i: nat, key: string, value: string)
    requires |key| > 0 && !IsWhite(key[0])
    requires value != "" && '"' !in value
    requires OccursAt(s, " ", i) && OccursAt(s, key, i + 1)
    requires OccursAt(s, value, i + 1 + |key|) && OccursAt(s, "\"", i + 1 + |key| + |value|)
    ensures AttrAt(s, i, key) == Some((i + 1 + |key|, i + 1 + |key| + |value|))
  {
    var k := i + 1 + |key|;
    var q := k + |value|;
    OccursChars(s, " ", i);
    OccursChars(s, key, i + 1);
    assert WhiteEnd(s, i + 1) == i + 1;
    OccursChars(s, value, k);
    OccursChars(s, "\"", q);
    forall x | k <= x < q ensures s[x] != '"' {
      assert s[x] == value[x - k];
    }
    QuoteFromIs(s, k, q);
  }

  /** The header of a rendered `[file]` or `<file>` block: the attribute
      has the name from `a` to `q` as its value, and the suffix's second
      character follows its closing quote. */
  lemma {:induction false} HeaderOfRendered(s: string, p: nat, key: string, name: string, suffix: string, a: nat, q: nat)
    requires |key| == 6 && !IsWhite(key[0])
    requires name != "" && '"' !in name
    requires |suffix| == 2 && suffix[0] == '"'
    requires a == p + 12 && q == a + |name|
    requires OccursAt(s, " ", p + 5) && OccursAt(s, key, p + 6) && OccursAt(s, name, a)
    requires OccursAt(s, suffix, q)
    ensures AttrAt(s, p + 5, key) == Some((a, q))
    ensures q + 1 < |s| && s[q + 1] == suffix[1]
  {
    OccursPart(s, suffix, q, 0, 1);
    assert suffix[0..1] == "\"";
    OccursChars(s, suffix, q);
    AttrOfRendered(s, p + 5, key, name);
  }

  /** The body found from `k` when the first closing tag after `k` is at `c`. */
  lemma {:induction false} BodyFromAt(pat: Pattern, s: string, start: nat, name: string, k: nat, c: nat, body: string, end: nat)
    requires IndexOf(s, CloseTag(pat), k) == Some(c)
    requires OccursAt(s, body, k) && c == k + |body| && end == c + |CloseTag(pat)|
    ensures BodyFrom(pat, s, start, name, k) == Some(Hit(start, name, body, end))
  {
    assert s[k..c] == body;
  }

  /** `MatchAt` for a `[writeFile]` block once its first closing tag is
      known. */
  lemma {:induction false} BlockMatchFromParts(pat: Pattern, s: string, p: nat, name: string, body: string, k: nat, c: nat, end: nat)
    requires pat == Block && name == "" && k == p + |OpenTag(pat)|
    requires OccursAt(s, OpenTag(pat), p)
    requires IndexOf(s, CloseTag(pat), k) == Some(c)
    requires OccursAt(s, body, k) && c == k + |body| && end == c + |CloseTag(pat)|
    ensures MatchAt(pat, s, p) == Some(Hit(p, name, body, end))
  {
    BodyFromAt(pat, s, p, name, k, c, body, end);
  }

  /** `MatchAt` for a `[file]` block once its header and its first closing
      tag are known. */
  lemma {:induction false} FileMatchFromParts(pat: Pattern, s: string, p: nat, name: string, body: string, a: nat, q: nat, k: nat, c: nat, end: nat)
    requires pat == FileTag
    requires q == a + |name| && k == q + 2 && c == k + |body| && end == c + |CloseTag(pat)|
    requires OccursAt(s, OpenTag(pat), p)
    requires AttrAt(s, p + 5, Attr(pat)) == Some((a, q))
    requires q + 1 < |s| && s[q + 1] == ']'
    requires IndexOf(s, CloseTag(pat), k) == Some(c)
    requires OccursAt(s, name, a) && OccursAt(s, body, k)
    ensures MatchAt(pat, s, p) == Some(Hit(p, name, body, end))
  {
    assert FileHeaderEnd(s, q) == Some(k);
    assert s[a..q] == name;
    BodyFromAt(pat, s, p, name, k, c, body, end);
  }

  /** `MatchAt` for a `<file>` block once its header and its first closing
      tag are known. */
  lemma {:induction false} XmlMatchFromParts(pat: Pattern, s: string, p: nat, name: string, body: string, a: nat, q: nat, k: nat, c: nat, end: nat)
    requires pat == XmlTag
    requires q == a + |name| && k == q + 2 && c == k + |body| && end == c + |CloseTag(pat)|
    requires OccursAt(s, OpenTag(pat), p)
    requires AttrAt(s, p + 5, Attr(pat)) == Some((a, q))
    requires q + 1 < |s| && s[q + 1] == '>'
    requires IndexOf(s, CloseTag(pat), k) == Some(c)
    requires OccursAt(s, name, a) && OccursAt(s, body, k)
    ensures MatchAt(pat, s, p) == Some(Hit(p, name, body, end))
  {
    assert XmlHeaderEnd(s, q) == Some(k);
    assert s[a..q] == name;
    BodyFromAt(pat, s, p, name, k, c, body, end);
  }

  /** A `[writeFile]` block rendered at `p`, piece by piece: the opening
      tag, the body and the closing tag. */
  lemma {:induction false} BlockRenderedPieces(pat: Pattern, s: string, p: nat, b: FileBlock)
    requires pat == Block && OccursAt(s, Render(pat, b), p)
    ensures Label(pat, b) == "" && |Render(pat, b)| == 23 + |b.body|
    ensures OccursAt(s, OpenTag(pat), p) && OccursAt(s, b.body, p + 11)
    ensures OccursAt(s, CloseTag(pat), p + 11 + |b.body|)
  {
    var P, L, S, B, C := Prefix(pat), Label(pat, b), Suffix(pat), b.body, CloseTag(pat);
    assert |P| == 11 && L == "" && S == "" && |C| == 12;
    OccursConcatAt(s, P + L + S + B, C, p, p + 11 + |B|);
    OccursConcatAt(s, P + L + S, B, p, p + 11);
    OccursConcatAt(s, P + L, S, p, p + 11);
    OccursConcatAt(s, P, L, p, p + 11);
  }

  /** `MatchAt` for a well-formed `[writeFile]` block laid out piece by
      piece. */
  lemma {:induction false} BlockMatchFromPieces(pat: Pattern, s: string, p: nat, b: FileBlock, end: nat)
    requires pat == Block && WellFormed(pat, b)
    requires Label(pat, b) == "" && end == p + 23 + |b.body|
    requires OccursAt(s, OpenTag(pat), p) && OccursAt(s, b.body, p + 11)
    requires OccursAt(s, CloseTag(pat), p + 11 + |b.body|)
    ensures MatchAt(pat, s, p) == Some(Hit(p, Label(pat, b), b.body, end))
  {
    FirstCloseAfterBody(pat, s, p + 11, b.body, p + 11 + |b.body|);
    assert |OpenTag(pat)| == 11 && |CloseTag(pat)| == 12;
    BlockMatchFromParts(pat, s, p, Label(pat, b), b.body, p + 11, p + 11 + |b.body|, end);
  }

  /** A rendered well-formed `[writeFile]` block is the match at its start. */
  lemma {:induction false} BlockRenderedMatch(pat: Pattern, s: string, p: nat, b: FileBlock, end: nat)
    requires pat == Block
    requires WellFormed(pat, b) && OccursAt(s, Render(pat, b), p)
    requires end == p + |Render(pat, b)|
    ensures MatchAt(pat, s, p) == Some(Hit(p, Label(pat, b), b.body, end))
  {
    BlockRenderedPieces(pat, s, p, b);
    BlockMatchFromPieces(pat, s, p, b, end);
  }

  /** Where each of five concatenated pieces sits inside an occurrence of the whole. */
  lemma {:induction false} FivePieces(s: string, P: string, L: string, S: string, B: string, C: string,
                                      p: nat, l: nat, k: nat, c: nat)
    requires l == p + |P| && k == l + |L| + |S| && c == k + |B|
    requires OccursAt(s, P + L + S + B + C, p)
    ensures OccursAt(s, P, p) && OccursAt(s, L, l) && OccursAt(s, S, l + |L|)
    ensures OccursAt(s, B, k) && OccursAt(s, C, c)
  {
    OccursConcatAt(s, P + L + S + B, C, p, c);
    OccursConcatAt(s, P + L + S, B, p, k);
    OccursConcatAt(s, P + L, S, p, l + |L|);
    OccursConcatAt(s, P, L, p, l);
  }

  /** A `[file]` block rendered at `p`, piece by piece: the opening tag, a
      space, the attribute, the name, the suffix, the body and the closing
      tag. */
  lemma {:induction false} FileRenderedPieces(pat: Pattern, s: string, p: nat, b: FileBlock)
    requires pat == FileTag && OccursAt(s, Render(pat, b), p)
    ensures |Render(pat, b)| == 21 + |Label(pat, b)| + |b.body|
    ensures OccursAt(s, OpenTag(pat), p) && OccursAt(s, " ", p + 5) && OccursAt(s, Attr(pat), p + 6)
    ensures OccursAt(s, Label(pat, b), p + 12) && OccursAt(s, Suffix(pat), p + 12 + |Label(pat, b)|)
    ensures OccursAt(s, b.body, p + 14 + |Label(pat, b)|)
    ensures OccursAt(s, CloseTag(pat), p + 14 + |Label(pat, b)| + |b.body|)
  {
    var P, L, S, B, C := Prefix(pat), Label(pat, b), Suffix(pat), b.body, CloseTag(pat);
    assert |P| == 12 && |S| == 2 && |C| == 7;
    FivePieces(s, P, L, S, B, C, p, p + 12, p + 14 + |L|, p + 14 + |L| + |B|);
    PrefixParts(pat, s, p);
  }

  /** The same pieces for a `<file>` block. */
  lemma {:induction false} XmlRenderedPieces(pat: Pattern, s: string, p: nat, b: FileBlock)
    requires pat == XmlTag && OccursAt(s, Render(pat, b), p)
    ensures |Render(pat, b)| == 21 + |Label(pat, b)| + |b.body|
    ensures OccursAt(s, OpenTag(pat), p) && OccursAt(s, " ", p + 5) && OccursAt(s, Attr(pat), p + 6)
    ensures OccursAt(s, Label(pat, b), p + 12) && OccursAt(s, Suffix(pat), p + 12 + |Label(pat, b)|)
    ensures OccursAt(s, b.body, p + 14 + |Label(pat, b)|)
    ensures OccursAt(s, CloseTag(pat), p + 14 + |Label(pat, b)| + |b.body|)
  {
    var P, L, S, B, C := Prefix(pat), Label(pat, b), Suffix(pat), b.body, CloseTag(pat);
    assert |P| == 12 && |S| == 2 && |C| == 7;
    FivePieces(s, P, L, S, B, C, p, p + 12, p + 14 + |L|, p + 14 + |L| + |B|);
    PrefixParts(pat, s, p);
  }

  /** `MatchAt` for a `[file]` or `<file>` block laid out piece by piece,
      with a name and a body the pattern captures whole. */
  lemma {:induction false} NamedMatchFromParts(pat: Pattern, s: string, p: nat, name: string, body: string, end: nat)
    requires pat != Block
    requires name != "" && '"' !in name
    requires forall j :: !OccursAt(body, CloseTag(pat), j)
    requires end == p + 21 + |name| + |body|
    requires OccursAt(s, OpenTag(pat), p) && OccursAt(s, " ", p + 5) && OccursAt(s, Attr(pat), p + 6)
    requires OccursAt(s, name, p + 12) && OccursAt(s, Suffix(pat), p + 12 + |name|)
    requires OccursAt(s, body, p + 14 + |name|)
    requires OccursAt(s, CloseTag(pat), p + 14 + |name| + |body|)
    ensures MatchAt(pat, s, p) == Some(Hit(p, name, body, end))
  {
    var a, q := p + 12, p + 12 + |name|;
    var k, c := p + 14 + |name|, p + 14 + |name| + |body|;
    FirstCloseAfterBody(pat, s, k, body, c);
    HeaderOfRendered(s, p, Attr(pat), name, Suffix(pat), a, q);
    assert |CloseTag(pat)| == 7;
    if pat == FileTag {
      FileMatchFromParts(pat, s, p, name, body, a, q, k, c, end);
    } else {
      XmlMatchFromParts(pat, s, p, name, body, a, q, k, c, end);
    }
  }

  /** `MatchAt` for a well-formed `[file]` or `<file>` block laid out piece
      by piece. */
  /** `MatchAt` for a well-formed `[file]` or `<file>` block laid out
      piece by piece. */
  lemma {:induction false} NamedMatchFromPieces(pat: Pattern, s: string, p: nat, b: FileBlock, end: nat)
    requires pat != Block && WellFormed(pat, b)
    requires end == p + 21 + |Label(pat, b)| + |b.body|
    requires OccursAt(s, OpenTag(pat), p) && OccursAt(s, " ", p + 5) && OccursAt(s, Attr(pat), p + 6)
    requires OccursAt(s, Label(pat, b), p + 12) && OccursAt(s, Suffix(pat), p + 12 + |Label(pat, b)|)
    requires OccursAt(s, b.body, p + 14 + |Label(pat, b)|)
    requires OccursAt(s, CloseTag(pat), p + 14 + |Label(pat, b)| + |b.body|)
    ensures MatchAt(pat, s, p) == Some(Hit(p, Label(pat, b), b.body, end))
  {
    assert Label(pat, b) == b.name;
    NamedMatchFromParts(pat, s, p, Label(pat, b), b.body, end);
  }

  /** A rendered well-formed `[file]` block is the match at its start. */
  lemma {:induction false} FileRenderedMatch(pat: Pattern, s: string, p: nat, b: FileBlock, end: nat)
    requires pat == FileTag
    requires WellFormed(pat, b) && OccursAt(s, Render(pat, b), p)
    requires end == p + |Render(pat, b)|
    ensures MatchAt(pat, s, p) == Some(Hit(p, Label(pat, b), b.body, end))
  {
    FileRenderedPieces(pat, s, p, b);
    NamedMatchFromPieces(pat, s, p, b, end);
  }

  /** A rendered well-formed `<file>` block is the match at its start. */
  lemma {:induction false} XmlRenderedMatch(pat: Pattern, s: string, p: nat, b: FileBlock, end: nat)
    requires pat == XmlTag
    requires WellFormed(pat, b) && OccursAt(s, Render(pat, b), p)
    requires end == p + |Render(pat, b)|
    ensures MatchAt(pat, s, p) == Some(Hit(p, Label(pat, b), b.body, end))
  {
    XmlRenderedPieces(pat, s, p, b);
    NamedMatchFromPieces(pat, s, p, b, end);
  }

  /** A rendered well-formed block is the match at its start, with its own
      name and body, and ends where its rendering does. */
  lemma {:induction false} MatchRenderedAt(pat: Pattern, s: string, p: nat, b: FileBlock, end: nat)
    requires WellFormed(pat, b) && OccursAt(s, Render(pat, b), p)
    requires end == p + |Render(pat, b)|
    ensures MatchAt(pat, s, p) == Some(Hit(p, Label(pat, b), b.body, end))
  {
    match pat
    case Block => BlockRenderedMatch(pat, s, p, b, end);
    case FileTag => FileRenderedMatch(pat, s, p, b, end);
    case XmlTag => XmlRenderedMatch(pat, s, p, b, end);
  }

  /** Fewer characters than an opening tag leave no match. */
  lemma {:induction false} NoMatchInShortTail(pat: Pattern, s: string, from: nat)
    requires from + 5 > |s|
    ensures AllFrom(pat, s, from) == []
    decreases |s| + 1 - from
  {
    assert MatchAt(pat, s, from).None?;
    if from <= |s| {
      NoMatchInShortTail(pat, s, from + 1);
      assert Next(pat, s, from + 1).None?;
    }
  }

  /** A rendered well-formed block heads the matches listed from its start,
      and the listing goes on where its rendering ends. */
  lemma {:induction false} ParseStep(pat: Pattern, s: string, p: nat, b: FileBlock, q: nat)
    requires WellFormed(pat, b) && OccursAt(s, Render(pat, b), p)
    requires q == p + |Render(pat, b)|
    ensures AllFrom(pat, s, p) == [Hit(p, Label(pat, b), b.body, q)] + AllFrom(pat, s, q)
  {
    MatchRenderedAt(pat, s, p, b, q);
    AllFromAtMatch(pat, s, p, Hit(p, Label(pat, b), b.body, q));
  }

  /** Scanning rendered well-formed file blocks, followed by fewer characters
      than an opening tag, gives them back, in order. */
  lemma {:induction false} ParseRenderedAt(pat: Pattern, s: string, p: nat, bs: seq<FileBlock>)
    requires pat != Block
    requires forall i :: 0 <= i < |bs| ==> WellFormed(pat, bs[i])
    requires OccursAt(s, RenderAll(pat, bs), p)
    requires |s| < p + |RenderAll(pat, bs)| + 5
    ensures Blocks(AllFrom(pat, s, p)) == bs
    decreases |bs|
  {
    if |bs| == 0 {
      NoMatchInShortTail(pat, s, p);
    } else {
      var p' := p + |Render(pat, bs[0])|;
      OccursConcatAt(s, Render(pat, bs[0]), RenderAll(pat, bs[1..]), p, p');
      ParseStep(pat, s, p, bs[0], p');
      var h := Hit(p, Label(pat, bs[0]), bs[0].body, p');
      assert Label(pat, bs[0]) == bs[0].name;
      ParseRenderedAt(pat, s, p', bs[1..]);
      BlocksStep(AllFrom(pat, s, p), h, AllFrom(pat, s, p'), bs);
    }
  }

  /** Scanning from where rendered well-formed file blocks start, with fewer
      than 5 characters after them, gives the blocks back, in order. */
  lemma {:induction false} ParseRendered(pat: Pattern, pre: string, bs: seq<FileBlock>, post: string)
    requires pat != Block
    requires forall i :: 0 <= i < |bs| ==> WellFormed(pat, bs[i])
    requires |post| < 5
    ensures Blocks(AllFrom(pat, pre + RenderAll(pat, bs) + post, |pre|)) == bs
  {
    OccursWhole(pre, RenderAll(pat, bs), post);
    ParseRenderedAt(pat, pre + RenderAll(pat, bs) + post, |pre|, bs);
  }

  /** A text wrapped in one `[writeFile]` block is the content processed,
      followed by a line break. */
  lemma {:induction false} WrappedContent(text: string)
    requires forall j :: !OccursAt(text, CloseTag(Block), j)
    requires !AllWhite(text)
    ensures ContentToProcess(Render(Block, FileBlock("", text))) == text + "\n"
  {
    var msg := Render(Block, FileBlock("", text));
    OccursWhole("", msg, "");
    assert "" + msg + "" == msg;
    MatchRenderedAt(Block, msg, 0, FileBlock("", text), |msg|);
    NoMatchInShortTail(Block, msg, |msg|);
    assert AllFrom(Block, msg, 0) == [Hit(0, "", text, |msg|)];
    assert Bodies(AllFrom(Block, msg, 0)) == text + "\n";
    var i :| 0 <= i < |text| && !IsWhite(text[i]);
    assert (text + "\n")[i] == text[i];
    BlankIffAllWhite(text + "\n");
  }

  // ---------------------------------------------------------------------------
  // Opening the blocks
  // ---------------------------------------------------------------------------

  /** `handleDiff` on one block as the loop reads it: its path, joined to
      the project root by `vscode.Uri.joinPath`, gets its content. */
  function OpenOne(s: Snapshot, root: string, b: FileBlock, fault: OpenFault,
                   backup: string -> string, active: Option<string>): (Snapshot, OpenResult)
  {
    var path := PathJoin(root, b.name);
    OpenDiffStep(s, path, b.body, backup(path), fault, active)
  }

  /** The effect of `handleDiff` on each block in turn, the `k`-th call
      failing as `faults(k)` says: the final state and how many calls
      succeeded. */
  function OpenBlocks(s: Snapshot, root: string, bs: seq<FileBlock>, faults: nat -> OpenFault, first: nat,
                      backup: string -> string, active: Option<string>): (r: (Snapshot, nat))
    ensures r.1 <= |bs|
    decreases |bs|, 1
  {
    if |bs| == 0 then (s, 0) else OpenFirst(s, root, bs, faults, first, backup, active)
  }

  /** `OpenBlocks` on a non-empty list: the first block, then the others. */
  function OpenFirst(s: Snapshot, root: string, bs: seq<FileBlock>, faults: nat -> OpenFault, first: nat,
                     backup: string -> string, active: Option<string>): (r: (Snapshot, nat))
    requires |bs| > 0
    ensures r.1 <= |bs|
    decreases |bs|, 0
  {
    var step := OpenOne(s, root, bs[0], faults(first), backup, active);
    var rest := OpenBlocks(step.0, root, bs[1..], faults, first + 1, backup, active);
    (rest.0, rest.1 + if step.1.success then 1 else 0)
  }

  /** The whole of `writeFileVico`: nothing without an answer or a workspace;
      otherwise the `[file]` blocks, and the `<file>` blocks only when no
      `[file]` block was opened. */
  function WriteFileStep(s: Snapshot, root: Option<string>, writeContent: string, faults: nat -> OpenFault,
                         backup: string -> string, active: Option<string>): (Snapshot, nat)
  {
    if writeContent == "" || root.None? then (s, 0)
    else
      var content := ContentToProcess(writeContent);
      var files := AllFrom(FileTag, content, 0);
      var first := OpenBlocks(s, root.value, Trimmed(Blocks(files)), faults, 0, backup, active);
      if first.1 != 0 then first
      else OpenBlocks(first.0, root.value, Trimmed(Blocks(AllFrom(XmlTag, content, 0))), faults, |files|, backup, active)
  }

  /** The blocks of `[h] + rest`. */
  lemma {:induction false} BlocksCons(h: Hit, rest: seq<Hit>)
    ensures Blocks([h] + rest) == [FileBlock(h.name, h.body)] + Blocks(rest)
  {
    assert ([h] + rest)[1..] == rest;
  }

  /** The blocks of a match followed by others, when the match gives the
      first block and the others give the rest. */
  lemma {:induction false} BlocksStep(hs: seq<Hit>, h: Hit, rest: seq<Hit>, bs: seq<FileBlock>)
    requires |bs| > 0 && hs == [h] + rest
    requires FileBlock(h.name, h.body) == bs[0] && Blocks(rest) == bs[1..]
    ensures Blocks(hs) == bs
  {
    BlocksCons(h, rest);
    assert bs == [bs[0]] + bs[1..];
  }

  /** Opening `[b] + bs`: `b` first, then the rest. */
  lemma OpenBlocksCons(s: Snapshot, root: string, b: FileBlock, bs: seq<FileBlock>,
                       faults: nat -> OpenFault, first: nat, backup: string -> string, active: Option<string>)
    ensures OpenBlocks(s, root, [b] + bs, faults, first, backup, active).0
      == OpenBlocks(OpenOne(s, root, b, faults(first), backup, active).0, root, bs, faults,
                    first + 1, backup, active).0
    ensures OpenBlocks(s, root, [b] + bs, faults, first, backup, active).1
      == OpenBlocks(OpenOne(s, root, b, faults(first), backup, active).0, root, bs, faults,
                    first + 1, backup, active).1
         + (if OpenOne(s, root, b, faults(first), backup, active).1.success then 1 else 0)
  {
    assert ([b] + bs)[0] == b;
    assert ([b] + bs)[1..] == bs;
  }

  /** `OpenBlocks` on `bs + [b]` is `OpenBlocks` on `bs`, then `b` opened as
      call `k`. */
  lemma {:induction false} OpenBlocksSnoc(s: Snapshot, root: string, bs: seq<FileBlock>, b: FileBlock,
                                          faults: nat -> OpenFault, first: nat, k: nat,
                                          backup: string -> string, active: Option<string>)
    requires k == first + |bs|
    ensures OpenBlocks(s, root, bs + [b], faults, first, backup, active).0
      == OpenOne(OpenBlocks(s, root, bs, faults, first, backup, active).0, root, b, faults(k), backup, active).0
    ensures OpenBlocks(s, root, bs + [b], faults, first, backup, active).1
      == OpenBlocks(s, root, bs, faults, first, backup, active).1
         + (if OpenOne(OpenBlocks(s, root, bs, faults, first, backup, active).0, root, b, faults(k),
                       backup, active).1.success then 1 else 0)
    decreases |bs|
  {
    if |bs| == 0 {
      OpenBlocksOne(s, root, b, faults, first, backup, active);
    } else {
      var s1 := OpenOne(s, root, bs[0], faults(first), backup, active).0;
      OpenBlocksSnoc(s1, root, bs[1..], b, faults, first + 1, k, backup, active);
      OpenBlocksCons(s, root, bs[0], bs[1..], faults, first, backup, active);
      OpenBlocksCons(s, root, bs[0], bs[1..] + [b], faults, first, backup, active);
      assert bs == [bs[0]] + bs[1..];
      assert bs + [b] == [bs[0]] + (bs[1..] + [b]);
    }
  }

  /** `OpenBlocks` on one block is that block opened. */
  lemma {:induction false} OpenBlocksOne(s: Snapshot, root: string, b: FileBlock, faults: nat -> OpenFault,
                                         first: nat, backup: string -> string, active: Option<string>)
    ensures OpenBlocks(s, root, [] + [b], faults, first, backup, active).0
      == OpenOne(OpenBlocks(s, root, [], faults, first, backup, active).0, root, b, faults(first), backup, active).0
    ensures OpenBlocks(s, root, [] + [b], faults, first, backup, active).1
      == OpenBlocks(s, root, [], faults, first, backup, active).1
         + (if OpenOne(OpenBlocks(s, root, [], faults, first, backup, active).0, root, b, faults(first),
                       backup, active).1.success then 1 else 0)
  {
    var step := OpenOne(s, root, b, faults(first), backup, active);
    assert [] + [b] == [b] && [b][1..] == [];
    assert OpenBlocks(step.0, root, [], faults, first + 1, backup, active) == (step.0, 0);
  }

  /** Without faults every block is opened. */
  lemma {:induction false} NoFaultsOpenAll(s: Snapshot, root: string, bs: seq<FileBlock>, faults: nat -> OpenFault,
                                           first: nat, backup: string -> string, active: Option<string>)
    requires forall k :: faults(k) == NoFault
    ensures OpenBlocks(s, root, bs, faults, first, backup, active).1 == |bs|
    decreases |bs|
  {
    if |bs| > 0 {
      var step := OpenOne(s, root, bs[0], faults(first), backup, active);
      NoFaultsOpenAll(step.0, root, bs[1..], faults, first + 1, backup, active);
    }
  }

  /** When the `[file]` blocks open at least one file, they are the whole
      effect: the `<file>` pass does not run. */
  lemma {:induction false} FilePassWins(s: Snapshot, root: string, writeContent: string, faults: nat -> OpenFault,
                                        backup: string -> string, active: Option<string>)
    requires writeContent != ""
    requires OpenBlocks(s, root, Trimmed(Blocks(AllFrom(FileTag, ContentToProcess(writeContent), 0))), faults, 0,
                        backup, active).1 != 0
    ensures WriteFileStep(s, Some(root), writeContent, faults, backup, active)
         == OpenBlocks(s, root, Trimmed(Blocks(AllFrom(FileTag, ContentToProcess(writeContent), 0))), faults, 0,
                       backup, active)
  {
  }

  /** An answer made of one `[writeFile]` block of rendered well-formed
      `[file]` blocks opens exactly those blocks, in order, and the `<file>`
      fallback does not run when they all succeed. */
  lemma {:induction false} WriteRenderedFiles(s: Snapshot, root: string, bs: seq<FileBlock>, faults: nat -> OpenFault,
                           backup: string -> string, active: Option<string>)
    requires |bs| > 0
    requires forall i :: 0 <= i < |bs| ==> WellFormed(FileTag, bs[i])
    requires forall j :: !OccursAt(RenderAll(FileTag, bs), CloseTag(Block), j)
    requires forall k :: faults(k) == NoFault
    ensures var msg := Render(Block, FileBlock("", RenderAll(FileTag, bs)));
      WriteFileStep(s, Some(root), msg, faults, backup, active)
        == OpenBlocks(s, root, Trimmed(bs), faults, 0, backup, active)
    ensures var msg := Render(Block, FileBlock("", RenderAll(FileTag, bs)));
      WriteFileStep(s, Some(root), msg, faults, backup, active).1 == |bs|
  {
    var text := RenderAll(FileTag, bs);
    var msg := Render(Block, FileBlock("", text));
    assert text[0] == '[' by {
      assert text == Render(FileTag, bs[0]) + RenderAll(FileTag, bs[1..]);
    }
    WrappedContent(text);
    ParseRendered(FileTag, "", bs, "\n");
    assert "" + text + "\n" == text + "\n";
    NoFaultsOpenAll(s, root, Trimmed(bs), faults, 0, backup, active);
    FilePassWins(s, root, msg, faults, backup, active);
  }

  /** When the processed content holds no `[file]` block, the `<file>` blocks
      are the ones opened. */
  lemma {:induction false} XmlFallback(s: Snapshot, root: string, writeContent: string, faults: nat -> OpenFault,
                    backup: string -> string, active: Option<string>)
    requires writeContent != ""
    requires AllFrom(FileTag, ContentToProcess(writeContent), 0) == []
    ensures WriteFileStep(s, Some(root), writeContent, faults, backup, active)
         == OpenBlocks(s, root, Trimmed(Blocks(AllFrom(XmlTag, ContentToProcess(writeContent), 0))), faults, 0,
                       backup, active)
  {
  }

  // ---------------------------------------------------------------------------
  // The command
  // ---------------------------------------------------------------------------

  /** `handleDiff` on one block as the loop reads it. */
  method HandleDiff(dm: DiffManager, root: string, b: FileBlock, fault: OpenFault, active: Option<string>)
    returns (success: bool)
    requires dm.Valid()
    modifies dm, dm.disk
    ensures dm.Valid()
    ensures dm.Snap() == OpenOne(old(dm.Snap()), root, b, fault, dm.backupPath, active).0
    ensures success == OpenOne(old(dm.Snap()), root, b, fault, dm.backupPath, active).1.success
  {
    var fileUri := PathJoin(root, b.name);
    var originalContent;
    success, originalContent := dm.OpenDiff(fileUri, b.body, fault, active);
  }

  /** `handleDiff` on each block in turn; `succeeded` counts the calls that
      succeeded. */
  method HandleAll(dm: DiffManager, root: string, blocks: seq<FileBlock>, faults: nat -> OpenFault,
                   first: nat, active: Option<string>)
    returns (succeeded: nat)
    requires dm.Valid()
    modifies dm, dm.disk
    ensures dm.Valid()
    ensures dm.Snap() == OpenBlocks(old(dm.Snap()), root, Trimmed(blocks), faults, first, dm.backupPath, active).0
    ensures succeeded == OpenBlocks(old(dm.Snap()), root, Trimmed(blocks), faults, first, dm.backupPath, active).1
  {
    succeeded := 0;
    var i := 0;
    var callNo := first;
    while i < |blocks|
      invariant dm.Valid()
      invariant i <= |blocks| && callNo == first + i
      invariant dm.Snap() == OpenBlocks(old(dm.Snap()), root, Trimmed(blocks)[..i], faults, first, dm.backupPath, active).0
      invariant succeeded == OpenBlocks(old(dm.Snap()), root, Trimmed(blocks)[..i], faults, first, dm.backupPath, active).1
    {
      var b := TrimBlock(blocks[i]);
      OpenBlocksSnoc(old(dm.Snap()), root, Trimmed(blocks)[..i], b, faults, first, callNo, dm.backupPath, active);
      TrimmedSnoc(blocks, i);
      var success := HandleDiff(dm, root, b, faults(callNo), active);
      if success {
        succeeded := succeeded + 1;
      }
      i := i + 1;
      callNo := callNo + 1;
    }
    assert Trimmed(blocks)[..i] == Trimmed(blocks);
  }

  /** One more match found by the `exec` loop keeps the matches found so
      far, followed by the rest, equal to all of them. */
  lemma {:induction false} CollectStep(pat: Pattern, content: string, hits: seq<Hit>, from: nat, h: Hit)
    requires Next(pat, content, from) == Some(h)
    requires hits + AllFrom(pat, content, from) == AllFrom(pat, content, 0)
    ensures (hits + [h]) + AllFrom(pat, content, h.end) == AllFrom(pat, content, 0)
  {
    AllFromNext(pat, content, from, h);
    assert hits + ([h] + AllFrom(pat, content, h.end)) == (hits + [h]) + AllFrom(pat, content, h.end);
  }

  /** The global `exec` loop: every match of `pat` in `content`, in order. */
  method CollectMatches(pat: Pattern, content: string) returns (hits: seq<Hit>)
    ensures hits == AllFrom(pat, content, 0)
  {
    hits := [];
    var from := 0;
    var m := Next(pat, content, from);
    while m.Some?
      invariant m == Next(pat, content, from)
      invariant hits + AllFrom(pat, content, from) == AllFrom(pat, content, 0)
      decreases |content| + 1 - from
    {
      var h := m.value;
      CollectStep(pat, content, hits, from, h);
      hits := hits + [h];
      from := h.end;
      m := Next(pat, content, from);
    }
    assert AllFrom(pat, content, from) == [];
    assert hits + [] == hits;
  }

  /** The matches of `pat`, each opened with `handleDiff`: how many calls
      succeeded, and how many were made. */
  method OpenMatches(dm: DiffManager, pat: Pattern, content: string, root: string, faults: nat -> OpenFault,
                     first: nat, active: Option<string>)
    returns (succeeded: nat, calls: nat)
    requires dm.Valid()
    modifies dm, dm.disk
    ensures dm.Valid()
    ensures calls == |AllFrom(pat, content, 0)|
    ensures dm.Snap() == OpenBlocks(old(dm.Snap()), root, Trimmed(Blocks(AllFrom(pat, content, 0))), faults, first,
                                    dm.backupPath, active).0
    ensures succeeded == OpenBlocks(old(dm.Snap()), root, Trimmed(Blocks(AllFrom(pat, content, 0))), faults, first,
                                    dm.backupPath, active).1
  {
    var hits := CollectMatches(pat, content);
    succeeded := HandleAll(dm, root, Blocks(hits), faults, first, active);
    calls := |hits|;
  }

  /** `writeFileVico()`: `writeContent` is the stored answer ("" when there is
      none), `root` the first workspace folder; the result is `filesCreated`. */
  method WriteFileVico(dm: DiffManager, root: Option<string>, writeContent: string, faults: nat -> OpenFault,
                       active: Option<string>)
    returns (filesCreated: nat)
    requires dm.Valid()
    modifies dm, dm.disk
    ensures dm.Valid()
    ensures (dm.Snap(), filesCreated)
         == WriteFileStep(old(dm.Snap()), root, writeContent, faults, dm.backupPath, active)
  {
    if writeContent == "" {
      return 0;
    }
    if root.None? {
      return 0;
    }
    var content := CollectContent(writeContent);
    var calls;
    filesCreated, calls := OpenMatches(dm, FileTag, content, root.value, faults, 0, active);
    if filesCreated == 0 {
      filesCreated, calls := OpenMatches(dm, XmlTag, content, root.value, faults, calls, active);
    }
  }
}
