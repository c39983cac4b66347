/** Inline suggestions in src/extension.ts: the text helpers, the request a
    keystroke produces, the handling of its response, and the inline
    completion provider that shows the result.

    A document is its sequence of lines (VS Code documents have at least one),
    a position is a line and a character index. The HTTP call, the status bar,
    the debounce timer and the abort controller are not part of this model:
    `FetchSuggestions` ends with the request it would send, and
    `HandleResponse` starts from the response it got. */
module Suggestions {
  import opened Wrappers
  import opened Strings

  // ---------------------------------------------------------------------------
  // Text helpers
  // ---------------------------------------------------------------------------

  /** `stripPrefix(suggestion, linePrefix)`: drop the text already typed. */
  function StripPrefix(suggestion: string, linePrefix: string): (r: string)
    ensures StartsWith(suggestion, linePrefix) ==> linePrefix + r == suggestion
    ensures !StartsWith(suggestion, linePrefix) ==> r == suggestion
  {
    if StartsWith(suggestion, linePrefix) then suggestion[|linePrefix|..] else suggestion
  }

  /** The longest suggestion shown inline. */
  const MaxInlineLength: nat := 120

  /** `text.replace(/c/g, "")`. */
  function RemoveChar(s: string, c: char): (r: string)
    ensures c !in r
    ensures |r| <= |s|
  {
    if |s| == 0 then ""
    else if s[0] == c then RemoveChar(s[1..], c)
    else [s[0]] + RemoveChar(s[1..], c)
  }

  /** Removing a character that does not occur changes nothing. */
  lemma {:induction false} RemoveAbsentChar(s: string, c: char)
    requires c !in s
    ensures RemoveChar(s, c) == s
  {
    if |s| > 0 {
      assert c !in s[1..];
      RemoveAbsentChar(s[1..], c);
    }
  }

  /** Removing a character brings back no character that was absent. */
  lemma {:induction false} RemoveKeepsAbsent(s: string, c: char, d: char)
    requires d !in s
    ensures d !in RemoveChar(s, c)
  {
    if |s| > 0 {
      assert d !in s[1..];
      RemoveKeepsAbsent(s[1..], c, d);
    }
  }

  /** Removal works character by character: a text is cleaned piece by
      piece, a single `c` goes and any other single character stays. */
  lemma {:induction false} RemoveCharConcat(a: string, b: string, c: char, x: char)
    ensures RemoveChar(a + b, c) == RemoveChar(a, c) + RemoveChar(b, c)
    ensures RemoveChar([x], c) == if x == c then "" else [x]
    decreases |a|
  {
    if |a| > 0 {
      assert (a + b)[1..] == a[1..] + b;
      RemoveCharConcat(a[1..], b, c, x);
    } else {
      assert a + b == b;
    }
    assert [x][1..] == "";
  }

  predicate IsLineBreak(ch: char) {
    ch == '\n' || ch == '\r'
  }

  /** The characters of `s` that are not line breaks, in order: a single
      filter, against which the two successive removals are checked. */
  function WithoutBreaks(s: string): (r: string)
    ensures forall i :: 0 <= i < |r| ==> !IsLineBreak(r[i])
    decreases |s|
  {
    if |s| == 0 then ""
    else (if IsLineBreak(s[0]) then "" else [s[0]]) + WithoutBreaks(s[1..])
  }

  /** Removing `\n` and then `\r` keeps exactly the characters that are not
      line breaks, in order. */
  lemma {:induction false} RemoveBreaksIsFilter(s: string)
    ensures RemoveChar(RemoveChar(s, '\n'), '\r') == WithoutBreaks(s)
    decreases |s|
  {
    if |s| > 0 {
      var h := if s[0] == '\n' then "" else [s[0]];
      assert RemoveChar(s, '\n') == h + RemoveChar(s[1..], '\n');
      RemoveCharConcat(h, RemoveChar(s[1..], '\n'), '\r', s[0]);
      RemoveBreaksIsFilter(s[1..]);
    }
  }

  /** `normalizeInlineSuggestion(text)`: drop every `\n` and `\r`, keep at
      most the first 120 characters. */
  function NormalizeInlineSuggestion(text: string): (r: string)
    ensures '\n' !in r && '\r' !in r
    ensures |r| <= MaxInlineLength
  {
    var noLf := RemoveChar(text, '\n');
    var t := RemoveChar(noLf, '\r');
    RemoveKeepsAbsent(noLf, '\r', '\n');
    var r := if |t| <= MaxInlineLength then t else t[..MaxInlineLength];
    assert forall x :: x in r ==> x in t;
    r
  }

  /** The suggestion shown is the first 120 of the text's characters other
      than line breaks, in order, or all of them when there are fewer. */
  lemma NormalizeKeepsFirstCharacters(text: string)
    ensures var w := WithoutBreaks(text);
      NormalizeInlineSuggestion(text) == if |w| <= MaxInlineLength then w else w[..MaxInlineLength]
  {
    RemoveBreaksIsFilter(text);
  }

  /** Normalizing twice is normalizing once. */
  lemma NormalizeIdempotent(text: string)
    ensures NormalizeInlineSuggestion(NormalizeInlineSuggestion(text)) == NormalizeInlineSuggestion(text)
  {
    var r := NormalizeInlineSuggestion(text);
    RemoveAbsentChar(r, '\n');
    RemoveAbsentChar(r, '\r');
  }

  /** A line without line breaks and no longer than 120 characters is shown
      as it is. */
  lemma NormalizeKeepsShortLine(text: string)
    requires '\n' !in text && '\r' !in text && |text| <= MaxInlineLength
    ensures NormalizeInlineSuggestion(text) == text
  {
    RemoveAbsentChar(text, '\n');
    RemoveAbsentChar(text, '\r');
  }

  // ---------------------------------------------------------------------------
  // The request: source line and context window
  // ---------------------------------------------------------------------------

  /** The line the request is about: the cursor's line, or the line above it
      when the cursor's line is blank and is not the first. */
  function SourceLine(lines: seq<string>, cursor: nat): (src: nat)
    requires cursor < |lines|
    ensures src < |lines|
    ensures src == cursor || src == cursor - 1
    ensures src != cursor <==> cursor > 0 && IsBlank(lines[cursor])
  {
    if IsBlank(lines[cursor]) && cursor > 0 then cursor - 1 else cursor
  }

  /** `CONTEXT_RADIUS`: how many lines of context on each side. */
  function ContextRadius(lang: string, file: string): (r: nat)
    ensures r == 80 || r == 40
    ensures r == 80 <==> lang == "python" || EndsWith(file, ".py")
  {
    if lang == "python" || EndsWith(file, ".py") then 80 else 40
  }

  /** The lines `start..end` sent as context: `radius` lines on each side of
      the source line, clipped to the document. */
  function ContextWindow(src: nat, lineCount: nat, radius: nat): (w: (nat, nat))
    requires src < lineCount
    ensures 0 <= w.0 <= src <= w.1 <= lineCount - 1
    ensures w.1 - w.0 <= 2 * radius
    ensures w.0 == 0 || src - w.0 == radius
    ensures w.1 == lineCount - 1 || w.1 - src == radius
  {
    var start := if src >= radius then src - radius else 0;
    var end := if src + radius <= lineCount - 1 then src + radius else lineCount - 1;
    (start, end)
  }

  /** Each line followed by a line break. */
  function Joined(ls: seq<string>): string {
    if |ls| == 0 then "" else ls[0] + "\n" + Joined(ls[1..])
  }

  lemma {:induction false} JoinedSnoc(ls: seq<string>, l: string)
    ensures Joined(ls + [l]) == Joined(ls) + l + "\n"
  {
    if |ls| > 0 {
      assert (ls + [l])[1..] == ls[1..] + [l];
      JoinedSnoc(ls[1..], l);
    } else {
      assert ls + [l] == [l];
    }
  }

  /** Index of the first line break in `s`, or `|s|`. */
  function FirstLineBreak(s: string): (k: nat)
    ensures k <= |s|
    ensures k < |s| ==> s[k] == '\n'
    ensures '\n' !in s[..k]
  {
    if |s| == 0 || s[0] == '\n' then 0
    else
      var k := 1 + FirstLineBreak(s[1..]);
      assert s[..k] == [s[0]] + s[1..][..k - 1];
      k
  }

  /** Cut text whose every line ends with a line break back into its lines. */
  function SplitTerminated(s: string): seq<string>
    decreases |s|
  {
    if |s| == 0 then []
    else
      var k := FirstLineBreak(s);
      if k < |s| then [s[..k]] + SplitTerminated(s[k + 1..]) else [s]
  }

  /** The context text holds the lines exactly: cutting it at its line breaks
      gives them back. */
  lemma {:induction false} SplitJoined(ls: seq<string>)
    requires forall i :: 0 <= i < |ls| ==> '\n' !in ls[i]
    ensures SplitTerminated(Joined(ls)) == ls
  {
    if |ls| > 0 {
      var s := Joined(ls);
      assert s == ls[0] + "\n" + Joined(ls[1..]);
      var k := FirstLineBreak(s);
      assert s[|ls[0]|] == '\n';
      assert s[..|ls[0]|] == ls[0];
      assert forall j :: 0 <= j < |ls[0]| ==> s[j] == ls[0][j];
      assert k == |ls[0]|;
      assert s[k + 1..] == Joined(ls[1..]);
      SplitJoined(ls[1..]);
    }
  }

  /** The loop that builds `contextCode`. */
  method ContextCode(lines: seq<string>, start: nat, end: nat) returns (code: string)
    requires start <= end < |lines|
    ensures code == Joined(lines[start..end + 1])
  {
    code := "";
    var i := start;
    while i <= end
      invariant start <= i <= end + 1
      invariant code == Joined(lines[start..i])
    {
      JoinedSnoc(lines[start..i], lines[i]);
      assert lines[start..i + 1] == lines[start..i] + [lines[i]];
      code := code + lines[i] + "\n";
      i := i + 1;
    }
  }

  /** The context part of `fetchSuggestions`: the radius for the language,
      the window around the source line, and the loop over its lines. */
  method RequestContext(lines: seq<string>, sourceLine: nat, lang: string, fileName: string)
    returns (contextCode: string)
    requires sourceLine < |lines|
    ensures contextCode == ContextOf(lines, sourceLine, ContextRadius(lang, Basename(fileName)))
  {
    var radius := ContextRadius(lang, Basename(fileName));
    var window := ContextWindow(sourceLine, |lines|, radius);
    contextCode := ContextCode(lines, window.0, window.1);
  }

  /** What `fetchSuggestions` sends: the request number, the cursor line,
      whether the user just started a new line, the typed text with comment
      markers removed, and the context. */
  datatype Request = Request(id: nat, line: nat, isNewLine: bool, cleanedInput: string,
                             contextCode: string)

  /** A position in a document. */
  datatype Position = Position(line: nat, character: nat)

  /** An inline completion: the text and the (empty) range it is inserted at. */
  datatype InlineItem = InlineItem(insertText: string, start: Position, end: Position)

  /** `true` when `lang` or the file name marks an HTML document. */
  predicate IsHtml(lang: string, file: string) {
    lang == "html" || EndsWith(ToLower(file), ".html")
  }

  /** The HTML filter: on a new line, a non-empty suggestion is dropped unless
      it starts with `<` and contains `>`. */
  predicate DropsHtmlSuggestion(message: string) {
    var candidate := Trim(message);
    candidate != "" && (!StartsWith(candidate, "<") || !Contains(candidate, ">"))
  }

  /** The text a request carries: the source line, trimmed, comment markers
      removed. */
  function CleanedInput(lines: seq<string>, cursor: nat, removeCommentTags: string -> string): string
    requires cursor < |lines|
  {
    removeCommentTags(Trim(lines[SourceLine(lines, cursor)]))
  }

  /** `fetchSuggestions` gets as far as recording the request: inline
      suggestions are enabled, the source line is not blank, and on the
      cursor's own line at least three characters remain once comment markers
      are removed. */
  predicate Asks(enabled: bool, lines: seq<string>, cursor: nat, removeCommentTags: string -> string)
    requires cursor < |lines|
  {
    var src := SourceLine(lines, cursor);
    enabled && !IsBlank(lines[src]) && (src != cursor || |CleanedInput(lines, cursor, removeCommentTags)| >= 3)
  }

  /** The context sent with a request about line `src`: the lines of its
      window, each followed by a line break. */
  function ContextOf(lines: seq<string>, src: nat, radius: nat): string
    requires src < |lines|
  {
    var w := ContextWindow(src, |lines|, radius);
    Joined(lines[w.0..w.1 + 1])
  }

  /** The module-level variables of src/extension.ts that suggestions use. */
  class InlineState {
    var lastSuggestion: Option<string>
    var lastLinePrefix: Option<string>
    var requestId: nat
    var lastRequestLine: Option<nat>
    var lastRequestPrefix: Option<string>
    var lastWasNewLine: bool

    constructor ()
      ensures lastSuggestion.None? && lastLinePrefix.None? && requestId == 0
      ensures lastRequestLine.None? && lastRequestPrefix.None? && !lastWasNewLine
    {
      lastSuggestion := None;
      lastLinePrefix := None;
      requestId := 0;
      lastRequestLine := None;
      lastRequestPrefix := None;
      lastWasNewLine := false;
    }

    /** `lastSuggestion = null`: the clear-suggestion command, a change of the
        `inline.enabled` setting and every document edit do this. */
    method ClearSuggestion()
      modifies this`lastSuggestion
      ensures lastSuggestion.None?
    {
      lastSuggestion := None;
    }

    /** `presentSuggestions(suggestion, linePrefix)`. */
    method PresentSuggestions(suggestion: string, linePrefix: Option<string>)
      modifies this`lastSuggestion
      ensures IsBlank(suggestion) ==> lastSuggestion == old(lastSuggestion)
      ensures !IsBlank(suggestion) && (linePrefix.None? || linePrefix.value == "") ==>
        lastSuggestion == Some(NormalizeInlineSuggestion(suggestion))
      ensures !IsBlank(suggestion) && linePrefix.Some? && linePrefix.value != "" ==>
        lastSuggestion == Some(NormalizeInlineSuggestion(StripPrefix(suggestion, linePrefix.value)))
    {
      if suggestion != "" && |Trim(suggestion)| > 0 {
        var next := suggestion;
        if linePrefix.Some? && linePrefix.value != "" {
          next := StripPrefix(suggestion, linePrefix.value);
        }
        lastSuggestion := Some(NormalizeInlineSuggestion(next));
      }
    }

    /** `fetchSuggestions` up to the HTTP call. `enabled` is the
        `vibeCoding.inline.enabled` setting, `removeCommentTags` the comment
        stripper (a chain of regular-expression replacements), `hasToken`
        whether a login token is stored. */
    method FetchSuggestions(enabled: bool, lines: seq<string>, cursor: nat, lang: string,
                            fileName: string, removeCommentTags: string -> string, hasToken: bool)
      returns (request: Option<Request>)
      requires cursor < |lines|
      modifies this
      ensures !enabled ==> request.None? && requestId == old(requestId)
      ensures enabled ==> requestId == old(requestId) + 1
      ensures lastSuggestion == old(lastSuggestion)
      ensures Asks(enabled, lines, cursor, removeCommentTags) ==>
        && lastRequestLine == Some(cursor)
        && lastWasNewLine == (SourceLine(lines, cursor) != cursor)
        && lastRequestPrefix == Some(if SourceLine(lines, cursor) != cursor then ""
                                     else CleanedInput(lines, cursor, removeCommentTags))
        && lastLinePrefix == Some(lines[SourceLine(lines, cursor)])
      ensures !Asks(enabled, lines, cursor, removeCommentTags) ==>
        && lastRequestLine == old(lastRequestLine) && lastRequestPrefix == old(lastRequestPrefix)
        && lastWasNewLine == old(lastWasNewLine) && lastLinePrefix == old(lastLinePrefix)
      ensures request.Some? <==> Asks(enabled, lines, cursor, removeCommentTags) && hasToken
      ensures request.Some? ==>
        request.value == Request(requestId, cursor, SourceLine(lines, cursor) != cursor,
                                 CleanedInput(lines, cursor, removeCommentTags),
                                 ContextOf(lines, SourceLine(lines, cursor), ContextRadius(lang, Basename(fileName))))
    {
      if !enabled {
        return None;
      }
      requestId := requestId + 1;
      var currentRequest := requestId;

      var sourceLine := cursor;
      var lineText := lines[cursor];
      if IsBlank(lineText) && cursor > 0 {
        sourceLine := cursor - 1;
        lineText := lines[sourceLine];
      }
      assert sourceLine == SourceLine(lines, cursor) && lineText == lines[sourceLine];
      if IsBlank(lineText) {
        return None;
      }
      var cleanedInput := removeCommentTags(Trim(lineText));
      assert cleanedInput == CleanedInput(lines, cursor, removeCommentTags);
      if |cleanedInput| < 3 && cursor == sourceLine {
        return None;
      }
      assert Asks(enabled, lines, cursor, removeCommentTags);

      var isNewLine := cursor != sourceLine;
      lastWasNewLine := isNewLine;
      lastRequestLine := Some(cursor);
      lastRequestPrefix := Some(if isNewLine then "" else cleanedInput);
      lastLinePrefix := Some(lineText);

      if !hasToken {
        return None;
      }

      var contextCode := RequestContext(lines, sourceLine, lang, fileName);
      return Some(Request(currentRequest, cursor, isNewLine, cleanedInput, contextCode));
    }

    /** What `fetchSuggestions` does with the response to `request`: `ok` is
        `response.ok`, `message` the suggestion, `lineNow` the cursor's line
        when the response arrives and `freshLine` the request line's text then.
        A response to an older request, or one that arrives after the cursor
        moved to another line, is dropped. */
    method HandleResponse(request: Request, ok: bool, message: string, lineNow: nat,
                          lang: string, fileName: string, freshLine: string)
      modifies this`lastSuggestion
      ensures !ok || request.id != requestId || lineNow != request.line ==>
        lastSuggestion == old(lastSuggestion)
      ensures lastWasNewLine && IsHtml(lang, Basename(fileName)) && DropsHtmlSuggestion(message) ==>
        lastSuggestion == old(lastSuggestion)
      ensures (&& ok && request.id == requestId && lineNow == request.line
               && !(lastWasNewLine && IsHtml(lang, Basename(fileName)) && DropsHtmlSuggestion(message))
               && !IsBlank(message)) ==>
        lastSuggestion == Some(NormalizeInlineSuggestion(
          if freshLine == "" then message else StripPrefix(message, freshLine)))
    {
      if !ok {
        return;
      }
      if request.id != requestId {
        return;
      }
      if lineNow != request.line {
        return;
      }
      var file := Basename(fileName);
      if lastWasNewLine && IsHtml(lang, file) {
        var candidate := Trim(message);
        if candidate != "" && (!StartsWith(candidate, "<") || !Contains(candidate, ">")) {
          return;
        }
      }
      PresentSuggestions(message, Some(freshLine));
    }

    /** `provideInlineCompletionItems(document, position)` with `lineText` the
        text of the position's line. */
    function ProvideInlineItems(enabled: bool, position: Position, lineText: string): (items: seq<InlineItem>)
      reads this
      ensures |items| <= 1
      ensures |items| == 1 <==>
        && enabled && lastSuggestion.Some? && lastSuggestion.value != ""
        && lastRequestLine == Some(position.line)
        && (IsBlank(lineText) || lastRequestPrefix.None? || lastRequestPrefix.value == ""
            || StartsWith(Trim(lineText), lastRequestPrefix.value))
      ensures |items| == 1 ==> items[0] == InlineItem(lastSuggestion.value, position, position)
    {
      if !enabled then []
      else if lastSuggestion.None? || lastSuggestion.value == "" then []
      else if lastRequestLine != Some(position.line) then []
      else
        var isNewLine := IsBlank(lineText);
        if !isNewLine && lastRequestPrefix.Some? && lastRequestPrefix.value != ""
           && !StartsWith(Trim(lineText), lastRequestPrefix.value)
        then []
        else [InlineItem(lastSuggestion.value, position, position)]
    }

    /** The completion-list provider: one item carrying the last suggestion,
        unless there is none or it is blank. */
    function CompletionItems(): (items: seq<string>)
      reads this
      ensures |items| <= 1
      ensures |items| == 1 <==> lastSuggestion.Some? && !IsBlank(lastSuggestion.value)
      ensures |items| == 1 ==> items[0] == lastSuggestion.value
    {
      if lastSuggestion.None? || lastSuggestion.value == "" || IsBlank(lastSuggestion.value) then []
      else [lastSuggestion.value]
    }
  }

  /** A response that arrives after a newer request was started is dropped:
      two keystrokes, then the answer to the first, leave the shown suggestion
      as it was. */
  method StaleResponseIsDropped(st: InlineState, lines: seq<string>, cursor: nat, lang: string,
                                fileName: string, clean: string -> string, message: string,
                                freshLine: string)
    requires cursor < |lines|
    modifies st
    ensures st.lastSuggestion == old(st.lastSuggestion)
  {
    var first := st.FetchSuggestions(true, lines, cursor, lang, fileName, clean, true);
    var second := st.FetchSuggestions(true, lines, cursor, lang, fileName, clean, true);
    if first.Some? {
      st.HandleResponse(first.value, true, message, cursor, lang, fileName, freshLine);
    }
  }
}
