/** String operations of JavaScript and of Node's posix `path` module, as the
    extension uses them. Strings are sequences of characters. */
module Strings {
  import opened Wrappers

  /** The characters `String.prototype.trim` removes and the regular-expression
      class `\s` matches: ECMAScript's WhiteSpace and LineTerminator code points. */
  predicate IsWhite(c: char) {
    c == ' ' || c == '\t' || c == '\n' || c == '\r' || c == '\U{000B}' || c == '\U{000C}'
    || c == '\U{00A0}' || c == '\U{1680}' || ('\U{2000}' <= c <= '\U{200A}')
    || c == '\U{2028}' || c == '\U{2029}' || c == '\U{202F}' || c == '\U{205F}'
    || c == '\U{3000}' || c == '\U{FEFF}'
  }

  predicate AllWhite(s: string) {
    forall i :: 0 <= i < |s| ==> IsWhite(s[i])
  }

  /** Number of white-space characters at the start of `s`. */
  function LeadingWhite(s: string): (k: nat)
    ensures k <= |s|
  {
    if |s| == 0 || !IsWhite(s[0]) then 0 else 1 + LeadingWhite(s[1..])
  }

  /** `LeadingWhite` counts the white space before the first other character. */
  lemma {:induction false} LeadingWhiteIsWhite(s: string)
    ensures AllWhite(s[..LeadingWhite(s)])
    ensures LeadingWhite(s) < |s| ==> !IsWhite(s[LeadingWhite(s)])
    decreases |s|
  {
    if |s| > 0 && IsWhite(s[0]) {
      var k := LeadingWhite(s);
      LeadingWhiteIsWhite(s[1..]);
      assert s[..k] == [s[0]] + s[1..][..k - 1];
    }
  }

  /** Number of white-space characters at the end of `s`. */
  function TrailingWhite(s: string): (k: nat)
    ensures k <= |s|
  {
    if |s| == 0 || !IsWhite(s[|s| - 1]) then 0 else 1 + TrailingWhite(s[..|s| - 1])
  }

  /** `TrailingWhite` counts the white space after the last other character. */
  lemma {:induction false} TrailingWhiteIsWhite(s: string)
    ensures AllWhite(s[|s| - TrailingWhite(s)..])
    ensures TrailingWhite(s) < |s| ==> !IsWhite(s[|s| - 1 - TrailingWhite(s)])
    decreases |s|
  {
    if |s| > 0 && IsWhite(s[|s| - 1]) {
      var k := TrailingWhite(s);
      TrailingWhiteIsWhite(s[..|s| - 1]);
      assert s[|s| - k..] == s[..|s| - 1][|s| - k..] + [s[|s| - 1]];
    }
  }

  /** `s.trim()`. */
  function Trim(s: string): (r: string)
    ensures |r| <= |s|
  {
    var t := s[LeadingWhite(s)..];
    t[..|t| - TrailingWhite(t)]
  }

  /** What `Trim` keeps starts and ends with a character that is not white space. */
  lemma TrimEnds(s: string)
    ensures Trim(s) != [] ==> !IsWhite(Trim(s)[0]) && !IsWhite(Trim(s)[|Trim(s)| - 1])
  {
    var a := LeadingWhite(s);
    var t := s[a..];
    LeadingWhiteIsWhite(s);
    TrailingWhiteIsWhite(t);
    if Trim(s) != [] {
      assert Trim(s)[0] == s[a];
      assert Trim(s)[|Trim(s)| - 1] == t[|t| - 1 - TrailingWhite(t)];
    }
  }

  /** The part `Trim` keeps is a slice of `s` framed by white space on both sides. */
  lemma TrimIsSlice(s: string)
    ensures exists a, b ::
      (0 <= a <= b <= |s| && Trim(s) == s[a..b] && AllWhite(s[..a]) && AllWhite(s[b..]))
  {
    var a := LeadingWhite(s);
    var t := s[a..];
    var b := a + |t| - TrailingWhite(t);
    LeadingWhiteIsWhite(s);
    TrailingWhiteIsWhite(t);
    assert t[|t| - TrailingWhite(t)..] == s[b..];
    assert Trim(s) == s[a..b];
  }

  /** `!s.trim()`: the string is empty or white space only. */
  predicate IsBlank(s: string) {
    Trim(s) == ""
  }

  lemma BlankIffAllWhite(s: string)
    ensures IsBlank(s) <==> AllWhite(s)
  {
    var a := LeadingWhite(s);
    var t := s[a..];
    LeadingWhiteIsWhite(s);
    TrailingWhiteIsWhite(t);
    if AllWhite(s) {
      assert a == |s|;
    } else {
      var i :| 0 <= i < |s| && !IsWhite(s[i]);
      assert i >= a;
      assert t[i - a] == s[i];
      assert !IsWhite(t[i - a]);
      assert TrailingWhite(t) < |t|;
    }
  }

  /** `s.startsWith(p)`. */
  predicate StartsWith(s: string, p: string) {
    |p| <= |s| && s[..|p|] == p
  }

  /** `s.endsWith(p)`. */
  predicate EndsWith(s: string, p: string) {
    |p| <= |s| && s[|s| - |p|..] == p
  }

  /** `pat` occurs in `s` at index `k`. */
  predicate OccursAt(s: string, pat: string, k: int) {
    0 <= k && k + |pat| <= |s| && s[k..k + |pat|] == pat
  }

  /** `s.indexOf(pat, from)` for a non-negative `from`: the first index at or
      after `from` where `pat` occurs, if there is one. */
  function IndexOf(s: string, pat: string, from: nat): (r: Option<nat>)
    ensures r.Some? ==> from <= r.value && r.value + |pat| <= |s|
    decreases |s| - from
  {
    if from + |pat| > |s| then None
    else if s[from..from + |pat|] == pat then Some(from)
    else IndexOf(s, pat, from + 1)
  }

  /** `IndexOf` finds the first occurrence: `pat` occurs at the index found
      and nowhere between `from` and it, and nowhere after `from` when
      nothing is found. */
  lemma {:induction false} IndexOfFirst(s: string, pat: string, from: nat)
    ensures IndexOf(s, pat, from).Some? ==> OccursAt(s, pat, IndexOf(s, pat, from).value)
    ensures IndexOf(s, pat, from).Some? ==> forall j :: from <= j < IndexOf(s, pat, from).value ==> !OccursAt(s, pat, j)
    ensures IndexOf(s, pat, from).None? ==> forall j :: from <= j ==> !OccursAt(s, pat, j)
    decreases |s| - from
  {
    if from + |pat| <= |s| && s[from..from + |pat|] != pat {
      IndexOfFirst(s, pat, from + 1);
    }
  }

  /** `s.includes(pat)`. */
  predicate Contains(s: string, pat: string) {
    IndexOf(s, pat, 0).Some?
  }

  lemma ContainsIff(s: string, pat: string)
    ensures Contains(s, pat) <==> exists k :: OccursAt(s, pat, k)
  {
    IndexOfFirst(s, pat, 0);
    if exists k :: OccursAt(s, pat, k) {
      var k :| OccursAt(s, pat, k);
      assert 0 <= k;
    }
  }

  function LowerChar(c: char): char {
    if 'A' <= c <= 'Z' then (c as int + 32) as char else c
  }

  /** `s.toLowerCase()` on the ASCII letters. */
  function ToLower(s: string): (r: string)
    ensures |r| == |s|
    ensures forall i :: 0 <= i < |s| ==> r[i] == LowerChar(s[i])
  {
    seq(|s|, i requires 0 <= i < |s| => LowerChar(s[i]))
  }

  /** Index of the last `c` in `s`, if any. */
  function LastIndexOf(s: string, c: char): (r: Option<nat>)
    ensures r.Some? ==> r.value < |s| && s[r.value] == c
  {
    if |s| == 0 then None
    else if s[|s| - 1] == c then Some(|s| - 1)
    else LastIndexOf(s[..|s| - 1], c)
  }

  /** `LastIndexOf` finds the last `c`, and finds none only when there is none. */
  lemma {:induction false} LastIndexOfLast(s: string, c: char)
    ensures LastIndexOf(s, c).Some? ==> forall j :: LastIndexOf(s, c).value < j < |s| ==> s[j] != c
    ensures LastIndexOf(s, c).None? ==> forall j :: 0 <= j < |s| ==> s[j] != c
    decreases |s|
  {
    if |s| > 0 && s[|s| - 1] != c {
      LastIndexOfLast(s[..|s| - 1], c);
    }
  }

  /** `s` without its trailing `/` characters. */
  function DropTrailingSlashes(s: string): (r: string)
    ensures |r| <= |s|
  {
    if |s| == 0 || s[|s| - 1] != '/' then s else DropTrailingSlashes(s[..|s| - 1])
  }

  /** `DropTrailingSlashes` keeps a prefix, removes only `/` characters, and
      leaves no `/` at the end. */
  lemma {:induction false} DropTrailingSlashesPrefix(s: string)
    ensures DropTrailingSlashes(s) == s[..|DropTrailingSlashes(s)|]
    ensures DropTrailingSlashes(s) != [] ==> DropTrailingSlashes(s)[|DropTrailingSlashes(s)| - 1] != '/'
    ensures forall j :: |DropTrailingSlashes(s)| <= j < |s| ==> s[j] == '/'
    decreases |s|
  {
    if |s| > 0 && s[|s| - 1] == '/' {
      var s' := s[..|s| - 1];
      DropTrailingSlashesPrefix(s');
      assert s'[..|DropTrailingSlashes(s')|] == s[..|DropTrailingSlashes(s')|];
    }
  }

  /** Node's posix `path.basename(p)`: the last path segment, trailing
      separators ignored. */
  function Basename(p: string): string
  {
    var t := DropTrailingSlashes(p);
    match LastIndexOf(t, '/')
    case None => t
    case Some(k) => t[k + 1..]
  }

  /** The base name is the last segment of the path without its trailing
      separators: a suffix of it holding no `/`, preceded by a `/` unless it
      is the whole. */
  lemma BasenameLastSegment(p: string)
    ensures var t, b := DropTrailingSlashes(p), Basename(p);
      |b| <= |t| && b == t[|t| - |b|..]
      && (forall j :: 0 <= j < |b| ==> b[j] != '/')
      && (|b| < |t| ==> t[|t| - |b| - 1] == '/')
  {
    var t := DropTrailingSlashes(p);
    LastIndexOfLast(t, '/');
  }

  /** Node's posix `path.extname(p)`: from the last `.` of the base name, or
      "" when the base name has no dot, starts with its only dot, or is "..". */
  function Extname(p: string): (r: string)
    ensures r == [] || r[0] == '.'
  {
    var b := Basename(p);
    match LastIndexOf(b, '.')
    case None => ""
    case Some(d) => if d == 0 || b == ".." then "" else b[d..]
  }

  /** The backward scan of Node's posix `path.dirname`: the index of the
      separator before the last segment, looking at indices `i` down to 1. */
  function DirnameEnd(p: string, i: int, matchedSlash: bool): (r: int)
    requires i < |p|
    ensures r == -1 || 1 <= r <= i
    decreases i
  {
    if i < 1 then -1
    else if p[i] == '/' then (if !matchedSlash then i else DirnameEnd(p, i - 1, true))
    else DirnameEnd(p, i - 1, false)
  }

  /** The extension is "" exactly when the base name has no `.` after its
      first character or is ".."; otherwise it is the suffix of the base name
      from its last `.`, which is not the first character. */
  lemma ExtnameOfBasename(p: string)
    ensures var b, r := Basename(p), Extname(p);
      (r == "" <==> b == ".." || forall j :: 0 < j < |b| ==> b[j] != '.')
      && (r != "" ==> |r| < |b| && r == b[|b| - |r|..] && r[0] == '.'
                      && forall j :: 0 < j < |r| ==> r[j] != '.')
  {
    var b := Basename(p);
    LastIndexOfLast(b, '.');
  }

  /** Node's posix `path.dirname(p)`. */
  function Dirname(p: string): (r: string)
    ensures r != []
  {
    if |p| == 0 then "."
    else
      var end := DirnameEnd(p, |p| - 1, true);
      if end == -1 then (if p[0] == '/' then "/" else ".")
      else if p[0] == '/' && end == 1 then "//"
      else p[..end]
  }

  /** A path that does not end in `/` is split by its last `/` into the
      directory and the base name; `dirname` then gives the text before that
      `/` (`"/"` or `"//"` when only the root precedes it), and directory,
      `/` and base name put back together give the path. */
  lemma DirnameBasename(p: string, i: nat)
    requires |p| > 0 && p[|p| - 1] != '/'
    requires i < |p| && p[i] == '/'
    requires forall k :: i < k < |p| ==> p[k] != '/'
    ensures Basename(p) == p[i + 1..]
    ensures i == 0 ==> Dirname(p) == "/"
    ensures i == 1 && p[0] == '/' ==> Dirname(p) == "//"
    ensures i > 0 && !(i == 1 && p[0] == '/') ==> Dirname(p) == p[..i] && Dirname(p) + "/" + Basename(p) == p
  {
    assert DropTrailingSlashes(p) == p;
    LastIndexOfLast(p, '/');
    if i == 0 {
      DirnameEndNone(p, |p| - 2);
    } else {
      DirnameEndFinds(p, |p| - 2, i);
      assert p[..i] + "/" + p[i + 1..] == p;
    }
  }

  /** A path without `/` is its own base name, in the directory ".". */
  lemma DirnameNoSlash(p: string)
    requires forall k :: 0 <= k < |p| ==> p[k] != '/'
    ensures Basename(p) == p
    ensures Dirname(p) == "."
  {
    LastIndexOfLast(p, '/');
    if |p| > 0 {
      assert DropTrailingSlashes(p) == p;
      DirnameEndNone(p, |p| - 2);
    }
  }

  /** Scanning back from `j` past characters other than `/` reaches the `/`
      at `i`. */
  lemma {:induction false} DirnameEndFinds(p: string, j: int, i: nat)
    requires 1 <= i <= j < |p| && p[i] == '/'
    requires forall k :: i < k <= j ==> p[k] != '/'
    ensures DirnameEnd(p, j, false) == i
    decreases j
  {
    if j > i {
      DirnameEndFinds(p, j - 1, i);
    }
  }

  /** Scanning back from `j` without meeting a `/` at index 1 or above finds
      nothing. */
  lemma {:induction false} DirnameEndNone(p: string, j: int)
    requires j < |p|
    requires forall k :: 1 <= k <= j ==> p[k] != '/'
    ensures DirnameEnd(p, j, false) == -1
    decreases j
  {
    if j >= 1 {
      DirnameEndNone(p, j - 1);
    }
  }

  // ---------------------------------------------------------------------------
  // Segments, `path.normalize` and `path.join`
  // ---------------------------------------------------------------------------

  /** `s.split("/")`: the pieces between the separators, at least one. */
  function Split(s: string): (r: seq<string>)
    ensures |r| > 0
    decreases |s|
  {
    if |s| == 0 then [""]
    else
      var rest := Split(s[1..]);
      if s[0] == '/' then [""] + rest else [[s[0]] + rest[0]] + rest[1..]
  }

  /** No piece of a split holds a `/`. */
  lemma {:induction false} SplitPiecesHaveNoSlash(s: string)
    ensures forall i :: 0 <= i < |Split(s)| ==> '/' !in Split(s)[i]
    decreases |s|
  {
    if |s| > 0 {
      SplitPiecesHaveNoSlash(s[1..]);
    }
  }

  /** `segs.join("/")`. */
  function JoinSegments(segs: seq<string>): (r: string)
    ensures |segs| > 0 && segs[0] != "" ==> r != ""
    decreases |segs|
  {
    if |segs| == 0 then ""
    else if |segs| == 1 then segs[0]
    else segs[0] + "/" + JoinSegments(segs[1..])
  }

  /** Joining the pieces of a split with `/` gives the text back. */
  lemma {:induction false} JoinSplit(s: string)
    ensures JoinSegments(Split(s)) == s
    decreases |s|
  {
    if |s| > 0 {
      var c, t := s[0], s[1..];
      var x := Split(t);
      JoinSplit(t);
      assert s == [c] + t;
      if c == '/' {
        SplitConsSlash(t);
        assert ([""] + x)[1..] == x;
        assert JoinSegments([""] + x) == "" + "/" + JoinSegments(x);
      } else if |x| == 1 {
        SplitConsChar(c, t);
        assert JoinSegments([[c] + x[0]]) == [c] + x[0];
      } else {
        SplitConsChar(c, t);
        var r := [[c] + x[0]] + x[1..];
        assert r[1..] == x[1..];
        assert JoinSegments(r) == ([c] + x[0]) + "/" + JoinSegments(x[1..]);
        assert JoinSegments(x) == x[0] + "/" + JoinSegments(x[1..]);
        ConcatAssoc([c], x[0], "/" + JoinSegments(x[1..]));
        ConcatAssoc([c] + x[0], "/", JoinSegments(x[1..]));
        ConcatAssoc(x[0], "/", JoinSegments(x[1..]));
      }
    }
  }

  /** Text without `/` is a single piece. */
  lemma {:induction false} SplitWithoutSlash(s: string)
    requires '/' !in s
    ensures Split(s) == [s]
    decreases |s|
  {
    if |s| > 0 {
      assert '/' !in s[1..];
      SplitWithoutSlash(s[1..]);
      assert s == [s[0]] + s[1..];
    }
  }

  /** Splitting at a `/` splits each side. */
  lemma {:induction false} SplitAround(a: string, b: string)
    ensures Split(a + "/" + b) == Split(a) + Split(b)
    decreases |a|, 1
  {
    if |a| == 0 {
      assert a + "/" + b == ['/'] + b;
      SplitConsSlash(b);
    } else if a[0] == '/' {
      SplitAroundSlash(a, b);
    } else {
      SplitAroundChar(a, b);
    }
  }

  lemma {:induction false} SplitAroundSlash(a: string, b: string)
    requires |a| > 0 && a[0] == '/'
    ensures Split(a + "/" + b) == Split(a) + Split(b)
    decreases |a|, 0
  {
    var a' := a[1..];
    SplitAround(a', b);
    var x, y := Split(a'), Split(b);
    assert a + "/" + b == ['/'] + (a' + "/" + b);
    SplitConsSlash(a' + "/" + b);
    assert a == ['/'] + a';
    SplitConsSlash(a');
    ConcatAssoc([""], x, y);
  }

  lemma {:induction false} SplitAroundChar(a: string, b: string)
    requires |a| > 0 && a[0] != '/'
    ensures Split(a + "/" + b) == Split(a) + Split(b)
    decreases |a|, 0
  {
    var c, a' := a[0], a[1..];
    SplitAround(a', b);
    var x, y := Split(a'), Split(b);
    assert a + "/" + b == [c] + (a' + "/" + b);
    SplitConsChar(c, a' + "/" + b);
    assert a == [c] + a';
    SplitConsChar(c, a');
    assert (x + y)[0] == x[0];
    assert (x + y)[1..] == x[1..] + y;
    ConcatAssoc([[c] + x[0]], x[1..], y);
  }

  lemma ConcatAssoc<T>(a: seq<T>, b: seq<T>, c: seq<T>)
    ensures (a + b) + c == a + (b + c)
  {
  }

  /** A `/` in front starts a new, empty first piece. */
  lemma SplitConsSlash(t: string)
    ensures Split(['/'] + t) == [""] + Split(t)
  {
    assert (['/'] + t)[1..] == t;
  }

  /** Another character in front extends the first piece. */
  lemma SplitConsChar(c: char, t: string)
    requires c != '/'
    ensures Split([c] + t) == [[c] + Split(t)[0]] + Split(t)[1..]
  {
    assert ([c] + t)[1..] == t;
  }

  /** Splitting the join of segments free of `/` gives them back. */
  lemma {:induction false} SplitJoin(segs: seq<string>)
    requires |segs| > 0
    requires forall i :: 0 <= i < |segs| ==> '/' !in segs[i]
    ensures Split(JoinSegments(segs)) == segs
    decreases |segs|
  {
    SplitWithoutSlash(segs[0]);
    if |segs| > 1 {
      SplitAround(segs[0], JoinSegments(segs[1..]));
      SplitJoin(segs[1..]);
      assert segs == [segs[0]] + segs[1..];
    }
  }

  /** A segment that names a directory entry: not empty, `.` or `..`. */
  predicate Named(seg: string) {
    seg != "" && seg != "." && seg != ".."
  }

  /** The named segments of `segs`, in order. */
  function NamedSegments(segs: seq<string>): seq<string>
    decreases |segs|
  {
    if |segs| == 0 then []
    else (if Named(segs[0]) then [segs[0]] else []) + NamedSegments(segs[1..])
  }

  lemma {:induction false} NamedSegmentsConcat(a: seq<string>, b: seq<string>)
    ensures NamedSegments(a + b) == NamedSegments(a) + NamedSegments(b)
    decreases |a|
  {
    if |a| > 0 {
      assert (a + b)[1..] == a[1..] + b;
      NamedSegmentsConcat(a[1..], b);
    } else {
      assert a + b == b;
    }
  }

  lemma {:induction false} NamedSegmentsOfNamed(segs: seq<string>)
    requires forall i :: 0 <= i < |segs| ==> Named(segs[i])
    ensures NamedSegments(segs) == segs
    decreases |segs|
  {
    if |segs| > 0 {
      NamedSegmentsOfNamed(segs[1..]);
      assert segs == [segs[0]] + segs[1..];
    }
  }

  /** The segment loop of `normalizeString` in Node's `path` module, on a
      stack of kept segments: empty and `.` segments are dropped, a `..`
      cancels the segment before it, and a `..` with nothing to cancel is
      kept when `aboveRoot` allows it (a relative path) and dropped
      otherwise (an absolute one). */
  function Resolve(stack: seq<string>, segs: seq<string>, aboveRoot: bool): seq<string>
    decreases |segs|
  {
    if |segs| == 0 then stack
    else
      var seg := segs[0];
      var stack' :=
        if seg == "" || seg == "." then stack
        else if seg == ".." then
          (if |stack| > 0 && stack[|stack| - 1] != ".." then stack[..|stack| - 1]
           else if aboveRoot then stack + [".."]
           else stack)
        else stack + [seg];
      Resolve(stack', segs[1..], aboveRoot)
  }

  /** Resolving never puts an empty segment on the stack. */
  lemma {:induction false} ResolveKeepsNonEmpty(stack: seq<string>, segs: seq<string>, aboveRoot: bool)
    requires forall i :: 0 <= i < |stack| ==> stack[i] != ""
    ensures forall i :: 0 <= i < |Resolve(stack, segs, aboveRoot)| ==> Resolve(stack, segs, aboveRoot)[i] != ""
    decreases |segs|
  {
    if |segs| > 0 {
      var seg := segs[0];
      var stack' :=
        if seg == "" || seg == "." then stack
        else if seg == ".." then
          (if |stack| > 0 && stack[|stack| - 1] != ".." then stack[..|stack| - 1]
           else if aboveRoot then stack + [".."]
           else stack)
        else stack + [seg];
      ResolveKeepsNonEmpty(stack', segs[1..], aboveRoot);
    }
  }

  /** Without `..` segments, resolving keeps exactly the named segments. */
  lemma {:induction false} ResolveWithoutParent(stack: seq<string>, segs: seq<string>, aboveRoot: bool)
    requires ".." !in segs
    ensures Resolve(stack, segs, aboveRoot) == stack + NamedSegments(segs)
    decreases |segs|
  {
    if |segs| > 0 {
      assert ".." !in segs[1..];
      var seg := segs[0];
      var stack' := if Named(seg) then stack + [seg] else stack;
      ResolveWithoutParent(stack', segs[1..], aboveRoot);
    }
  }

  /** Node's posix `path.normalize(p)`: runs of `/` become one, `.` segments
      go, each `..` removes the segment before it, and a trailing `/` is
      kept; an absolute path stays absolute and "" becomes ".". */
  function Normalize(p: string): (r: string)
    ensures r != ""
    ensures |p| > 0 && p[0] == '/' ==> r[0] == '/'
  {
    if p == "" then "."
    else
      var absolute := p[0] == '/';
      var trailing := p[|p| - 1] == '/';
      var segs := Resolve([], Split(p), !absolute);
      ResolveKeepsNonEmpty([], Split(p), !absolute);
      if segs == [] then (if absolute then "/" else if trailing then "./" else ".")
      else (if absolute then "/" else "") + JoinSegments(segs) + (if trailing then "/" else "")
  }

  /** Node's posix `path.join(a, b)`, which is also the path that
      `vscode.Uri.joinPath` gives a `file:` URI: the non-empty arguments
      joined with `/`, then normalised. */
  function PathJoin(a: string, b: string): (r: string)
    ensures r != ""
    ensures |a| > 0 && a[0] == '/' ==> r[0] == '/'
  {
    Normalize(if a == "" then b else if b == "" then a else a + "/" + b)
  }

  /** An absolute path in normal form: `/` and named segments, with no
      trailing `/`. */
  predicate NormalAbsolute(p: string) {
    |p| > 1 && p[0] == '/' && p[|p| - 1] != '/'
    && forall i :: 0 <= i < |Split(p[1..])| ==> Named(Split(p[1..])[i])
  }

  /** Joined to a root in normal form, a relative path without `..` segments
      stays under the root: its named segments follow the root, each after
      one `/`, and a trailing `/` is kept. */
  lemma JoinBelowRoot(root: string, rel: string)
    requires NormalAbsolute(root)
    requires ".." !in Split(rel)
    ensures var named := NamedSegments(Split(rel));
      PathJoin(root, rel)
      == root + (if named == [] then "" else "/" + JoinSegments(named))
              + (if rel != "" && rel[|rel| - 1] == '/' then "/" else "")
  {
    var rs := Split(root[1..]);
    var named := NamedSegments(Split(rel));
    RootSegments(root);
    if rel == "" {
      ResolveWithoutParent([], Split(root), false);
      NormalizeAbsolute(root, rs);
      assert PathJoin(root, rel) == root + "" + "";
    } else {
      JoinedSegments(root, rel);
      JoinAbsolute(root, rel, rs + named);
      JoinAfterRoot(root, rs, named);
    }
  }

  /** The segments a root in normal form and a relative path without `..`
      resolve to. */
  lemma JoinedSegments(root: string, rel: string)
    requires NormalAbsolute(root)
    requires ".." !in Split(rel)
    ensures Resolve([], Split(root + "/" + rel), false) == Split(root[1..]) + NamedSegments(Split(rel))
  {
    RootSegments(root);
    SplitAround(root, rel);
    assert ".." !in Split(root) + Split(rel);
    ResolveWithoutParent([], Split(root) + Split(rel), false);
    NamedSegmentsConcat(Split(root), Split(rel));
  }

  /** Joining more segments after those of a root. */
  lemma JoinAfterRoot(root: string, rs: seq<string>, named: seq<string>)
    requires |rs| > 0 && "/" + JoinSegments(rs) == root
    ensures "/" + JoinSegments(rs + named) == root + (if named == [] then "" else "/" + JoinSegments(named))
  {
    if named != [] {
      var jr, jn := JoinSegments(rs), JoinSegments(named);
      JoinSegmentsConcat(rs, named);
      ConcatAssoc(jr, "/", jn);
      ConcatAssoc("/", jr, "/" + jn);
    } else {
      assert rs + named == rs;
    }
  }

  /** A root in normal form splits into an empty piece and its named
      segments, which join back to it after the leading `/`. */
  lemma RootSegments(root: string)
    requires NormalAbsolute(root)
    ensures Split(root) == [""] + Split(root[1..])
    ensures NamedSegments(Split(root)) == Split(root[1..])
    ensures ".." !in Split(root)
    ensures "/" + JoinSegments(Split(root[1..])) == root
  {
    var rs := Split(root[1..]);
    assert root == "" + "/" + root[1..];
    SplitAround("", root[1..]);
    JoinSplit(root[1..]);
    NamedAfterEmpty(rs);
  }

  /** An empty piece in front of named segments is dropped. */
  lemma NamedAfterEmpty(rs: seq<string>)
    requires forall i :: 0 <= i < |rs| ==> Named(rs[i])
    ensures NamedSegments([""] + rs) == rs
    ensures ".." !in [""] + rs
  {
    NamedSegmentsOfNamed(rs);
    NamedSegmentsConcat([""], rs);
    assert NamedSegments([""]) == [];
  }

  /** Joining a relative path to an absolute one whose segments together
      resolve to `segs`. */
  lemma JoinAbsolute(root: string, rel: string, segs: seq<string>)
    requires |root| > 0 && root[0] == '/' && rel != ""
    requires Resolve([], Split(root + "/" + rel), false) == segs && segs != []
    ensures PathJoin(root, rel) == "/" + JoinSegments(segs) + (if rel[|rel| - 1] == '/' then "/" else "")
  {
    var j := root + "/" + rel;
    assert j[0] == '/' && j[|j| - 1] == rel[|rel| - 1];
    NormalizeAbsolute(j, segs);
  }

  /** Normalising an absolute path whose segments resolve to `segs`. */
  lemma NormalizeAbsolute(p: string, segs: seq<string>)
    requires |p| > 0 && p[0] == '/'
    requires Resolve([], Split(p), false) == segs && segs != []
    ensures Normalize(p) == "/" + JoinSegments(segs) + (if p[|p| - 1] == '/' then "/" else "")
  {
  }

  lemma {:induction false} JoinSegmentsConcat(a: seq<string>, b: seq<string>)
    requires |a| > 0 && |b| > 0
    ensures JoinSegments(a + b) == JoinSegments(a) + "/" + JoinSegments(b)
    decreases |a|
  {
    if |a| == 1 {
      assert (a + b)[1..] == b;
    } else {
      assert (a + b)[1..] == a[1..] + b;
      JoinSegmentsConcat(a[1..], b);
    }
  }

  /** Resolving two runs of segments one after the other. */
  lemma {:induction false} ResolveConcat(stack: seq<string>, a: seq<string>, b: seq<string>, aboveRoot: bool)
    ensures Resolve(stack, a + b, aboveRoot) == Resolve(Resolve(stack, a, aboveRoot), b, aboveRoot)
    decreases |a|
  {
    if |a| == 0 {
      assert a + b == b;
    } else {
      assert (a + b)[0] == a[0];
      assert (a + b)[1..] == a[1..] + b;
      var seg := a[0];
      var stack' :=
        if seg == "" || seg == "." then stack
        else if seg == ".." then
          (if |stack| > 0 && stack[|stack| - 1] != ".." then stack[..|stack| - 1]
           else if aboveRoot then stack + [".."]
           else stack)
        else stack + [seg];
      ResolveConcat(stack', a[1..], b, aboveRoot);
    }
  }

  /** A `..` segment climbs out of the root: joining `"../" + name` to a
      root in normal form replaces the root's last segment by `name`, and
      the result is not under the root. */
  lemma ParentLeavesRoot(root: string, name: string)
    requires NormalAbsolute(root)
    requires Named(name) && '/' !in name
    ensures var rs := Split(root[1..]);
      PathJoin(root, "../" + name) == "/" + JoinSegments(rs[..|rs| - 1] + [name])
    ensures !StartsWith(PathJoin(root, "../" + name), root + "/")
  {
    var rs := Split(root[1..]);
    var init, last := rs[..|rs| - 1], rs[|rs| - 1];
    ParentSplit(root, name);
    ResolveParent(rs, name);
    JoinAbsolute(root, "../" + name, init + [name]);
    RootSegments(root);
    JoinReplacingLast(rs, name);
    var pre := if |init| == 0 then "/" else "/" + JoinSegments(init) + "/";
    SiblingNotUnder(pre, last, name);
  }

  /** The pieces of a root in normal form followed by `..` and `name`. */
  lemma ParentSplit(root: string, name: string)
    requires NormalAbsolute(root)
    requires '/' !in name
    ensures Split(root + "/" + ("../" + name)) == ([""] + Split(root[1..])) + ["..", name]
  {
    var rel := "../" + name;
    RootSegments(root);
    assert rel == ".." + "/" + name;
    SplitAround("..", name);
    SplitWithoutSlash("..");
    SplitWithoutSlash(name);
    SplitAround(root, rel);
  }

  /** Resolving named segments, then `..` and `name`, replaces the last
      segment by `name`. */
  lemma ResolveParent(rs: seq<string>, name: string)
    requires |rs| > 0 && forall i :: 0 <= i < |rs| ==> Named(rs[i])
    requires Named(name)
    ensures Resolve([], ([""] + rs) + ["..", name], false) == rs[..|rs| - 1] + [name]
  {
    ResolveConcat([], [""] + rs, ["..", name], false);
    NamedAfterEmpty(rs);
    ResolveWithoutParent([], [""] + rs, false);
    assert [] + NamedSegments([""] + rs) == rs;
    ResolveParentThenNamed(rs, name);
  }

  /** On a stack of named segments, `..` and then `name` replace the top. */
  lemma ResolveParentThenNamed(rs: seq<string>, name: string)
    requires |rs| > 0 && Named(rs[|rs| - 1]) && Named(name)
    ensures Resolve(rs, ["..", name], false) == rs[..|rs| - 1] + [name]
  {
    assert ["..", name] == [".."] + [name];
    ResolveParentStep(rs, [name], false);
    ResolveNamedStep(rs[..|rs| - 1], name, [], false);
    assert [name] == [name] + [];
  }

  /** A `..` cancels the named segment on top of the stack. */
  lemma ResolveParentStep(stack: seq<string>, rest: seq<string>, aboveRoot: bool)
    requires |stack| > 0 && stack[|stack| - 1] != ".."
    ensures Resolve(stack, [".."] + rest, aboveRoot) == Resolve(stack[..|stack| - 1], rest, aboveRoot)
  {
    assert ([".."] + rest)[1..] == rest;
  }

  /** A named segment is pushed on the stack. */
  lemma ResolveNamedStep(stack: seq<string>, seg: string, rest: seq<string>, aboveRoot: bool)
    requires Named(seg)
    ensures Resolve(stack, [seg] + rest, aboveRoot) == Resolve(stack + [seg], rest, aboveRoot)
  {
    assert ([seg] + rest)[1..] == rest;
  }

  /** Joining segments with their last one replaced keeps the text before
      the last segment. */
  lemma JoinReplacingLast(rs: seq<string>, name: string)
    requires |rs| > 0
    ensures var init := rs[..|rs| - 1];
      var pre := if |init| == 0 then "/" else "/" + JoinSegments(init) + "/";
      "/" + JoinSegments(rs) == pre + rs[|rs| - 1]
      && "/" + JoinSegments(init + [name]) == pre + name
  {
    var init, last := rs[..|rs| - 1], rs[|rs| - 1];
    assert rs == init + [last];
    if |init| > 0 {
      JoinSegmentsConcat(init, [last]);
      JoinSegmentsConcat(init, [name]);
    } else {
      assert init + [name] == [name];
    }
  }

  /** A path that ends in another segment after the same prefix is not
      under `pre + last`. */
  lemma SiblingNotUnder(pre: string, last: string, name: string)
    requires '/' !in name
    ensures !StartsWith(pre + name, pre + last + "/")
  {
    var k := |pre| + |last|;
    if k < |pre + name| {
      assert (pre + name)[k] == name[|last|];
      assert (pre + last + "/")[k] == '/';
    }
  }
}
