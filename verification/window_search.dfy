/** The windowed pattern search of `extract_relevant_data`: the first line
    the pattern matches picks a slice of the surrounding lines, which are
    joined back together. The file arrives as its lines with their
    terminators (what `readlines` gives); the compiled regular expression is
    the predicate `matches`. */
module WindowSearch {
  import opened Wrappers
  import opened Strings

  /** The string returned when no line matches. */
  const NotFoundMessage := "Relevant data segment not found."

  datatype SearchResult = Found(text: string) | NotFound

  /** The string the Python function returns for a result. */
  function Render(r: SearchResult): string
  {
    match r
    case Found(text) => text
    case NotFound => NotFoundMessage
  }

  /** `i` is the index of the first line the pattern matches. */
  predicate IsFirstMatch(lines: seq<string>, matches: string -> bool, i: int)
  {
    0 <= i < |lines| && matches(lines[i]) && forall j :: 0 <= j < i ==> !matches(lines[j])
  }

  /** Python's normalisation of a slice bound against a length `n`:
      a negative bound counts from the end, and the result is clipped to
      `0..n`. */
  function SliceBound(b: int, n: nat): (r: nat)
    ensures r <= n
    ensures 0 <= b <= n ==> r == b
    ensures b > n ==> r == n
    ensures b < 0 ==> r == if b + n < 0 then 0 else b + n
  {
    if b < 0 then (if b + n < 0 then 0 else b + n)
    else if b > n then n
    else b
  }

  /** Python's `s[lo:hi]`, for any integers `lo` and `hi`. */
  function PySlice<T>(s: seq<T>, lo: int, hi: int): (r: seq<T>)
    ensures |r| <= |s|
    ensures 0 <= lo <= |s| && lo <= hi ==> r == s[lo..if hi <= |s| then hi else |s|]
    ensures 0 <= hi <= lo ==> r == []
  {
    var a := SliceBound(lo, |s|);
    var b := SliceBound(hi, |s|);
    if a < b then s[a..b] else []
  }

  /** The first matching index at or after `from`, scanning in order. */
  function FirstMatchFrom(lines: seq<string>, matches: string -> bool, from: nat): (r: Option<nat>)
    decreases |lines| - from
    ensures r.Some? ==> from <= r.value < |lines| && matches(lines[r.value])
    ensures r.Some? ==> forall j :: from <= j < r.value ==> !matches(lines[j])
    ensures r.None? ==> forall j :: from <= j < |lines| ==> !matches(lines[j])
  {
    if from >= |lines| then None
    else if matches(lines[from]) then Some(from)
    else FirstMatchFrom(lines, matches, from + 1)
  }

  /** The search: `lines[max(i - before, 0) : i + after]` joined, for the
      first matching index `i`; otherwise the sentinel. */
  function Search(lines: seq<string>, matches: string -> bool, before: int, after: int): (r: SearchResult)
    ensures r.NotFound? <==> forall j :: 0 <= j < |lines| ==> !matches(lines[j])
    ensures r.Found? ==> exists i :: IsFirstMatch(lines, matches, i)
                                && r.text == Concat(PySlice(lines, if i - before < 0 then 0 else i - before, i + after))
  {
    match FirstMatchFrom(lines, matches, 0)
    case None => NotFound
    case Some(i) =>
      assert IsFirstMatch(lines, matches, i);
      var start := if i - before < 0 then 0 else i - before;
      Found(Concat(PySlice(lines, start, i + after)))
  }

  /** The loop of `extract_relevant_data`, over the lines already read. */
  method ExtractRelevantData(lines: seq<string>, matches: string -> bool, before: int, after: int)
    returns (r: string)
    ensures r == Render(Search(lines, matches, before, after))
  {
    var i := 0;
    while i < |lines|
      invariant 0 <= i <= |lines|
      invariant forall j :: 0 <= j < i ==> !matches(lines[j])
    {
      if matches(lines[i]) {
        assert IsFirstMatch(lines, matches, i);
        FirstMatchIsUnique(lines, matches, i);
        var startIndex := if i - before < 0 then 0 else i - before;
        var endIndex := i + after;
        return Concat(PySlice(lines, startIndex, endIndex));
      }
      i := i + 1;
    }
    return NotFoundMessage;
  }

  // ---------------------------------------------------------------------
  // Properties of the search

  lemma FirstMatchIsUnique(lines: seq<string>, matches: string -> bool, i: int)
    requires IsFirstMatch(lines, matches, i)
    ensures FirstMatchFrom(lines, matches, 0) == Some(i)
  {
  }

  /** With non-negative context sizes the result is exactly the lines
      `max(i - before, 0)` up to, not including, `min(i + after, N)`. */
  lemma FoundWindow(lines: seq<string>, matches: string -> bool, before: nat, after: nat, i: int)
    requires IsFirstMatch(lines, matches, i)
    ensures var lo := if i - before < 0 then 0 else i - before;
            var hi := if i + after < |lines| then i + after else |lines|;
            Search(lines, matches, before, after) == Found(Concat(lines[lo..hi]))
  {
    FirstMatchIsUnique(lines, matches, i);
    var lo := if i - before < 0 then 0 else i - before;
    var hi := if i + after < |lines| then i + after else |lines|;
    assert Search(lines, matches, before, after) == Found(Concat(PySlice(lines, lo, i + after)));
    assert PySlice(lines, lo, i + after) == lines[lo..hi];
  }

  /** The window starts at line 0 when the match is closer to the top than
      `before`: no negative index is ever used. */
  lemma WindowClippedAtTop(lines: seq<string>, matches: string -> bool, before: nat, after: nat, i: int)
    requires IsFirstMatch(lines, matches, i)
    requires i <= before
    ensures var hi := if i + after < |lines| then i + after else |lines|;
            Search(lines, matches, before, after) == Found(Concat(lines[..hi]))
  {
    FoundWindow(lines, matches, before, after, i);
  }

  /** The window is end-exclusive: with `after == 0` the matched line is left
      out, with `after >= 1` it is the window's line `i - lo`, and the window
      never holds more than `before + after` lines. */
  lemma WindowShape(lines: seq<string>, before: nat, after: nat, i: int)
    requires 0 <= i < |lines|
    ensures var lo := if i - before < 0 then 0 else i - before;
            var w := PySlice(lines, lo, i + after);
            && |w| <= before + after
            && (after == 0 ==> w == lines[lo..i])
            && (after >= 1 ==> i - lo < |w| && w[i - lo] == lines[i])
  {
  }

  /** When nothing matches the caller sees exactly the sentinel text. */
  lemma NotFoundIsSentinel(lines: seq<string>, matches: string -> bool, before: int, after: int)
    requires forall j :: 0 <= j < |lines| ==> !matches(lines[j])
    ensures Render(Search(lines, matches, before, after)) == "Relevant data segment not found."
  {
  }

  /** The two-line example: a match on line 0 with one line of context on
      each side gives only the matched line, because the slice end
      `0 + 1` excludes line 1. */
  lemma AmericasExample()
    ensures var lines := ["Americas\t$10\n", "Europe\t$5\n"];
            var matches := (l: string) => |l| >= 8 && l[..8] == "Americas";
            Search(lines, matches, 1, 1) == Found("Americas\t$10\n")
  {
    var lines := ["Americas\t$10\n", "Europe\t$5\n"];
    var matches := (l: string) => |l| >= 8 && l[..8] == "Americas";
    assert IsFirstMatch(lines, matches, 0);
    FoundWindow(lines, matches, 1, 1, 0);
    assert lines[0..1] == ["Americas\t$10\n"];
  }
}
