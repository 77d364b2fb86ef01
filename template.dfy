/**
 * The template engine of src/webhandler.cpp: `%name%` placeholders inside a static page are
 * replaced while the page is streamed to the client in windows of at most `max_len` bytes.
 *
 * `SubstituteFrom` is the meaning of a template. The pre-pass (`DeclaredLength`) announces the
 * length of that text before streaming starts, and `ReplacingFiller.Fill` produces it window by
 * window, keeping only the `offset` between output and source positions between calls.
 */
module Template {
  import opened Common
  import Utils

  const TEMPLATE_CHAR: char := '%'

  predicate NoMarker(s: string, a: nat, b: nat)
    requires a <= b <= |s|
  {
    forall k :: a <= k < b ==> s[k] != TEMPLATE_CHAR
  }

  /** memchr(s + from, TEMPLATE_CHAR, |s| - from): the first marker at or after `from`. */
  function FindMarker(s: string, from: nat): (r: Option<nat>)
    requires from <= |s|
    ensures r.Some? ==> from <= r.value < |s| && s[r.value] == TEMPLATE_CHAR
    decreases |s| - from
  {
    if from == |s| then None
    else if s[from] == TEMPLATE_CHAR then Some(from)
    else FindMarker(s, from + 1)
  }

  /** memchr finds the FIRST marker: none lies between `from` and the one it reports. */
  lemma {:induction false} FindMarkerGap(s: string, from: nat)
    requires from <= |s|
    ensures FindMarker(s, from).Some? ==> NoMarker(s, from, FindMarker(s, from).value)
    ensures FindMarker(s, from).None? ==> NoMarker(s, from, |s|)
    decreases |s| - from
  {
    if from < |s| && s[from] != TEMPLATE_CHAR {
      FindMarkerGap(s, from + 1);
    }
  }

  lemma {:induction false} FindMarkerSkip(s: string, a: nat, b: nat)
    requires a <= b <= |s| && NoMarker(s, a, b)
    ensures FindMarker(s, a) == FindMarker(s, b)
    decreases b - a
  {
    if a < b {
      FindMarkerSkip(s, a + 1, b);
    }
  }

  /** The closing marker of the placeholder that opens at `p`, when `s[p]` is a marker that has one. */
  function ClosingAt(s: string, p: nat): (r: Option<nat>)
    requires p < |s|
    ensures r.Some? ==> p < r.value < |s| && s[r.value] == TEMPLATE_CHAR
  {
    if s[p] == TEMPLATE_CHAR then FindMarker(s, p + 1) else None
  }

  /**
   * The name between the markers at `i` and `j`. Every page handed to the template engine ends
   * at its first NUL (`page + strlen(page)`), so the bytes between two markers are exactly what
   * String((char*)buf) reads from their zero-terminated copy (see `NameIsCString`).
   */
  function PlaceholderName(s: string, i: nat, j: nat): string
    requires i < j <= |s|
  {
    s[i + 1..j]
  }

  lemma NameIsCString(s: string, i: nat, j: nat)
    requires i < j <= |s| && NulFree(s)
    ensures Utils.CStr(s[i + 1..j]) == PlaceholderName(s, i, j)
  {
    assert NulFree(s[i + 1..j]);
    Utils.CStrOfNulFree(s[i + 1..j]);
  }

  /** The text a placeholder stands for: its mapped value, or its own name when it is not mapped. */
  function Replacement(replacements: map<string, string>, name: string): string {
    if name in replacements then replacements[name] else name
  }

  /**
   * The expansion of `s[p..]`, read from a position outside every placeholder: each `%name%`
   * is replaced, every other character (an unpaired marker included) is kept.
   */
  function SubstituteFrom(s: string, replacements: map<string, string>, p: nat): string
    requires p <= |s|
    decreases |s| - p
  {
    if p == |s| then []
    else match ClosingAt(s, p)
      case Some(j) => Replacement(replacements, PlaceholderName(s, p, j)) + SubstituteFrom(s, replacements, j + 1)
      case None => [s[p]] + SubstituteFrom(s, replacements, p + 1)
  }

  function Substitute(s: string, replacements: map<string, string>): string {
    SubstituteFrom(s, replacements, 0)
  }

  /**
   * The length change the pre-pass accumulates over the placeholders of `s[p..]`: the mapped
   * value's length minus the placeholder's for a known name, -2 for an unknown one.
   */
  function LenDiffFrom(s: string, replacements: map<string, string>, p: nat): int
    requires p <= |s|
    decreases |s| - p
  {
    if p == |s| then 0
    else match ClosingAt(s, p)
      case Some(j) => PlaceholderLenDiff(s, replacements, p, j) + LenDiffFrom(s, replacements, j + 1)
      case None => LenDiffFrom(s, replacements, p + 1)
  }

  /** What one placeholder adds to the length: its value's length minus its own for a known name, -2 otherwise. */
  function PlaceholderLenDiff(s: string, replacements: map<string, string>, i: nat, j: nat): int
    requires i < j <= |s|
  {
    var name := PlaceholderName(s, i, j);
    if name in replacements then |replacements[name]| - (j - i + 1) else -2
  }

  /** The longest text any placeholder of `s[p..]` expands to. */
  function LongestFrom(s: string, replacements: map<string, string>, p: nat): nat
    requires p <= |s|
    decreases |s| - p
  {
    if p == |s| then 0
    else match ClosingAt(s, p)
      case Some(j) => Max(|Replacement(replacements, PlaceholderName(s, p, j))|, LongestFrom(s, replacements, j + 1))
      case None => LongestFrom(s, replacements, p + 1)
  }

  /** The number of markers in `s[..p]`. */
  function MarkersBefore(s: string, p: nat): nat
    requires p <= |s|
  {
    if p == 0 then 0 else MarkersBefore(s, p - 1) + (if s[p - 1] == TEMPLATE_CHAR then 1 else 0)
  }

  /** Position `p` lies outside every placeholder: an even number of markers precede it. */
  predicate Boundary(s: string, p: nat)
    requires p <= |s|
  {
    MarkersBefore(s, p) % 2 == 0
  }

  /** Every marker of `s` has a partner: `s` holds an even number of them. */
  predicate AllPaired(s: string) {
    Boundary(s, |s|)
  }

  /** `s` zero-padded, or cut, to exactly `n` characters: what one window of the response carries. */
  function Pad(s: string, n: nat): (r: string)
    ensures |r| == n
    ensures n <= |s| ==> r == s[..n]
    ensures n > |s| ==> r[..|s|] == s && forall k :: |s| <= k < n ==> r[k] == NUL
  {
    if n <= |s| then s[..n] else s + seq(n - |s|, _ => NUL)
  }

  lemma Assoc4(a: string, b: string, c: string, d: string)
    ensures a + (b + (c + d)) == ((a + b) + c) + d
  {
    Assoc(a, b, c + d);
    Assoc(a + b, c, d);
  }

  lemma SplitAt(x: string, a: string, b: string)
    requires x == a + b
    ensures x[..|a|] == a && x[|a|..] == b
  {
  }

  lemma DropDrop(x: string, i: nat, j: nat)
    requires i + j <= |x|
    ensures x[i..][j..] == x[i + j..]
  {
  }

  // ----- lemmas about markers and boundaries -----

  lemma {:induction false} MarkersSpan(s: string, a: nat, b: nat)
    requires a <= b <= |s|
    requires NoMarker(s, a, b)
    ensures MarkersBefore(s, b) == MarkersBefore(s, a)
    decreases b - a
  {
    if a < b {
      MarkersSpan(s, a, b - 1);
    }
  }

  lemma BoundaryAtMarker(s: string, p: nat)
    requires p <= |s| && Boundary(s, p)
    ensures var f := FindMarker(s, p); f.Some? ==> Boundary(s, f.value)
  {
    FindMarkerGap(s, p);
    var f := FindMarker(s, p);
    if f.Some? {
      MarkersSpan(s, p, f.value);
    }
  }

  /** A marker that opens a placeholder before a later boundary `q` is closed before `q`. */
  lemma ClosedBefore(s: string, i: nat, q: nat)
    requires i < q <= |s| && s[i] == TEMPLATE_CHAR && Boundary(s, i) && Boundary(s, q)
    ensures FindMarker(s, i + 1).Some? && FindMarker(s, i + 1).value < q
  {
    FindMarkerGap(s, i + 1);
    var f := FindMarker(s, i + 1);
    if f.None? || q <= f.value {
      MarkersSpan(s, i + 1, q);
    }
  }

  /** In a template whose markers are paired, a marker on a boundary opens a placeholder that closes. */
  lemma ClosingMarker(s: string, i: nat)
    requires AllPaired(s)
    requires i < |s| && s[i] == TEMPLATE_CHAR && Boundary(s, i)
    ensures FindMarker(s, i + 1).Some?
  {
    ClosedBefore(s, i, |s|);
  }

  /** The position after a placeholder is again a boundary. */
  lemma BoundaryAfterPlaceholder(s: string, i: nat, j: nat)
    requires i < |s| && s[i] == TEMPLATE_CHAR && Boundary(s, i)
    requires FindMarker(s, i + 1) == Some(j)
    ensures Boundary(s, j + 1)
  {
    FindMarkerGap(s, i + 1);
    MarkersSpan(s, i + 1, j);
  }

  /** A character that is not a marker keeps the position after it a boundary. */
  lemma BoundaryAfterText(s: string, p: nat)
    requires p < |s| && s[p] != TEMPLATE_CHAR && Boundary(s, p)
    ensures Boundary(s, p + 1)
  {
    MarkersSpan(s, p, p + 1);
  }

  // ----- how substitution, the pre-pass and the longest replacement read plain text -----

  /** Text without markers is copied verbatim and changes neither the length count nor the longest replacement. */
  lemma {:induction false} VerbatimPrefix(s: string, replacements: map<string, string>, a: nat, b: nat)
    requires a <= b <= |s| && NoMarker(s, a, b)
    ensures SubstituteFrom(s, replacements, a) == s[a..b] + SubstituteFrom(s, replacements, b)
    ensures LenDiffFrom(s, replacements, a) == LenDiffFrom(s, replacements, b)
    ensures LongestFrom(s, replacements, a) == LongestFrom(s, replacements, b)
    decreases b - a
  {
    if a < b {
      assert ClosingAt(s, a) == None;
      VerbatimPrefix(s, replacements, a + 1, b);
      assert s[a..b] == [s[a]] + s[a + 1..b];
      Assoc([s[a]], s[a + 1..b], SubstituteFrom(s, replacements, b));
    }
  }

  /** A marker without partner, and everything after it, is copied verbatim. */
  lemma Unpaired(s: string, replacements: map<string, string>, i: nat)
    requires i < |s| && s[i] == TEMPLATE_CHAR && FindMarker(s, i + 1).None?
    ensures SubstituteFrom(s, replacements, i) == s[i..]
    ensures LenDiffFrom(s, replacements, i) == 0
    ensures LongestFrom(s, replacements, i) == 0
  {
    FindMarkerGap(s, i + 1);
    VerbatimPrefix(s, replacements, i + 1, |s|);
    assert s[i..] == [s[i]] + s[i + 1..|s|];
  }

  /** Everything from a position on is copied verbatim when no marker follows it. */
  lemma NoMarkerLeft(s: string, replacements: map<string, string>, p: nat)
    requires p <= |s| && FindMarker(s, p).None?
    ensures SubstituteFrom(s, replacements, p) == s[p..]
    ensures LenDiffFrom(s, replacements, p) == 0
  {
    FindMarkerGap(s, p);
    VerbatimPrefix(s, replacements, p, |s|);
  }


  /** The pre-pass's count is exact: it is what substitution adds to or removes from the page. */
  lemma {:induction false} LenDiffIsLengthChange(s: string, replacements: map<string, string>, p: nat)
    requires p <= |s|
    ensures |s| - p + LenDiffFrom(s, replacements, p) == |SubstituteFrom(s, replacements, p)|
    decreases |s| - p
  {
    if p < |s| {
      match ClosingAt(s, p) {
        case Some(j) =>
          assert |PlaceholderName(s, p, j)| == j - p - 1;
          LenDiffIsLengthChange(s, replacements, j + 1);
        case None =>
          LenDiffIsLengthChange(s, replacements, p + 1);
      }
    }
  }

  /** How the pre-pass's count reads from one marker to the next. */
  lemma LenDiffAhead(s: string, replacements: map<string, string>, p: nat)
    requires p <= |s| && FindMarker(s, p).Some?
    ensures var i := FindMarker(s, p).value;
      LenDiffFrom(s, replacements, p) == LenDiffFrom(s, replacements, i)
      && (FindMarker(s, i + 1).None? ==> LenDiffFrom(s, replacements, i) == 0)
      && (FindMarker(s, i + 1).Some? ==>
            LenDiffFrom(s, replacements, i)
            == PlaceholderLenDiff(s, replacements, i, FindMarker(s, i + 1).value)
               + LenDiffFrom(s, replacements, FindMarker(s, i + 1).value + 1))
  {
    var i := FindMarker(s, p).value;
    FindMarkerGap(s, p);
    VerbatimPrefix(s, replacements, p, i);
    if FindMarker(s, i + 1).None? {
      Unpaired(s, replacements, i);
    }
  }

  lemma {:induction false} LenDiffLowerBound(s: string, replacements: map<string, string>, p: nat)
    requires p <= |s|
    ensures LenDiffFrom(s, replacements, p) >= -(|s| - p)
    decreases |s| - p
  {
    if p < |s| {
      match ClosingAt(s, p) {
        case Some(j) => LenDiffLowerBound(s, replacements, j + 1);
        case None => LenDiffLowerBound(s, replacements, p + 1);
      }
    }
  }

  /** No placeholder met while expanding from a boundary is longer than the longest one from `a`. */
  lemma {:induction false} LongestFromBoundary(s: string, replacements: map<string, string>, a: nat, q: nat)
    requires a <= q <= |s| && Boundary(s, a) && Boundary(s, q)
    ensures LongestFrom(s, replacements, q) <= LongestFrom(s, replacements, a)
    decreases |s| - a
  {
    if a < q {
      if s[a] == TEMPLATE_CHAR {
        ClosedBefore(s, a, q);
        var j := FindMarker(s, a + 1).value;
        BoundaryAfterPlaceholder(s, a, j);
        LongestFromBoundary(s, replacements, j + 1, q);
      } else {
        BoundaryAfterText(s, a);
        LongestFromBoundary(s, replacements, a + 1, q);
      }
    }
  }

  /** The placeholder starting at a boundary `p` expands to at most LongestFrom(s, ., 0) characters. */
  lemma PlaceholderWithinLongest(s: string, replacements: map<string, string>, p: nat, j: nat)
    requires p < |s| && s[p] == TEMPLATE_CHAR && Boundary(s, p)
    requires FindMarker(s, p + 1) == Some(j)
    ensures |Replacement(replacements, PlaceholderName(s, p, j))| <= LongestFrom(s, replacements, 0)
  {
    LongestFromBoundary(s, replacements, 0, p);
  }

  // ----- the pre-pass: replacingRequestHandler -----

  /**
   * The content length replacingRequestHandler announces for the page `source`: the page length
   * plus, for each `%name%`, the mapped value's length minus the placeholder's, or minus 2 for a
   * name that is not mapped. A marker without partner ends the scan.
   */
  method DeclaredLength(source: string, replacements: map<string, string>) returns (contentLength: nat)
    ensures contentLength == |source| + LenDiffFrom(source, replacements, 0)
    ensures contentLength == |Substitute(source, replacements)|
  {
    var lenDiff := 0;
    var idx := 0;
    var found := FindMarker(source, 0);
    while found.Some?
      invariant idx <= |source|
      invariant found == FindMarker(source, idx)
      invariant lenDiff + LenDiffFrom(source, replacements, idx) == LenDiffFrom(source, replacements, 0)
      decreases |source| - idx
    {
      var templateStart := found.value;
      var templateEnd := FindMarker(source, templateStart + 1);
      LenDiffAhead(source, replacements, idx);
      if templateEnd.None? {
        break;
      }
      var te := templateEnd.value;
      var name := PlaceholderName(source, templateStart, te);
      if name in replacements {
        lenDiff := lenDiff + |replacements[name]| - (te - templateStart + 1);
      } else {
        lenDiff := lenDiff - 2;
      }
      idx := te + 1;
      found := FindMarker(source, idx);
    }
    if found.None? {
      NoMarkerLeft(source, replacements, idx);
    }
    LenDiffLowerBound(source, replacements, 0);
    contentLength := |source| + lenDiff;
    LenDiffIsLengthChange(source, replacements, 0);
  }

  // ----- the streaming filler: replacingResponseFiller -----

  datatype FillResult = Written(n: nat) | TryAgain

  /** memcpy(dst + at, data, |data|), appending `data` to the `done` prefix of `dst`. */
  method Memcpy(dst: array<char>, at: nat, data: string, ghost done: string)
    requires at + |data| <= dst.Length && dst[..at] == done
    modifies dst
    ensures dst[..at + |data|] == done + data
  {
    forall k | 0 <= k < |data| {
      dst[at + k] := data[k];
    }
    assert dst[..at + |data|] == done + data;
  }

  /** memset(dst + at, 0, n), appending `n` NULs to the `done` prefix of `dst`. */
  method Memset(dst: array<char>, at: nat, n: nat, ghost done: string)
    requires at + n <= dst.Length && dst[..at] == done
    modifies dst
    ensures dst[..at + n] == done + seq(n, _ => NUL)
  {
    forall k | 0 <= k < n {
      dst[at + k] := NUL;
    }
    assert dst[..at + n] == done + seq(n, _ => NUL);
  }

  /**
   * The filler bound to one page and one map of replacements. `offset` is the shared int64 the
   * handler allocates: output position `index` corresponds to source position `index + offset`.
   */
  class ReplacingFiller {
    const source: string
    const replacements: map<string, string>
    var offset: int

    constructor (source: string, replacements: map<string, string>)
      ensures this.source == source && this.replacements == replacements
      ensures offset == 0
    {
      this.source := source;
      this.replacements := replacements;
      offset := 0;
    }

    /** The whole response body. */
    ghost function Text(): string {
      Substitute(source, replacements)
    }

    /**
     * The filler is ready to produce output from position `index` on: the matching source
     * position lies outside every placeholder and the rest of the body is its expansion.
     */
    ghost predicate Synced(index: nat)
      reads this
    {
      var p := index + offset;
      0 <= p <= |source| && Boundary(source, p)
      && index <= |Text()| && Text()[index..] == SubstituteFrom(source, replacements, p)
    }

    /** A placeholder opens at source position `p` and its text is longer than `room`. */
    ghost predicate LongPlaceholderAt(p: int, room: int) {
      0 <= p < |source| && source[p] == TEMPLATE_CHAR
      && var e := FindMarker(source, p + 1);
      e.Some? && |Replacement(replacements, PlaceholderName(source, p, e.value))| > room
    }

    /**
     * The state of a window being filled: `out`, the first `written` bytes of `buffer`, is the
     * body from `index` on up to source position `p`, a boundary the offset maps to, and the
     * expansion from `p` on is the rest of the body.
     */
    ghost predicate Progress(buffer: array<char>, index: nat, written: nat, p: nat, out: string)
      reads this, buffer
    {
      written == |out| <= buffer.Length && p <= |source| && Boundary(source, p)
      && index + written + offset == p && buffer[..written] == out
      && index <= |Text()| && Text()[index..] == out + SubstituteFrom(source, replacements, p)
    }

    /**
     * What replacingResponseFiller promises about one window. `Written(n)` carries the next `n`
     * bytes of the body, zero-padded past its end, and leaves the filler synced behind them; it
     * stops short of a full window only before a placeholder whose text does not fit into the
     * rest. `TryAgain` leaves the filler synced at `index`, before a placeholder whose text does
     * not fit into the whole window.
     */
    ghost predicate WindowDone(buffer: array<char>, index: nat, r: FillResult)
      reads this, buffer
    {
      index <= |Text()|
      && match r
        case Written(n) =>
          n <= buffer.Length && buffer[..n] == Pad(Text()[index..], n)
          && (index + n <= |Text()| ==> Synced(index + n))
          && (n < buffer.Length ==> 0 < n && LongPlaceholderAt(index + n + offset, buffer.Length - n))
        case TryAgain => Synced(index) && LongPlaceholderAt(index + offset, buffer.Length)
    }

    /** memcpy of the marker-free source text `source[p..q]` into the window. */
    method CopyText(buffer: array<char>, ghost index: nat, written: nat, p: nat, q: nat, ghost out: string)
      returns (written': nat, ghost out': string)
      requires Progress(buffer, index, written, p, out)
      requires p <= q <= |source| && NoMarker(source, p, q) && written + (q - p) <= buffer.Length
      modifies buffer
      ensures written' == written + (q - p) && Progress(buffer, index, written', q, out')
    {
      var text := source[p..q];
      VerbatimPrefix(source, replacements, p, q);
      MarkersSpan(source, p, q);
      Memcpy(buffer, written, text, out);
      Assoc(out, text, SubstituteFrom(source, replacements, q));
      written', out' := written + |text|, out + text;
    }

    /**
     * memcpy of the text of the placeholder `source[ts..te + 1]` into the window; `offset` moves
     * by the difference between the placeholder's length and its text's.
     */
    method CopyReplacement(buffer: array<char>, ghost index: nat, written: nat, ts: nat, te: nat, ghost out: string)
      returns (written': nat, ghost out': string)
      requires Progress(buffer, index, written, ts, out)
      requires ts < |source| && source[ts] == TEMPLATE_CHAR && FindMarker(source, ts + 1) == Some(te)
      requires written + |Replacement(replacements, PlaceholderName(source, ts, te))| <= buffer.Length
      modifies this`offset, buffer
      ensures written' == written + |Replacement(replacements, PlaceholderName(source, ts, te))|
      ensures Progress(buffer, index, written', te + 1, out')
    {
      var replacement := Replacement(replacements, PlaceholderName(source, ts, te));
      BoundaryAfterPlaceholder(source, ts, te);
      Memcpy(buffer, written, replacement, out);
      Assoc(out, replacement, SubstituteFrom(source, replacements, te + 1));
      offset := offset + (te - ts + 1) - |replacement|;
      written', out' := written + |replacement|, out + replacement;
    }

    /**
     * A window at least as wide as the longest replacement is never `TryAgain`. The server takes
     * from it at least one byte, up to the end of the body, continuing what was sent before, and
     * the filler is synced behind them.
     */
    lemma Advance(buffer: array<char>, index: nat, r: FillResult)
      requires 0 < buffer.Length && LongestFrom(source, replacements, 0) <= buffer.Length
      requires index < |Text()| && WindowDone(buffer, index, r)
      ensures r.Written?
      ensures r.Written? ==> var sent := Min(r.n, |Text()| - index);
        0 < sent <= r.n && Text()[..index] + buffer[..r.n][..sent] == Text()[..index + sent]
        && (index + sent < |Text()| ==> Synced(index + sent))
    {
      if r.TryAgain? {
        var p := index + offset;
        PlaceholderWithinLongest(source, replacements, p, FindMarker(source, p + 1).value);
      } else {
        var sent := Min(r.n, |Text()| - index);
        assert buffer[..r.n][..sent] == Text()[index..index + sent];
        assert Text()[..index] + Text()[index..index + sent] == Text()[..index + sent];
      }
    }

    /**
     * One round of the server's chunked response: a fresh `cap`-byte buffer handed to the
     * filler, of which the server sends no more than is still missing of the announced length.
     */
    method SendWindow(cap: nat, index: nat, contentLength: nat) returns (sent: string)
      requires AllPaired(source) && 0 < cap && LongestFrom(source, replacements, 0) <= cap
      requires contentLength == |Text()| && index < contentLength && Synced(index)
      modifies this`offset
      ensures 0 < |sent| <= |Text()| - index && Text()[..index] + sent == Text()[..index + |sent|]
      ensures index + |sent| < |Text()| ==> Synced(index + |sent|)
    {
      var buffer := new char[cap];
      var r := Fill(buffer, index);
      Advance(buffer, index, r);
      var chunk := buffer[..r.n];
      sent := chunk[..Min(r.n, contentLength - index)];
    }

    /** A window holding the rest of the body, then NULs, is a finished window. */
    lemma BodyEndsInWindow(buffer: array<char>, index: nat, out: string)
      requires |out| < buffer.Length && buffer[..buffer.Length] == out + seq(buffer.Length - |out|, _ => NUL)
      requires index <= |Text()| && Text()[index..] == out
      ensures WindowDone(buffer, index, Written(buffer.Length))
    {
    }

    /** A window filled with body text, after which the filler is synced at `p`, is a finished window. */
    lemma WindowFull(buffer: array<char>, index: nat, p: nat, out: string)
      requires Progress(buffer, index, buffer.Length, p, out)
      ensures WindowDone(buffer, index, Written(buffer.Length))
    {
      SplitAt(Text()[index..], out, SubstituteFrom(source, replacements, p));
      DropDrop(Text(), index, |out|);
    }

    /** A window that ends before a placeholder too long for the rest of it is a finished window. */
    lemma StopBefore(buffer: array<char>, index: nat, written: nat, ts: nat, out: string)
      requires Progress(buffer, index, written, ts, out)
      requires ts < |source| && source[ts] == TEMPLATE_CHAR && FindMarker(source, ts + 1).Some?
      requires |Replacement(replacements, PlaceholderName(source, ts, FindMarker(source, ts + 1).value))| > buffer.Length - written
      ensures WindowDone(buffer, index, if written > 0 then Written(written) else TryAgain)
    {
      SplitAt(Text()[index..], out, SubstituteFrom(source, replacements, ts));
      DropDrop(Text(), index, written);
    }

    /**
     * The common tail of both paths of replacingResponseFiller: copy verbatim text up to the
     * window's end and zero-fill whatever the source does not cover.
     */
    method FinishWindow(buffer: array<char>, ghost index: nat, written: nat, idx: nat, ghost out: string)
      returns (r: FillResult)
      requires Progress(buffer, index, written, idx, out)
      requires FindMarker(source, idx).None? || FindMarker(source, idx).value - idx >= buffer.Length - written
      modifies buffer
      ensures r == Written(buffer.Length) && WindowDone(buffer, index, r)
    {
      var room := buffer.Length - written;
      FindMarkerGap(source, idx);
      if |source| - idx < room {
        var tail := |source| - idx;
        var w, o := CopyText(buffer, index, written, idx, |source|, out);
        Memset(buffer, w, room - tail, o);
        BodyEndsInWindow(buffer, index, o);
      } else {
        var w, o := CopyText(buffer, index, written, idx, idx + room, out);
        WindowFull(buffer, index, idx + room, o);
      }
      r := Written(buffer.Length);
    }

    /**
     * replacingResponseFiller: fill `buffer` (the `maxLen` bytes the server offers) with the body
     * from position `index` on. A window is full (zero-padded past the end of the body) unless
     * the next placeholder's text does not fit into what is left of it: then the filler stops
     * early, or asks to be called again when nothing at all was written.
     */
    method Fill(buffer: array<char>, index: nat) returns (r: FillResult)
      requires AllPaired(source)
      requires Synced(index)
      modifies this`offset, buffer
      ensures WindowDone(buffer, index, r)
    {
      var maxLen := buffer.Length;
      var idx: nat := index + offset;
      var templateStart := FindMarker(source, idx);
      assert buffer[..0] == [];
      if templateStart.None? || templateStart.value > maxLen + idx {
        r := FinishWindow(buffer, index, 0, idx, []);
        return;
      }
      var written := 0;
      ghost var out: string := [];
      while templateStart.Some? && templateStart.value - idx + written < maxLen
        invariant Progress(buffer, index, written, idx, out)
        invariant templateStart == FindMarker(source, idx)
        decreases |source| - idx
      {
        var ts := templateStart.value;
        FindMarkerGap(source, idx);
        written, out := CopyText(buffer, index, written, idx, ts, out);
        // With every marker paired the source's `if (!template_end) break;` is never taken.
        ClosingMarker(source, ts);
        var te := FindMarker(source, ts + 1).value;
        var replacement := Replacement(replacements, PlaceholderName(source, ts, te));
        if |replacement| > maxLen - written {
          StopBefore(buffer, index, written, ts, out);
          if written > 0 {
            return Written(written);
          } else {
            return TryAgain;
          }
        }
        written, out := CopyReplacement(buffer, index, written, ts, te, out);
        idx := te + 1;
        templateStart := FindMarker(source, idx);
      }
      r := FinishWindow(buffer, index, written, idx, out);
    }
  }

  /**
   * A whole response served the way the web server drives it: the announced length first, then
   * the filler called with the running index until that many bytes were sent. `caps` are the
   * window sizes the server offers, used in turn; each is at least the longest replacement.
   */
  method ServeTemplate(source: string, replacements: map<string, string>, caps: seq<nat>)
    returns (contentLength: nat, body: string)
    requires AllPaired(source)
    requires |caps| > 0
    requires forall k :: 0 <= k < |caps| ==> 1 <= caps[k] && LongestFrom(source, replacements, 0) <= caps[k]
    ensures contentLength == |Substitute(source, replacements)|
    ensures body == Substitute(source, replacements)
  {
    contentLength := DeclaredLength(source, replacements);
    var filler := new ReplacingFiller(source, replacements);
    var index := 0;
    var window := 0;
    ghost var text := filler.Text();
    body := [];
    while index < contentLength
      invariant filler.source == source && filler.replacements == replacements
      invariant index <= contentLength && body == text[..index]
      invariant index < |text| ==> filler.Synced(index)
      decreases contentLength - index
    {
      var sent := filler.SendWindow(caps[window % |caps|], index, contentLength);
      body := body + sent;
      index := index + |sent|;
      window := window + 1;
    }
  }
}
