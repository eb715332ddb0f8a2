/**
 * `ScreenshotShooter`: how section headers are chosen and ordered, how each section's
 * clip rectangle is computed, how the content area is cut into chunks when there are no
 * headers, and how the screenshot files and section titles are named. Coordinates are
 * whole pixels.
 */
module Shooter {
  import opened Wrappers
  import opened Text
  import opened Sorting

  /** A rectangle `{x, y, width, height}`: a bounding box, a viewport or a clip. */
  datatype Box = Box(x: int, y: int, width: int, height: int)

  /** One tuple of the list `shoot_sections` returns: file name, index and section title. */
  datatype Shot = Shot(filename: string, index: nat, title: string)

  /** The fixed clip `_find_content_area` always returns, so the full-page branch never runs. */
  const ContentArea := Box(380, 56, 848, 1200)

  function Min(a: int, b: int): int { if a <= b then a else b }
  function Max(a: int, b: int): int { if a >= b then a else b }

  // ---------------------------------------------------------------- _sanitize_filename

  /** The characters `[<>:"/\\|?*]` that are replaced by `_`. */
  predicate IsBadFilenameChar(c: char) {
    c == '<' || c == '>' || c == ':' || c == '"' || c == '/' || c == '\\' || c == '|' || c == '?' || c == '*'
  }

  /** The characters `strip(' .')` removes. */
  predicate IsSpaceOrDot(c: char) { c == ' ' || c == '.' }

  const MaxFilenameLength := 50

  /** `re.sub(r'[<>:"/\\|?*]', '_', text)`. */
  function ReplaceBad(t: string): (r: string)
    ensures |r| == |t|
    ensures forall k :: 0 <= k < |t| ==> r[k] == (if IsBadFilenameChar(t[k]) then '_' else t[k])
  {
    seq(|t|, k requires 0 <= k < |t| => if IsBadFilenameChar(t[k]) then '_' else t[k])
  }

  /** Text fit for a file name: no bad character, at most 50 long, not empty, no space or dot at either end. */
  predicate SafeName(r: string) {
    r != [] && |r| <= MaxFilenameLength &&
    (forall k :: 0 <= k < |r| ==> !IsBadFilenameChar(r[k])) &&
    !IsSpaceOrDot(r[0]) && !IsSpaceOrDot(r[|r| - 1])
  }

  /** `_sanitize_filename`. */
  function SanitizeFilename(text: string): (r: string)
    ensures SafeName(r)
  {
    var replaced := ReplaceBad(text);
    var cut := if |replaced| > MaxFilenameLength then replaced[..MaxFilenameLength] else replaced;
    assert forall k :: 0 <= k < |cut| ==> !IsBadFilenameChar(cut[k]) by {
      forall k | 0 <= k < |cut| ensures !IsBadFilenameChar(cut[k]) {
        assert cut[k] == replaced[k];
      }
    }
    var stripped := StripWhere(cut, IsSpaceOrDot);
    StripKeepsGoodChars(cut);
    if stripped == [] then "section" else stripped
  }

  /** Stripping spaces and dots brings in no bad character. */
  lemma StripKeepsGoodChars(s: string)
    requires forall k :: 0 <= k < |s| ==> !IsBadFilenameChar(s[k])
    ensures var r := StripWhere(s, IsSpaceOrDot);
      forall k :: 0 <= k < |r| ==> !IsBadFilenameChar(r[k])
  {
    var r := StripWhere(s, IsSpaceOrDot);
    var i := LeadingCount(s, IsSpaceOrDot);
    forall k | 0 <= k < |r| ensures !IsBadFilenameChar(r[k]) {
      assert r[k] == s[i + k];
    }
  }

  /** A name that is already safe passes through unchanged. */
  lemma SanitizeKeepsSafe(r: string)
    requires SafeName(r)
    ensures SanitizeFilename(r) == r
  {
    assert ReplaceBad(r) == r;
    StripWhereNoop(r, IsSpaceOrDot);
  }

  /** `_sanitize_filename` is idempotent. */
  lemma SanitizeIdempotent(text: string)
    ensures SanitizeFilename(SanitizeFilename(text)) == SanitizeFilename(text)
  {
    SanitizeKeepsSafe(SanitizeFilename(text));
  }

  // ---------------------------------------------------------------- section clips

  /**
   * `_calculate_section_clip_with_content_area`: from 50 pixels above the header, at most
   * 1200 (first section) or 1000 pixels, never past the bottom of the content area.
   */
  function SectionClipInArea(headerY: int, area: Box, index: nat): (clip: Box)
    ensures clip.x == area.x && clip.width == area.width
    ensures clip.y == Max(area.y, headerY - 50)
    ensures clip.y + clip.height <= area.y + area.height
    ensures clip.height <= (if index == 0 then 1200 else 1000)
    ensures clip.height == Min(if index == 0 then 1200 else 1000, area.y + area.height - clip.y)
    ensures area.height >= 0 ==> (clip.height < 0 <==> headerY - 50 > area.y + area.height)
    ensures area.height >= 0 && headerY - 50 <= area.y + area.height ==> clip.height >= 0
  {
    var yStart := Max(area.y, headerY - 50);
    var height := if index == 0 then Min(1200, area.height) else Min(1000, area.height);
    var maxY := area.y + area.height;
    var yEnd := Min(yStart + height, maxY);
    Box(area.x, yStart, area.width, yEnd - yStart)
  }

  /** A header more than 50 pixels below the content area gets a clip of negative height. */
  lemma NegativeClipBelowArea()
    ensures SectionClipInArea(1400, ContentArea, 1).height == -94
  {
  }

  /**
   * `_calculate_section_clip`: the viewport-based variant, from 50 pixels above the header
   * (never above 0) and at most 1200 or 1000 pixels high.
   */
  function SectionClip(headerY: int, viewport: Box, index: nat): (clip: Box)
    ensures clip.x == 0 && clip.width == viewport.width
    ensures clip.y >= 0 && clip.y >= headerY - 50 && (clip.y == 0 || clip.y == headerY - 50)
    ensures clip.height <= viewport.height
    ensures clip.height == viewport.height || clip.height == (if index == 0 then 1200 else 1000)
    ensures clip.height <= (if index == 0 then 1200 else 1000)
  {
    Box(0, Max(0, headerY - 50), viewport.width,
      if index == 0 then Min(1200, viewport.height) else Min(1000, viewport.height))
  }

  // ---------------------------------------------------------------- _capture_content_area

  const ChunkHeight := 1000

  /** One chunk of the content area: its tuple and its clip. */
  datatype Chunk = Chunk(shot: Shot, clip: Box)

  /** `⌈height / 1000⌉` chunks, none for an empty area. */
  function ChunkCount(height: int): nat {
    if height <= 0 then 0 else (height + ChunkHeight - 1) / ChunkHeight
  }

  lemma CeilDiv(h: int, n: nat)
    requires n > 0 && ChunkHeight * (n - 1) < h <= ChunkHeight * n
    ensures ChunkCount(h) == n
  {
  }

  function ChunkShot(k: nat, slug: string): Shot {
    Shot("content_chunk_" + Pad3(k) + "_" + slug + ".png", k, "content_chunk_" + NatToString(k))
  }

  /**
   * The chunk loop of `_capture_content_area`: contiguous clips from the top of the area
   * to exactly its bottom, each between 1 and 1000 pixels high, numbered 0, 1, 2, ...
   */
  method CaptureContentArea(area: Box, slug: string) returns (chunks: seq<Chunk>)
    ensures |chunks| == ChunkCount(area.height)
    ensures forall k :: 0 <= k < |chunks| ==>
      chunks[k].shot == ChunkShot(k, slug) &&
      chunks[k].clip == Box(area.x, area.y + ChunkHeight * k, area.width, Min(ChunkHeight, area.height - ChunkHeight * k))
    ensures forall k :: 0 <= k < |chunks| ==> 0 < chunks[k].clip.height <= ChunkHeight
    ensures forall k :: 0 <= k < |chunks| - 1 ==> chunks[k].clip.y + chunks[k].clip.height == chunks[k + 1].clip.y
    ensures |chunks| > 0 ==> chunks[0].clip.y == area.y
    ensures |chunks| > 0 ==> chunks[|chunks| - 1].clip.y + chunks[|chunks| - 1].clip.height == area.y + area.height
  {
    var bottom := area.y + area.height;
    var yStart := area.y;
    var index: nat := 0;
    chunks := [];
    while yStart < bottom
      invariant index == |chunks|
      invariant index == 0 ==> yStart == area.y
      invariant index > 0 ==> yStart == Min(area.y + ChunkHeight * index, bottom)
      invariant index > 0 ==> ChunkHeight * (index - 1) < area.height
      invariant forall k :: 0 <= k < |chunks| ==>
        chunks[k].shot == ChunkShot(k, slug) &&
        chunks[k].clip == Box(area.x, area.y + ChunkHeight * k, area.width, Min(ChunkHeight, area.height - ChunkHeight * k))
      invariant forall k :: 0 <= k < |chunks| ==> 0 < chunks[k].clip.height <= ChunkHeight
      decreases bottom - yStart
    {
      var chunkEnd := Min(yStart + ChunkHeight, bottom);
      var clip := Box(area.x, yStart, area.width, chunkEnd - yStart);
      chunks := chunks + [Chunk(ChunkShot(index, slug), clip)];
      yStart := chunkEnd;
      index := index + 1;
    }
    if index > 0 {
      CeilDiv(area.height, index);
    }
  }

  // ---------------------------------------------------------------- _get_section_headers

  /** A header element: its text content, whether it is visible, and its bounding box. */
  datatype Header = Header(text: Option<string>, visible: bool, box: Option<Box>)

  /** A visible header whose box lies horizontally within the content area. */
  predicate InArea(h: Header, area: Box) {
    h.visible && h.box.Some? &&
    h.box.value.x >= area.x && h.box.value.x + h.box.value.width <= area.x + area.width
  }

  function HeaderY(h: Header): int {
    if h.box.Some? then h.box.value.y else 0
  }

  /** The headers the selector loop keeps, in selector and document order. */
  function KeptHeaders(cands: seq<Header>, area: Box): (kept: seq<Header>)
    ensures forall k :: 0 <= k < |kept| ==> InArea(kept[k], area)
    ensures forall h :: h in kept <==> h in cands && InArea(h, area)
  {
    if cands == [] then []
    else
      var init := cands[..|cands| - 1];
      var last := cands[|cands| - 1];
      assert forall h :: h in cands <==> h in init || h == last;
      KeptHeaders(init, area) + (if InArea(last, area) then [last] else [])
  }

  /** The selector loop keeps headers in order, each as often as it occurs: keeping distributes over concatenation. */
  lemma {:induction false} KeptHeadersAppend(a: seq<Header>, b: seq<Header>, area: Box)
    ensures KeptHeaders(a + b, area) == KeptHeaders(a, area) + KeptHeaders(b, area)
    decreases |b|
  {
    if b == [] {
      assert a + b == a;
    } else {
      var init := b[..|b| - 1];
      assert (a + b)[..|a + b| - 1] == a + init;
      assert (a + b)[|a + b| - 1] == b[|b| - 1];
      KeptHeadersAppend(a, init, area);
    }
  }

  /** One candidate is kept exactly when it is in the area. */
  lemma KeptHeadersOne(h: Header, area: Box)
    ensures KeptHeaders([h], area) == if InArea(h, area) then [h] else []
  {
    assert [h][..0] == [];
  }

  /** Headers ordered top to bottom. */
  predicate AscendingY(hs: seq<Header>) {
    Ascending(hs, HeaderY)
  }

  /**
   * `_get_section_headers`: the visible headers inside the content area's columns, ordered
   * top to bottom.
   */
  method GetSectionHeaders(cands: seq<Header>, area: Box) returns (headers: seq<Header>)
    ensures AscendingY(headers)
    ensures multiset(headers) == multiset(KeptHeaders(cands, area))
    ensures forall k :: 0 <= k < |headers| ==> InArea(headers[k], area)
  {
    var kept: seq<Header> := [];
    for i := 0 to |cands|
      invariant kept == KeptHeaders(cands[..i], area)
    {
      assert cands[..i + 1][..i] == cands[..i];
      if InArea(cands[i], area) {
        kept := kept + [cands[i]];
      }
    }
    assert cands[..|cands|] == cands;
    headers := SortByKey(kept, HeaderY);
    forall k | 0 <= k < |headers| ensures InArea(headers[k], area) {
      assert headers[k] in multiset(kept);
    }
  }

  // ---------------------------------------------------------------- shoot_sections

  /** The title `_capture_section` gives header `index`. */
  function SectionTitle(text: Option<string>, index: nat): (title: string)
    ensures title != []
    ensures forall k :: 0 <= k < |title| ==> !IsBadFilenameChar(title[k])
    ensures text.Some? && text.value != [] ==> SafeName(title)
    ensures !(text.Some? && text.value != []) ==> "section_" <= title && |title| >= 11
  {
    if text.Some? && text.value != [] then SanitizeFilename(Strip(text.value))
    else
      var digits := Pad3(index);
      var t := "section_" + digits;
      assert forall k :: 8 <= k < |t| ==> t[k] == digits[k - 8];
      t
  }

  /** `sec_{index:03d}_{title}.png`. */
  function SectionFilename(index: nat, title: string): string {
    "sec_" + Pad3(index) + "_" + title + ".png"
  }

  /** The tuple for header `i` when its capture succeeds. */
  function SectionShot(headers: seq<Header>, i: nat): Shot
    requires i < |headers|
  {
    var title := SectionTitle(headers[i].text, i);
    Shot(SectionFilename(i, title), i, title)
  }

  /** The indices among the first `n` headers whose capture did not raise. */
  function CapturedIndices(shotFails: nat -> bool, n: nat): (idx: seq<nat>)
    ensures forall k :: 0 <= k < |idx| ==> idx[k] < n
  {
    if n == 0 then []
    else CapturedIndices(shotFails, n - 1) + (if shotFails(n - 1) then [] else [n - 1])
  }

  /** Indices rise strictly and are missing exactly where a capture raised. */
  lemma {:induction false} CapturedIndicesShape(shotFails: nat -> bool, n: nat)
    ensures var idx := CapturedIndices(shotFails, n);
      (forall k, l :: 0 <= k < l < |idx| ==> idx[k] < idx[l]) &&
      (forall i :: 0 <= i < n ==> (!shotFails(i) <==> i in idx))
  {
    if n > 0 {
      CapturedIndicesShape(shotFails, n - 1);
    }
  }

  /** The capture loop of `shoot_sections`: a section whose capture raises is skipped. */
  method CaptureSections(headers: seq<Header>, shotFails: nat -> bool) returns (shots: seq<Shot>)
    ensures var idx := CapturedIndices(shotFails, |headers|);
      |shots| == |idx| && forall k :: 0 <= k < |idx| ==> shots[k] == SectionShot(headers, idx[k])
  {
    shots := [];
    for i := 0 to |headers|
      invariant var idx := CapturedIndices(shotFails, i);
        |shots| == |idx| && forall k :: 0 <= k < |idx| ==> idx[k] < |headers| && shots[k] == SectionShot(headers, idx[k])
    {
      if !shotFails(i) {
        shots := shots + [SectionShot(headers, i)];
      }
    }
  }

  /**
   * What `shoot_sections` raises, if anything: creating the run's directory comes first,
   * and the content-area capture, which re-raises, runs only when no header is kept.
   * Section captures never raise out of it.
   */
  function ShootOutcome(cands: seq<Header>, makeDir: Outcome, areaCapture: Outcome): (o: Outcome)
    ensures o.Fail? <==> makeDir.Fail? || (KeptHeaders(cands, ContentArea) == [] && areaCapture.Fail?)
    ensures o.Fail? ==> o == makeDir || o == areaCapture
    ensures makeDir.Fail? ==> o == makeDir
  {
    if makeDir.Fail? then makeDir
    else if KeptHeaders(cands, ContentArea) == [] then areaCapture
    else Pass
  }

  /**
   * `shoot_sections`: the headers in order; when there are none, the content-area chunks.
   * `makeDir` says whether creating the run's directory raises and `areaCapture` whether
   * the content-area capture raises; either reaches the caller and no list is returned.
   * `shotFails(i)` says that capturing section `i` raised, which drops that section and
   * leaves a gap in the indices.
   */
  method ShootSections(cands: seq<Header>, slug: string, makeDir: Outcome, areaCapture: Outcome, shotFails: nat -> bool)
    returns (headers: seq<Header>, shots: seq<Shot>, raised: Outcome)
    ensures raised == ShootOutcome(cands, makeDir, areaCapture)
    ensures raised.Fail? ==> shots == []
    ensures makeDir.Pass? ==> AscendingY(headers) && multiset(headers) == multiset(KeptHeaders(cands, ContentArea))
    ensures raised.Pass? && headers == [] ==> shots == [ChunkShot(0, slug), ChunkShot(1, slug)]
    ensures raised.Pass? && headers != [] ==> var idx := CapturedIndices(shotFails, |headers|);
      |shots| == |idx| && forall k :: 0 <= k < |idx| ==> shots[k] == SectionShot(headers, idx[k])
    ensures forall k, l :: 0 <= k < l < |shots| ==> shots[k].index < shots[l].index
  {
    if makeDir.Fail? {
      return [], [], makeDir;
    }
    headers := GetSectionHeaders(cands, ContentArea);
    assert |headers| == |multiset(headers)| == |KeptHeaders(cands, ContentArea)|;
    if headers == [] {
      if areaCapture.Fail? {
        return headers, [], areaCapture;
      }
      var chunks := CaptureContentArea(ContentArea, slug);
      assert ChunkCount(1200) == 2;
      shots := [chunks[0].shot, chunks[1].shot];
    } else {
      shots := CaptureSections(headers, shotFails);
      CapturedIndicesShape(shotFails, |headers|);
    }
    raised := Pass;
  }
}
