/** Splitting the standard output of a capture process into JPEG frames.

    Every capture process owns a private buffer. Each stdout chunk is appended to
    it, and then the buffer is scanned: find a start-of-image marker (FF D8), find
    the next end-of-image marker (FF D9) at least two bytes after it, emit the
    bytes from the one to the other inclusive, keep what follows, and repeat.
    The markers are those of ITU-T T.81 (JPEG), Annex B.1.1.3. */
module Frames {

  /** One byte of the stream. */
  newtype Byte = b: int | 0 <= b < 256

  /** Every JPEG marker is 0xFF followed by a code byte. */
  const MARKER_PREFIX: Byte := 0xFF
  /** Start of image: FF D8. */
  const SOI: Byte := 0xD8
  /** End of image: FF D9. */
  const EOI: Byte := 0xD9

  /** The two-byte marker FF `code` starts at position i of s. */
  predicate MarkerAt(s: seq<Byte>, code: Byte, i: int)
  {
    0 <= i && i + 1 < |s| && s[i] == MARKER_PREFIX && s[i + 1] == code
  }

  /** Buffer.indexOf on a two-byte marker: the first position at or after
      `from` where the marker starts, or -1 when there is none. */
  function IndexOf(s: seq<Byte>, code: Byte, from: nat): (r: int)
    ensures r == -1 || (from <= r && MarkerAt(s, code, r))
    ensures forall i :: from <= i && (r == -1 || i < r) ==> !MarkerAt(s, code, i)
    decreases |s| - from
  {
    if from + 1 >= |s| then -1
    else if MarkerAt(s, code, from) then from
    else IndexOf(s, code, from + 1)
  }

  /** A complete frame: it opens with SOI, closes with EOI, and that EOI is the
      first one at least two bytes after the SOI. */
  predicate IsFrame(f: seq<Byte>)
  {
    |f| >= 4 && MarkerAt(f, SOI, 0) && MarkerAt(f, EOI, |f| - 2) && IndexOf(f, EOI, 2) == |f| - 2
  }

  /** What one call of the extractor makes of its buffer: the frames it emits,
      in order, and the bytes it keeps for the next chunk. */
  datatype Extraction = Extraction(frames: seq<seq<Byte>>, rest: seq<Byte>)

  /** The extractor's loop as a function of the buffer (old buffer ++ chunk).
      With keepSplitMarker false this is the code as written: a buffer without a
      start marker is emptied. With keepSplitMarker true a trailing 0xFF, which
      may be the first half of a start marker split across two chunks, is kept
      (see the findings of the README). */
  function Scan(buf: seq<Byte>, keepSplitMarker: bool): Extraction
    decreases |buf|
  {
    var soi := IndexOf(buf, SOI, 0);
    if soi < 0 then Extraction([], Kept(buf, keepSplitMarker))
    else
      var eoi := IndexOf(buf, EOI, soi + 2);
      if eoi < 0 then Extraction([], buf[soi..])
      else
        var tail := Scan(buf[eoi + 2..], keepSplitMarker);
        Extraction([buf[soi..eoi + 2]] + tail.frames, tail.rest)
  }

  /** What a buffer without a start marker leaves behind: nothing as written;
      its last byte, if that is 0xFF, under the corrected policy. */
  function Kept(buf: seq<Byte>, keepSplitMarker: bool): seq<Byte>
  {
    if keepSplitMarker && |buf| > 0 && buf[|buf| - 1] == MARKER_PREFIX then [MARKER_PREFIX] else []
  }

  /** What the extractor may keep between chunks: nothing; a lone 0xFF (only
      under the corrected policy); or an unfinished frame that opens with SOI
      and holds no EOI after it. */
  predicate IsPending(rest: seq<Byte>, keepSplitMarker: bool)
  {
    rest == [] || (keepSplitMarker && rest == [MARKER_PREFIX]) || (MarkerAt(rest, SOI, 0) && IndexOf(rest, EOI, 2) == -1)
  }

  /** The onStdout handler of a capture process: append the chunk to the
      process's buffer and cut out every complete frame. Returns the frames in
      the order they are broadcast and the buffer's new contents. */
  method Feed(localBuf: seq<Byte>, chunk: seq<Byte>, keepSplitMarker: bool)
    returns (frames: seq<seq<Byte>>, rest: seq<Byte>)
    ensures Extraction(frames, rest) == Scan(localBuf + chunk, keepSplitMarker)
    ensures forall f <- frames :: IsFrame(f)
    ensures IsPending(rest, keepSplitMarker)
    ensures !keepSplitMarker && IndexOf(localBuf + chunk, SOI, 0) == -1 ==> frames == [] && rest == []
    ensures var b := localBuf + chunk; var soi := IndexOf(b, SOI, 0);
      soi >= 0 && IndexOf(b, EOI, soi + 2) == -1 ==> frames == [] && rest == b[soi..]
  {
    var buf := localBuf + chunk;
    ghost var whole := buf;
    frames := [];
    while true
      invariant Scan(whole, keepSplitMarker)
        == Extraction(frames + Scan(buf, keepSplitMarker).frames, Scan(buf, keepSplitMarker).rest)
      decreases |buf|
    {
      var soi := IndexOf(buf, SOI, 0);
      if soi < 0 {
        rest := Kept(buf, keepSplitMarker);
        ScanNoStart(buf, keepSplitMarker);
        ResumeEnd(whole, keepSplitMarker, frames, buf, rest);
        break;
      }
      var eoi := IndexOf(buf, EOI, soi + 2);
      if eoi < 0 {
        if soi > 0 {
          rest := buf[soi..];
        } else {
          rest := buf;
        }
        ScanUnfinished(buf, keepSplitMarker, soi);
        ResumeEnd(whole, keepSplitMarker, frames, buf, rest);
        break;
      }
      var frame := buf[soi..eoi + 2];
      ResumeCut(whole, keepSplitMarker, frames, buf, soi, eoi);
      buf := buf[eoi + 2..];
      frames := frames + [frame];
    }
    ScanFramesAreFrames(whole, keepSplitMarker);
    ScanRestIsPending(whole, keepSplitMarker);
    var soi := IndexOf(whole, SOI, 0);
    if soi < 0 {
      ScanNoStart(whole, keepSplitMarker);
    } else if IndexOf(whole, EOI, soi + 2) < 0 {
      ScanUnfinished(whole, keepSplitMarker, soi);
    }
  }

  /** Feed's loop, once the rest of the buffer yields no frame: the frames
      emitted so far are all of them. */
  lemma ResumeEnd(whole: seq<Byte>, k: bool, frames: seq<seq<Byte>>, buf: seq<Byte>, rest: seq<Byte>)
    requires Scan(buf, k) == Extraction([], rest)
    requires Scan(whole, k) == Extraction(frames + Scan(buf, k).frames, Scan(buf, k).rest)
    ensures Scan(whole, k) == Extraction(frames, rest)
  {
    assert frames + [] == frames;
  }

  /** Feed's loop, on cutting one frame out of the rest of the buffer: the
      scan of the whole buffer is still the frames so far followed by the scan
      of what remains. */
  lemma ResumeCut(whole: seq<Byte>, k: bool, frames: seq<seq<Byte>>, buf: seq<Byte>, soi: nat, eoi: nat)
    requires IndexOf(buf, SOI, 0) == soi
    requires IndexOf(buf, EOI, soi + 2) == eoi
    requires Scan(whole, k) == Extraction(frames + Scan(buf, k).frames, Scan(buf, k).rest)
    ensures var t := Scan(buf[eoi + 2..], k);
      Scan(whole, k) == Extraction((frames + [buf[soi..eoi + 2]]) + t.frames, t.rest)
  {
    ScanCut(buf, k, soi, eoi);
    var t := Scan(buf[eoi + 2..], k);
    assert frames + ([buf[soi..eoi + 2]] + t.frames) == (frames + [buf[soi..eoi + 2]]) + t.frames;
  }

  // ---------------------------------------------------------------------------
  // Facts about IndexOf

  /** IndexOf is characterised by its contract: any r that is a first match
      (or -1 when there is none) is its value. */
  lemma IndexOfIsFirst(s: seq<Byte>, code: Byte, from: nat, r: int)
    requires r == -1 || (from <= r && MarkerAt(s, code, r))
    requires forall i :: from <= i && (r == -1 || i < r) ==> !MarkerAt(s, code, i)
    ensures IndexOf(s, code, from) == r
  {
  }

  /** Searching a suffix s[k..] from `from` is searching s from k + from. */
  lemma IndexOfSuffix(s: seq<Byte>, code: Byte, k: nat, from: nat)
    requires k <= |s|
    ensures var r := IndexOf(s[k..], code, from); var q := IndexOf(s, code, k + from);
      (r == -1 && q == -1) || (r >= 0 && q == r + k)
  {
    var q := IndexOf(s, code, k + from);
    forall i | 0 <= i
      ensures MarkerAt(s[k..], code, i) <==> MarkerAt(s, code, k + i)
    {
    }
    if q == -1 {
      IndexOfIsFirst(s[k..], code, from, -1);
    } else {
      IndexOfIsFirst(s[k..], code, from, q - k);
    }
  }

  /** Appending bytes does not move a marker already found. */
  lemma IndexOfExtend(x: seq<Byte>, z: seq<Byte>, code: Byte, from: nat)
    requires IndexOf(x, code, from) >= 0
    ensures IndexOf(x + z, code, from) == IndexOf(x, code, from)
  {
    var r := IndexOf(x, code, from);
    forall i | 0 <= i && i + 1 < |x|
      ensures MarkerAt(x + z, code, i) == MarkerAt(x, code, i)
    {
    }
    IndexOfIsFirst(x + z, code, from, r);
  }

  // ---------------------------------------------------------------------------
  // One turn of the loop

  /** No start marker: nothing is emitted and the buffer is emptied (as
      written) or cut down to a trailing 0xFF (corrected). */
  lemma ScanNoStart(buf: seq<Byte>, k: bool)
    requires IndexOf(buf, SOI, 0) == -1
    ensures Scan(buf, k) == Extraction([], Kept(buf, k))
  {
  }

  /** A start marker without an end marker after it: nothing is emitted and the
      buffer is cut down to the unfinished frame. */
  lemma ScanUnfinished(buf: seq<Byte>, k: bool, soi: nat)
    requires IndexOf(buf, SOI, 0) == soi
    requires IndexOf(buf, EOI, soi + 2) == -1
    ensures Scan(buf, k) == Extraction([], buf[soi..])
  {
  }

  /** Both markers: the frame between them is emitted first, then the scan
      goes on with what follows the end marker. */
  lemma ScanCut(buf: seq<Byte>, k: bool, soi: nat, eoi: nat)
    requires IndexOf(buf, SOI, 0) == soi
    requires IndexOf(buf, EOI, soi + 2) == eoi
    ensures var t := Scan(buf[eoi + 2..], k);
      Scan(buf, k) == Extraction([buf[soi..eoi + 2]] + t.frames, t.rest)
  {
  }

  // ---------------------------------------------------------------------------
  // What a scan emits and keeps

  /** The slice [soi, eoi + 2) that the loop cuts out is a complete frame. */
  lemma CutIsFrame(buf: seq<Byte>, soi: nat, eoi: nat)
    requires MarkerAt(buf, SOI, soi)
    requires IndexOf(buf, EOI, soi + 2) == eoi
    ensures IsFrame(buf[soi..eoi + 2])
  {
    var f := buf[soi..eoi + 2];
    forall i | 0 <= i < |f|
      ensures MarkerAt(f, EOI, i) <==> MarkerAt(buf, EOI, soi + i)
    {
    }
    IndexOfIsFirst(f, EOI, 2, eoi - soi);
  }

  /** Every frame the extractor emits opens with FF D8, closes with FF D9, is at
      least four bytes long, and ends at the first FF D9 after its FF D8. */
  lemma {:induction false} ScanFramesAreFrames(buf: seq<Byte>, k: bool)
    ensures forall f <- Scan(buf, k).frames :: IsFrame(f)
    decreases |buf|
  {
    var soi := IndexOf(buf, SOI, 0);
    if soi < 0 {
      ScanNoStart(buf, k);
    } else {
      var eoi := IndexOf(buf, EOI, soi + 2);
      if eoi < 0 {
        ScanUnfinished(buf, k, soi);
      } else {
        ScanCut(buf, k, soi, eoi);
        CutIsFrame(buf, soi, eoi);
        ScanFramesAreFrames(buf[eoi + 2..], k);
      }
    }
  }

  /** What the extractor keeps has one of the pending shapes. */
  lemma {:induction false} ScanRestIsPending(buf: seq<Byte>, k: bool)
    ensures IsPending(Scan(buf, k).rest, k)
    decreases |buf|
  {
    var soi := IndexOf(buf, SOI, 0);
    if soi < 0 {
      ScanNoStart(buf, k);
    } else {
      var eoi := IndexOf(buf, EOI, soi + 2);
      if eoi < 0 {
        ScanUnfinished(buf, k, soi);
        IndexOfSuffix(buf, EOI, soi, 2);
        assert MarkerAt(buf[soi..], SOI, 0);
      } else {
        ScanCut(buf, k, soi, eoi);
        ScanRestIsPending(buf[eoi + 2..], k);
      }
    }
  }

  /** gaps[0] + frames[0] + gaps[1] + ... + frames[n - 1] + gaps[n]. */
  function Weave(gaps: seq<seq<Byte>>, frames: seq<seq<Byte>>): seq<Byte>
    requires |gaps| == |frames| + 1
    decreases |frames|
  {
    if frames == [] then gaps[0] else gaps[0] + frames[0] + Weave(gaps[1..], frames[1..])
  }

  /** No start marker lies inside a prefix of a buffer that has none before
      position n. */
  lemma NoStartBefore(buf: seq<Byte>, n: nat)
    requires n <= |buf|
    requires forall i :: 0 <= i < n ==> !MarkerAt(buf, SOI, i)
    ensures IndexOf(buf[..n], SOI, 0) == -1
  {
    forall i | 0 <= i
      ensures !MarkerAt(buf[..n], SOI, i)
    {
      if MarkerAt(buf[..n], SOI, i) {
        assert MarkerAt(buf, SOI, i);
      }
    }
    IndexOfIsFirst(buf[..n], SOI, 0, -1);
  }

  /** The gaps of a layout: byte runs without a start marker. */
  ghost predicate NoStartIn(gaps: seq<seq<Byte>>)
  {
    forall i :: 0 <= i < |gaps| ==> IndexOf(gaps[i], SOI, 0) == -1
  }

  /** The bytes the extractor skips: before each emitted frame, and before the
      bytes it keeps. */
  ghost function Gaps(buf: seq<Byte>, k: bool): seq<seq<Byte>>
    decreases |buf|
  {
    var soi := IndexOf(buf, SOI, 0);
    if soi < 0 then [buf[..|buf| - |Kept(buf, k)|]]
    else
      var eoi := IndexOf(buf, EOI, soi + 2);
      if eoi < 0 then [buf[..soi]]
      else [buf[..soi]] + Gaps(buf[eoi + 2..], k)
  }

  /** Layout when the buffer holds no start marker. */
  lemma LayoutNoStart(buf: seq<Byte>, k: bool)
    requires IndexOf(buf, SOI, 0) == -1
    ensures var e := Scan(buf, k); var gaps := Gaps(buf, k);
      |gaps| == |e.frames| + 1 && buf == Weave(gaps, e.frames) + e.rest && NoStartIn(gaps)
  {
    ScanNoStart(buf, k);
    var n := |buf| - |Kept(buf, k)|;
    assert buf == buf[..n] + Kept(buf, k);
    NoStartBefore(buf, n);
  }

  /** Layout when the buffer ends in an unfinished frame. */
  lemma LayoutUnfinished(buf: seq<Byte>, k: bool, soi: nat)
    requires IndexOf(buf, SOI, 0) == soi
    requires IndexOf(buf, EOI, soi + 2) == -1
    ensures var e := Scan(buf, k); var gaps := Gaps(buf, k);
      |gaps| == |e.frames| + 1 && buf == Weave(gaps, e.frames) + e.rest && NoStartIn(gaps)
  {
    ScanUnfinished(buf, k, soi);
    NoStartBefore(buf, soi);
    assert buf == buf[..soi] + buf[soi..];
  }

  /** Weaving one more gap and frame in front. */
  lemma WeaveCons(g: seq<Byte>, f: seq<Byte>, gaps: seq<seq<Byte>>, frames: seq<seq<Byte>>)
    requires |gaps| == |frames| + 1
    ensures Weave([g] + gaps, [f] + frames) == g + f + Weave(gaps, frames)
  {
    assert ([g] + gaps)[1..] == gaps;
    assert ([f] + frames)[1..] == frames;
  }

  /** Gaps of a buffer whose first frame is complete. */
  lemma GapsCut(buf: seq<Byte>, k: bool, soi: nat, eoi: nat)
    requires IndexOf(buf, SOI, 0) == soi
    requires IndexOf(buf, EOI, soi + 2) == eoi
    ensures Gaps(buf, k) == [buf[..soi]] + Gaps(buf[eoi + 2..], k)
  {
  }

  /** Layout when the first frame is complete, given the layout of what
      follows it. */
  lemma LayoutCut(buf: seq<Byte>, soi: nat, eoi: nat, tg: seq<seq<Byte>>, e: Extraction, te: Extraction)
    requires soi <= eoi && eoi + 2 <= |buf|
    requires forall i :: 0 <= i < soi ==> !MarkerAt(buf, SOI, i)
    requires |tg| == |te.frames| + 1 && buf[eoi + 2..] == Weave(tg, te.frames) + te.rest && NoStartIn(tg)
    requires e == Extraction([buf[soi..eoi + 2]] + te.frames, te.rest)
    ensures var gaps := [buf[..soi]] + tg;
      |gaps| == |e.frames| + 1 && buf == Weave(gaps, e.frames) + e.rest && NoStartIn(gaps)
  {
    var f := buf[soi..eoi + 2];
    NoStartBefore(buf, soi);
    WeaveCons(buf[..soi], f, tg, te.frames);
    assert buf == buf[..soi] + f + buf[eoi + 2..];
    var gaps := [buf[..soi]] + tg;
    forall i | 0 <= i < |gaps|
      ensures IndexOf(gaps[i], SOI, 0) == -1
    {
      if i > 0 {
        assert gaps[i] == tg[i - 1];
      }
    }
  }

  /** The emitted frames are disjoint slices of the buffer, in order, and what
      is kept is a suffix of it: the buffer is gap, frame, gap, frame, ..., gap,
      kept bytes, and no gap holds a start marker (the extractor only ever
      skips bytes that cannot begin a frame). */
  lemma {:induction false} ScanLayout(buf: seq<Byte>, k: bool)
    ensures var e := Scan(buf, k); var gaps := Gaps(buf, k);
      |gaps| == |e.frames| + 1 && buf == Weave(gaps, e.frames) + e.rest && NoStartIn(gaps)
    decreases |buf|
  {
    var soi := IndexOf(buf, SOI, 0);
    if soi < 0 {
      LayoutNoStart(buf, k);
    } else {
      var eoi := IndexOf(buf, EOI, soi + 2);
      if eoi < 0 {
        LayoutUnfinished(buf, k, soi);
      } else {
        var t := buf[eoi + 2..];
        ScanCut(buf, k, soi, eoi);
        GapsCut(buf, k, soi, eoi);
        ScanLayout(t, k);
        LayoutCut(buf, soi, eoi, Gaps(t, k), Scan(buf, k), Scan(t, k));
      }
    }
  }

  // ---------------------------------------------------------------------------
  // Chunk boundaries (the finding)

  /** As written, a start marker split across two chunks loses its frame: the
      first chunk ends in 0xFF, has no complete FF D8, and is thrown away, so the
      D8 that opens the second chunk no longer follows an FF. Delivered in one
      chunk, the same bytes yield the frame. */
  lemma SplitStartMarkerLosesFrame()
    ensures Scan([0xFF, 0xD8, 0xFF, 0xD9], false).frames == [[0xFF, 0xD8, 0xFF, 0xD9]]
    ensures Scan([0xFF], false) == Extraction([], [])
    ensures Scan([] + [0xD8, 0xFF, 0xD9], false).frames == []
  {
    var whole: seq<Byte> := [0xFF, 0xD8, 0xFF, 0xD9];
    IndexOfIsFirst(whole, SOI, 0, 0);
    IndexOfIsFirst(whole, EOI, 2, 2);
    assert whole[4..] == [];
    IndexOfIsFirst(whole[4..], SOI, 0, -1);
    ScanCut(whole, false, 0, 2);
    ScanNoStart(whole[4..], false);
    assert whole[0..4] == whole;
    var first: seq<Byte> := [0xFF];
    IndexOfIsFirst(first, SOI, 0, -1);
    ScanNoStart(first, false);
    var second: seq<Byte> := [0xD8, 0xFF, 0xD9];
    assert [] + second == second;
    assert !MarkerAt(second, SOI, 1);
    IndexOfIsFirst(second, SOI, 0, -1);
    ScanNoStart(second, false);
  }

  /** Dropping bytes without a start marker from the front of a buffer moves
      its first start marker back by their number. */
  lemma SkipPrefixSearch(g: seq<Byte>, w: seq<Byte>)
    requires forall i :: 0 <= i < |g| ==> !MarkerAt(g + w, SOI, i)
    ensures var q := IndexOf(g + w, SOI, 0); var r := IndexOf(w, SOI, 0);
      (q == -1 && r == -1) || (r >= 0 && q == r + |g|)
  {
    var s := g + w;
    assert s[|g|..] == w;
    IndexOfSuffix(s, SOI, |g|, 0);
    IndexOfIsFirst(s, SOI, 0, IndexOf(s, SOI, |g|));
  }

  /** SkipPrefix when neither buffer has a start marker. */
  lemma SkipPrefixNoStart(g: seq<Byte>, w: seq<Byte>)
    requires w != []
    requires IndexOf(g + w, SOI, 0) == -1 && IndexOf(w, SOI, 0) == -1
    ensures Scan(g + w, true) == Scan(w, true)
  {
    var s := g + w;
    ScanNoStart(s, true);
    ScanNoStart(w, true);
    assert s[|s| - 1] == w[|w| - 1];
  }

  /** SkipPrefix when the first start marker has an end marker after it. */
  lemma SkipPrefixCut(g: seq<Byte>, w: seq<Byte>, q: nat, e: nat)
    requires q >= |g| && e >= |g|
    requires IndexOf(g + w, SOI, 0) == q && IndexOf(w, SOI, 0) == q - |g|
    requires IndexOf(g + w, EOI, q + 2) == e && IndexOf(w, EOI, q - |g| + 2) == e - |g|
    ensures Scan(g + w, true) == Scan(w, true)
  {
    var s := g + w;
    var sw := q - |g|;
    ScanCut(s, true, q, e);
    ScanCut(w, true, sw, e - |g|);
    assert s[q..e + 2] == w[sw..e - |g| + 2];
    assert s[e + 2..] == w[e - |g| + 2..];
  }

  /** SkipPrefix when the first start marker has no end marker after it. */
  lemma SkipPrefixUnfinished(g: seq<Byte>, w: seq<Byte>, q: nat)
    requires q >= |g|
    requires IndexOf(g + w, SOI, 0) == q && IndexOf(w, SOI, 0) == q - |g|
    requires IndexOf(g + w, EOI, q + 2) == -1 && IndexOf(w, EOI, q - |g| + 2) == -1
    ensures Scan(g + w, true) == Scan(w, true)
  {
    var s := g + w;
    ScanUnfinished(s, true, q);
    ScanUnfinished(w, true, q - |g|);
    assert s[q..] == w[q - |g|..];
  }

  /** Bytes that hold no start marker can be dropped in front of a non-empty
      buffer without changing what the corrected extractor makes of it. */
  lemma SkipPrefix(g: seq<Byte>, w: seq<Byte>)
    requires w != []
    requires forall i :: 0 <= i < |g| ==> !MarkerAt(g + w, SOI, i)
    ensures Scan(g + w, true) == Scan(w, true)
  {
    SkipPrefixSearch(g, w);
    var q := IndexOf(g + w, SOI, 0);
    if q == -1 {
      SkipPrefixNoStart(g, w);
    } else {
      var sw := q - |g|;
      assert (g + w)[|g|..] == w;
      IndexOfSuffix(g + w, EOI, |g|, sw + 2);
      var e := IndexOf(g + w, EOI, q + 2);
      if e >= 0 {
        SkipPrefixCut(g, w, q, e);
      } else {
        SkipPrefixUnfinished(g, w, q);
      }
    }
  }

  /** A chunk without a start marker that ends in 0xFF is kept as that one
      byte, and scanning it followed by more bytes is scanning 0xFF followed by
      them. */
  lemma ChunkTrailingPrefix(x: seq<Byte>, z: seq<Byte>)
    requires IndexOf(x, SOI, 0) == -1
    requires |x| > 0 && x[|x| - 1] == MARKER_PREFIX
    ensures Scan(x + z, true) == Scan([MARKER_PREFIX] + z, true)
  {
    var g := x[..|x| - 1];
    var w := [MARKER_PREFIX] + z;
    assert x + z == g + w;
    forall i | 0 <= i < |g|
      ensures !MarkerAt(g + w, SOI, i)
    {
      assert (g + w)[i] == x[i] && (g + w)[i + 1] == x[i + 1];
      assert !MarkerAt(x, SOI, i);
    }
    SkipPrefix(g, w);
  }

  /** A chunk without a start marker that does not end in 0xFF is dropped
      entirely, and scanning it followed by more bytes is scanning them alone. */
  lemma ChunkNoStart(x: seq<Byte>, z: seq<Byte>)
    requires IndexOf(x, SOI, 0) == -1
    requires z != []
    requires !(|x| > 0 && x[|x| - 1] == MARKER_PREFIX)
    ensures Scan(x + z, true) == Scan(z, true)
  {
    forall i | 0 <= i < |x|
      ensures !MarkerAt(x + z, SOI, i)
    {
      if i + 1 < |x| {
        assert !MarkerAt(x, SOI, i);
      }
    }
    SkipPrefix(x, z);
  }

  /** An unfinished frame is kept from its start marker on, and scanning the
      chunk followed by more bytes is scanning the unfinished frame followed by
      them. */
  lemma ChunkUnfinished(x: seq<Byte>, z: seq<Byte>, soi: nat)
    requires IndexOf(x, SOI, 0) == soi
    ensures Scan(x + z, true) == Scan(x[soi..] + z, true)
  {
    var g := x[..soi];
    var w := x[soi..] + z;
    assert x + z == g + w;
    forall i | 0 <= i < soi
      ensures !MarkerAt(g + w, SOI, i)
    {
      assert !MarkerAt(x, SOI, i);
    }
    SkipPrefix(g, w);
  }

  /** A frame complete within the chunk is emitted whatever follows it. */
  lemma ChunkCut(x: seq<Byte>, z: seq<Byte>, soi: nat, eoi: nat)
    requires IndexOf(x, SOI, 0) == soi
    requires IndexOf(x, EOI, soi + 2) == eoi
    ensures var t := Scan(x[eoi + 2..] + z, true);
      Scan(x + z, true) == Extraction([x[soi..eoi + 2]] + t.frames, t.rest)
  {
    IndexOfExtend(x, z, SOI, 0);
    IndexOfExtend(x, z, EOI, soi + 2);
    ScanCut(x + z, true, soi, eoi);
    assert (x + z)[soi..eoi + 2] == x[soi..eoi + 2];
    assert (x + z)[eoi + 2..] == x[eoi + 2..] + z;
  }

  /** An extraction e followed by the scan of the bytes it keeps and z: the
      frames of both, and what the second scan keeps. */
  ghost function Join(e: Extraction, z: seq<Byte>): Extraction
  {
    var t := Scan(e.rest + z, true);
    Extraction(e.frames + t.frames, t.rest)
  }

  /** Scanning x, and then the bytes it keeps followed by z. */
  ghost function Resume(x: seq<Byte>, z: seq<Byte>): Extraction
  {
    Join(Scan(x, true), z)
  }

  /** A frame in front of an extraction stays in front after the join. */
  lemma JoinCons(f: seq<Byte>, e: Extraction, z: seq<Byte>)
    ensures Join(Extraction([f] + e.frames, e.rest), z) == Extraction([f] + Join(e, z).frames, Join(e, z).rest)
  {
    var t := Scan(e.rest + z, true);
    assert [f] + (e.frames + t.frames) == ([f] + e.frames) + t.frames;
  }


  /** With the corrected policy, how the stream is cut into chunks does not
      matter: scanning x and then the kept bytes followed by z emits exactly the
      frames, and keeps exactly the bytes, of scanning x + z at once. */
  lemma {:induction false} ChunkingInvariant(x: seq<Byte>, z: seq<Byte>)
    ensures Scan(x + z, true) == Resume(x, z)
    decreases |x|
  {
    var soi := IndexOf(x, SOI, 0);
    if soi < 0 {
      ChunkingNoStart(x, z);
    } else {
      var eoi := IndexOf(x, EOI, soi + 2);
      if eoi < 0 {
        ChunkingUnfinished(x, z, soi);
      } else {
        ChunkingInvariant(x[eoi + 2..], z);
        ChunkingCut(x, z, soi, eoi);
      }
    }
  }

  /** ChunkingInvariant when x holds no start marker. */
  lemma ChunkingNoStart(x: seq<Byte>, z: seq<Byte>)
    requires IndexOf(x, SOI, 0) == -1
    ensures Scan(x + z, true) == Resume(x, z)
  {
    ScanNoStart(x, true);
    var t := Scan(Kept(x, true) + z, true);
    assert [] + t.frames == t.frames;
    if |x| > 0 && x[|x| - 1] == MARKER_PREFIX {
      ChunkTrailingPrefix(x, z);
    } else if z == [] {
      assert x + z == x;
      assert Kept(x, true) + z == [];
      ScanNoStart([], true);
    } else {
      ChunkNoStart(x, z);
      assert Kept(x, true) + z == z;
    }
  }

  /** ChunkingInvariant when x holds a start marker but no end marker. */
  lemma ChunkingUnfinished(x: seq<Byte>, z: seq<Byte>, soi: nat)
    requires IndexOf(x, SOI, 0) == soi
    requires IndexOf(x, EOI, soi + 2) == -1
    ensures Scan(x + z, true) == Resume(x, z)
  {
    ScanUnfinished(x, true, soi);
    ChunkUnfinished(x, z, soi);
    var t := Scan(x[soi..] + z, true);
    assert [] + t.frames == t.frames;
  }

  /** ChunkingInvariant when x opens with a complete frame, given that it holds
      for what follows that frame. */
  lemma ChunkingCut(x: seq<Byte>, z: seq<Byte>, soi: nat, eoi: nat)
    requires IndexOf(x, SOI, 0) == soi
    requires IndexOf(x, EOI, soi + 2) == eoi
    requires Scan(x[eoi + 2..] + z, true) == Resume(x[eoi + 2..], z)
    ensures Scan(x + z, true) == Resume(x, z)
  {
    ChunkCut(x, z, soi, eoi);
    ResumeAfterCut(x, z, soi, eoi);
  }

  /** Resuming after a complete frame: the frame, then the resumption of what
      follows it. */
  lemma ResumeAfterCut(x: seq<Byte>, z: seq<Byte>, soi: nat, eoi: nat)
    requires IndexOf(x, SOI, 0) == soi
    requires IndexOf(x, EOI, soi + 2) == eoi
    ensures var r := Resume(x[eoi + 2..], z);
      Resume(x, z) == Extraction([x[soi..eoi + 2]] + r.frames, r.rest)
  {
    ScanCut(x, true, soi, eoi);
    JoinCons(x[soi..eoi + 2], Scan(x[eoi + 2..], true), z);
  }



}
