/** The JPEG frame extractor that both scripts run on the camera's byte stream:
    every read is appended to a buffer, and one frame is cut out when the
    buffer holds both a start-of-image and an end-of-image marker. */
module Frames {
  import opened Wrappers

  type byte = bv8

  /** Second byte of the start-of-image marker FF D8. */
  const SOI: byte := 0xD8

  /** Second byte of the end-of-image marker FF D9. */
  const EOI: byte := 0xD9

  /** The two-byte marker FF `second` starts at offset `i` of `s`. */
  predicate MarkerAt(s: seq<byte>, i: int, second: byte) {
    0 <= i < |s| - 1 && s[i] == 0xFF && s[i + 1] == second
  }

  /** `i` is the lowest offset at which the marker FF `second` starts. */
  predicate IsFirstMarker(s: seq<byte>, i: int, second: byte) {
    MarkerAt(s, i, second) && forall k :: 0 <= k < i ==> !MarkerAt(s, k, second)
  }

  /** A complete frame: it opens with FF D8 and its first FF D9 is its last two bytes. */
  predicate IsFrame(f: seq<byte>) {
    |f| >= 4 && MarkerAt(f, 0, SOI) && IsFirstMarker(f, |f| - 2, EOI)
  }

  function FindFrom(s: seq<byte>, second: byte, from: nat): (r: int)
    requires from <= |s|
    decreases |s| - from
    ensures r == -1 || (from <= r && MarkerAt(s, r, second))
    ensures forall k :: from <= k && (r == -1 || k < r) ==> !MarkerAt(s, k, second)
  {
    if from + 1 >= |s| then -1
    else if s[from] == 0xFF && s[from + 1] == second then from
    else FindFrom(s, second, from + 1)
  }

  /** `bytes.find` of the marker FF `second`, searched from offset 0:
      the lowest offset at which it occurs, or -1 when it does not occur. */
  function Find(s: seq<byte>, second: byte): (r: int)
    ensures r == -1 <==> forall k :: !MarkerAt(s, k, second)
    ensures r != -1 ==> IsFirstMarker(s, r, second)
  {
    FindFrom(s, second, 0)
  }

  /** `isValidJPEG`: both markers were found (neither offset is -1). */
  function IsValidJPEG(head: int, end: int): (valid: bool)
    ensures head >= -1 && end >= -1 ==> (valid <==> head != -1 && end != -1)
  {
    head > -1 && end > -1
  }

  /** Python's `s[lo:hi]` for non-negative bounds with `hi` inside `s`:
      empty when the bounds cross. */
  function Slice(s: seq<byte>, lo: nat, hi: nat): (r: seq<byte>)
    requires hi <= |s|
    ensures |r| == if lo <= hi then hi - lo else 0
    ensures forall k :: 0 <= k < |r| ==> r[k] == s[lo + k]
  {
    if lo <= hi then s[lo..hi] else []
  }

  /** One extraction step on the buffer after a read has been appended:
      the frame taken, if any, and the buffer kept for the next read. */
  function Scan(buffer: seq<byte>): (r: (Option<seq<byte>>, seq<byte>))
    // a frame is taken exactly when both markers occur somewhere
    ensures r.0.Some? <==> (exists i :: MarkerAt(buffer, i, SOI)) && (exists j :: MarkerAt(buffer, j, EOI))
    // otherwise the buffer is kept whole
    ensures r.0.None? ==> r.1 == buffer
    // after a frame, what is kept is everything after the first FF D9
    ensures r.0.Some? ==> exists e :: IsFirstMarker(buffer, e, EOI) && r.1 == buffer[e + 2..]
    // start before end: the frame runs from the first FF D8 through the first FF D9
    ensures forall h, e :: IsFirstMarker(buffer, h, SOI) && IsFirstMarker(buffer, e, EOI) && h < e ==>
              r.0 == Some(buffer[h..e + 2]) && IsFrame(buffer[h..e + 2])
    // end before start: the frame is empty, yet the bytes through FF D9 are dropped
    ensures forall h, e :: IsFirstMarker(buffer, h, SOI) && IsFirstMarker(buffer, e, EOI) && e < h ==>
              r.0 == Some([])
  {
    var head := Find(buffer, SOI);
    var end := Find(buffer, EOI);
    if IsValidJPEG(head, end) then
      if head < end then
        FrameInside(buffer, head, end);
        (Some(Slice(buffer, head, end + 2)), buffer[end + 2..])
      else
        (Some(Slice(buffer, head, end + 2)), buffer[end + 2..])
    else
      (None, buffer)
  }

  /** The bytes from the first FF D8 through the first FF D9 form a frame. */
  lemma FrameInside(s: seq<byte>, h: int, e: int)
    requires IsFirstMarker(s, h, SOI) && IsFirstMarker(s, e, EOI) && h < e
    ensures IsFrame(s[h..e + 2])
  {
    var f := s[h..e + 2];
    assert h + 1 < e;
    forall k | 0 <= k < |f| - 2
      ensures !MarkerAt(f, k, EOI)
    {
      if MarkerAt(f, k, EOI) {
        assert MarkerAt(s, h + k, EOI);
      }
    }
  }

  /** The first occurrence of a marker is unique, so Find returns it. */
  lemma FindIsFirst(s: seq<byte>, second: byte, i: int)
    requires IsFirstMarker(s, i, second)
    ensures Find(s, second) == i
  {
    var r := Find(s, second);
    assert r != -1;
    if r < i {
      assert MarkerAt(s, r, second);
    }
  }

  /** A buffer holding exactly one complete frame yields it and is emptied. */
  lemma {:induction false} FrameAloneIsTaken(f: seq<byte>)
    requires IsFrame(f)
    ensures Scan(f) == (Some(f), [])
  {
    FindIsFirst(f, SOI, 0);
    FindIsFirst(f, EOI, |f| - 2);
    assert f[0..|f|] == f;
  }

  /** A frame split over two reads: nothing is emitted while its end marker is
      incomplete, and the whole frame comes out after the second read. */
  lemma {:induction false} SplitFrameWaitsForEnd(c1: seq<byte>, c2: seq<byte>)
    requires IsFrame(c1 + c2)
    requires forall k :: !MarkerAt(c1, k, EOI)
    ensures Scan([] + c1) == (None, c1)
    ensures Scan(c1 + c2) == (Some(c1 + c2), [])
  {
    assert [] + c1 == c1;
    FrameAloneIsTaken(c1 + c2);
  }

  /** A buffer that opens with a complete frame yields that frame and keeps
      whatever follows it, whatever that is. */
  lemma {:induction false} FrameThenRest(f: seq<byte>, rest: seq<byte>)
    requires IsFrame(f)
    ensures Scan(f + rest) == (Some(f), rest)
  {
    var s := f + rest;
    assert MarkerAt(s, 0, SOI);
    FindIsFirst(s, SOI, 0);
    forall k | 0 <= k < |f| - 2
      ensures !MarkerAt(s, k, EOI)
    {
      if MarkerAt(s, k, EOI) {
        assert MarkerAt(f, k, EOI);
      }
    }
    assert MarkerAt(s, |f| - 2, EOI);
    FindIsFirst(s, EOI, |f| - 2);
    assert s[0..|f|] == f;
    assert s[|f|..] == rest;
  }

  /** Two complete frames in one read: only the first is taken; the second
      stays in the buffer whole, and comes out on the next read whatever
      that read adds. */
  lemma {:induction false} TwoFramesOneRead(f: seq<byte>, g: seq<byte>)
    requires IsFrame(f) && IsFrame(g)
    ensures Scan(f + g) == (Some(f), g)
    ensures forall c :: Scan(g + c) == (Some(g), c)
  {
    FrameThenRest(f, g);
    forall c
      ensures Scan(g + c) == (Some(g), c)
    {
      FrameThenRest(g, c);
    }
  }

  /** The extractor's state between reads: the bytes not yet consumed. */
  class FrameExtractor {
    var buffer: seq<byte>

    /** `bitSequence = b''` */
    constructor ()
      ensures buffer == []
    {
      buffer := [];
    }

    /** Appends one read of the stream and takes at most one frame out. */
    method Extend(chunk: seq<byte>) returns (frame: Option<seq<byte>>)
      modifies this
      ensures (frame, buffer) == Scan(old(buffer) + chunk)
    {
      buffer := buffer + chunk;
      var jpgHead := Find(buffer, SOI);
      var jpgEnd := Find(buffer, EOI);
      if IsValidJPEG(jpgHead, jpgEnd) {
        frame := Some(Slice(buffer, jpgHead, jpgEnd + 2));
        buffer := buffer[jpgEnd + 2..];
      } else {
        frame := None;
      }
    }
  }
}
