/** `jpeg_dimensions`: a scan over the markers of a JPEG stream (section B.1.1 of ITU-T T.81)
    for the first frame header, whose height and width it returns. */
module Jpeg {
  import opened Numbers
  import opened Options

  // ---- the marker classes of the scan ----------------------------------------------------------

  predicate IsStartOfFrame(marker: byte)
  {
    marker in {0xc0, 0xc1, 0xc2, 0xc3, 0xc5, 0xc6, 0xc7, 0xc9, 0xca, 0xcb, 0xcd, 0xce, 0xcf}
  }

  /** Markers the scan steps over without a length: start of image and restarts. */
  predicate IsStandalone(marker: byte)
  {
    marker == 0xd8 || 0xd0 <= marker <= 0xd7
  }

  /** End of image and start of scan: the scan gives up. */
  predicate EndsSearch(marker: byte)
  {
    marker == 0xd9 || marker == 0xda
  }

  function Be16(hi: byte, lo: byte): (r: nat)
    ensures r < 0x1_0000
  {
    hi * 256 + lo
  }

  /** `dimensions_from_u32` on two 16-bit values */
  function Dimensions(width: nat, height: nat): Option<(nat, nat)>
  {
    if width > 0 && height > 0 then Some((width, height)) else None
  }

  // ---- an independent description of the streams -------------------------------------------------

  // Marker codes of table B.1.
  const SOF0: byte := 0xc0
  const DHT: byte := 0xc4
  const JPG: byte := 0xc8
  const DAC: byte := 0xcc
  const SOF15: byte := 0xcf
  const RST0: byte := 0xd0
  const RST7: byte := 0xd7
  const SOI: byte := 0xd8
  const EOI: byte := 0xd9
  const SOS: byte := 0xda

  /** The codes from SOF0 to SOF15 begin a frame, but for the three in between that define Huffman
      tables, arithmetic coding, or nothing yet. */
  predicate BeginsFrame(code: byte)
  {
    SOF0 <= code <= SOF15 && code != DHT && code != JPG && code != DAC
  }

  predicate StandsAlone(code: byte)
  {
    code == SOI || RST0 <= code <= RST7
  }

  /** One step before the frame header: bytes that are not 0xFF, at least one 0xFF, a marker,
      and for all but the standalone markers a length-prefixed payload. */
  datatype Item =
    | Marker(junk: seq<byte>, fill: nat, marker: byte)
    | Segment(junk: seq<byte>, fill: nat, marker: byte, payload: seq<byte>)

  datatype Frame = Frame(junk: seq<byte>, fill: nat, marker: byte, precision: byte,
                         height: nat, width: nat, components: seq<byte>)

  predicate WellFormedItem(item: Item)
  {
    && 0xff !in item.junk && item.fill >= 1 && item.marker != 0xff
    && match item
       case Marker(_, _, marker) => StandsAlone(marker)
       case Segment(_, _, marker, payload) =>
         && !StandsAlone(marker) && marker != EOI && marker != SOS
         && |payload| + 2 < 0x1_0000
         && (BeginsFrame(marker) ==> |payload| < 5)
  }

  predicate WellFormedItems(items: seq<Item>)
  {
    forall i :: 0 <= i < |items| ==> WellFormedItem(items[i])
  }

  predicate WellFormedFrame(frame: Frame)
  {
    && 0xff !in frame.junk && frame.fill >= 1 && BeginsFrame(frame.marker)
    && frame.height < 0x1_0000 && frame.width < 0x1_0000
    && |frame.components| + 7 < 0x1_0000
  }

  function Fill(n: nat): (r: seq<byte>)
    ensures |r| == n && forall i :: 0 <= i < n ==> r[i] == 0xff
  {
    seq(n, i => 0xff)
  }

  function Length(n: nat): seq<byte>
    requires n < 0x1_0000
  {
    [n / 256, n % 256]
  }

  function ItemBytes(item: Item): seq<byte>
    requires WellFormedItem(item)
  {
    item.junk + (Fill(item.fill) + ([item.marker] +
      match item
      case Marker(_, _, _) => []
      case Segment(_, _, _, payload) => Length(|payload| + 2) + payload))
  }

  function ItemsBytes(items: seq<Item>): seq<byte>
    requires WellFormedItems(items)
  {
    if items == [] then [] else ItemBytes(items[0]) + ItemsBytes(items[1..])
  }

  /** Section B.2.2: length, sample precision, number of lines, samples per line, components. */
  function FrameBytes(frame: Frame): seq<byte>
    requires WellFormedFrame(frame)
  {
    frame.junk + (Fill(frame.fill) + ([frame.marker] + (Length(|frame.components| + 7)
      + ([frame.precision] + Length(frame.height) + Length(frame.width) + frame.components))))
  }

  /** `bytes` is a start of image, some items, a frame header, and anything after it. */
  ghost predicate Parses(bytes: seq<byte>, items: seq<Item>, frame: Frame, tail: seq<byte>)
  {
    WellFormedItems(items) && WellFormedFrame(frame)
    && bytes == [0xff, SOI] + (ItemsBytes(items) + (FrameBytes(frame) + tail))
  }

  // ---- the scan on the unread rest of the stream --------------------------------------------------

  function SkipJunk(s: seq<byte>): (r: seq<byte>)
    ensures |r| <= |s| && (r == [] || r[0] == 0xff)
  {
    if s == [] || s[0] == 0xff then s else SkipJunk(s[1..])
  }

  function SkipFill(s: seq<byte>): (r: seq<byte>)
    ensures |r| <= |s| && (r == [] || r[0] != 0xff)
  {
    if s == [] || s[0] != 0xff then s else SkipFill(s[1..])
  }

  function Scan(s: seq<byte>): Option<(nat, nat)>
    decreases |s|
  {
    if |s| <= 3 then None
    else ScanMarker(SkipFill(SkipJunk(s)))
  }

  /** What the marker at the head of `s` makes of the search. */
  function ScanMarker(s: seq<byte>): Option<(nat, nat)>
    decreases |s|, 0
  {
    if s == [] || EndsSearch(s[0]) then None
    else if IsStandalone(s[0]) then Scan(s[1..])
    else if |s| < 3 then None
    else
      var length := Be16(s[1], s[2]);
      if length < 2 || 1 + length > |s| then None
      else if IsStartOfFrame(s[0]) && length >= 7 then Dimensions(Be16(s[6], s[7]), Be16(s[4], s[5]))
      else Scan(s[1 + length..])
  }

  function JpegDimensionsSpec(bytes: seq<byte>): Option<(nat, nat)>
  {
    if |bytes| < 4 || bytes[0] != 0xff || bytes[1] != 0xd8 then None else Scan(bytes[2..])
  }

  /** The scan's marker classes are those of the table. */
  lemma MarkerClasses(code: byte)
    ensures IsStartOfFrame(code) <==> BeginsFrame(code)
    ensures IsStandalone(code) <==> StandsAlone(code)
    ensures EndsSearch(code) <==> code == EOI || code == SOS
  {
  }

  // ---- every described stream is read correctly ------------------------------------------------------

  lemma {:induction false} SkipJunkOf(junk: seq<byte>, t: seq<byte>)
    requires 0xff !in junk && (t == [] || t[0] == 0xff)
    ensures SkipJunk(junk + t) == t
  {
    if junk == [] {
      assert junk + t == t;
    } else {
      SkipJunkOf(junk[1..], t);
      assert (junk + t)[1..] == junk[1..] + t;
    }
  }

  lemma {:induction false} SkipFillOf(n: nat, t: seq<byte>)
    requires t == [] || t[0] != 0xff
    ensures SkipFill(Fill(n) + t) == t
  {
    if n == 0 {
      assert Fill(n) + t == t;
    } else {
      SkipFillOf(n - 1, t);
      assert (Fill(n) + t)[1..] == Fill(n - 1) + t;
    }
  }

  lemma SkipToMarker(junk: seq<byte>, fill: nat, t: seq<byte>)
    requires 0xff !in junk && fill >= 1 && t != [] && t[0] != 0xff
    ensures SkipFill(SkipJunk(junk + (Fill(fill) + t))) == t
  {
    SkipJunkOf(junk, Fill(fill) + t);
    SkipFillOf(fill, t);
  }

  lemma HeaderSlices(frame: Frame, tail: seq<byte>)
    requires WellFormedFrame(frame)
    ensures var t := [frame.marker] + (Length(|frame.components| + 7)
                + ([frame.precision] + Length(frame.height) + Length(frame.width) + frame.components)) + tail;
      |t| >= 8 + |frame.components| && t[0] == frame.marker && Be16(t[1], t[2]) == |frame.components| + 7
      && Be16(t[4], t[5]) == frame.height && Be16(t[6], t[7]) == frame.width
  {
    var t := [frame.marker] + (Length(|frame.components| + 7)
               + ([frame.precision] + Length(frame.height) + Length(frame.width) + frame.components)) + tail;
    SlicesOf(frame.marker, Length(|frame.components| + 7), frame.precision, Length(frame.height), Length(frame.width),
             frame.components + tail);
    assert t == [frame.marker] + Length(|frame.components| + 7) + [frame.precision] + Length(frame.height)
             + Length(frame.width) + (frame.components + tail);
  }

  lemma SlicesOf(a: byte, l: seq<byte>, p: byte, h: seq<byte>, w: seq<byte>, rest: seq<byte>)
    requires |l| == |h| == |w| == 2
    ensures var t := [a] + l + [p] + h + w + rest;
      |t| == 8 + |rest| && t[0] == a && t[1] == l[0] && t[2] == l[1]
      && t[4] == h[0] && t[5] == h[1] && t[6] == w[0] && t[7] == w[1]
  {
  }

  lemma ScanFrame(frame: Frame, tail: seq<byte>)
    requires WellFormedFrame(frame)
    ensures Scan(FrameBytes(frame) + tail) == Dimensions(frame.width, frame.height)
    ensures |FrameBytes(frame)| >= 9
  {
    MarkerClasses(frame.marker);
    var header := [frame.marker] + (Length(|frame.components| + 7)
                    + ([frame.precision] + Length(frame.height) + Length(frame.width) + frame.components));
    Regroup(frame.junk, Fill(frame.fill), header, tail);
    SkipToMarker(frame.junk, frame.fill, header + tail);
    HeaderSlices(frame, tail);
  }

  lemma ScanItem(item: Item, rest: seq<byte>)
    requires WellFormedItem(item) && |rest| > 3
    ensures Scan(ItemBytes(item) + rest) == Scan(rest)
  {
    MarkerClasses(item.marker);
    match item
    case Marker(junk, fill, marker) =>
      Regroup(junk, Fill(fill), [marker] + [], rest);
      SkipToMarker(junk, fill, [marker] + [] + rest);
      assert ([marker] + [] + rest)[1..] == rest;
    case Segment(junk, fill, marker, payload) =>
      var t := [marker] + (Length(|payload| + 2) + payload);
      Regroup(junk, Fill(fill), t, rest);
      SkipToMarker(junk, fill, t + rest);
      ScanSegment(marker, payload, rest);
  }

  lemma Regroup(a: seq<byte>, b: seq<byte>, c: seq<byte>, d: seq<byte>)
    ensures a + (b + c) + d == a + (b + (c + d))
  {
  }

  lemma SegmentSlices(marker: byte, payload: seq<byte>, rest: seq<byte>)
    requires |payload| + 2 < 0x1_0000
    ensures var t := [marker] + (Length(|payload| + 2) + payload) + rest;
      |t| == 3 + |payload| + |rest| && t[0] == marker && Be16(t[1], t[2]) == |payload| + 2
      && t[3 + |payload|..] == rest
  {
    var t := [marker] + (Length(|payload| + 2) + payload) + rest;
    assert t[1..3] == Length(|payload| + 2);
    assert t[1] == t[1..3][0] && t[2] == t[1..3][1];
  }

  lemma ScanSegment(marker: byte, payload: seq<byte>, rest: seq<byte>)
    requires !IsStandalone(marker) && !EndsSearch(marker) && |payload| + 2 < 0x1_0000
    requires IsStartOfFrame(marker) ==> |payload| < 5
    ensures ScanMarker([marker] + (Length(|payload| + 2) + payload) + rest) == Scan(rest)
  {
    SegmentSlices(marker, payload, rest);
  }

  lemma {:induction false} ScanItems(items: seq<Item>, frame: Frame, tail: seq<byte>)
    requires WellFormedItems(items) && WellFormedFrame(frame)
    ensures Scan(ItemsBytes(items) + (FrameBytes(frame) + tail)) == Dimensions(frame.width, frame.height)
    ensures |ItemsBytes(items) + (FrameBytes(frame) + tail)| >= 9
  {
    if items == [] {
      ScanFrame(frame, tail);
      assert ItemsBytes(items) + (FrameBytes(frame) + tail) == FrameBytes(frame) + tail;
    } else {
      var rest := ItemsBytes(items[1..]) + (FrameBytes(frame) + tail);
      ScanItems(items[1..], frame, tail);
      ScanItem(items[0], rest);
      assert ItemsBytes(items) + (FrameBytes(frame) + tail) == ItemBytes(items[0]) + rest;
    }
  }

  /** Whatever precedes and follows it, the first frame header decides the result. */
  lemma FirstFrameDecides(bytes: seq<byte>, items: seq<Item>, frame: Frame, tail: seq<byte>)
    requires Parses(bytes, items, frame, tail)
    ensures JpegDimensionsSpec(bytes) == Dimensions(frame.width, frame.height)
  {
    ScanItems(items, frame, tail);
    assert bytes[2..] == ItemsBytes(items) + (FrameBytes(frame) + tail);
  }

  // ---- nothing else is read -----------------------------------------------------------------------------

  lemma {:induction false} JunkOf(s: seq<byte>) returns (junk: seq<byte>)
    ensures 0xff !in junk && s == junk + SkipJunk(s)
  {
    if s == [] || s[0] == 0xff {
      junk := [];
    } else {
      var rest := JunkOf(s[1..]);
      junk := [s[0]] + rest;
      assert s == [s[0]] + s[1..];
    }
  }

  lemma FillFrom(m: nat)
    ensures Fill(m + 1) == [0xff] + Fill(m)
  {
  }

  lemma Prepended(a: seq<byte>, b: seq<byte>, c: seq<byte>)
    ensures a + (b + c) == a + b + c
  {
  }

  lemma {:induction false} FillOf(s: seq<byte>) returns (n: nat)
    ensures s == Fill(n) + SkipFill(s)
    ensures s != [] && s[0] == 0xff ==> n >= 1
  {
    if s == [] || s[0] != 0xff {
      n := 0;
    } else {
      var m := FillOf(s[1..]);
      n := m + 1;
      FillFrom(m);
      assert s == [0xff] + s[1..];
      Prepended([0xff], Fill(m), SkipFill(s));
    }
  }

  /** A rest that yields dimensions starts with items and a frame header of those dimensions. */
  lemma {:induction false} ScanSound(s: seq<byte>) returns (items: seq<Item>, frame: Frame, tail: seq<byte>)
    requires Scan(s).Some?
    ensures WellFormedItems(items) && WellFormedFrame(frame)
    ensures s == ItemsBytes(items) + (FrameBytes(frame) + tail)
    ensures Scan(s) == Some((frame.width, frame.height))
    decreases |s|
  {
    var junk, fill, m := MarkerOf(s);
    if IsStandalone(m[0]) {
      var more, f, t := ScanSound(m[1..]);
      StandaloneOf(junk, fill, m);
      ItemInFront(Marker(junk, fill, m[0]), more, FrameBytes(f) + t);
      items, frame, tail := [Marker(junk, fill, m[0])] + more, f, t;
    } else if IsStartOfFrame(m[0]) && Be16(m[1], m[2]) >= 7 {
      FrameOf(junk, fill, m);
      var length := Be16(m[1], m[2]);
      frame := Frame(junk, fill, m[0], m[3], Be16(m[4], m[5]), Be16(m[6], m[7]), m[8..1 + length]);
      items, tail := [], m[1 + length..];
    } else {
      var rest := m[1 + Be16(m[1], m[2])..];
      var item := SegmentOf(junk, fill, m);
      var more, f, t := ScanSound(rest);
      ItemInFront(item, more, FrameBytes(f) + t);
      items, frame, tail := [item] + more, f, t;
    }
  }

  lemma MarkerOf(s: seq<byte>) returns (junk: seq<byte>, fill: nat, m: seq<byte>)
    requires Scan(s).Some?
    ensures 0xff !in junk && fill >= 1 && m != [] && m[0] != 0xff && |m| < |s|
    ensures s == junk + (Fill(fill) + m) && Scan(s) == ScanMarker(m)
  {
    junk := JunkOf(s);
    fill := FillOf(SkipJunk(s));
    m := SkipFill(SkipJunk(s));
  }

  lemma SegmentOf(junk: seq<byte>, fill: nat, m: seq<byte>) returns (item: Item)
    requires 0xff !in junk && fill >= 1
    requires |m| >= 3 && m[0] != 0xff && !IsStandalone(m[0]) && !EndsSearch(m[0])
    requires 2 <= Be16(m[1], m[2]) < |m| && (IsStartOfFrame(m[0]) ==> Be16(m[1], m[2]) < 7)
    ensures WellFormedItem(item) && junk + (Fill(fill) + m) == ItemBytes(item) + m[1 + Be16(m[1], m[2])..]
  {
    MarkerClasses(m[0]);
    var length := Be16(m[1], m[2]);
    item := Segment(junk, fill, m[0], m[3..1 + length]);
    assert Length(length) == [m[1], m[2]];
    assert m == [m[0]] + (Length(length) + m[3..1 + length]) + m[1 + length..];
  }

  lemma ItemInFront(item: Item, more: seq<Item>, after: seq<byte>)
    requires WellFormedItem(item) && WellFormedItems(more)
    ensures WellFormedItems([item] + more)
    ensures ItemBytes(item) + (ItemsBytes(more) + after) == ItemsBytes([item] + more) + after
  {
    assert ([item] + more)[1..] == more;
    assert ItemsBytes([item] + more) == ItemBytes(item) + ItemsBytes(more);
  }

  lemma StandaloneOf(junk: seq<byte>, fill: nat, m: seq<byte>)
    requires 0xff !in junk && fill >= 1 && m != [] && m[0] != 0xff && IsStandalone(m[0])
    ensures WellFormedItem(Marker(junk, fill, m[0]))
    ensures junk + (Fill(fill) + m) == ItemBytes(Marker(junk, fill, m[0])) + m[1..]
  {
    MarkerClasses(m[0]);
    assert m == [m[0]] + m[1..];
  }

  lemma FrameOf(junk: seq<byte>, fill: nat, m: seq<byte>)
    requires 0xff !in junk && fill >= 1
    requires |m| >= 8 && IsStartOfFrame(m[0]) && 7 <= Be16(m[1], m[2]) < |m|
    ensures var length := Be16(m[1], m[2]);
      var frame := Frame(junk, fill, m[0], m[3], Be16(m[4], m[5]), Be16(m[6], m[7]), m[8..1 + length]);
      WellFormedFrame(frame) && junk + (Fill(fill) + m) == FrameBytes(frame) + m[1 + length..]
  {
    MarkerClasses(m[0]);
    var length := Be16(m[1], m[2]);
    assert Length(length) == [m[1], m[2]];
    assert Length(Be16(m[4], m[5])) == [m[4], m[5]] && Length(Be16(m[6], m[7])) == [m[6], m[7]];
    assert m == [m[0]] + ([m[1], m[2]] + ([m[3]] + [m[4], m[5]] + [m[6], m[7]] + m[8..1 + length])) + m[1 + length..];
  }

  /** A width and height come out exactly when the stream has a first frame header that
      carries them, both positive. */
  lemma DimensionsIffFrame(bytes: seq<byte>, width: nat, height: nat)
    ensures JpegDimensionsSpec(bytes) == Some((width, height))
       <==> (width > 0 && height > 0
             && exists items, frame, tail :: Parses(bytes, items, frame, tail)
                                           && frame.width == width && frame.height == height)
  {
    if JpegDimensionsSpec(bytes) == Some((width, height)) {
      var items, frame, tail := ScanSound(bytes[2..]);
      assert bytes == [0xff, SOI] + bytes[2..];
      assert Parses(bytes, items, frame, tail);
      FirstFrameDecides(bytes, items, frame, tail);
    }
    if width > 0 && height > 0 {
      forall items, frame, tail | Parses(bytes, items, frame, tail) && frame.width == width && frame.height == height
        ensures JpegDimensionsSpec(bytes) == Some((width, height))
      {
        FirstFrameDecides(bytes, items, frame, tail);
      }
    }
  }

  // ---- the loop -------------------------------------------------------------------------------------------

  /** The scan's decision, read at an index of the whole stream. */
  lemma ScanMarkerAt(bytes: seq<byte>, index: nat)
    requires index < |bytes|
    ensures ScanMarker(bytes[index..]) ==
      if EndsSearch(bytes[index]) then None
      else if IsStandalone(bytes[index]) then Scan(bytes[index + 1..])
      else if index + 3 > |bytes| then None
      else
        var length := Be16(bytes[index + 1], bytes[index + 2]);
        if length < 2 || index + 1 + length > |bytes| then None
        else if IsStartOfFrame(bytes[index]) && length >= 7 then
          Dimensions(Be16(bytes[index + 6], bytes[index + 7]), Be16(bytes[index + 4], bytes[index + 5]))
        else Scan(bytes[index + 1 + length..])
  {
    var m := bytes[index..];
    assert m[1..] == bytes[index + 1..];
    if index + 3 <= |bytes| {
      var length := Be16(m[1], m[2]);
      if index + 1 + length <= |bytes| {
        assert m[1 + length..] == bytes[index + 1 + length..];
      }
    }
  }

  /** The two inner loops: past other bytes, then past the run of 0xFF. */
  method SeekMarker(bytes: seq<byte>, start: nat) returns (index: nat)
    requires start <= |bytes|
    ensures start <= index <= |bytes|
    ensures bytes[index..] == SkipFill(SkipJunk(bytes[start..]))
  {
    index := start;
    while index < |bytes| && bytes[index] != 0xff
      invariant start <= index <= |bytes|
      invariant SkipJunk(bytes[start..]) == SkipJunk(bytes[index..])
    {
      assert bytes[index..][1..] == bytes[index + 1..];
      index := index + 1;
    }
    ghost var afterJunk := index;
    while index < |bytes| && bytes[index] == 0xff
      invariant afterJunk <= index <= |bytes|
      invariant SkipFill(bytes[afterJunk..]) == SkipFill(bytes[index..])
    {
      assert bytes[index..][1..] == bytes[index + 1..];
      index := index + 1;
    }
  }

  /** `jpeg_dimensions` */
  method JpegDimensions(bytes: seq<byte>) returns (r: Option<(nat, nat)>)
    ensures r == JpegDimensionsSpec(bytes)
  {
    if |bytes| < 4 || bytes[0] != 0xff || bytes[1] != 0xd8 {
      return None;
    }
    var index := 2;
    while index + 3 < |bytes|
      invariant 2 <= index <= |bytes|
      invariant Scan(bytes[2..]) == Scan(bytes[index..])
    {
      index := SeekMarker(bytes, index);
      if index >= |bytes| {
        return None;
      }
      ScanMarkerAt(bytes, index);
      var marker := bytes[index];
      index := index + 1;
      if marker == 0xd9 || marker == 0xda {
        return None;
      }
      if marker == 0xd8 || 0xd0 <= marker <= 0xd7 {
        continue;
      }
      if index + 2 > |bytes| {
        return None;
      }
      var segmentLength := Be16(bytes[index], bytes[index + 1]);
      if segmentLength < 2 || index + segmentLength > |bytes| {
        return None;
      }
      if IsStartOfFrame(marker) && segmentLength >= 7 {
        var height := Be16(bytes[index + 3], bytes[index + 4]);
        var width := Be16(bytes[index + 5], bytes[index + 6]);
        return Dimensions(width, height);
      }
      index := index + segmentLength;
    }
    return None;
  }
}
