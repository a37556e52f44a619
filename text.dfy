/** Text helpers of the user interface: stepping over UTF-8 characters, the graymap a
    layout is rasterised into, the clipped threshold blit of that graymap onto an image
    slice, and the horizontal scrolling arithmetic of a one-line text field.

    The layout engine (Pango shaping, FreeType rasterisation) is represented by a
    `LayoutEngine` value: its functions stand for what the engine reports for a text. */
module Text {
  import opened Wrappers

  // ---------------------------------------------------------------------------
  // UTF-8 stepping

  /** A continuation byte has the bit pattern 10xxxxxx. */
  predicate IsContinuation(b: byte) { b & 0xC0 == 0x80 }

  /** Byte length of the character whose first byte is `lead`, read from its high bits in
      the order the source tests them; None for a byte that cannot start a character. */
  function LeadLength(lead: byte): Option<nat>
  {
    if lead & 0x80 == 0 then Some(1)
    else if lead & 0x40 == 0 then None
    else if lead & 0x20 == 0 then Some(2)
    else if lead & 0x10 == 0 then Some(3)
    else if lead & 0x08 == 0 then Some(4)
    else None
  }

  /** The bit tests agree with the table of lead-byte ranges in section 3 of RFC 3629. */
  lemma LeadLengthFollowsRfc3629(lead: byte)
    ensures LeadLength(lead) == Some(1) <==> lead <= 0x7F
    ensures LeadLength(lead) == Some(2) <==> 0xC0 <= lead <= 0xDF
    ensures LeadLength(lead) == Some(3) <==> 0xE0 <= lead <= 0xEF
    ensures LeadLength(lead) == Some(4) <==> 0xF0 <= lead <= 0xF7
    ensures LeadLength(lead) == None <==> (0x80 <= lead <= 0xBF || 0xF8 <= lead)
  {
  }

  /** Position i of s is a character boundary: the end, or not a continuation byte. */
  predicate IsBoundary(s: seq<byte>, i: nat)
    requires i <= |s|
  {
    i == |s| || !IsContinuation(s[i])
  }

  /** Length of the character that starts at i, when its lead byte is valid, all of its
      bytes are present and each byte after the lead is a continuation byte. */
  function CharLength(s: seq<byte>, i: nat): (n: Option<nat>)
    requires i < |s|
    ensures n.Some? ==> 1 <= n.value <= 4 && i + n.value <= |s|
  {
    match LeadLength(s[i])
    case None => None
    case Some(k) =>
      if i + k <= |s| && forall j :: i < j < i + k ==> IsContinuation(s[j]) then Some(k) else None
  }

  /** Reference definition of jumping `count` characters forward from `idx`: None exactly
      where one of the consistency checks of the source fails. */
  function Jump(s: seq<byte>, idx: nat, count: nat): (r: Option<nat>)
    requires idx <= |s|
    ensures r.Some? ==> idx <= r.value <= |s|
    decreases count
  {
    if count == 0 then
      if IsBoundary(s, idx) then Some(idx) else None
    else if idx == |s| then None
    else
      match CharLength(s, idx)
      case None => None
      case Some(n) => Jump(s, idx + n, count - 1)
  }

  /** jumpUTF8Chars: advances `count` characters from byte index `idx`, checking every
      lead and continuation byte and that the result is a boundary. A failed check (which
      aborts the process in the source) is the result None. */
  method JumpUtf8Chars(s: seq<byte>, idx: int, count: int) returns (r: Option<nat>)
    ensures r == (if 0 <= idx <= |s| && 0 <= count then Jump(s, idx, count) else None)
  {
    if idx < 0 || idx > |s| || count < 0 {
      return None;
    }
    var i: nat := idx;
    var c: nat := count;
    while c > 0
      invariant i <= |s|
      invariant Jump(s, i, c) == Jump(s, idx, count)
      decreases c
    {
      if i >= |s| {
        return None;
      }
      var lead := s[i];
      if lead & 0x80 != 0 {
        if lead & 0x40 == 0 {
          return None;
        }
        var bytes: nat;
        if lead & 0x20 == 0 {
          bytes := 2;
        } else if lead & 0x10 == 0 {
          bytes := 3;
        } else {
          bytes := 4;
          if lead & 0x08 != 0 {
            return None;
          }
        }
        if i + bytes > |s| {
          return None;
        }
        ghost var start := i;
        i := i + 1;
        var k := 0;
        while k < bytes - 1
          invariant 0 <= k <= bytes - 1
          invariant i == start + 1 + k
          invariant forall j :: start < j < i ==> IsContinuation(s[j])
        {
          if !IsContinuation(s[i]) {
            return None;
          }
          i := i + 1;
          k := k + 1;
        }
        assert CharLength(s, start) == Some(bytes);
      } else {
        i := i + 1;
      }
      c := c - 1;
    }
    if i != |s| && IsContinuation(s[i]) {
      return None;
    }
    return Some(i);
  }

  /** Each character is one to four bytes, so a successful jump of `count` characters moves
      between count and 4 * count bytes, stays within the text and ends on a boundary. */
  lemma {:induction false} JumpBounds(s: seq<byte>, idx: nat, count: nat)
    requires idx <= |s|
    requires Jump(s, idx, count).Some?
    ensures idx + count <= Jump(s, idx, count).value <= idx + 4 * count
    ensures IsBoundary(s, Jump(s, idx, count).value)
    decreases count
  {
    if count > 0 {
      var n := CharLength(s, idx).value;
      JumpBounds(s, idx + n, count - 1);
    }
  }

  /** A jump of zero characters succeeds exactly on a boundary and then stays put. */
  lemma JumpZero(s: seq<byte>, idx: nat)
    requires idx <= |s|
    ensures Jump(s, idx, 0) == (if IsBoundary(s, idx) then Some(idx) else None)
  {
  }

  /** Jumping a + b characters is jumping a characters and then b more. */
  lemma {:induction false} JumpCompose(s: seq<byte>, idx: nat, a: nat, b: nat)
    requires idx <= |s|
    ensures Jump(s, idx, a + b) ==
      (if Jump(s, idx, a).Some? then Jump(s, Jump(s, idx, a).value, b) else None)
    decreases a
  {
    if a == 0 {
      if !IsBoundary(s, idx) && b > 0 {
        assert LeadLength(s[idx]) == None;
      }
    } else if idx < |s| {
      match CharLength(s, idx)
      case None =>
      case Some(n) =>
        assert a + b - 1 == (a - 1) + b;
        JumpCompose(s, idx + n, a - 1, b);
    }
  }

  /** Jumping further never ends earlier. */
  lemma JumpMonotone(s: seq<byte>, idx: nat, a: nat, b: nat)
    requires idx <= |s| && a <= b
    requires Jump(s, idx, b).Some?
    ensures Jump(s, idx, a).Some?
    ensures Jump(s, idx, a).value <= Jump(s, idx, b).value
  {
    JumpCompose(s, idx, a, b - a);
  }

  // ---------------------------------------------------------------------------
  // Graymap

  const IntMax: int := 2147483647

  /** The 8-bit coverage raster a layout is drawn into, row by row. */
  datatype Graymap = Graymap(width: int, height: int, buffer: seq<byte>)

  predicate GraymapValid(g: Graymap)
  {
    g.width >= 1 && g.height >= 1 && |g.buffer| == g.width * g.height
  }

  /** The Graymap constructor: it checks both sides are positive and the area is small
      enough; None stands for a failed check. The buffer is zero-filled. */
  function NewGraymap(width: int, height: int): (g: Option<Graymap>)
    ensures g.Some? <==> 1 <= width && 1 <= height && width < (IntMax / 9) / height
    ensures g.Some? ==> GraymapValid(g.value) && g.value.width == width && g.value.height == height
    ensures g.Some? ==> forall i :: 0 <= i < |g.value.buffer| ==> g.value.buffer[i] == 0
  {
    if 1 <= width && 1 <= height && width < (IntMax / 9) / height then
      Some(Graymap(width, height, seq(width * height, _ => 0)))
    else
      None
  }

  /** The size check keeps nine times the area below INT_MAX, so no size computed on a
      constructed graymap overflows a 32-bit int. */
  lemma GraymapAreaFits(width: int, height: int)
    requires NewGraymap(width, height).Some?
    ensures 0 < width * height && 9 * (width * height) < IntMax
  {
    var limit := IntMax / 9;
    var q := limit / height;
    assert width + 1 <= q;
    assert q * height <= limit;
    assert (width + 1) * height <= q * height;
    assert width * height < limit;
  }

  /** Index of pixel (x, y) in a row-major buffer lies inside the buffer. */
  lemma GrayIndexInRange(g: Graymap, x: int, y: int)
    requires GraymapValid(g) && 0 <= x < g.width && 0 <= y < g.height
    ensures 0 <= y * g.width + x < |g.buffer|
  {
    assert y * g.width + x < y * g.width + g.width == (y + 1) * g.width;
    assert (y + 1) * g.width <= g.height * g.width;
  }

  function GrayAt(g: Graymap, x: int, y: int): byte
    requires GraymapValid(g) && 0 <= x < g.width && 0 <= y < g.height
  {
    GrayIndexInRange(g, x, y);
    g.buffer[y * g.width + x]
  }

  // ---------------------------------------------------------------------------
  // Rectangles, pixels and image slices

  /** A half-open rectangle [startX, endX) x [startY, endY). */
  datatype Rect = Rect(startX: int, endX: int, startY: int, endY: int)
  {
    predicate IsEmpty() { startX >= endX || startY >= endY }
    predicate Contains(x: int, y: int) { startX <= x < endX && startY <= y < endY }
  }

  function Intersection(a: Rect, b: Rect): (r: Rect)
    ensures forall x, y :: r.Contains(x, y) <==> a.Contains(x, y) && b.Contains(x, y)
  {
    Rect(Max(a.startX, b.startX), Min(a.endX, b.endX), Max(a.startY, b.startY), Min(a.endY, b.endY))
  }

  function Translate(r: Rect, dx: int, dy: int): (t: Rect)
    ensures forall x, y :: t.Contains(x, y) <==> r.Contains(x - dx, y - dy)
  {
    Rect(r.startX + dx, r.endX + dx, r.startY + dy, r.endY + dy)
  }

  /** A 32-bit pixel with bytes 0..3 in memory order: blue, green, red, and a fourth byte. */
  datatype Pixel = Pixel(b: byte, g: byte, r: byte, a: byte)

  /** An image slice: a width x height window at (x0, y0) of a shared pixel buffer. */
  datatype Slice = Slice(buf: array2<Pixel>, x0: nat, y0: nat, width: nat, height: nat)

  predicate SliceValid(d: Slice)
  {
    d.x0 + d.width <= d.buf.Length1 && d.y0 + d.height <= d.buf.Length0
  }

  /** Buffer position (i, j) (row, column) lies inside the slice. */
  predicate InSlice(d: Slice, i: int, j: int)
  {
    d.y0 <= i < d.y0 + d.height && d.x0 <= j < d.x0 + d.width
  }

  /** What the blit makes of pixel p at slice-local (x, y), for a graymap placed with its
      top-left corner at (ox, oy): colour bytes replaced where the graymap covers the pixel
      with a value of at least 128, the fourth byte kept, everything else untouched. */
  function Blitted(p: Pixel, g: Graymap, ox: int, oy: int, x: int, y: int,
                   r: byte, gg: byte, b: byte): Pixel
    requires GraymapValid(g)
  {
    var gx := x - ox;
    var gy := y - oy;
    if 0 <= gx < g.width && 0 <= gy < g.height && GrayAt(g, gx, gy) >= 128 then
      Pixel(b, gg, r, p.a)
    else
      p
  }

  /** The drawing loop of TextLayout::Impl::render for an already rasterised graymap:
      offsetY is first moved so that the bottom of the graymap meets the bottom of the
      slice, and only the pixels of the slice that the translated graymap covers are
      visited. */
  method BlitGraymap(dest: Slice, g: Graymap, offsetX: int, offsetY: int, r: byte, gg: byte, b: byte)
    requires SliceValid(dest) && GraymapValid(g)
    modifies dest.buf
    ensures forall i, j :: 0 <= i < dest.buf.Length0 && 0 <= j < dest.buf.Length1 ==>
      dest.buf[i, j] ==
        if InSlice(dest, i, j) then
          Blitted(old(dest.buf[i, j]), g, offsetX, offsetY + dest.height - g.height,
                  j - dest.x0, i - dest.y0, r, gg, b)
        else old(dest.buf[i, j])
  {
    var oy := offsetY + dest.height - g.height;
    var rect := Intersection(
      Rect(0, g.width, 0, g.height),
      Translate(Rect(0, dest.width, 0, dest.height), -offsetX, -oy));
    if !rect.IsEmpty() {
      var y := rect.startY;
      while y < rect.endY
        invariant rect.startY <= y <= rect.endY
        invariant forall i, j :: 0 <= i < dest.buf.Length0 && 0 <= j < dest.buf.Length1 ==>
          dest.buf[i, j] ==
            if InSlice(dest, i, j) && i - dest.y0 - oy < y then
              Blitted(old(dest.buf[i, j]), g, offsetX, oy, j - dest.x0, i - dest.y0, r, gg, b)
            else old(dest.buf[i, j])
      {
        var row := y + oy + dest.y0;
        var x := rect.startX;
        while x < rect.endX
          invariant rect.startX <= x <= rect.endX
          invariant forall i, j :: 0 <= i < dest.buf.Length0 && 0 <= j < dest.buf.Length1 ==>
            dest.buf[i, j] ==
              if InSlice(dest, i, j) && (i - dest.y0 - oy < y || (i == row && j - dest.x0 - offsetX < x)) then
                Blitted(old(dest.buf[i, j]), g, offsetX, oy, j - dest.x0, i - dest.y0, r, gg, b)
              else old(dest.buf[i, j])
        {
          var col := x + offsetX + dest.x0;
          if GrayAt(g, x, y) >= 128 {
            var p := dest.buf[row, col];
            dest.buf[row, col] := Pixel(b, gg, r, p.a);
          }
          x := x + 1;
        }
        y := y + 1;
      }
    }
  }

  // ---------------------------------------------------------------------------
  // Text layout

  /** A rectangle in whole pixels, as Pango reports extents. */
  datatype PixelRect = PixelRect(x: int, y: int, width: int, height: int)

  const PangoScale: int := 1024
  const GMaxInt: int := 2147483647

  /** What the layout engine computes for a text. */
  datatype LayoutEngine = LayoutEngine(
    // logical extents of the laid-out text, in pixels
    logicalExtents: seq<byte> -> PixelRect,
    // x of the cursor at a byte index, in Pango units
    cursorX: (seq<byte>, nat) -> int,
    // byte index and trailing-character count under an x coordinate in Pango units
    xToIndex: (seq<byte>, int) -> (int, int),
    // byte index and trailing count after one visual cursor move
    moveVisually: (seq<byte>, nat, bool) -> (int, int),
    // the coverage values the rasteriser draws for the text shifted by (dx, dy)
    rasterize: (seq<byte>, int, int) -> seq<byte>)

  /** C integer division, truncating toward zero. */
  function TruncDiv(a: int, d: int): (q: int)
    requires d > 0
    ensures a >= 0 ==> q == a / d
    ensures a < 0 ==> q == -((-a) / d)
  {
    if a >= 0 then a / d else -((-a) / d)
  }

  /** getExtents: the logical extents with width and height raised to at least one pixel. */
  function ClampExtents(raw: PixelRect): (e: PixelRect)
    ensures e.width >= 1 && e.height >= 1
    ensures e.x == raw.x && e.y == raw.y
    ensures raw.width >= 1 ==> e.width == raw.width
    ensures raw.height >= 1 ==> e.height == raw.height
  {
    PixelRect(raw.x, raw.y, Max(raw.width, 1), Max(raw.height, 1))
  }

  /** The first n values of `drawn`, padded with zero coverage. */
  function FitBuffer(drawn: seq<byte>, n: nat): (buf: seq<byte>)
    ensures |buf| == n
  {
    seq(n, i => if 0 <= i < |drawn| then drawn[i] else 0)
  }

  class TextLayout {
    const engine: LayoutEngine
    var text: seq<byte>
    var graymap: Option<Graymap>

    /** A cached graymap is well formed and is the rasterisation of the current text at
        the current extents. */
    ghost predicate Valid()
      reads this
    {
      graymap.Some? ==>
        var g := graymap.value;
        GraymapValid(g) && g.width == Extents().width && g.height == Extents().height
        && g.buffer == FitBuffer(engine.rasterize(text, -Extents().x, -Extents().y), g.width * g.height)
    }

    constructor (engine: LayoutEngine)
      ensures this.engine == engine && text == [] && graymap == None && Valid()
    {
      this.engine := engine;
      text := [];
      graymap := None;
    }

    /** setText: replaces the text and drops the cached graymap. */
    method SetText(newText: seq<byte>)
      modifies this
      ensures text == newText && graymap == None && Valid()
    {
      graymap := None;
      text := newText;
    }

    function Extents(): (e: PixelRect)
      reads this
      ensures e.width >= 1 && e.height >= 1
    {
      ClampExtents(engine.logicalExtents(text))
    }

    function Width(): (w: int)
      reads this
      ensures w >= 1
    {
      Extents().width
    }

    function Height(): (h: int)
      reads this
      ensures h >= 1
    {
      Extents().height
    }

    /** indexToXCoord: the cursor x of a byte index, in whole pixels, truncated toward zero. */
    function IndexToXCoord(idx: int): (x: int)
      reads this
      requires 0 <= idx <= |text|
      ensures var cx := engine.cursorX(text, idx);
              (cx >= 0 ==> 0 <= x && x * PangoScale <= cx < x * PangoScale + PangoScale)
              && (cx < 0 ==> x <= 0 && x * PangoScale - PangoScale < cx <= x * PangoScale)
    {
      TruncDiv(engine.cursorX(text, idx), PangoScale)
    }

    /** xCoordToIndex: the engine's index and trailing count, then a UTF-8 jump over the
        trailing characters; the result is a byte index within the text. */
    method XCoordToIndex(x: int) returns (r: Option<nat>)
      ensures r.Some? ==> r.value <= |text|
      ensures var (idx, trailing) := engine.xToIndex(text, x * PangoScale);
        r == (if 0 <= idx <= |text| && 0 <= trailing then Jump(text, idx, trailing) else None)
    {
      var (idx, trailing) := engine.xToIndex(text, x * PangoScale);
      r := JumpUtf8Chars(text, idx, trailing);
    }

    /** visualMoveIdx: the engine's sentinels -1 (before the start) and G_MAXINT (past the
        end) become 0 and the text length; any other index must lie in the text and is
        advanced over the trailing characters. */
    method VisualMoveIdx(idx: int, forward: bool) returns (r: Option<nat>)
      requires 0 <= idx <= |text|
      ensures r.Some? ==> r.value <= |text|
      ensures var (n, trailing) := engine.moveVisually(text, idx, forward);
        r == if n == -1 then Some(0)
             else if n == GMaxInt then Some(|text|)
             else if 0 <= n <= |text| && 0 <= trailing then Jump(text, n, trailing)
             else None
    {
      var (n, trailing) := engine.moveVisually(text, idx, forward);
      if n == -1 {
        r := Some(0);
      } else if n == GMaxInt {
        r := Some(|text|);
      } else if 0 <= n <= |text| {
        r := JumpUtf8Chars(text, n, trailing);
      } else {
        r := None;
      }
    }

    /** ensureGraymapRendered: keeps a cached graymap; otherwise allocates one of the
        clamped extents and lets the rasteriser draw into it. ok == false is a failed
        graymap size check. */
    method EnsureGraymapRendered() returns (ok: bool)
      requires Valid()
      modifies this
      ensures Valid() && text == old(text)
      ensures old(graymap).Some? ==> ok && graymap == old(graymap)
      ensures old(graymap).None? ==>
        ok == NewGraymap(Extents().width, Extents().height).Some? &&
        (ok ==> graymap.Some? && graymap.value.width == Extents().width && graymap.value.height == Extents().height) &&
        (!ok ==> graymap == None)
    {
      if graymap.Some? {
        return true;
      }
      var e := Extents();
      var made := NewGraymap(e.width, e.height);
      if made.None? {
        return false;
      }
      var g := made.value;
      graymap := Some(g.(buffer := FitBuffer(engine.rasterize(text, -e.x, -e.y), g.width * g.height)));
      ok := true;
    }

    /** render: rasterises on demand and blits the graymap onto the slice. */
    method Render(dest: Slice, offsetX: int, offsetY: int, r: byte, gg: byte, b: byte) returns (ok: bool)
      requires Valid() && SliceValid(dest)
      modifies this, dest.buf
      ensures Valid() && text == old(text)
      ensures ok ==> graymap.Some? && graymap.value.width == Width() && graymap.value.height == Height()
      ensures ok ==> graymap.Some? && forall i, j :: 0 <= i < dest.buf.Length0 && 0 <= j < dest.buf.Length1 ==>
        dest.buf[i, j] ==
          if InSlice(dest, i, j) then
            Blitted(old(dest.buf[i, j]), graymap.value, offsetX, offsetY + dest.height - graymap.value.height,
                    j - dest.x0, i - dest.y0, r, gg, b)
          else old(dest.buf[i, j])
      ensures !ok ==> forall i, j :: 0 <= i < dest.buf.Length0 && 0 <= j < dest.buf.Length1 ==>
        dest.buf[i, j] == old(dest.buf[i, j])
    {
      ok := EnsureGraymapRendered();
      if ok {
        BlitGraymap(dest, graymap.value, offsetX, offsetY, r, gg, b);
      }
    }
  }

  // ---------------------------------------------------------------------------
  // Horizontal scrolling of a one-line text field

  /** clampOffset_: the offset is kept at most textWidth + 1 - width and at least zero. */
  function ClampOffset(offset: int, textWidth: int, width: int): (r: int)
    ensures r >= 0
    ensures r == 0 || r <= textWidth + 1 - width
    ensures 0 <= offset <= textWidth + 1 - width ==> r == offset
  {
    Max(Min(offset, textWidth + 1 - width), 0)
  }

  lemma ClampOffsetIdempotent(offset: int, textWidth: int, width: int)
    ensures ClampOffset(ClampOffset(offset, textWidth, width), textWidth, width)
         == ClampOffset(offset, textWidth, width)
  {
  }

  /** The offset makeVisible asks for before clamping: the smallest change that puts
      cursor x inside a window of the given width. */
  function VisibleOffset(offset: int, x: int, width: int): (r: int)
    ensures width >= 1 ==> x + 1 - width <= r <= x
    ensures x + 1 - width <= offset <= x ==> r == offset
  {
    Max(Min(offset, x), x + 1 - width)
  }

  /** After makeVisible the cursor is inside the visible window, provided the window is
      at least a pixel wide and the cursor lies within the text's extent. */
  lemma MadeVisibleCursorShows(offset: int, x: int, textWidth: int, width: int)
    requires width >= 1 && 0 <= x <= textWidth
    ensures 0 <= x - ClampOffset(VisibleOffset(offset, x, width), textWidth, width) < width
  {
  }

  class OverflowTextLayout {
    const layout: TextLayout
    var width: int
    var offset: int

    ghost predicate Valid()
      reads this, layout
    {
      layout.Valid() && width >= 0 && offset == ClampOffset(offset, layout.Width(), width)
    }

    constructor (engine: LayoutEngine)
      ensures Valid() && fresh(layout) && layout.text == [] && width == 0 && offset == 0
    {
      layout := new TextLayout(engine);
      width := 0;
      offset := 0;
    }

    method ClampOffsetNow()
      requires layout.Valid() && width >= 0
      modifies this
      ensures Valid() && width == old(width)
      ensures offset == ClampOffset(old(offset), layout.Width(), width)
    {
      offset := Min(offset, layout.Width() + 1 - width);
      offset := Max(offset, 0);
    }

    method SetText(text: seq<byte>)
      requires Valid()
      modifies this, layout
      ensures Valid() && layout.text == text && width == old(width)
      ensures offset == ClampOffset(old(offset), layout.Width(), width)
    {
      layout.SetText(text);
      ClampOffsetNow();
    }

    method SetWidth(w: int)
      requires Valid() && w >= 0
      modifies this
      ensures Valid() && width == w
      ensures offset == ClampOffset(old(offset), layout.Width(), w)
    {
      width := w;
      ClampOffsetNow();
    }

    method SetOffset(o: int)
      requires Valid()
      modifies this
      ensures Valid() && width == old(width)
      ensures offset == ClampOffset(o, layout.Width(), width)
    {
      offset := o;
      ClampOffsetNow();
    }

    /** makeVisible: scrolls as little as needed to bring the cursor at idx into view. */
    method MakeVisible(idx: int)
      requires Valid() && 0 <= idx <= |layout.text|
      modifies this
      ensures Valid() && width == old(width)
      ensures offset == ClampOffset(VisibleOffset(old(offset), layout.IndexToXCoord(idx), width),
                                    layout.Width(), width)
      ensures width >= 1 && 0 <= layout.IndexToXCoord(idx) <= layout.Width() ==>
        0 <= IndexToXCoord(idx) < width
    {
      var x := layout.IndexToXCoord(idx);
      var o := offset;
      o := Min(o, x);
      o := Max(o, x + 1 - width);
      SetOffset(o);
      if width >= 1 && 0 <= x <= layout.Width() {
        MadeVisibleCursorShows(old(offset), x, layout.Width(), width);
      }
    }

    /** Window coordinates are layout coordinates shifted left by the offset. */
    function IndexToXCoord(idx: int): (x: int)
      reads this, layout
      requires 0 <= idx <= |layout.text|
      ensures x + offset == layout.IndexToXCoord(idx)
      ensures Valid() ==> x <= layout.IndexToXCoord(idx)
    {
      layout.IndexToXCoord(idx) - offset
    }

    method XCoordToIndex(x: int) returns (r: Option<nat>)
      ensures r.Some? ==> r.value <= |layout.text|
      ensures var (idx, trailing) := layout.engine.xToIndex(layout.text, (x + offset) * PangoScale);
        r == (if 0 <= idx <= |layout.text| && 0 <= trailing then Jump(layout.text, idx, trailing) else None)
    {
      r := layout.XCoordToIndex(x + offset);
    }

    /** visualMoveIdx: delegated unchanged to the inner layout (no offset is involved). */
    method VisualMoveIdx(idx: int, forward: bool) returns (r: Option<nat>)
      requires 0 <= idx <= |layout.text|
      ensures r.Some? ==> r.value <= |layout.text|
      ensures var (n, trailing) := layout.engine.moveVisually(layout.text, idx, forward);
        r == if n == -1 then Some(0)
             else if n == GMaxInt then Some(|layout.text|)
             else if 0 <= n <= |layout.text| && 0 <= trailing then Jump(layout.text, n, trailing)
             else None
    {
      r := layout.VisualMoveIdx(idx, forward);
    }

    /** render: draws into the leftmost `width` columns of the slice, scrolled by the offset. */
    method Render(dest: Slice, r: byte, gg: byte, b: byte) returns (ok: bool)
      requires Valid() && SliceValid(dest) && width <= dest.width
      modifies layout, dest.buf
      ensures Valid() && layout.text == old(layout.text)
      ensures ok ==> layout.graymap.Some? && layout.graymap.value.width == layout.Width()
                     && layout.graymap.value.height == layout.Height()
      ensures ok ==> layout.graymap.Some? && forall i, j :: 0 <= i < dest.buf.Length0 && 0 <= j < dest.buf.Length1 ==>
        dest.buf[i, j] ==
          if InSlice(dest.(width := width), i, j) then
            Blitted(old(dest.buf[i, j]), layout.graymap.value, -offset, dest.height - layout.graymap.value.height,
                    j - dest.x0, i - dest.y0, r, gg, b)
          else old(dest.buf[i, j])
    {
      var sub := Slice(dest.buf, dest.x0, dest.y0, width, dest.height);
      ok := layout.Render(sub, -offset, 0, r, gg, b);
    }
  }
}
