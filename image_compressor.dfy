/** The scheduling of the image compressor of the retrojsvice plugin
    (viceplugins/retrojsvice/src/image_compressor.cpp): on its API thread, three flags
    decide when a compression starts, when a frame request is served at once or made to
    wait, and how a finished compression is taken in. The worker thread is one explicit
    step that runs the scheduled task; the codecs are reduced to a record of what they
    were given. */
module ImageCompressorSpec {
  import opened Wrappers

  /** The quality bounds (quality.hpp, not part of this model): qualities from 10 up to
      100 are JPEG qualities and 101 means PNG, available only when PNG is allowed. */
  const MinQuality: nat := 10
  const MaxQuality: nat := 101

  function MaxQualityFor(allowPNG: bool): nat
  {
    if allowPNG then MaxQuality else MaxQuality - 1
  }

  /** fetchImage_ copies at most this many pixels per axis. */
  const MaxFetchSize: nat := 16384

  /** The image the event handler offers: 4 bytes per pixel, rows pitch pixels apart. */
  datatype Source = Source(pixels: seq<byte>, width: nat, height: nat, pitch: nat)

  /** A fetched image: 4 bytes per pixel, rows packed. */
  datatype Frame = Frame(data: seq<byte>, width: nat, height: nat)

  /** What a compression produced, with what it was given. */
  datatype CompressedImage =
    | WhitePixel
    | Png(frame: Frame)
    | Jpeg(frame: Frame, quality: nat)

  /** A compression waiting for the worker thread. */
  datatype CompressTask = CompressTask(quality: nat, frame: Frame)

  /** A frame request answered with an image. */
  datatype Served = Served(request: nat, image: CompressedImage)

  // ---------------------------------------------------------------- fetchImage_

  /** Every one of count rows, the first at offset off and each stride bytes after the
      previous one, has its first rowLen - 1 bytes inside a buffer of n bytes. */
  predicate RowsInside(n: nat, off: nat, stride: nat, rowLen: nat, count: nat)
    decreases count
  {
    count == 0 || (off + rowLen - 1 <= n && RowsInside(n, off + stride, stride, rowLen, count - 1))
  }

  /** What the handler's callback demands: a non-empty image whose copied rows lie inside
      the pixel buffer. */
  predicate SourceFits(src: Source)
  {
    1 <= src.width && 1 <= src.height
    && RowsInside(|src.pixels|, 0, 4 * src.pitch, 4 * Min(src.width, MaxFetchSize),
                  Min(src.height, MaxFetchSize))
  }

  /** No handler, or one offering a fitting image. */
  predicate HandlerFits(handler: Option<Source>)
  {
    handler.Some? ==> SourceFits(handler.value)
  }

  /** One packed row: every byte of the source row but the last, then 255. */
  function Row(pixels: seq<byte>, off: nat, rowLen: nat): seq<byte>
    requires 1 <= rowLen && off + rowLen - 1 <= |pixels|
  {
    pixels[off..off + rowLen - 1] + [255]
  }

  /** count packed rows, read from the source at off, off + stride, and so on. */
  function Rows(pixels: seq<byte>, off: nat, stride: nat, rowLen: nat, count: nat): seq<byte>
    requires 1 <= rowLen && RowsInside(|pixels|, off, stride, rowLen, count)
    decreases count
  {
    if count == 0 then []
    else Row(pixels, off, rowLen) + Rows(pixels, off + stride, stride, rowLen, count - 1)
  }

  /** The image fetchImage_ returns: the handler's image clipped to 16384 pixels per axis,
      or a single white pixel when the handler is gone. */
  function FetchedFrame(handler: Option<Source>): Frame
    requires HandlerFits(handler)
  {
    match handler
    case None => Frame([255, 255, 255, 255], 1, 1)
    case Some(src) =>
      var w := Min(src.width, MaxFetchSize);
      var h := Min(src.height, MaxFetchSize);
      Frame(Rows(src.pixels, 0, 4 * src.pitch, 4 * w, h), w, h)
  }

  /** A frame the codecs accept: non-empty, 4 bytes per pixel. */
  predicate FrameValid(f: Frame)
  {
    1 <= f.width && 1 <= f.height && |f.data| == 4 * f.width * f.height
  }

  lemma MulSucc(a: nat, b: nat)
    ensures (a + 1) * b == a * b + b
  {
  }

  lemma {:induction false} RowsLength(pixels: seq<byte>, off: nat, stride: nat, rowLen: nat, count: nat)
    requires 1 <= rowLen && RowsInside(|pixels|, off, stride, rowLen, count)
    ensures |Rows(pixels, off, stride, rowLen, count)| == count * rowLen
    decreases count
  {
    if count > 0 {
      RowsLength(pixels, off + stride, stride, rowLen, count - 1);
      MulSucc(count - 1, rowLen);
    }
  }

  /** r is y steps of len: the offset of row y when rows are len apart. */
  predicate RowStarts(y: nat, len: nat, r: nat)
    decreases y
  {
    if y == 0 then r == 0 else r >= len && RowStarts(y - 1, len, r - len)
  }

  lemma {:induction false} ProductStarts(y: nat, len: nat)
    ensures RowStarts(y, len, y * len)
    decreases y
  {
    if y > 0 {
      ProductStarts(y - 1, len);
      assert y * len == (y - 1) * len + len;
    }
  }

  /** RowsIndex with the two row offsets given as RowStarts instead of products. */
  lemma {:induction false} RowsIndexAt(pixels: seq<byte>, off: nat, stride: nat, rowLen: nat,
                                       count: nat, y: nat, x: nat, ry: nat, sy: nat)
    requires 1 <= rowLen && RowsInside(|pixels|, off, stride, rowLen, count)
    requires y < count && x < rowLen
    requires RowStarts(y, rowLen, ry) && RowStarts(y, stride, sy)
    ensures ry + x < |Rows(pixels, off, stride, rowLen, count)|
    ensures off + sy + rowLen - 1 <= |pixels|
    ensures Rows(pixels, off, stride, rowLen, count)[ry + x]
            == if x < rowLen - 1 then pixels[off + sy + x] else 255
    decreases y
  {
    var whole := Rows(pixels, off, stride, rowLen, count);
    var row := Row(pixels, off, rowLen);
    var rest := Rows(pixels, off + stride, stride, rowLen, count - 1);
    assert whole == row + rest;
    if y > 0 {
      RowsIndexAt(pixels, off + stride, stride, rowLen, count - 1, y - 1, x, ry - rowLen, sy - stride);
    }
  }

  /** Byte x of packed row y comes from byte x of source row y, except the last byte of
      each row, which stays 255. */
  lemma RowsIndex(pixels: seq<byte>, off: nat, stride: nat, rowLen: nat,
                  count: nat, y: nat, x: nat)
    requires 1 <= rowLen && RowsInside(|pixels|, off, stride, rowLen, count)
    requires y < count && x < rowLen
    ensures y * rowLen + x < |Rows(pixels, off, stride, rowLen, count)|
    ensures off + y * stride + rowLen - 1 <= |pixels|
    ensures Rows(pixels, off, stride, rowLen, count)[y * rowLen + x]
            == if x < rowLen - 1 then pixels[off + y * stride + x] else 255
  {
    ProductStarts(y, rowLen);
    ProductStarts(y, stride);
    RowsIndexAt(pixels, off, stride, rowLen, count, y, x, y * rowLen, y * stride);
  }

  /** The rows lie inside the buffer exactly when the last one does. */
  lemma {:induction false} RowsInsideIff(n: nat, off: nat, stride: nat, rowLen: nat, count: nat)
    ensures RowsInside(n, off, stride, rowLen, count)
            <==> count == 0 || off + (count - 1) * stride + rowLen - 1 <= n
    decreases count
  {
    if count > 1 {
      RowsInsideIff(n, off + stride, stride, rowLen, count - 1);
      MulSucc(count - 2, stride);
    }
  }

  /** fetchImage_: both dimensions clipped to 16384, a buffer of 4 bytes per pixel, and a
      white pixel when there is no handler. */
  lemma FetchedFrameShape(handler: Option<Source>)
    requires HandlerFits(handler)
    ensures var f := FetchedFrame(handler);
            FrameValid(f) && f.width <= MaxFetchSize && f.height <= MaxFetchSize
    ensures handler.None? ==> FetchedFrame(handler) == Frame([255, 255, 255, 255], 1, 1)
    ensures handler.Some? ==>
              FetchedFrame(handler).width == Min(handler.value.width, MaxFetchSize)
              && FetchedFrame(handler).height == Min(handler.value.height, MaxFetchSize)
  {
    if handler.Some? {
      var src := handler.value;
      var w := Min(src.width, MaxFetchSize);
      var h := Min(src.height, MaxFetchSize);
      RowsLength(src.pixels, 0, 4 * src.pitch, 4 * w, h);
      assert h * (4 * w) == 4 * w * h;
    }
  }

  /** The position of byte x of row y when rows are rowBytes bytes apart. */
  function ByteIndex(y: nat, rowBytes: nat, x: nat): nat
  {
    y * rowBytes + x
  }

  /** fetchImage_: byte x of row y is byte x of the source's row y (rows 4 * pitch bytes
      apart), except the last byte of each row, which is 255. */
  lemma FetchedBytes(src: Source, y: nat, x: nat)
    requires SourceFits(src)
    requires y < Min(src.height, MaxFetchSize) && x < 4 * Min(src.width, MaxFetchSize)
    ensures var f := FetchedFrame(Some(src));
            ByteIndex(y, 4 * f.width, x) < |f.data|
            && (x < 4 * f.width - 1 ==>
                  ByteIndex(y, 4 * src.pitch, x) < |src.pixels|
                  && f.data[ByteIndex(y, 4 * f.width, x)] == src.pixels[ByteIndex(y, 4 * src.pitch, x)])
            && (x == 4 * f.width - 1 ==> f.data[ByteIndex(y, 4 * f.width, x)] == 255)
  {
    RowsIndex(src.pixels, 0, 4 * src.pitch, 4 * Min(src.width, MaxFetchSize),
              Min(src.height, MaxFetchSize), y, x);
  }

  // ---------------------------------------------------------------- scheduling

  /** Everything of the compressor that the API thread reads and writes. task is the
      scheduled task of the worker (set exactly when compressorTaskScheduled_ is);
      done is a finished compression posted back to the API thread; waiting is the
      request of the pending delayed send (waitTag_). */
  datatype CompressorState = CompressorState(
    allowPNG: bool,
    quality: nat,
    imageUpdated: bool,
    compressedImageUpdated: bool,
    compressionInProgress: bool,
    task: Option<CompressTask>,
    done: Option<CompressedImage>,
    image: CompressedImage,
    waiting: Option<nat>,
    served: seq<Served>,
    shutdownScheduled: bool)

  predicate QualityInRange(quality: nat, allowPNG: bool)
  {
    MinQuality <= quality <= MaxQualityFor(allowPNG)
  }

  /** A compression is in progress exactly while one task is scheduled or its result is
      on its way back; there is never more than one. A fresh compressed image means none
      is in progress, and no request waits while one is there. */
  predicate Inv(s: CompressorState)
  {
    QualityInRange(s.quality, s.allowPNG)
    && (s.compressionInProgress <==> s.task.Some? || s.done.Some?)
    && !(s.task.Some? && s.done.Some?)
    && (s.task.Some? ==> QualityInRange(s.task.value.quality, s.allowPNG) && FrameValid(s.task.value.frame))
    && (s.compressedImageUpdated ==> !s.compressionInProgress)
    && (s.waiting.Some? ==> !s.compressedImageUpdated)
  }

  function Initial(allowPNG: bool, quality: nat): CompressorState
  {
    CompressorState(allowPNG, quality, false, false, false, None, None, WhitePixel, None, [], false)
  }

  /** pump_: a compression of the freshly fetched image starts only when none is in
      progress, the image has changed, and the last compressed image has been served. */
  function Pump(s: CompressorState, handler: Option<Source>): CompressorState
    requires HandlerFits(handler)
  {
    if s.compressionInProgress || !s.imageUpdated || s.compressedImageUpdated then s
    else s.(compressionInProgress := true, imageUpdated := false,
            task := Some(CompressTask(s.quality, FetchedFrame(handler))))
  }

  function UpdateNotify(s: CompressorState, handler: Option<Source>): CompressorState
    requires HandlerFits(handler)
  {
    Pump(s.(imageUpdated := true), handler)
  }

  function SetQuality(s: CompressorState, quality: nat, handler: Option<Source>): CompressorState
    requires HandlerFits(handler)
  {
    if quality != s.quality then UpdateNotify(s.(quality := quality), handler) else s
  }

  /** The body of sendCompressedImageNow after its flush: serve the current image, mark
      it consumed and pump. */
  function Serve(s: CompressorState, request: nat, handler: Option<Source>): CompressorState
    requires HandlerFits(handler)
  {
    Pump(s.(served := s.served + [Served(request, s.image)], compressedImageUpdated := false), handler)
  }

  /** flush: a pending delayed send runs now. */
  function Flush(s: CompressorState, handler: Option<Source>): CompressorState
    requires HandlerFits(handler)
  {
    match s.waiting
    case Some(request) => Serve(s.(waiting := None), request, handler)
    case None => s
  }

  function SendNow(s: CompressorState, request: nat, handler: Option<Source>): CompressorState
    requires HandlerFits(handler)
  {
    Serve(Flush(s, handler), request, handler)
  }

  /** sendCompressedImageWait: served at once when a fresh image is there, otherwise the
      request waits for the next one or the send timeout. */
  function SendWait(s: CompressorState, request: nat, handler: Option<Source>): CompressorState
    requires HandlerFits(handler)
  {
    var s1 := Flush(s, handler);
    if s1.compressedImageUpdated then SendNow(s1, request, handler)
    else s1.(waiting := Some(request))
  }

  /** What the codec makes of a task: PNG at the maximum quality, JPEG otherwise. */
  function Compress(task: CompressTask): CompressedImage
  {
    if task.quality == MaxQuality then Png(task.frame) else Jpeg(task.frame, task.quality)
  }

  /** The worker thread takes the scheduled task, runs it and posts the result; once
      shutdown is scheduled it has stopped. */
  function RunTask(s: CompressorState): CompressorState
  {
    if s.shutdownScheduled then s
    else
      match s.task
      case Some(task) => s.(task := None, done := Some(Compress(task)))
      case None => s
  }

  /** compressTaskDone_: the result becomes the current image, and a waiting request is
      answered with it. */
  function CompressTaskDone(s: CompressorState, handler: Option<Source>): CompressorState
    requires s.done.Some? && HandlerFits(handler)
  {
    Flush(s.(compressionInProgress := false, compressedImageUpdated := true,
             image := s.done.value, done := None), handler)
  }

  // ---------------------------------------------------------------- properties

  lemma InitialInv(allowPNG: bool, quality: nat)
    requires QualityInRange(quality, allowPNG)
    ensures Inv(Initial(allowPNG, quality))
    ensures Initial(allowPNG, quality).image == WhitePixel
    ensures var s := Initial(allowPNG, quality);
            !s.imageUpdated && !s.compressedImageUpdated && !s.compressionInProgress
            && s.task.None? && s.served == [] && !s.shutdownScheduled
  {
  }

  lemma PumpKeepsInv(s: CompressorState, handler: Option<Source>)
    requires Inv(s) && HandlerFits(handler)
    ensures Inv(Pump(s, handler))
  {
    FetchedFrameShape(handler);
  }

  /** pump_ starts a compression exactly when none is in progress, the image has changed
      and no fresh compressed image waits to be served; starting clears the change and
      schedules the one task, for the current quality. */
  lemma PumpStartsIff(s: CompressorState, handler: Option<Source>)
    requires Inv(s) && HandlerFits(handler)
    ensures var r := Pump(s, handler);
            (r.task.Some? && s.task.None?)
            <==> (!s.compressionInProgress && s.imageUpdated && !s.compressedImageUpdated)
    ensures var r := Pump(s, handler);
            r.task.Some? && s.task.None? ==>
              r.compressionInProgress && !r.imageUpdated
              && r.task.value == CompressTask(s.quality, FetchedFrame(handler))
              && r.served == s.served && r.image == s.image
    ensures var r := Pump(s, handler);
            !(r.task.Some? && s.task.None?) ==> r == s
  {
  }

  lemma ServeKeepsInv(s: CompressorState, request: nat, handler: Option<Source>)
    requires Inv(s) && s.waiting.None? && HandlerFits(handler)
    ensures Inv(Serve(s, request, handler))
  {
    PumpKeepsInv(s.(served := s.served + [Served(request, s.image)], compressedImageUpdated := false),
                 handler);
  }

  lemma FlushKeepsInv(s: CompressorState, handler: Option<Source>)
    requires Inv(s) && HandlerFits(handler)
    ensures Inv(Flush(s, handler)) && Flush(s, handler).waiting.None?
  {
    if s.waiting.Some? {
      ServeKeepsInv(s.(waiting := None), s.waiting.value, handler);
    }
  }

  /** sendCompressedImageNow answers the request with the current image, after the
      waiting request if any, and leaves no fresh image marked. */
  lemma SendNowServes(s: CompressorState, request: nat, handler: Option<Source>)
    requires Inv(s) && HandlerFits(handler)
    ensures var r := SendNow(s, request, handler);
            var f := Flush(s, handler);
            Inv(r) && r.waiting.None?
            && r.served == f.served + [Served(request, f.image)]
            && !r.compressedImageUpdated
            && r.image == s.image
            && (s.waiting.Some? ==> f.served == s.served + [Served(s.waiting.value, s.image)])
            && (s.waiting.None? ==> f == s)
  {
    FlushKeepsInv(s, handler);
    ServeKeepsInv(Flush(s, handler), request, handler);
  }

  /** sendCompressedImageWait serves at once exactly when a fresh image is there, and
      otherwise keeps the request waiting without serving it. */
  lemma SendWaitServesIff(s: CompressorState, request: nat, handler: Option<Source>)
    requires Inv(s) && s.waiting.None? && HandlerFits(handler)
    ensures var r := SendWait(s, request, handler);
            Inv(r)
            && (s.compressedImageUpdated ==>
                  r.served == s.served + [Served(request, s.image)] && r.waiting.None?)
            && (!s.compressedImageUpdated ==>
                  r == s.(waiting := Some(request)))
  {
    if s.compressedImageUpdated {
      SendNowServes(s, request, handler);
    }
  }

  /** A wait-mode request arriving while another one waits: the flush answers the older
      request with the current image, and the new one takes its place. */
  lemma SendWaitReplacesWaiting(s: CompressorState, request: nat, handler: Option<Source>)
    requires Inv(s) && s.waiting.Some? && HandlerFits(handler)
    ensures var r := SendWait(s, request, handler);
            Inv(r)
            && r.waiting == Some(request)
            && r.served == s.served + [Served(s.waiting.value, s.image)]
            && r.image == s.image
            && !r.compressedImageUpdated
  {
    FlushKeepsInv(s, handler);
  }

  /** The worker's step: PNG exactly at the maximum quality; a JPEG quality is always in
      (0, 100]; the codec always gets a non-empty buffer of 4 bytes per pixel. */
  lemma RunTaskCompresses(s: CompressorState)
    requires Inv(s) && s.task.Some? && !s.shutdownScheduled
    ensures var r := RunTask(s);
            var t := s.task.value;
            Inv(r) && r.task.None? && r.compressionInProgress
            && r.done == Some(Compress(t))
            && (r.done.value.Png? <==> t.quality == MaxQuality)
            && (r.done.value.Jpeg? ==> 0 < r.done.value.quality <= 100)
            && FrameValid(t.frame)
  {
  }

  /** After the destructor has scheduled the shutdown, the worker runs nothing more. */
  lemma ShutdownStopsWorker(s: CompressorState)
    ensures RunTask(s.(shutdownScheduled := true)) == s.(shutdownScheduled := true)
    ensures Inv(s) ==> Inv(s.(shutdownScheduled := true))
  {
  }

  /** compressTaskDone_: with no request waiting, the result is the current image, marked
      fresh, and nothing is in progress; with one, it is answered with the result. */
  lemma CompressTaskDoneRules(s: CompressorState, handler: Option<Source>)
    requires Inv(s) && s.done.Some? && HandlerFits(handler)
    ensures var r := CompressTaskDone(s, handler);
            Inv(r) && r.image == s.done.value && r.done.None? && r.waiting.None?
            && (s.waiting.None? ==>
                  r.compressedImageUpdated && !r.compressionInProgress && r.served == s.served)
            && (s.waiting.Some? ==>
                  r.served == s.served + [Served(s.waiting.value, s.done.value)]
                  && !r.compressedImageUpdated)
  {
    var s1 := s.(compressionInProgress := false, compressedImageUpdated := true,
                 image := s.done.value, done := None);
    if s.waiting.Some? {
      ServeKeepsInv(s1.(waiting := None), s.waiting.value, handler);
    }
  }

  /** setQuality: the same quality changes nothing; a new one is stored and counts as a
      changed image. */
  lemma SetQualityRules(s: CompressorState, quality: nat, handler: Option<Source>)
    requires Inv(s) && QualityInRange(quality, s.allowPNG) && HandlerFits(handler)
    ensures quality == s.quality ==> SetQuality(s, quality, handler) == s
    ensures quality != s.quality ==>
              SetQuality(s, quality, handler) == Pump(s.(quality := quality, imageUpdated := true), handler)
              && SetQuality(s, quality, handler).quality == quality
    ensures Inv(SetQuality(s, quality, handler))
  {
    PumpKeepsInv(s.(quality := quality, imageUpdated := true), handler);
  }

  lemma UpdateNotifyKeepsInv(s: CompressorState, handler: Option<Source>)
    requires Inv(s) && HandlerFits(handler)
    ensures Inv(UpdateNotify(s, handler))
    ensures UpdateNotify(s, handler).imageUpdated || UpdateNotify(s, handler).compressionInProgress
  {
    PumpKeepsInv(s.(imageUpdated := true), handler);
  }
}

/** The compressor object itself, each operation proved against its counterpart in
    ImageCompressorSpec. */
module ImageCompressor {
  import opened Wrappers
  import opened ImageCompressorSpec

  /** fetchImage_: the handler's image clipped to 16384 pixels per axis, or a white
      pixel when the handler is gone. */
  method FetchImage(handler: Option<Source>) returns (data: array<byte>, width: nat, height: nat)
    requires HandlerFits(handler)
    ensures fresh(data)
    ensures Frame(data[..], width, height) == FetchedFrame(handler)
  {
    match handler
    case None =>
      data := new byte[4](_ => 255);
      width := 1;
      height := 1;
      assert data[..] == [255, 255, 255, 255];
    case Some(src) =>
      width := Min(src.width, MaxFetchSize);
      height := Min(src.height, MaxFetchSize);
      RowsLength(src.pixels, 0, 4 * src.pitch, 4 * width, height);
      assert height * (4 * width) == 4 * width * height;
      data := CopyRows(src.pixels, 4 * src.pitch, 4 * width, height, 4 * width * height);
  }

  /** The resized buffer, all 255, then each row's bytes but the last copied from the
      source, stride bytes apart. */
  method CopyRows(pixels: seq<byte>, stride: nat, rowLen: nat, count: nat, size: nat)
    returns (data: array<byte>)
    requires 1 <= rowLen && RowsInside(|pixels|, 0, stride, rowLen, count)
    requires size == |Rows(pixels, 0, stride, rowLen, count)|
    ensures fresh(data)
    ensures data[..] == Rows(pixels, 0, stride, rowLen, count)
  {
    ghost var whole := Rows(pixels, 0, stride, rowLen, count);
    data := new byte[size](_ => 255);
    var srcLine: nat := 0;
    var line: nat := 0;
    var y: nat := 0;
    while y < count
      invariant y <= count && line <= data.Length
      invariant RowsInside(|pixels|, srcLine, stride, rowLen, count - y)
      invariant data.Length == line + |Rows(pixels, srcLine, stride, rowLen, count - y)|
      invariant data[..line] + Rows(pixels, srcLine, stride, rowLen, count - y) == whole
      invariant forall i :: line <= i < data.Length ==> data[i] == 255
    {
      ghost var rest := Rows(pixels, srcLine + stride, stride, rowLen, count - y - 1);
      ghost var row := Row(pixels, srcLine, rowLen);
      assert Rows(pixels, srcLine, stride, rowLen, count - y) == row + rest;
      ghost var before := data[..line];
      CopyRow(data, line, pixels, srcLine, rowLen);
      AppendRow(before, row, rest, data[..line + rowLen], whole);
      srcLine := srcLine + stride;
      line := line + rowLen;
      y := y + 1;
    }
    assert data[..] == data[..line];
  }

  lemma AppendRow(before: seq<byte>, row: seq<byte>, rest: seq<byte>, now: seq<byte>, whole: seq<byte>)
    requires before + (row + rest) == whole
    requires now == before + row
    ensures now + rest == whole
  {
  }

  /** The memcpy of one row: its bytes but the last from the source, the last left 255. */
  method CopyRow(data: array<byte>, line: nat, pixels: seq<byte>, srcLine: nat, rowLen: nat)
    requires 1 <= rowLen && line + rowLen <= data.Length && srcLine + rowLen - 1 <= |pixels|
    requires data[line + rowLen - 1] == 255
    modifies data
    ensures data[..line] == old(data[..line])
    ensures data[..line + rowLen] == old(data[..line]) + Row(pixels, srcLine, rowLen)
    ensures forall i :: line + rowLen <= i < data.Length ==> data[i] == old(data[i])
  {
    forall i | 0 <= i < rowLen - 1 {
      data[line + i] := pixels[srcLine + i];
    }
    assert data[line..line + rowLen] == Row(pixels, srcLine, rowLen);
    assert data[..line + rowLen] == data[..line] + data[line..line + rowLen];
  }

  class Compressor {
    const allowPNG: bool
    const sendTimeoutMs: nat
    const pngThreadCount: nat

    var quality: nat
    var imageUpdated: bool
    var compressedImageUpdated: bool
    var compressionInProgress: bool
    /** compressorTask_, present exactly when compressorTaskScheduled_ is set. */
    var compressorTask: Option<CompressTask>
    /** A finished compression posted to the API thread and not yet taken in. */
    var posted: Option<CompressedImage>
    var compressedImage: CompressedImage
    /** The request of the pending delayed send (waitTag_). */
    var waiting: Option<nat>
    /** The requests answered so far, with the image each got. */
    var served: seq<Served>
    var compressorShutdownScheduled: bool

    ghost function View(): CompressorState
      reads this
    {
      CompressorState(allowPNG, quality, imageUpdated, compressedImageUpdated,
                      compressionInProgress, compressorTask, posted, compressedImage,
                      waiting, served, compressorShutdownScheduled)
    }

    ghost predicate Valid()
      reads this
    {
      Inv(View())
    }

    /** ImageCompressor::ImageCompressor; hardwareConcurrency is what the platform reports. */
    constructor (sendTimeoutMs: nat, allowPNG: bool, quality: nat, hardwareConcurrency: nat)
      requires QualityInRange(quality, allowPNG)
      ensures View() == Initial(allowPNG, quality) && Valid()
      ensures this.sendTimeoutMs == sendTimeoutMs
      ensures 1 <= pngThreadCount <= 4
      ensures pngThreadCount == Max(Min(hardwareConcurrency, 4), 1)
    {
      this.sendTimeoutMs := sendTimeoutMs;
      this.allowPNG := allowPNG;
      this.quality := quality;
      var threads := Min(hardwareConcurrency, 4);
      threads := Max(threads, 1);
      pngThreadCount := threads;
      compressorTask := None;
      compressedImage := WhitePixel;
      imageUpdated := false;
      compressedImageUpdated := false;
      compressionInProgress := false;
      posted := None;
      waiting := None;
      served := [];
      compressorShutdownScheduled := false;
      new;
      InitialInv(allowPNG, quality);
    }

    method SetQuality(newQuality: nat, handler: Option<Source>)
      requires Valid() && QualityInRange(newQuality, allowPNG) && HandlerFits(handler)
      modifies this
      ensures View() == ImageCompressorSpec.SetQuality(old(View()), newQuality, handler) && Valid()
    {
      SetQualityRules(View(), newQuality, handler);
      if newQuality != quality {
        quality := newQuality;
        UpdateNotify(handler);
      }
    }

    method UpdateNotify(handler: Option<Source>)
      requires HandlerFits(handler)
      modifies this
      ensures View() == ImageCompressorSpec.UpdateNotify(old(View()), handler)
    {
      imageUpdated := true;
      Pump(handler);
    }

    method Pump(handler: Option<Source>)
      requires HandlerFits(handler)
      modifies this
      ensures View() == ImageCompressorSpec.Pump(old(View()), handler)
    {
      if compressionInProgress || !imageUpdated || compressedImageUpdated {
        return;
      }
      compressionInProgress := true;
      imageUpdated := false;
      var q := quality;
      var data, width, height := FetchImage(handler);
      compressorTask := Some(CompressTask(q, Frame(data[..], width, height)));
    }

    method SendCompressedImageNow(request: nat, handler: Option<Source>)
      requires HandlerFits(handler)
      modifies this
      ensures View() == SendNow(old(View()), request, handler)
      decreases if waiting.Some? then 1 else 0, 2
    {
      Flush(handler);
      served := served + [Served(request, compressedImage)];
      compressedImageUpdated := false;
      Pump(handler);
    }

    method SendCompressedImageWait(request: nat, handler: Option<Source>)
      requires Valid() && HandlerFits(handler)
      modifies this
      ensures View() == SendWait(old(View()), request, handler) && Valid()
    {
      FlushKeepsInv(View(), handler);
      Flush(handler);
      if compressedImageUpdated {
        SendNowServes(View(), request, handler);
        SendCompressedImageNow(request, handler);
      } else {
        waiting := Some(request);
      }
    }

    method Flush(handler: Option<Source>)
      requires HandlerFits(handler)
      modifies this
      ensures View() == ImageCompressorSpec.Flush(old(View()), handler)
      decreases if waiting.Some? then 1 else 0, 1
    {
      if waiting.Some? {
        var request := waiting.value;
        waiting := None;
        SendCompressedImageNow(request, handler);
      }
    }

    /** The send timeout of a waiting request expires; the delayed send runs. */
    method FireWaitTimer(handler: Option<Source>)
      requires Valid() && HandlerFits(handler)
      modifies this
      ensures View() == ImageCompressorSpec.Flush(old(View()), handler) && Valid()
    {
      FlushKeepsInv(View(), handler);
      Flush(handler);
    }

    /** One round of the worker loop of afterConstruct_: a scheduled task is taken,
        run, and its result posted. */
    method RunCompressorTask()
      requires Valid()
      modifies this
      ensures View() == RunTask(old(View())) && Valid()
    {
      if !compressorShutdownScheduled && compressorTask.Some? {
        RunTaskCompresses(View());
        var task := compressorTask.value;
        compressorTask := None;
        var image := if task.quality == MaxQuality then Png(task.frame) else Jpeg(task.frame, task.quality);
        posted := Some(image);
      }
    }

    /** The destructor: the worker is told to stop. */
    method Shutdown()
      requires Valid()
      modifies this
      ensures View() == old(View()).(shutdownScheduled := true) && Valid()
    {
      ShutdownStopsWorker(View());
      compressorShutdownScheduled := true;
    }

    /** compressTaskDone_, taking in the posted result. */
    method CompressTaskDone(handler: Option<Source>)
      requires Valid() && posted.Some? && HandlerFits(handler)
      modifies this
      ensures View() == ImageCompressorSpec.CompressTaskDone(old(View()), handler) && Valid()
    {
      CompressTaskDoneRules(View(), handler);
      assert compressionInProgress;
      compressionInProgress := false;
      compressedImageUpdated := true;
      compressedImage := posted.value;
      posted := None;
      Flush(handler);
    }
  }
}
