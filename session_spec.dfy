/** The per-viewer protocol of a browser session (src/session.cpp) as functions on the whole
    session state. The class in module Session changes its fields step by step as the source
    does and is proved to produce exactly these states. The browser engine, the widget tree
    and the image compressor are reduced to a log of the actions the session asks of them. */
module SessionSpec {
  import opened Wrappers
  import opened Routes

  /** Width signal values: is an iframe waiting for the client to fetch it. */
  const WidthSignalNoNewIframe: nat := 0
  const WidthSignalNewIframe: nat := 1
  const WidthSignalModulus: nat := 2

  /** Height signal values: the mouse cursor to show. */
  const NormalCursor: nat := 0
  const HandCursor: nat := 1
  const TextCursor: nat := 2
  const CursorTypeCount: nat := 3
  const HeightSignalModulus: nat := CursorTypeCount

  const MinViewportSize: nat := 64
  const MaxViewportSize: nat := 4096
  const InitialWidth: nat := 800
  const InitialHeight: nat := 600

  const LongInactivityTimeoutMs: nat := 30000
  const ShortInactivityTimeoutMs: nat := 4000
  const DownloadKeepTimeMs: nat := 10000
  const ImageCompressorSendTimeoutMs: nat := 2000
  /** Two navigations at most this far apart count as one double-reported operation. */
  const NavigateDebounceMs: int := 200
  /** A request this long after the last security status update forces a new one. */
  const SecurityStatusRefreshMs: int := 1000

  const ClosedMessage: string := "ERROR: Browser session has been closed"
  const OutdatedMessage: string := "ERROR: Outdated request"
  const OutdatedDownloadMessage: string := "ERROR: Outdated download index"
  const InvalidRequestMessage: string := "ERROR: Invalid request URI or method"

  datatype Lifecycle = Pending | Open | Closing | Closed

  /** navigate_'s direction argument -1, 0 and 1. */
  datatype Direction = Back | Refresh | Forward

  /** The browser engine's cursor types that the session distinguishes. */
  datatype BrowserCursor = HandPointer | IBeam | OtherBrowserCursor

  /** A finished download, identified by the download manager. */
  datatype CompletedDownload = CompletedDownload(fileId: nat, name: string)

  /** What an iframe poll serves when it takes a job off the queue. */
  datatype IframeJob =
    | PopupJob(popupSessionId: nat)
    | ClipboardJob
    | DownloadJob(file: CompletedDownload)

  /** A download kept for later requests, with its expiry timer. */
  datatype DownloadSlot = DownloadSlot(file: CompletedDownload, expiryArmed: bool)

  /** The reply to one HTTP request. The HTML pages stand for the page writers' output. */
  datatype Response =
    | TextResponse(status: nat, body: string)
    | PreMainPage
    | MainPage(mainIdx: nat)
    | PrePrevPage
    | PrevPage
    | NextPage
    | PopupIframePage(popupSessionId: nat)
    | ClipboardIframePage
    | DownloadIframePage(downloadIdx: nat, fileName: string)
    | FileResponse(file: CompletedDownload)
    /** The request is handed to the image compressor to be answered at once. */
    | ImageNow
    /** The request is handed to the image compressor to wait for a fresh frame. */
    | ImageWait

  /** What the session asks of the browser, the widgets and the image compressor. */
  datatype Action =
    | Navigation(direction: Direction)
    | CloseBrowser
    | FlushCompressor
    | SecurityStatusUpdate
    | LoseFocus
    | MouseLeave
    | DispatchEvent(eventIdx: nat, token: string)
    | SetRootViewport(width: nat, height: nat)
    | SendImage(width: nat, height: nat)
    | SetBrowserArea(attached: bool)
    | SessionClosedNotice
    | SetCursor(cursor: nat)
    | SetFindResult(found: bool)
    | PopupSessionOpened(popupSessionId: nat)

  /** The lifecycle of the session and its browser. */
  datatype Life = Life(state: Lifecycle, hasBrowser: bool, closeOnOpen: bool)

  /** The two inactivity timers (long and short), armed or not. */
  datatype Timers = Timers(longArmed: bool, shortArmed: bool)

  /** The generation counters of the client's main page, its polls and its events, with the
      flags of its bootstrap pages and of prev/next clicks. */
  datatype Generation = Generation(
    curMainIdx: nat,
    curImgIdx: nat,
    curEventIdx: nat,
    preMainVisited: bool,
    prePrevVisited: bool,
    prevNextClicked: bool)

  /** The root viewport, its padded buffer and the two signals its served size carries. */
  datatype Viewport = Viewport(
    rootWidth: nat,
    rootHeight: nat,
    paddedWidth: nat,
    paddedHeight: nat,
    widthSignal: nat,
    heightSignal: nat)

  /** Every field of a session that its operations change. */
  datatype SessionState = SessionState(
    life: Life,
    timers: Timers,
    gen: Generation,
    view: Viewport,
    iframeQueue: seq<IframeJob>,
    downloads: map<nat, DownloadSlot>,
    curDownloadIdx: nat,
    lastSecurityStatusUpdateTime: int,
    lastNavigateOperationTime: int,
    lastFindId: int,
    actions: seq<Action>)

  predicate Live(s: SessionState)
  {
    s.life.state == Pending || s.life.state == Open
  }

  predicate ViewportInRange(v: nat)
  {
    MinViewportSize <= v <= MaxViewportSize
  }

  /** What the signal encoding needs: both signals in range and room below the padded
      size to trim to them. */
  predicate Framed(v: Viewport)
  {
    v.widthSignal < WidthSignalModulus && v.heightSignal < HeightSignalModulus
    && v.paddedWidth >= WidthSignalModulus - 1 && v.paddedHeight >= HeightSignalModulus - 1
  }

  /** A browser exists exactly while the session is open or closing. */
  predicate LifeInv(l: Life)
  {
    l.hasBrowser <==> l.state == Open || l.state == Closing
  }

  /** At most one inactivity timer runs. */
  predicate TimersInv(t: Timers)
  {
    !(t.longArmed && t.shortArmed)
  }

  /** The root viewport is within bounds, padded by one less than each modulus, and the
      signals are in range. */
  predicate ViewInv(v: Viewport)
  {
    ViewportInRange(v.rootWidth) && ViewportInRange(v.rootHeight)
    && v.paddedWidth == v.rootWidth + WidthSignalModulus - 1
    && v.paddedHeight == v.rootHeight + HeightSignalModulus - 1
    && v.widthSignal < WidthSignalModulus && v.heightSignal < HeightSignalModulus
  }

  /** The width signal says "new iframe" exactly while iframes are queued. */
  predicate SignalMatchesQueue(widthSignal: nat, queue: seq<IframeJob>)
  {
    widthSignal == (if |queue| > 0 then WidthSignalNewIframe else WidthSignalNoNewIframe)
  }

  /** Every kept download has an index that has already been handed out. */
  predicate DownloadIndicesIssued(downloads: map<nat, DownloadSlot>, curDownloadIdx: nat)
  {
    forall k :: k in downloads ==> 1 <= k <= curDownloadIdx
  }

  /** The invariant every operation of a session keeps. */
  predicate Inv(s: SessionState)
  {
    LifeInv(s.life) && TimersInv(s.timers) && ViewInv(s.view)
    && SignalMatchesQueue(s.view.widthSignal, s.iframeQueue)
    && DownloadIndicesIssued(s.downloads, s.curDownloadIdx)
  }

  lemma InvFramed(s: SessionState)
    requires Inv(s)
    ensures Framed(s.view)
  {
  }

  /** The state right after construction, before the browser exists. */
  function Initial(now: int): (s: SessionState)
    ensures Inv(s) && s.life.state == Pending && !s.life.hasBrowser
    ensures s.gen.curMainIdx == 0 && s.gen.curImgIdx == 0 && s.gen.curEventIdx == 0
    ensures s.curDownloadIdx == 0 && s.iframeQueue == [] && s.downloads == map[]
    ensures s.view.rootWidth == InitialWidth && s.view.rootHeight == InitialHeight
  {
    SessionState(Life(Pending, false, false), Timers(false, false),
                 Generation(0, 0, 0, false, false, false),
                 Viewport(InitialWidth, InitialHeight,
                          InitialWidth + WidthSignalModulus - 1, InitialHeight + HeightSignalModulus - 1,
                          WidthSignalNoNewIframe, NormalCursor),
                 [], map[], 0, now, now, -1, [])
  }

  // ---------------------------------------------------------------- lifecycle and timers

  /** updateInactivityTimeout_: both timers are cleared and, while the session lives, the
      short or the long one is armed again. */
  function ArmInactivity(s: SessionState, shortened: bool): SessionState
  {
    s.(timers := Timers(Live(s) && !shortened, Live(s) && shortened))
  }

  /** close(). */
  function Close(s: SessionState): SessionState
  {
    match s.life.state
    case Open => s.(life := s.life.(state := Closing), actions := s.actions + [CloseBrowser, FlushCompressor])
    case Pending => s.(life := s.life.(closeOnOpen := true))
    case _ => s
  }

  /** The browser has been created (Client::OnAfterCreated). */
  function AfterCreated(s: SessionState): SessionState
    requires s.life.state == Pending
  {
    var created := s.(life := s.life.(hasBrowser := true, state := Open),
                      actions := s.actions + [SetBrowserArea(true)]);
    if created.life.closeOnOpen then Close(created) else created
  }

  /** The browser is about to close (Client::OnBeforeClose). */
  function BeforeClose(s: SessionState): SessionState
    requires s.life.state == Open || s.life.state == Closing
  {
    ArmInactivity(s.(life := s.life.(state := Closed, hasBrowser := false),
                     actions := s.actions + [SetBrowserArea(false), FlushCompressor, SessionClosedNotice]),
                  false)
  }

  /** The rest of construction (afterConstruct_): a non-popup session opens its browser now,
      and a failed creation closes the session at once. */
  function AfterConstruct(s: SessionState, isPopup: bool, browserCreated: bool): SessionState
  {
    var s1 := if !isPopup && !browserCreated
              then s.(life := s.life.(state := Closed), actions := s.actions + [SessionClosedNotice])
              else s;
    ArmInactivity(s1, false)
  }

  /** An inactivity timer fires; its callback closes a session that still lives. */
  function InactivityTimeout(s: SessionState, shortened: bool): SessionState
  {
    if !(if shortened then s.timers.shortArmed else s.timers.longArmed) then s
    else
      var fired := if shortened then s.(timers := s.timers.(shortArmed := false))
                   else s.(timers := s.timers.(longArmed := false));
      if Live(fired) then Close(fired) else fired
  }

  // ---------------------------------------------------------------- navigation and status

  /** navigate_: dropped within the debounce window of the last accepted operation. */
  function Navigate(s: SessionState, direction: Direction, now: int): SessionState
  {
    if now - s.lastNavigateOperationTime <= NavigateDebounceMs then s
    else s.(lastNavigateOperationTime := now,
            actions := s.actions + (if s.life.hasBrowser then [Navigation(direction)] else []))
  }

  /** updateSecurityStatus_ (the status itself comes from the browser and is not modelled). */
  function UpdateSecurityStatus(s: SessionState, now: int): SessionState
  {
    s.(lastSecurityStatusUpdateTime := now, actions := s.actions + [SecurityStatusUpdate])
  }

  function RefreshSecurityIfDue(s: SessionState, now: int): SessionState
  {
    if now - s.lastSecurityStatusUpdateTime >= SecurityStatusRefreshMs
    then UpdateSecurityStatus(s, now) else s
  }

  // ---------------------------------------------------------------- viewport and signals

  function ClampViewport(v: nat): (c: nat)
    ensures ViewportInRange(c)
    ensures ViewportInRange(v) ==> c == v
    ensures v < MinViewportSize ==> c == MinViewportSize
    ensures v > MaxViewportSize ==> c == MaxViewportSize
  {
    Max(Min(v, MaxViewportSize), MinViewportSize)
  }

  /** updateRootViewportSize_: clamp; reallocate the padded buffer only when the size changes. */
  function ResizeViewport(s: SessionState, width: nat, height: nat): SessionState
  {
    var w := ClampViewport(width);
    var h := ClampViewport(height);
    if w != s.view.rootWidth || h != s.view.rootHeight then
      s.(view := s.view.(rootWidth := w, rootHeight := h,
                         paddedWidth := w + WidthSignalModulus - 1,
                         paddedHeight := h + HeightSignalModulus - 1),
         actions := s.actions + [SetRootViewport(w, h)])
    else s
  }

  /** The largest size at most padded whose remainder modulo modulus is signal. */
  function ServedSize(padded: nat, modulus: nat, signal: nat): nat
    requires 0 < modulus && signal <= padded
  {
    padded - (padded - signal) % modulus
  }

  /** sendViewportToCompressor_: the top-left part of the padded viewport, trimmed so that
      its size carries both signals. */
  function SendViewport(s: SessionState): SessionState
    requires Framed(s.view)
  {
    s.(actions := s.actions + [SendImage(
      ServedSize(s.view.paddedWidth, WidthSignalModulus, s.view.widthSignal),
      ServedSize(s.view.paddedHeight, HeightSignalModulus, s.view.heightSignal))])
  }

  function SetWidthSignal(s: SessionState, signal: nat): SessionState
    requires Framed(s.view) && signal < WidthSignalModulus
  {
    if signal != s.view.widthSignal then SendViewport(s.(view := s.view.(widthSignal := signal))) else s
  }

  function SetHeightSignal(s: SessionState, signal: nat): SessionState
    requires Framed(s.view) && signal < HeightSignalModulus
  {
    if signal != s.view.heightSignal then SendViewport(s.(view := s.view.(heightSignal := signal))) else s
  }

  /** addIframe_: queue the job and raise the width signal. */
  function AddIframe(s: SessionState, job: IframeJob): SessionState
    requires Framed(s.view)
  {
    SetWidthSignal(s.(iframeQueue := s.iframeQueue + [job]), WidthSignalNewIframe)
  }

  // ---------------------------------------------------------------- input event replay

  /** The '/'-terminated tokens of an event string, each with its '/'; an unterminated
      tail is not an event. */
  function Tokens(events: string): seq<string>
    decreases |events|
  {
    var i := IndexOf(events, '/');
    if i == |events| then [] else [events[..i + 1]] + Tokens(events[i + 1..])
  }

  /** The dispatch actions for the tokens of a batch numbered from start, beginning with
      the first index, first, that has not been dispatched yet. */
  function Dispatches(first: nat, start: nat, tokens: seq<string>): seq<Action>
    requires start <= first
  {
    var n := if first < start + |tokens| then start + |tokens| - first else 0;
    seq(n, j requires 0 <= j < n => DispatchEvent(first + j, tokens[first - start + j]))
  }

  /** handleEvents_: of a batch whose first token has index start, the events from the
      current index on are dispatched and the current index moves past the batch. */
  function Replay(s: SessionState, start: nat, events: string): SessionState
  {
    var first := Max(s.gen.curEventIdx, start);
    s.(gen := s.gen.(curEventIdx := Max(s.gen.curEventIdx, start + |Tokens(events)|)),
       actions := s.actions + Dispatches(first, start, Tokens(events)))
  }

  // ---------------------------------------------------------------- request handling

  /** The image poll: stale generations and already seen image indices are refused; an
      accepted poll replays its events, adopts its image index and resizes the viewport. */
  function HandleImage(s: SessionState, mainIdx: nat, imgIdx: nat, immediate: bool, width: nat,
                       height: nat, startEventIdx: nat, events: string): (SessionState, Response)
  {
    if mainIdx != s.gen.curMainIdx || imgIdx <= s.gen.curImgIdx then (s, TextResponse(400, OutdatedMessage))
    else
      var s1 := ArmInactivity(s, false);
      var s2 := Replay(s1, startEventIdx, events);
      var s3 := s2.(gen := s2.gen.(curImgIdx := imgIdx));
      (ResizeViewport(s3, width, height), if immediate then ImageNow else ImageWait)
  }

  /** Serving one queued iframe job. A download job allocates the next download index and
      keeps the file under it until its expiry timer fires. */
  function RunIframe(s: SessionState, job: IframeJob): (SessionState, Response)
  {
    match job
    case PopupJob(id) => (s, PopupIframePage(id))
    case ClipboardJob => (s, ClipboardIframePage)
    case DownloadJob(file) =>
      var idx := s.curDownloadIdx + 1;
      (s.(curDownloadIdx := idx, downloads := s.downloads[idx := DownloadSlot(file, true)]),
       DownloadIframePage(idx, file.name))
  }

  /** The iframe poll: serve the oldest queued job, lowering the width signal once the queue
      runs empty. */
  function HandleIframe(s: SessionState, mainIdx: nat): (SessionState, Response)
    requires Framed(s.view)
  {
    if mainIdx != s.gen.curMainIdx then (s, TextResponse(400, OutdatedMessage))
    else if |s.iframeQueue| == 0 then (s, TextResponse(200, "OK"))
    else
      var s1 := ArmInactivity(s, false);
      var job := s1.iframeQueue[0];
      var s2 := s1.(iframeQueue := s1.iframeQueue[1..]);
      var s3 := if |s2.iframeQueue| == 0 then SetWidthSignal(s2, WidthSignalNoNewIframe) else s2;
      RunIframe(s3, job)
  }

  function HandleDownload(s: SessionState, downloadIdx: nat): (SessionState, Response)
  {
    if downloadIdx in s.downloads then (s, FileResponse(s.downloads[downloadIdx].file))
    else (s, TextResponse(400, OutdatedDownloadMessage))
  }

  /** The client announces it is leaving the main page: the generation ends and the short
      inactivity timer runs, since this may be a reload. */
  function HandleClose(s: SessionState, mainIdx: nat): (SessionState, Response)
  {
    if mainIdx != s.gen.curMainIdx then (s, TextResponse(400, OutdatedMessage))
    else
      (ArmInactivity(s.(gen := s.gen.(curMainIdx := s.gen.curMainIdx + 1, curImgIdx := 0,
                                      curEventIdx := 0)), true),
       TextResponse(200, "OK"))
  }

  /** The main page. The first visit serves the bootstrap page; each later one starts a new
      generation, and one that follows no prev/next click is a reload. */
  function HandleMain(s: SessionState, now: int): (SessionState, Response)
  {
    var s1 := ArmInactivity(s, false);
    if s1.gen.preMainVisited then
      var s2 := s1.(gen := s1.gen.(curMainIdx := s1.gen.curMainIdx + 1));
      var s3 := if s2.gen.curMainIdx > 1 && !s2.gen.prevNextClicked
                then Navigate(s2, Refresh, now) else s2;
      var s4 := s3.(gen := s3.gen.(prevNextClicked := false, curImgIdx := 0, curEventIdx := 0),
                    actions := s3.actions + [LoseFocus, MouseLeave]);
      (s4, MainPage(s4.gen.curMainIdx))
    else
      (s1.(gen := s1.gen.(preMainVisited := true)), PreMainPage)
  }

  /** Prev and next pages: the first one clicked in a generation navigates the browser. */
  function PrevNextNavigate(s: SessionState, direction: Direction, now: int): SessionState
  {
    if s.gen.curMainIdx > 0 && !s.gen.prevNextClicked
    then Navigate(s.(gen := s.gen.(prevNextClicked := true)), direction, now) else s
  }

  function HandlePrev(s: SessionState, now: int): (SessionState, Response)
  {
    var s1 := PrevNextNavigate(ArmInactivity(s, false), Back, now);
    if s1.gen.prePrevVisited then (s1, PrevPage)
    else (s1.(gen := s1.gen.(prePrevVisited := true)), PrePrevPage)
  }

  function HandleNext(s: SessionState, now: int): (SessionState, Response)
  {
    (PrevNextNavigate(ArmInactivity(s, false), Forward, now), NextPage)
  }

  /** handleHTTPRequest: a closing or closed session refuses everything; otherwise the
      security status is refreshed when due and the path is routed. */
  function HandleRequest(s: SessionState, verb: string, path: string, now: int): (SessionState, Response)
    requires Framed(s.view)
  {
    if s.life.state == Closing || s.life.state == Closed then (s, TextResponse(503, ClosedMessage))
    else
      var s1 := RefreshSecurityIfDue(s, now);
      match ParseRoute(verb, path)
      case ImageRoute(m, i, imm, w, h, st, ev) => HandleImage(s1, m, i, imm, w, h, st, ev)
      case IframeRoute(m) => HandleIframe(s1, m)
      case DownloadRoute(d) => HandleDownload(s1, d)
      case CloseRoute(m) => HandleClose(s1, m)
      case MainRoute => HandleMain(s1, now)
      case PrevRoute => HandlePrev(s1, now)
      case NextRoute => HandleNext(s1, now)
      case NoRoute => (s1, TextResponse(400, InvalidRequestMessage))
  }

  // ---------------------------------------------------------------- other events

  /** onDownloadCompleted: the file is offered through an iframe. */
  function DownloadCompleted(s: SessionState, file: CompletedDownload): SessionState
    requires Framed(s.view)
  {
    AddIframe(s, DownloadJob(file))
  }

  /** A download's expiry timer fires and erases its own entry. */
  function DownloadExpired(s: SessionState, downloadIdx: nat): SessionState
  {
    if downloadIdx in s.downloads && s.downloads[downloadIdx].expiryArmed
    then s.(downloads := s.downloads - {downloadIdx}) else s
  }

  /** The popup-creation request of the browser (Client::OnBeforePopup): refused when the
      server's event handler is gone or the server is full; otherwise the popup session is
      offered through an iframe. The Boolean is the source's return value, true meaning
      "cancel the popup". */
  function BeforePopup(s: SessionState, handlerAlive: bool, serverFull: bool,
                       popupSessionId: nat): (SessionState, bool)
    requires Framed(s.view)
  {
    if !handlerAlive then (s, true)
    else if serverFull then (s, true)
    else
      (AddIframe(s.(actions := s.actions + [PopupSessionOpened(popupSessionId)]),
                 PopupJob(popupSessionId)), false)
  }

  /** Client::OnCursorChange: the browser's cursor type mapped to the cursor the widgets show. */
  function CursorFor(cursor: BrowserCursor): (c: nat)
    ensures c < CursorTypeCount
    ensures cursor == HandPointer <==> c == HandCursor
    ensures cursor == IBeam <==> c == TextCursor
  {
    match cursor
    case HandPointer => HandCursor
    case IBeam => TextCursor
    case OtherBrowserCursor => NormalCursor
  }

  /** Client::OnPreKeyEvent: Backspace outside an editable field navigates back, or
      forward with Shift, and is consumed; every other key goes on to the page. */
  function PreKeyEvent(s: SessionState, isBackspace: bool, onEditableField: bool,
                       shiftDown: bool, now: int): (SessionState, bool)
  {
    if isBackspace && !onEditableField
    then (Navigate(s, if shiftDown then Forward else Back, now), true)
    else (s, false)
  }

  /** Client::OnFindResult: a result is shown unless a newer search already reported. */
  function FindResult(s: SessionState, identifier: int, count: int): SessionState
  {
    if identifier >= s.lastFindId
    then s.(lastFindId := identifier, actions := s.actions + [SetFindResult(count > 0)])
    else s
  }
}
