/** The browser session object of src/session.cpp: one per viewer, holding the browser's
    lifecycle, the generation counters of the client's pages and polls, the padded root
    viewport and its two signals, the iframe queue and the kept downloads. Each method
    changes the fields as the source does, and its postcondition says that the new state
    is the one the functions of module SessionSpec compute from the old; the properties
    of those functions are proved in module SessionProperties. */
module Session {
  import opened Wrappers
  import opened Routes
  import opened SessionSpec
  import opened SessionProperties

  /** A bound above every member of a finite set of identifiers. */
  ghost function Above(used: set<nat>): (b: nat)
    ensures forall x :: x in used ==> x < b
    decreases |used|
  {
    if used == {} then 0
    else
      var x :| x in used;
      var b := Max(x + 1, Above(used - {x}));
      assert forall y :: y in used ==> y == x || y in used - {x};
      b
  }

  /** The identifiers of the sessions that exist (usedSessionIDs). */
  class SessionIds {
    var used: set<nat>

    constructor ()
      ensures used == {}
    {
      used := {};
    }

    /** A new session draws identifiers until it finds one that is not in use. The draws
        are random; the model chooses any identifier outside the set. */
    method Acquire() returns (id: nat)
      modifies this
      ensures id !in old(used) && used == old(used) + {id}
    {
      assert Above(used) !in used;
      id :| id !in used;
      used := used + {id};
    }

    method Release(id: nat)
      modifies this
      ensures used == old(used) - {id}
    {
      used := used - {id};
    }
  }

  class Session {
    const ids: SessionIds
    const id: nat
    const isPopup: bool
    const allowPNG: bool

    var life: Life
    var timers: Timers
    var gen: Generation
    var view: Viewport
    var iframeQueue: seq<IframeJob>
    var downloads: map<nat, DownloadSlot>
    var curDownloadIdx: nat
    var lastSecurityStatusUpdateTime: int
    var lastNavigateOperationTime: int
    var lastFindId: int
    /** What the session has asked of the browser, the widgets and the compressor. */
    var actions: seq<Action>

    ghost function View(): SessionState
      reads this
    {
      SessionState(life, timers, gen, view, iframeQueue, downloads, curDownloadIdx,
                   lastSecurityStatusUpdateTime, lastNavigateOperationTime, lastFindId, actions)
    }

    ghost predicate Valid()
      reads this
    {
      Inv(View())
    }

    /** Session::Session: a fresh identifier, no browser yet, an 800x600 viewport padded
        for the signals, and both time stamps at now. */
    constructor (ids: SessionIds, allowPNG: bool, isPopup: bool, now: int)
      modifies ids
      ensures View() == Initial(now) && Valid()
      ensures this.ids == ids && this.allowPNG == allowPNG && this.isPopup == isPopup
      ensures id !in old(ids.used) && ids.used == old(ids.used) + {id}
    {
      var newId := ids.Acquire();
      this.ids := ids;
      id := newId;
      this.isPopup := isPopup;
      this.allowPNG := allowPNG;
      gen := Generation(0, 0, 0, false, false, false);
      curDownloadIdx := 0;
      life := Life(Pending, false, false);
      timers := Timers(false, false);
      lastSecurityStatusUpdateTime := now;
      lastNavigateOperationTime := now;
      view := Viewport(InitialWidth, InitialHeight,
                       InitialWidth + WidthSignalModulus - 1, InitialHeight + HeightSignalModulus - 1,
                       WidthSignalNoNewIframe, NormalCursor);
      iframeQueue := [];
      downloads := map[];
      lastFindId := -1;
      actions := [];
    }

    /** Session::~Session: the download timers are cleared and the identifier is released. */
    method Destroy()
      modifies this, ids
      ensures ids.used == old(ids.used) - {id}
      ensures downloads.Keys == old(downloads).Keys
      ensures forall k :: k in downloads ==> downloads[k] == old(downloads)[k].(expiryArmed := false)
      ensures View().(downloads := old(downloads)) == old(View())
    {
      downloads := map k | k in downloads :: downloads[k].(expiryArmed := false);
      ids.Release(id);
    }

    // -------------------------------------------------------------- lifecycle and timers

    method UpdateInactivityTimeout(shortened: bool)
      modifies this
      ensures View() == ArmInactivity(old(View()), shortened)
    {
      var live := life.state == Pending || life.state == Open;
      timers := Timers(live && !shortened, live && shortened);
    }

    method Close()
      requires Valid()
      modifies this
      ensures View() == SessionSpec.Close(old(View())) && Valid()
    {
      CloseKeepsInv(View());
      if life.state == Open {
        life := life.(state := Closing);
        actions := actions + [CloseBrowser, FlushCompressor];
      } else if life.state == Pending {
        life := life.(closeOnOpen := true);
      }
    }

    /** Client::OnAfterCreated. */
    method OnAfterCreated()
      requires Valid() && life.state == Pending
      modifies this
      ensures View() == AfterCreated(old(View())) && Valid()
    {
      AfterCreatedKeepsInv(View());
      life := life.(hasBrowser := true, state := Open);
      actions := actions + [SetBrowserArea(true)];
      if life.closeOnOpen {
        Close();
      }
    }

    /** Client::OnBeforeClose. */
    method OnBeforeClose()
      requires Valid() && (life.state == Open || life.state == Closing)
      modifies this
      ensures View() == BeforeClose(old(View())) && Valid()
    {
      BeforeCloseKeepsInv(View());
      life := life.(state := Closed, hasBrowser := false);
      actions := actions + [SetBrowserArea(false), FlushCompressor, SessionClosedNotice];
      UpdateInactivityTimeout(false);
    }

    /** afterConstruct_; browserCreated is what creating the browser returned. */
    method AfterConstruct(browserCreated: bool)
      requires Valid() && life.state == Pending
      modifies this
      ensures View() == SessionSpec.AfterConstruct(old(View()), isPopup, browserCreated) && Valid()
    {
      AfterConstructKeepsInv(View(), isPopup, browserCreated);
      if !isPopup && !browserCreated {
        life := life.(state := Closed);
        actions := actions + [SessionClosedNotice];
      }
      UpdateInactivityTimeout(false);
    }

    /** The callback of an inactivity timer, when that timer is armed. */
    method FireInactivityTimer(shortened: bool)
      requires Valid()
      modifies this
      ensures View() == InactivityTimeout(old(View()), shortened) && Valid()
    {
      InactivityTimeoutKeepsInv(View(), shortened);
      if shortened && timers.shortArmed {
        timers := timers.(shortArmed := false);
      } else if !shortened && timers.longArmed {
        timers := timers.(longArmed := false);
      } else {
        return;
      }
      if life.state == Pending || life.state == Open {
        Close();
      }
    }

    // -------------------------------------------------------------- navigation and status

    method Navigate(direction: Direction, now: int)
      modifies this
      ensures View() == SessionSpec.Navigate(old(View()), direction, now)
    {
      if now - lastNavigateOperationTime <= NavigateDebounceMs {
        return;
      }
      lastNavigateOperationTime := now;
      if life.hasBrowser {
        actions := actions + [Navigation(direction)];
      }
    }

    method UpdateSecurityStatus(now: int)
      modifies this
      ensures View() == SessionSpec.UpdateSecurityStatus(old(View()), now)
    {
      lastSecurityStatusUpdateTime := now;
      actions := actions + [SecurityStatusUpdate];
    }

    /** Client::OnPreKeyEvent; the result says whether the key was consumed. */
    method OnPreKeyEvent(isBackspace: bool, onEditableField: bool, shiftDown: bool, now: int)
      returns (consumed: bool)
      requires Valid()
      modifies this
      ensures (View(), consumed) == PreKeyEvent(old(View()), isBackspace, onEditableField, shiftDown, now)
      ensures Valid()
    {
      if isBackspace && !onEditableField {
        Navigate(if shiftDown then Forward else Back, now);
        return true;
      }
      return false;
    }

    /** The Refresh hotkey reloads through the debounced navigation. */
    method OnRefreshHotkey(now: int)
      requires Valid()
      modifies this
      ensures View() == SessionSpec.Navigate(old(View()), Refresh, now) && Valid()
    {
      Navigate(Refresh, now);
    }

    // -------------------------------------------------------------- viewport and signals

    method UpdateRootViewportSize(width: nat, height: nat)
      modifies this
      ensures View() == ResizeViewport(old(View()), width, height)
    {
      var w := Max(Min(width, MaxViewportSize), MinViewportSize);
      var h := Max(Min(height, MaxViewportSize), MinViewportSize);
      if view.rootWidth != w || view.rootHeight != h {
        view := view.(rootWidth := w, rootHeight := h,
                      paddedWidth := w + WidthSignalModulus - 1,
                      paddedHeight := h + HeightSignalModulus - 1);
        actions := actions + [SetRootViewport(w, h)];
      }
    }

    /** Both sizes are counted down from the padded size until their remainders are the
        signals. */
    method SendViewportToCompressor()
      requires Framed(view)
      modifies this
      ensures View() == SendViewport(old(View()))
    {
      var width := ServedWidth(view.paddedWidth, view.widthSignal);
      var height := ServedHeight(view.paddedHeight, view.heightSignal);
      actions := actions + [SendImage(width, height)];
    }

    /** onBrowserAreaViewDirty (and the render posted by onWidgetViewDirty). */
    method OnViewDirty()
      requires Valid()
      modifies this
      ensures View() == SendViewport(old(View())) && Valid()
    {
      InvFramed(View());
      SendViewportToCompressor();
    }

    method SetWidthSignal(signal: nat)
      requires Framed(view) && signal < WidthSignalModulus
      modifies this
      ensures View() == SessionSpec.SetWidthSignal(old(View()), signal)
    {
      if signal != view.widthSignal {
        view := view.(widthSignal := signal);
        SendViewportToCompressor();
      }
    }

    method SetHeightSignal(signal: nat)
      requires Framed(view) && signal < HeightSignalModulus
      modifies this
      ensures View() == SessionSpec.SetHeightSignal(old(View()), signal)
    {
      if signal != view.heightSignal {
        view := view.(heightSignal := signal);
        SendViewportToCompressor();
      }
    }

    method AddIframe(job: IframeJob)
      requires Framed(view)
      modifies this
      ensures View() == SessionSpec.AddIframe(old(View()), job)
    {
      iframeQueue := iframeQueue + [job];
      SetWidthSignal(WidthSignalNewIframe);
    }

    // -------------------------------------------------------------- input event replay

    /** handleEvents_. */
    method HandleEvents(startIdx: nat, events: string)
      modifies this
      ensures View() == Replay(old(View()), startIdx, events)
    {
      var cur, dispatched := ReplayEvents(gen.curEventIdx, startIdx, events);
      gen := gen.(curEventIdx := cur);
      actions := actions + dispatched;
    }

    // -------------------------------------------------------------- requests

    /** handleHTTPRequest. */
    method HandleHttpRequest(verb: string, path: string, now: int) returns (response: Response)
      requires Valid()
      modifies this
      ensures (View(), response) == HandleRequest(old(View()), verb, path, now)
      ensures Valid()
    {
      ghost var s0 := View();
      InvFramed(s0);
      HandleRequestKeepsInv(s0, verb, path, now);
      if life.state == Closing || life.state == Closed {
        return TextResponse(503, ClosedMessage);
      }
      if now - lastSecurityStatusUpdateTime >= SecurityStatusRefreshMs {
        UpdateSecurityStatus(now);
      }
      match ParseRoute(verb, path)
      case ImageRoute(mainIdx, imgIdx, immediate, width, height, startEventIdx, events) =>
        response := HandleImageRequest(mainIdx, imgIdx, immediate, width, height, startEventIdx, events);
      case IframeRoute(mainIdx) =>
        response := HandleIframeRequest(mainIdx);
      case DownloadRoute(downloadIdx) =>
        if downloadIdx in downloads {
          response := FileResponse(downloads[downloadIdx].file);
        } else {
          response := TextResponse(400, OutdatedDownloadMessage);
        }
      case CloseRoute(mainIdx) =>
        if mainIdx != gen.curMainIdx {
          response := TextResponse(400, OutdatedMessage);
        } else {
          gen := gen.(curMainIdx := gen.curMainIdx + 1, curImgIdx := 0, curEventIdx := 0);
          UpdateInactivityTimeout(true);
          response := TextResponse(200, "OK");
        }
      case MainRoute =>
        response := HandleMainRequest(now);
      case PrevRoute =>
        UpdateInactivityTimeout(false);
        PrevNextClick(Back, now);
        if gen.prePrevVisited {
          response := PrevPage;
        } else {
          response := PrePrevPage;
          gen := gen.(prePrevVisited := true);
        }
      case NextRoute =>
        UpdateInactivityTimeout(false);
        PrevNextClick(Forward, now);
        response := NextPage;
      case NoRoute =>
        response := TextResponse(400, InvalidRequestMessage);
    }

    method HandleImageRequest(mainIdx: nat, imgIdx: nat, immediate: bool, width: nat, height: nat,
                              startEventIdx: nat, events: string) returns (response: Response)
      modifies this
      ensures (View(), response)
           == HandleImage(old(View()), mainIdx, imgIdx, immediate, width, height, startEventIdx, events)
    {
      if mainIdx != gen.curMainIdx || imgIdx <= gen.curImgIdx {
        return TextResponse(400, OutdatedMessage);
      }
      UpdateInactivityTimeout(false);
      HandleEvents(startEventIdx, events);
      gen := gen.(curImgIdx := imgIdx);
      UpdateRootViewportSize(width, height);
      response := if immediate then ImageNow else ImageWait;
    }

    method HandleIframeRequest(mainIdx: nat) returns (response: Response)
      requires Framed(view)
      modifies this
      ensures (View(), response) == HandleIframe(old(View()), mainIdx)
    {
      if mainIdx != gen.curMainIdx {
        return TextResponse(400, OutdatedMessage);
      }
      if |iframeQueue| == 0 {
        return TextResponse(200, "OK");
      }
      UpdateInactivityTimeout(false);
      var job := iframeQueue[0];
      iframeQueue := iframeQueue[1..];
      if |iframeQueue| == 0 {
        SetWidthSignal(WidthSignalNoNewIframe);
      }
      response := RunIframeJob(job);
    }

    /** Serving one iframe job; a download job keeps its file under the next index. */
    method RunIframeJob(job: IframeJob) returns (response: Response)
      modifies this
      ensures (View(), response) == RunIframe(old(View()), job)
    {
      match job
      case PopupJob(popupSessionId) =>
        response := PopupIframePage(popupSessionId);
      case ClipboardJob =>
        response := ClipboardIframePage;
      case DownloadJob(file) =>
        curDownloadIdx := curDownloadIdx + 1;
        var downloadIdx := curDownloadIdx;
        downloads := downloads[downloadIdx := DownloadSlot(file, true)];
        response := DownloadIframePage(downloadIdx, file.name);
    }

    method HandleMainRequest(now: int) returns (response: Response)
      modifies this
      ensures (View(), response) == HandleMain(old(View()), now)
    {
      UpdateInactivityTimeout(false);
      if gen.preMainVisited {
        gen := gen.(curMainIdx := gen.curMainIdx + 1);
        if gen.curMainIdx > 1 && !gen.prevNextClicked {
          Navigate(Refresh, now);
        }
        gen := gen.(prevNextClicked := false);
        actions := actions + [LoseFocus, MouseLeave];
        gen := gen.(curImgIdx := 0, curEventIdx := 0);
        response := MainPage(gen.curMainIdx);
      } else {
        response := PreMainPage;
        gen := gen.(preMainVisited := true);
      }
    }

    method PrevNextClick(direction: Direction, now: int)
      modifies this
      ensures View() == PrevNextNavigate(old(View()), direction, now)
    {
      if gen.curMainIdx > 0 && !gen.prevNextClicked {
        gen := gen.(prevNextClicked := true);
        Navigate(direction, now);
      }
    }

    // -------------------------------------------------------------- other events

    method OnDownloadCompleted(file: CompletedDownload)
      requires Valid()
      modifies this
      ensures View() == DownloadCompleted(old(View()), file) && Valid()
    {
      AddIframeKeepsInv(View(), DownloadJob(file));
      InvFramed(View());
      AddIframe(DownloadJob(file));
    }

    method OnClipboardButtonPressed()
      requires Valid()
      modifies this
      ensures View() == SessionSpec.AddIframe(old(View()), ClipboardJob) && Valid()
    {
      AddIframeKeepsInv(View(), ClipboardJob);
      InvFramed(View());
      AddIframe(ClipboardJob);
    }

    /** The expiry timer of a kept download. */
    method FireDownloadTimer(downloadIdx: nat)
      requires Valid()
      modifies this
      ensures View() == DownloadExpired(old(View()), downloadIdx) && Valid()
    {
      DownloadExpiredKeepsInv(View(), downloadIdx);
      if downloadIdx in downloads && downloads[downloadIdx].expiryArmed {
        downloads := downloads - {downloadIdx};
      }
    }

    /** Client::OnBeforePopup; the result is true when the popup is cancelled. */
    method OnBeforePopup(handlerAlive: bool, serverFull: bool, popupSessionId: nat)
      returns (cancel: bool)
      requires Valid()
      modifies this
      ensures (View(), cancel) == BeforePopup(old(View()), handlerAlive, serverFull, popupSessionId)
      ensures Valid()
    {
      BeforePopupKeepsInv(View(), handlerAlive, serverFull, popupSessionId);
      InvFramed(View());
      if !handlerAlive {
        return true;
      }
      if serverFull {
        return true;
      }
      actions := actions + [PopupSessionOpened(popupSessionId)];
      AddIframe(PopupJob(popupSessionId));
      return false;
    }

    /** Client::OnCursorChange: the widgets are told which cursor to show. */
    method OnCursorChange(cursor: BrowserCursor)
      requires Valid()
      modifies this
      ensures View() == old(View()).(actions := old(actions) + [SetCursor(CursorFor(cursor))])
      ensures Valid()
    {
      actions := actions + [SetCursor(CursorFor(cursor))];
    }

    /** onWidgetCursorChanged: the cursor the widgets show becomes the height signal. */
    method OnWidgetCursorChanged(cursor: nat)
      requires Valid() && cursor < CursorTypeCount
      modifies this
      ensures View() == SessionSpec.SetHeightSignal(old(View()), cursor) && Valid()
    {
      SetHeightSignalKeepsInv(View(), cursor);
      InvFramed(View());
      SetHeightSignal(cursor);
    }

    /** Client::OnFindResult. */
    method OnFindResult(identifier: int, count: int)
      requires Valid()
      modifies this
      ensures View() == FindResult(old(View()), identifier, count) && Valid()
    {
      FindResultKeepsInv(View(), identifier, count);
      if identifier >= lastFindId {
        actions := actions + [SetFindResult(count > 0)];
        lastFindId := identifier;
      }
    }
  }

  // ---------------------------------------------------------------- event replay

  /** The first loop of sendViewportToCompressor_: the width is counted down from the
      padded width until its remainder is the width signal. */
  method ServedWidth(padded: nat, signal: nat) returns (width: nat)
    requires signal < WidthSignalModulus && WidthSignalModulus - 1 <= padded
    ensures width == ServedSize(padded, WidthSignalModulus, signal)
  {
    width := padded;
    while width % WidthSignalModulus != signal
      invariant signal <= width <= padded
      invariant ServedSize(width, WidthSignalModulus, signal) == ServedSize(padded, WidthSignalModulus, signal)
      decreases width
    {
      width := width - 1;
    }
  }

  /** The second loop: the height is counted down until its remainder is the cursor signal. */
  method ServedHeight(padded: nat, signal: nat) returns (height: nat)
    requires signal < HeightSignalModulus && HeightSignalModulus - 1 <= padded
    ensures height == ServedSize(padded, HeightSignalModulus, signal)
  {
    height := padded;
    while height % HeightSignalModulus != signal
      invariant signal <= height <= padded
      invariant ServedSize(height, HeightSignalModulus, signal) == ServedSize(padded, HeightSignalModulus, signal)
      decreases height
    {
      height := height - 1;
    }
  }

  /** The loop of handleEvents_: walks the '/'-terminated events of a batch whose first
      event has index startIdx and dispatches, in order, each one whose index is the
      current one, starting from the current index cur0. An unterminated tail is dropped. */
  method ReplayEvents(cur0: nat, startIdx: nat, events: string)
    returns (cur: nat, dispatched: seq<Action>)
    ensures cur == Max(cur0, startIdx + |Tokens(events)|)
    ensures dispatched == Dispatches(Max(cur0, startIdx), startIdx, Tokens(events))
  {
    var first := Max(cur0, startIdx);
    var eventIdx := startIdx;
    cur := cur0;
    if eventIdx > cur {
      cur := eventIdx;
    }
    dispatched := [];
    ghost var done: seq<string> := [];
    var eventEnd := 0;
    while true
      invariant 0 <= eventEnd <= |events|
      invariant Tokens(events) == done + Tokens(events[eventEnd..])
      invariant eventIdx == startIdx + |done|
      invariant cur == Max(cur0, eventIdx)
      invariant dispatched == Dispatches(first, startIdx, done)
      decreases |events| - eventEnd
    {
      var eventBegin := eventEnd;
      var terminated;
      eventEnd, terminated := ScanEvent(events, eventBegin);
      if !terminated {
        NoTokensWithoutSlash(events[eventBegin..]);
        return;
      }
      var token := events[eventBegin..eventEnd];
      TokensNext(events, eventBegin, eventEnd);
      ShiftFirst(Tokens(events), done, token, Tokens(events[eventBegin..]), Tokens(events[eventEnd..]));
      DispatchStep(cur0, startIdx, done, token, eventIdx, cur);
      if eventIdx == cur {
        dispatched := dispatched + [DispatchEvent(eventIdx, token)];
        eventIdx := eventIdx + 1;
        cur := eventIdx;
      } else {
        eventIdx := eventIdx + 1;
      }
      done := done + [token];
    }
  }

  /** The inner loop of handleEvents_: from eventBegin to just past the next '/', or to
      the end of the batch when there is none. */
  method ScanEvent(events: string, eventBegin: nat) returns (eventEnd: nat, terminated: bool)
    requires eventBegin <= |events|
    ensures terminated ==>
              eventBegin < eventEnd <= |events| && events[eventEnd - 1] == '/'
              && '/' !in events[eventBegin..eventEnd - 1]
    ensures !terminated ==> eventEnd == |events| && '/' !in events[eventBegin..]
  {
    eventEnd := eventBegin;
    while true
      invariant eventBegin <= eventEnd <= |events|
      invariant '/' !in events[eventBegin..eventEnd]
      decreases |events| - eventEnd
    {
      if eventEnd >= |events| {
        return eventEnd, false;
      }
      if events[eventEnd] == '/' {
        eventEnd := eventEnd + 1;
        return eventEnd, true;
      }
      assert events[eventBegin..eventEnd + 1] == events[eventBegin..eventEnd] + [events[eventEnd]];
      eventEnd := eventEnd + 1;
    }
  }

  /** The token ScanEvent found starts what is left of the batch. */
  lemma TokensNext(events: string, eventBegin: nat, eventEnd: nat)
    requires eventBegin < eventEnd <= |events| && events[eventEnd - 1] == '/'
    requires '/' !in events[eventBegin..eventEnd - 1]
    ensures Tokens(events[eventBegin..]) == [events[eventBegin..eventEnd]] + Tokens(events[eventEnd..])
  {
    var piece := events[eventBegin..eventEnd - 1];
    assert events[eventBegin..] == piece + "/" + events[eventEnd..];
    assert events[eventBegin..eventEnd] == piece + "/";
    TokensCons(piece, events[eventEnd..]);
  }

  /** One iteration of the replay loop: the token is dispatched exactly when its index is
      the current one, which extends the dispatches of the tokens seen so far. */
  lemma DispatchStep(cur0: nat, start: nat, done: seq<string>, token: string,
                     eventIdx: nat, cur: nat)
    requires eventIdx == start + |done| && cur == Max(cur0, eventIdx)
    ensures Dispatches(Max(cur0, start), start, done + [token])
         == Dispatches(Max(cur0, start), start, done)
            + (if eventIdx == cur then [DispatchEvent(eventIdx, token)] else [])
  {
    DispatchesSnoc(Max(cur0, start), start, done, token);
  }

  /** Moving the first element of what is left to what has been seen. */
  lemma ShiftFirst<T>(whole: seq<T>, seen: seq<T>, x: T, left: seq<T>, rest: seq<T>)
    requires whole == seen + left && left == [x] + rest
    ensures whole == (seen + [x]) + rest
  {
  }

  lemma NoTokensWithoutSlash(e: string)
    requires '/' !in e
    ensures Tokens(e) == []
  {
  }

  /** A batch that starts with a piece free of '/' and the '/' after it starts with the
      token made of the two. */
  lemma TokensCons(piece: string, rest: string)
    requires '/' !in piece
    ensures Tokens(piece + "/" + rest) == [piece + "/"] + Tokens(rest)
  {
    var e := piece + "/" + rest;
    IndexOfAfterPiece(piece, rest);
    assert e[..|piece| + 1] == piece + "/";
    assert e[|piece| + 1..] == rest;
  }

  /** One more token in a batch adds one dispatch when its index is not behind first. */
  lemma DispatchesSnoc(first: nat, start: nat, done: seq<string>, token: string)
    requires start <= first
    ensures Dispatches(first, start, done + [token])
         == Dispatches(first, start, done)
            + (if start + |done| >= first then [DispatchEvent(start + |done|, token)] else [])
  {
    var a := Dispatches(first, start, done + [token]);
    var b := Dispatches(first, start, done)
             + (if start + |done| >= first then [DispatchEvent(start + |done|, token)] else []);
    assert |a| == |b|;
    forall j | 0 <= j < |a|
      ensures a[j] == b[j]
    {
      if first - start + j < |done| {
        assert (done + [token])[first - start + j] == done[first - start + j];
      }
    }
  }
}
