/** What the session protocol guarantees, proved about the functions of SessionSpec. */
module SessionProperties {
  import opened Wrappers
  import opened Routes
  import opened SessionSpec

  // ---------------------------------------------------------------- the invariant

  lemma ArmInactivityKeepsInv(s: SessionState, shortened: bool)
    requires Inv(s)
    ensures Inv(ArmInactivity(s, shortened))
  {
  }

  lemma CloseKeepsInv(s: SessionState)
    requires Inv(s)
    ensures Inv(Close(s))
  {
  }

  lemma AfterCreatedKeepsInv(s: SessionState)
    requires Inv(s) && s.life.state == Pending
    ensures Inv(AfterCreated(s))
  {
  }

  lemma BeforeCloseKeepsInv(s: SessionState)
    requires Inv(s) && (s.life.state == Open || s.life.state == Closing)
    ensures Inv(BeforeClose(s))
  {
  }

  lemma AfterConstructKeepsInv(s: SessionState, isPopup: bool, browserCreated: bool)
    requires Inv(s) && s.life.state == Pending
    ensures Inv(AfterConstruct(s, isPopup, browserCreated))
  {
  }

  lemma InactivityTimeoutKeepsInv(s: SessionState, shortened: bool)
    requires Inv(s)
    ensures Inv(InactivityTimeout(s, shortened))
  {
  }

  lemma SetHeightSignalKeepsInv(s: SessionState, signal: nat)
    requires Inv(s) && signal < HeightSignalModulus
    ensures Inv(SetHeightSignal(s, signal))
  {
  }

  lemma AddIframeKeepsInv(s: SessionState, job: IframeJob)
    requires Inv(s)
    ensures Inv(AddIframe(s, job))
  {
  }

  lemma DownloadExpiredKeepsInv(s: SessionState, downloadIdx: nat)
    requires Inv(s)
    ensures Inv(DownloadExpired(s, downloadIdx))
  {
  }

  lemma BeforePopupKeepsInv(s: SessionState, handlerAlive: bool, serverFull: bool, popupId: nat)
    requires Inv(s)
    ensures Inv(BeforePopup(s, handlerAlive, serverFull, popupId).0)
  {
    if handlerAlive && !serverFull {
      AddIframeKeepsInv(s.(actions := s.actions + [PopupSessionOpened(popupId)]), PopupJob(popupId));
    }
  }

  lemma FindResultKeepsInv(s: SessionState, identifier: int, count: int)
    requires Inv(s)
    ensures Inv(FindResult(s, identifier, count))
  {
  }

  lemma HandleImageKeepsInv(s: SessionState, mainIdx: nat, imgIdx: nat, immediate: bool,
                            width: nat, height: nat, startEventIdx: nat, events: string)
    requires Inv(s)
    ensures Inv(HandleImage(s, mainIdx, imgIdx, immediate, width, height, startEventIdx, events).0)
  {
  }

  lemma HandleIframeKeepsInv(s: SessionState, mainIdx: nat)
    requires Inv(s)
    ensures Inv(HandleIframe(s, mainIdx).0)
  {
    if mainIdx == s.gen.curMainIdx && |s.iframeQueue| > 0 {
      var s1 := ArmInactivity(s, false);
      var s2 := s1.(iframeQueue := s1.iframeQueue[1..]);
      var s3 := if |s2.iframeQueue| == 0 then SetWidthSignal(s2, WidthSignalNoNewIframe) else s2;
      assert Inv(s3);
      assert HandleIframe(s, mainIdx) == RunIframe(s3, s1.iframeQueue[0]);
    }
  }

  lemma HandleMainKeepsInv(s: SessionState, now: int)
    requires Inv(s)
    ensures Inv(HandleMain(s, now).0)
  {
  }

  lemma HandlePrevKeepsInv(s: SessionState, now: int)
    requires Inv(s)
    ensures Inv(HandlePrev(s, now).0)
  {
  }

  lemma HandleNextKeepsInv(s: SessionState, now: int)
    requires Inv(s)
    ensures Inv(HandleNext(s, now).0)
  {
  }

  /** Every request keeps the session invariant; in particular the width signal says "new
      iframe" exactly while the iframe queue is non-empty. */
  lemma HandleRequestKeepsInv(s: SessionState, verb: string, path: string, now: int)
    requires Inv(s)
    ensures Inv(HandleRequest(s, verb, path, now).0)
  {
    if s.life.state != Closing && s.life.state != Closed {
      var s1 := RefreshSecurityIfDue(s, now);
      assert Inv(s1);
      match ParseRoute(verb, path)
      case ImageRoute(m, i, imm, w, h, st, ev) => HandleImageKeepsInv(s1, m, i, imm, w, h, st, ev);
      case IframeRoute(m) => HandleIframeKeepsInv(s1, m);
      case DownloadRoute(d) => { }
      case CloseRoute(m) => { }
      case MainRoute => HandleMainKeepsInv(s1, now);
      case PrevRoute => HandlePrevKeepsInv(s1, now);
      case NextRoute => HandleNextKeepsInv(s1, now);
      case NoRoute => { }
    }
  }

  /** The generation and download counters never go back: the main index only grows, and
      within one generation the image and event indices only grow. */
  lemma HandleRequestMonotone(s: SessionState, verb: string, path: string, now: int)
    requires Inv(s)
    ensures var r := HandleRequest(s, verb, path, now).0;
            r.gen.curMainIdx >= s.gen.curMainIdx
            && r.curDownloadIdx >= s.curDownloadIdx
            && (r.gen.curMainIdx == s.gen.curMainIdx ==>
                  r.gen.curImgIdx >= s.gen.curImgIdx && r.gen.curEventIdx >= s.gen.curEventIdx)
  {
    InvFramed(s);
    if s.life.state != Closing && s.life.state != Closed {
      var s1 := RefreshSecurityIfDue(s, now);
      assert s1.gen == s.gen && s1.curDownloadIdx == s.curDownloadIdx && Framed(s1.view);
      match ParseRoute(verb, path)
      case ImageRoute(m, i, imm, w, h, st, ev) => { }
      case IframeRoute(m) => IframePollRules(s1, m);
      case DownloadRoute(d) => { }
      case CloseRoute(m) => { }
      case MainRoute => { }
      case PrevRoute => { }
      case NextRoute => { }
      case NoRoute => { }
    }
  }

  // ---------------------------------------------------------------- lifecycle

  /** After updateInactivityTimeout_, exactly one timer runs while the session lives (the
      short one when asked for) and none otherwise; nothing else changes. */
  lemma ArmInactivityArmsOne(s: SessionState, shortened: bool)
    ensures var r := ArmInactivity(s, shortened);
            (Live(s) ==> r.timers.shortArmed == shortened && r.timers.longArmed == !shortened)
            && (!Live(s) ==> !r.timers.shortArmed && !r.timers.longArmed)
            && r.(timers := s.timers) == s
  {
  }

  /** close() moves an open session to Closing, defers on a pending one, and does nothing
      once closing has begun. */
  lemma CloseTransitions(s: SessionState)
    ensures s.life.state == Open ==>
              Close(s).life.state == Closing && Close(s).actions == s.actions + [CloseBrowser, FlushCompressor]
    ensures s.life.state == Pending ==> Close(s).life.state == Pending && Close(s).life.closeOnOpen
    ensures s.life.state == Closing || s.life.state == Closed ==> Close(s) == s
  {
  }

  /** A close requested while the browser is still being created takes effect as soon as
      the browser exists. */
  lemma CloseWhilePendingTakesEffectOnOpen(s: SessionState)
    requires s.life.state == Pending
    ensures var r := AfterCreated(Close(s));
            r.life.state == Closing && r.life.hasBrowser
            && r.actions == s.actions + [SetBrowserArea(true), CloseBrowser, FlushCompressor]
  {
  }

  lemma AfterCreatedOpens(s: SessionState)
    requires s.life.state == Pending && !s.life.closeOnOpen
    ensures AfterCreated(s).life == Life(Open, true, false)
  {
  }

  /** Once the browser closes, the session is closed for good and no timer runs. */
  lemma BeforeCloseEnds(s: SessionState)
    requires s.life.state == Open || s.life.state == Closing
    ensures var r := BeforeClose(s);
            r.life.state == Closed && !r.life.hasBrowser && r.timers == Timers(false, false)
            && r.actions == s.actions + [SetBrowserArea(false), FlushCompressor, SessionClosedNotice]
  {
  }

  /** A failed browser creation closes a fresh session without arming any timer; otherwise
      the long inactivity timer runs. */
  lemma AfterConstructOutcome(s: SessionState, isPopup: bool, browserCreated: bool)
    requires s.life.state == Pending
    ensures var r := AfterConstruct(s, isPopup, browserCreated);
            (!isPopup && !browserCreated ==>
               r.life.state == Closed && r.timers == Timers(false, false)
               && r.actions == s.actions + [SessionClosedNotice])
            && (isPopup || browserCreated ==> r.life == s.life && r.timers == Timers(true, false))
  {
  }

  /** A firing inactivity timer disarms itself and then closes a session that still lives,
      exactly like close(); a dead session only loses the armed timer. */
  lemma InactivityTimeoutCloses(s: SessionState, shortened: bool)
    ensures var armed := if shortened then s.timers.shortArmed else s.timers.longArmed;
            var r := InactivityTimeout(s, shortened);
            (!armed ==> r == s)
            && (armed && Live(s) ==> r.life == Close(s).life && r.actions == Close(s).actions)
            && (armed && !Live(s) ==> r.life == s.life && r.actions == s.actions)
    ensures var armed := if shortened then s.timers.shortArmed else s.timers.longArmed;
            var fired := s.(timers := if shortened then s.timers.(shortArmed := false)
                                      else s.timers.(longArmed := false));
            armed ==> InactivityTimeout(s, shortened) == (if Live(s) then Close(fired) else fired)
  {
  }

  /** A closing or closed session answers 503 to every request and changes nothing. */
  lemma ClosedSessionRefusesRequests(s: SessionState, verb: string, path: string, now: int)
    requires Framed(s.view)
    requires s.life.state == Closing || s.life.state == Closed
    ensures HandleRequest(s, verb, path, now) == (s, TextResponse(503, ClosedMessage))
  {
  }

  /** The security refresh ahead of routing touches only its time stamp and the action log. */
  lemma SecurityRefreshTouchesOnlyStatus(s: SessionState, now: int)
    ensures var r := RefreshSecurityIfDue(s, now);
            r.(lastSecurityStatusUpdateTime := s.lastSecurityStatusUpdateTime, actions := s.actions) == s
            && r.lastSecurityStatusUpdateTime
               == (if now - s.lastSecurityStatusUpdateTime >= SecurityStatusRefreshMs then now
                   else s.lastSecurityStatusUpdateTime)
  {
  }

  /** A path outside the grammar, or a method other than GET, gets 400. */
  lemma UnroutedRequestRefused(s: SessionState, verb: string, path: string, now: int)
    requires Framed(s.view) && Live(s)
    requires ParseRoute(verb, path) == NoRoute
    ensures HandleRequest(s, verb, path, now)
         == (RefreshSecurityIfDue(s, now), TextResponse(400, InvalidRequestMessage))
  {
  }

  // ---------------------------------------------------------------- image polls

  lemma {:induction false} TokensOfEventsText(tokens: seq<string>)
    requires forall k :: 0 <= k < |tokens| ==> IsEventToken(tokens[k])
    ensures |Tokens(EventsText(tokens))| == |tokens|
    ensures forall k :: 0 <= k < |tokens| ==> Tokens(EventsText(tokens))[k] == tokens[k] + "/"
    decreases |tokens|
  {
    if |tokens| > 0 {
      var t := tokens[0];
      var rest := EventsText(tokens[1..]);
      var e := t + "/" + rest;
      TokenHasNoSlash(t);
      IndexOfAfterPiece(t, rest);
      assert e[..|t| + 1] == t + "/";
      assert e[|t| + 1..] == rest;
      TokensOfEventsText(tokens[1..]);
    }
  }

  /** An image poll of an old generation, or with an image index already seen, gets 400
      and leaves the session as the security refresh left it. */
  lemma StaleImagePollRefused(s: SessionState, sessionId: nat, mainIdx: nat, imgIdx: nat,
                              immediate: bool, width: nat, height: nat, startEventIdx: nat,
                              tokens: seq<string>, now: int)
    requires Framed(s.view) && Live(s)
    requires forall k :: 0 <= k < |tokens| ==> IsEventToken(tokens[k])
    requires mainIdx != s.gen.curMainIdx || imgIdx <= s.gen.curImgIdx
    ensures HandleRequest(s, "GET", ImagePath(sessionId, mainIdx, imgIdx, immediate, width,
                                              height, startEventIdx, tokens), now)
         == (RefreshSecurityIfDue(s, now), TextResponse(400, OutdatedMessage))
  {
    ParseImagePath(sessionId, mainIdx, imgIdx, immediate, width, height, startEventIdx, tokens);
  }

  /** A well-formed image path reaches the image handler with the batch it carries. */
  lemma ImagePollIsRouted(s: SessionState, sessionId: nat, mainIdx: nat, imgIdx: nat,
                          immediate: bool, width: nat, height: nat, startEventIdx: nat,
                          tokens: seq<string>, now: int)
    requires Framed(s.view) && Live(s)
    requires forall k :: 0 <= k < |tokens| ==> IsEventToken(tokens[k])
    ensures HandleRequest(s, "GET", ImagePath(sessionId, mainIdx, imgIdx, immediate, width,
                                              height, startEventIdx, tokens), now)
         == HandleImage(RefreshSecurityIfDue(s, now), mainIdx, imgIdx, immediate, width, height,
                        startEventIdx, EventsText(tokens))
  {
    ParseImagePath(sessionId, mainIdx, imgIdx, immediate, width, height, startEventIdx, tokens);
  }

  /** An accepted image poll adopts its image index, moves the event index past its batch,
      resizes the viewport, arms the long timer and hands the request to the compressor. */
  lemma AcceptedImage(s: SessionState, mainIdx: nat, imgIdx: nat, immediate: bool, width: nat,
                      height: nat, startEventIdx: nat, events: string)
    requires mainIdx == s.gen.curMainIdx && imgIdx > s.gen.curImgIdx
    ensures var r := HandleImage(s, mainIdx, imgIdx, immediate, width, height, startEventIdx, events);
            r.1 == (if immediate then ImageNow else ImageWait)
            && r.0.gen == s.gen.(curImgIdx := imgIdx,
                                 curEventIdx := Max(s.gen.curEventIdx, startEventIdx + |Tokens(events)|))
            && r.0.view.rootWidth == ClampViewport(width)
            && r.0.view.rootHeight == ClampViewport(height)
            && r.0.timers == (if Live(s) then Timers(true, false) else Timers(false, false))
            && r.0.life == s.life
            && r.0.iframeQueue == s.iframeQueue && r.0.downloads == s.downloads
  {
  }

  /** The same as seen by a request: the event index moves past the tokens of the path. */
  lemma AcceptedImagePoll(s: SessionState, sessionId: nat, mainIdx: nat, imgIdx: nat,
                          immediate: bool, width: nat, height: nat, startEventIdx: nat,
                          tokens: seq<string>, now: int)
    requires Framed(s.view) && Live(s)
    requires forall k :: 0 <= k < |tokens| ==> IsEventToken(tokens[k])
    requires mainIdx == s.gen.curMainIdx && imgIdx > s.gen.curImgIdx
    ensures var r := HandleRequest(s, "GET", ImagePath(sessionId, mainIdx, imgIdx, immediate,
                                                       width, height, startEventIdx, tokens), now);
            r.1 == (if immediate then ImageNow else ImageWait)
            && r.0.gen == s.gen.(curImgIdx := imgIdx,
                                 curEventIdx := Max(s.gen.curEventIdx, startEventIdx + |tokens|))
            && r.0.view.rootWidth == ClampViewport(width)
            && r.0.view.rootHeight == ClampViewport(height)
            && r.0.timers == Timers(true, false) && r.0.life == s.life
            && r.0.iframeQueue == s.iframeQueue && r.0.downloads == s.downloads
  {
    ImagePollIsRouted(s, sessionId, mainIdx, imgIdx, immediate, width, height, startEventIdx,
                      tokens, now);
    var s1 := RefreshSecurityIfDue(s, now);
    SecurityRefreshTouchesOnlyStatus(s, now);
    AcceptedImage(s1, mainIdx, imgIdx, immediate, width, height, startEventIdx, EventsText(tokens));
    TokensOfEventsText(tokens);
  }

  /** The same image poll twice: the second one is refused as outdated. */
  lemma RepeatedImagePollRefused(s: SessionState, sessionId: nat, mainIdx: nat, imgIdx: nat,
                                 immediate: bool, width: nat, height: nat, startEventIdx: nat,
                                 tokens: seq<string>, now1: int, now2: int)
    requires Inv(s) && Live(s)
    requires forall k :: 0 <= k < |tokens| ==> IsEventToken(tokens[k])
    requires mainIdx == s.gen.curMainIdx && imgIdx > s.gen.curImgIdx
    ensures var path := ImagePath(sessionId, mainIdx, imgIdx, immediate, width, height,
                                  startEventIdx, tokens);
            var r1 := HandleRequest(s, "GET", path, now1).0;
            Framed(r1.view) && HandleRequest(r1, "GET", path, now2).1 == TextResponse(400, OutdatedMessage)
  {
    var path := ImagePath(sessionId, mainIdx, imgIdx, immediate, width, height, startEventIdx, tokens);
    AcceptedImagePoll(s, sessionId, mainIdx, imgIdx, immediate, width, height, startEventIdx,
                      tokens, now1);
    var r1 := HandleRequest(s, "GET", path, now1).0;
    HandleRequestKeepsInv(s, "GET", path, now1);
    StaleImagePollRefused(r1, sessionId, mainIdx, imgIdx, immediate, width, height,
                          startEventIdx, tokens, now2);
  }

  // ---------------------------------------------------------------- event replay

  /** Every event dispatched by a replay has an index at or past the old current index and
      below the new one; the indices are consecutive, each token is dispatched under its own
      index, and nothing else is logged. */
  lemma ReplayDispatchesEachOnce(s: SessionState, start: nat, events: string)
    ensures var r := Replay(s, start, events);
            var first := Max(s.gen.curEventIdx, start);
            var log := r.actions[|s.actions|..];
            r.actions[..|s.actions|] == s.actions
            && r.gen.curEventIdx == Max(s.gen.curEventIdx, start + |Tokens(events)|)
            && |log| == r.gen.curEventIdx - first
            && forall j :: 0 <= j < |log| ==>
                 log[j] == DispatchEvent(first + j, Tokens(events)[first - start + j])
  {
  }

  /** Retransmitting a batch that was already replayed dispatches nothing new and leaves
      the current event index where it is. */
  lemma ReplayRetransmissionIsIgnored(s: SessionState, start: nat, events: string)
    ensures var once := Replay(s, start, events);
            Replay(once, start, events) == once
  {
    var once := Replay(s, start, events);
    assert Dispatches(Max(once.gen.curEventIdx, start), start, Tokens(events)) == [];
    assert once.actions + [] == once.actions;
  }

  /** What one replay logs: dispatches only, from the first index not yet dispatched up
      to (not including) the new current index. */
  lemma ReplayLogBounds(s: SessionState, start: nat, events: string)
    ensures var r := Replay(s, start, events);
            s.gen.curEventIdx <= r.gen.curEventIdx
            && r.actions[..|s.actions|] == s.actions
            && forall j :: |s.actions| <= j < |r.actions| ==>
                 r.actions[j].DispatchEvent?
                 && s.gen.curEventIdx <= r.actions[j].eventIdx < r.gen.curEventIdx
  {
    var r := Replay(s, start, events);
    ReplayDispatchesEachOnce(s, start, events);
    forall j | |s.actions| <= j < |r.actions|
      ensures r.actions[j].DispatchEvent?
              && s.gen.curEventIdx <= r.actions[j].eventIdx < r.gen.curEventIdx
    {
      assert r.actions[j] == r.actions[|s.actions|..][j - |s.actions|];
    }
  }

  /** Two successive batches never dispatch the same index: everything the second one
      dispatches lies past everything the first one did. */
  lemma ReplayBatchesAreDisjoint(s: SessionState, start1: nat, events1: string,
                                 start2: nat, events2: string)
    ensures var r1 := Replay(s, start1, events1);
            var r2 := Replay(r1, start2, events2);
            forall i, j :: |s.actions| <= i < |r1.actions| <= j < |r2.actions| ==>
              r1.actions[i].DispatchEvent? && r2.actions[j].DispatchEvent?
              && r2.actions[i] == r1.actions[i]
              && r1.actions[i].eventIdx < r2.actions[j].eventIdx
  {
    var r1 := Replay(s, start1, events1);
    ReplayLogBounds(s, start1, events1);
    ReplayLogBounds(r1, start2, events2);
    var r2 := Replay(r1, start2, events2);
    forall i | |s.actions| <= i < |r1.actions|
      ensures r2.actions[i] == r1.actions[i]
    {
      assert r2.actions[..|r1.actions|][i] == r2.actions[i];
    }
  }

  // ---------------------------------------------------------------- viewport and signals

  /** With the padding the session allocates, the served width carries the width signal in
      its remainder, never cuts into the root viewport, and is the largest such width. */
  lemma ServedWidthEncodesSignal(root: nat, signal: nat)
    requires signal < WidthSignalModulus
    ensures var w := ServedSize(root + WidthSignalModulus - 1, WidthSignalModulus, signal);
            w % WidthSignalModulus == signal && root <= w <= root + WidthSignalModulus - 1
    ensures var w := ServedSize(root + WidthSignalModulus - 1, WidthSignalModulus, signal);
            forall v :: w < v <= root + WidthSignalModulus - 1 ==> v % WidthSignalModulus != signal
  {
  }

  /** The same for the height and the cursor signal. */
  lemma ServedHeightEncodesSignal(root: nat, signal: nat)
    requires signal < HeightSignalModulus
    ensures var h := ServedSize(root + HeightSignalModulus - 1, HeightSignalModulus, signal);
            h % HeightSignalModulus == signal && root <= h <= root + HeightSignalModulus - 1
    ensures var h := ServedSize(root + HeightSignalModulus - 1, HeightSignalModulus, signal);
            forall v :: h < v <= root + HeightSignalModulus - 1 ==> v % HeightSignalModulus != signal
  {
  }

  /** What the compressor is sent: a size the client decodes both signals from. */
  lemma SentImageCarriesSignals(s: SessionState)
    requires Inv(s)
    ensures var r := SendViewport(s);
            exists w: nat, h: nat ::
              r.actions == s.actions + [SendImage(w, h)]
              && w % WidthSignalModulus == s.view.widthSignal
              && s.view.rootWidth <= w <= s.view.rootWidth + WidthSignalModulus - 1
              && h % HeightSignalModulus == s.view.heightSignal
              && s.view.rootHeight <= h <= s.view.rootHeight + HeightSignalModulus - 1
  {
    ServedWidthEncodesSignal(s.view.rootWidth, s.view.widthSignal);
    ServedHeightEncodesSignal(s.view.rootHeight, s.view.heightSignal);
    var w := ServedSize(s.view.paddedWidth, WidthSignalModulus, s.view.widthSignal);
    var h := ServedSize(s.view.paddedHeight, HeightSignalModulus, s.view.heightSignal);
    assert SendViewport(s).actions == s.actions + [SendImage(w, h)];
  }

  /** The requested size is clamped per axis; the padded buffer is reallocated, one less
      than each modulus larger, only when the clamped size differs. */
  lemma ResizeViewportRules(s: SessionState, width: nat, height: nat)
    ensures var r := ResizeViewport(s, width, height);
            var w := ClampViewport(width);
            var h := ClampViewport(height);
            (w == s.view.rootWidth && h == s.view.rootHeight ==> r == s)
            && (w != s.view.rootWidth || h != s.view.rootHeight ==>
                  r.view == s.view.(rootWidth := w, rootHeight := h,
                                    paddedWidth := w + WidthSignalModulus - 1,
                                    paddedHeight := h + HeightSignalModulus - 1)
                  && r.actions == s.actions + [SetRootViewport(w, h)])
  {
  }

  // ---------------------------------------------------------------- iframe queue

  /** addIframe_ appends the job and raises the width signal, sending a new image size
      only when the signal changes. */
  lemma AddIframeAppends(s: SessionState, job: IframeJob)
    requires Framed(s.view)
    ensures var r := AddIframe(s, job);
            r.iframeQueue == s.iframeQueue + [job] && r.view.widthSignal == WidthSignalNewIframe
            && (s.view.widthSignal == WidthSignalNewIframe ==> r.actions == s.actions)
    ensures var r := AddIframe(s, job);
            s.view.widthSignal != WidthSignalNewIframe ==>
              exists w: nat, h: nat ::
                r.actions == s.actions + [SendImage(w, h)]
                && w % WidthSignalModulus == WidthSignalNewIframe
                && w <= s.view.paddedWidth < w + WidthSignalModulus
                && h % HeightSignalModulus == s.view.heightSignal
                && h <= s.view.paddedHeight < h + HeightSignalModulus
                && (Inv(s) ==>
                      s.view.rootWidth <= w <= s.view.rootWidth + WidthSignalModulus - 1
                      && s.view.rootHeight <= h <= s.view.rootHeight + HeightSignalModulus - 1)
  {
    if s.view.widthSignal != WidthSignalNewIframe {
      var v := s.view;
      ServedWidthEncodesSignal(v.paddedWidth - (WidthSignalModulus - 1), WidthSignalNewIframe);
      ServedHeightEncodesSignal(v.paddedHeight - (HeightSignalModulus - 1), v.heightSignal);
      var w := ServedSize(v.paddedWidth, WidthSignalModulus, WidthSignalNewIframe);
      var h := ServedSize(v.paddedHeight, HeightSignalModulus, v.heightSignal);
      assert AddIframe(s, job).actions == s.actions + [SendImage(w, h)];
    }
  }

  /** The iframe poll: outdated generations get 400; an empty queue gets 200 "OK" and
      nothing changes; otherwise the oldest job is served and removed. */
  lemma IframePollRules(s: SessionState, mainIdx: nat)
    requires Framed(s.view)
    ensures mainIdx != s.gen.curMainIdx ==> HandleIframe(s, mainIdx) == (s, TextResponse(400, OutdatedMessage))
    ensures mainIdx == s.gen.curMainIdx && s.iframeQueue == [] ==>
              HandleIframe(s, mainIdx) == (s, TextResponse(200, "OK"))
    ensures mainIdx == s.gen.curMainIdx && s.iframeQueue != [] ==>
              var r := HandleIframe(s, mainIdx);
              r.0.iframeQueue == s.iframeQueue[1..]
              && r.0.view.widthSignal == (if |s.iframeQueue| == 1 then WidthSignalNoNewIframe
                                          else s.view.widthSignal)
              && (!s.iframeQueue[0].DownloadJob? ==> r.1 == RunIframe(s, s.iframeQueue[0]).1)
    ensures mainIdx == s.gen.curMainIdx && s.iframeQueue != [] && s.iframeQueue[0].DownloadJob? ==>
              var r := HandleIframe(s, mainIdx);
              var file := s.iframeQueue[0].file;
              var idx := s.curDownloadIdx + 1;
              r.1 == DownloadIframePage(idx, file.name)
              && r.0.curDownloadIdx == idx
              && r.0.downloads == s.downloads[idx := DownloadSlot(file, true)]
    ensures mainIdx == s.gen.curMainIdx && s.iframeQueue != [] ==>
              var r := HandleIframe(s, mainIdx);
              r.0.timers == Timers(Live(s), false)
              && r.0.view == s.view.(widthSignal := r.0.view.widthSignal)
              && r.0.(iframeQueue := s.iframeQueue, timers := s.timers, view := s.view,
                      actions := s.actions, curDownloadIdx := s.curDownloadIdx,
                      downloads := s.downloads) == s
              && (!s.iframeQueue[0].DownloadJob? ==>
                    r.0.curDownloadIdx == s.curDownloadIdx && r.0.downloads == s.downloads)
    ensures mainIdx == s.gen.curMainIdx && s.iframeQueue != [] ==>
              var r := HandleIframe(s, mainIdx);
              (|s.iframeQueue| > 1 || s.view.widthSignal == WidthSignalNoNewIframe ==>
                 r.0.actions == s.actions)
              && (Inv(s) ==> s.view.widthSignal != WidthSignalNoNewIframe)
    ensures mainIdx == s.gen.curMainIdx && |s.iframeQueue| == 1
            && s.view.widthSignal != WidthSignalNoNewIframe ==>
              exists w: nat, h: nat ::
                HandleIframe(s, mainIdx).0.actions == s.actions + [SendImage(w, h)]
                && w % WidthSignalModulus == WidthSignalNoNewIframe
                && w <= s.view.paddedWidth < w + WidthSignalModulus
                && h % HeightSignalModulus == s.view.heightSignal
                && h <= s.view.paddedHeight < h + HeightSignalModulus
                && (Inv(s) ==>
                      s.view.rootWidth <= w <= s.view.rootWidth + WidthSignalModulus - 1
                      && s.view.rootHeight <= h <= s.view.rootHeight + HeightSignalModulus - 1)
  {
    if mainIdx == s.gen.curMainIdx && |s.iframeQueue| == 1
       && s.view.widthSignal != WidthSignalNoNewIframe {
      var v := s.view;
      ServedWidthEncodesSignal(v.paddedWidth - (WidthSignalModulus - 1), WidthSignalNoNewIframe);
      ServedHeightEncodesSignal(v.paddedHeight - (HeightSignalModulus - 1), v.heightSignal);
      var w := ServedSize(v.paddedWidth, WidthSignalModulus, WidthSignalNoNewIframe);
      var h := ServedSize(v.paddedHeight, HeightSignalModulus, v.heightSignal);
      assert HandleIframe(s, mainIdx).0.actions == s.actions + [SendImage(w, h)];
    }
  }

  /** Two queued popup iframes are served in the order they were queued, and a third poll
      finds the queue empty with the width signal lowered again. */
  lemma IframeQueueIsFifo(s: SessionState, first: nat, second: nat)
    requires Inv(s) && s.iframeQueue == []
    ensures var q := AddIframe(AddIframe(s, PopupJob(first)), PopupJob(second));
            var m := s.gen.curMainIdx;
            var p1 := HandleIframe(q, m);
            var p2 := HandleIframe(p1.0, m);
            var p3 := HandleIframe(p2.0, m);
            p1.1 == PopupIframePage(first) && p2.1 == PopupIframePage(second)
            && p3.1 == TextResponse(200, "OK") && p3.0.iframeQueue == []
            && p3.0.view.widthSignal == WidthSignalNoNewIframe
  {
    var q1 := AddIframe(s, PopupJob(first));
    AddIframeKeepsInv(s, PopupJob(first));
    var q := AddIframe(q1, PopupJob(second));
    AddIframeKeepsInv(q1, PopupJob(second));
    assert q.iframeQueue == [PopupJob(first), PopupJob(second)];
    var m := s.gen.curMainIdx;
    var p1 := HandleIframe(q, m);
    HandleIframeKeepsInv(q, m);
    assert p1.0.iframeQueue == [PopupJob(second)];
    var p2 := HandleIframe(p1.0, m);
    HandleIframeKeepsInv(p1.0, m);
    assert p2.0.iframeQueue == [];
  }

  // ---------------------------------------------------------------- main, close, prev, next

  /** The first main-page request serves the bootstrap page and keeps the generation. */
  lemma FirstMainVisit(s: SessionState, now: int)
    requires !s.gen.preMainVisited
    ensures var r := HandleMain(s, now);
            r.1 == PreMainPage && r.0.gen == s.gen.(preMainVisited := true)
            && r.0.actions == s.actions
    ensures HandleMain(s, now).0
              == s.(timers := Timers(Live(s), false), gen := s.gen.(preMainVisited := true))
  {
  }

  /** Each later main-page request starts a new generation; it reloads the browser only
      when it is not the first generation and no prev/next click led to it. */
  lemma LaterMainVisit(s: SessionState, now: int)
    requires s.gen.preMainVisited
    ensures var r := HandleMain(s, now);
            var reload := s.gen.curMainIdx + 1 > 1 && !s.gen.prevNextClicked
                          && now - s.lastNavigateOperationTime > NavigateDebounceMs
                          && s.life.hasBrowser;
            r.1 == MainPage(s.gen.curMainIdx + 1)
            && r.0.gen == s.gen.(curMainIdx := s.gen.curMainIdx + 1, curImgIdx := 0,
                                 curEventIdx := 0, prevNextClicked := false)
            && r.0.actions == s.actions + (if reload then [Navigation(Refresh)] else [])
                                        + [LoseFocus, MouseLeave]
    ensures HandleMain(s, now).0.timers == Timers(Live(s), false)
  {
  }

  /** A close request of the current generation ends it and runs the short timer. */
  lemma CloseRequestRules(s: SessionState, mainIdx: nat)
    ensures mainIdx != s.gen.curMainIdx ==> HandleClose(s, mainIdx) == (s, TextResponse(400, OutdatedMessage))
    ensures mainIdx == s.gen.curMainIdx ==>
              var r := HandleClose(s, mainIdx);
              r.1 == TextResponse(200, "OK")
              && r.0.gen == s.gen.(curMainIdx := s.gen.curMainIdx + 1, curImgIdx := 0, curEventIdx := 0)
              && r.0.timers == Timers(false, Live(s))
              && r.0 == s.(gen := r.0.gen, timers := r.0.timers)
  {
  }

  /** The first prev or next click of a generation (once a main page was served) sets the
      flag and asks for one navigation; later ones in the same generation ask for none. */
  lemma PrevNextNavigatesOncePerGeneration(s: SessionState, d1: Direction, d2: Direction,
                                           t1: int, t2: int)
    ensures var r1 := PrevNextNavigate(s, d1, t1);
            (s.gen.curMainIdx > 0 ==> r1.gen.prevNextClicked && PrevNextNavigate(r1, d2, t2) == r1)
            && (s.gen.curMainIdx > 0 && !s.gen.prevNextClicked ==>
                  r1 == Navigate(s.(gen := s.gen.(prevNextClicked := true)), d1, t1))
            && (s.gen.curMainIdx == 0 ==> r1 == s)
  {
  }

  /** A prev or next page after a click already counted in the generation adds no action:
      only the long inactivity timer is re-armed, and the prev page records its visit. */
  lemma SecondPrevNextDoesNotNavigate(s: SessionState, now: int)
    requires s.gen.prevNextClicked
    ensures HandlePrev(s, now).0.actions == s.actions && HandleNext(s, now).0.actions == s.actions
    ensures HandlePrev(s, now).0
            == s.(timers := Timers(Live(s), false), gen := s.gen.(prePrevVisited := true))
    ensures HandleNext(s, now).0 == s.(timers := Timers(Live(s), false))
  {
  }

  /** navigate_ drops an operation within the debounce window and keeps the old time
      stamp; an accepted one takes the new time stamp and reaches the browser if any. */
  lemma NavigateDebounce(s: SessionState, direction: Direction, now: int)
    ensures now - s.lastNavigateOperationTime <= NavigateDebounceMs ==> Navigate(s, direction, now) == s
    ensures now - s.lastNavigateOperationTime > NavigateDebounceMs ==>
              var r := Navigate(s, direction, now);
              r.lastNavigateOperationTime == now
              && r.actions == s.actions + (if s.life.hasBrowser then [Navigation(direction)] else [])
              && r.(lastNavigateOperationTime := s.lastNavigateOperationTime, actions := s.actions) == s
  {
  }

  /** A double-reported navigation: the second of two operations within the window is
      dropped, so the browser sees one. */
  lemma DoubleReportedNavigationDropped(s: SessionState, d1: Direction, d2: Direction,
                                        t1: int, t2: int)
    requires t1 - s.lastNavigateOperationTime > NavigateDebounceMs
    requires t2 - t1 <= NavigateDebounceMs
    ensures Navigate(Navigate(s, d1, t1), d2, t2) == Navigate(s, d1, t1)
  {
  }

  // ---------------------------------------------------------------- downloads

  /** Serving a download iframe hands out the next index, which no kept download holds. */
  lemma DownloadIndexIsFresh(s: SessionState, file: CompletedDownload)
    requires Inv(s)
    ensures var idx := s.curDownloadIdx + 1;
            var r := RunIframe(s, DownloadJob(file));
            idx !in s.downloads
            && r.0.curDownloadIdx == idx
            && r.0.downloads == s.downloads[idx := DownloadSlot(file, true)]
            && r.1 == DownloadIframePage(idx, file.name)
  {
  }

  /** A download index that is not (or no longer) kept gets 400; a kept one serves its file. */
  lemma DownloadLookupRules(s: SessionState, downloadIdx: nat)
    ensures downloadIdx !in s.downloads ==>
              HandleDownload(s, downloadIdx) == (s, TextResponse(400, OutdatedDownloadMessage))
    ensures downloadIdx in s.downloads ==>
              HandleDownload(s, downloadIdx) == (s, FileResponse(s.downloads[downloadIdx].file))
  {
  }

  /** An expiry timer erases its own download and no other. */
  lemma DownloadExpiryForgetsOnlyItsOwn(s: SessionState, downloadIdx: nat)
    requires downloadIdx in s.downloads && s.downloads[downloadIdx].expiryArmed
    ensures var r := DownloadExpired(s, downloadIdx);
            downloadIdx !in r.downloads
            && (forall k :: k != downloadIdx ==>
                  (k in r.downloads <==> k in s.downloads)
                  && (k in s.downloads ==> r.downloads[k] == s.downloads[k]))
            && r.(downloads := s.downloads) == s
  {
  }

  // ---------------------------------------------------------------- popups and find results

  lemma BeforePopupRules(s: SessionState, handlerAlive: bool, serverFull: bool, popupId: nat)
    requires Framed(s.view)
    ensures !handlerAlive || serverFull ==> BeforePopup(s, handlerAlive, serverFull, popupId) == (s, true)
    ensures handlerAlive && !serverFull ==>
              var r := BeforePopup(s, handlerAlive, serverFull, popupId);
              !r.1 && r.0.iframeQueue == s.iframeQueue + [PopupJob(popupId)]
              && r.0.view.widthSignal == WidthSignalNewIframe
  {
  }

  /** Find results of a search older than the last reported one are ignored, and the last
      reported identifier never goes down. */
  lemma FindResultRules(s: SessionState, identifier: int, count: int)
    ensures identifier < s.lastFindId ==> FindResult(s, identifier, count) == s
    ensures identifier >= s.lastFindId ==>
              FindResult(s, identifier, count).lastFindId == identifier
              && FindResult(s, identifier, count).actions == s.actions + [SetFindResult(count > 0)]
    ensures FindResult(s, identifier, count).lastFindId >= s.lastFindId
  {
  }
}
