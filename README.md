# Browservice core, modelled in Dafny

Browservice is a proxy that runs a real browser on a server. An old client browser sees the
page as a stream of images, and sends its keyboard and mouse input back inside the paths of
its image requests. This project models four parts of it.

- **The browser session** (`src/session.cpp`) is the per-viewer object. It holds:
  - the lifecycle of the session's browser (Pending, Open, Closing, Closed) and its
    deferred close;
  - the two inactivity timers;
  - the generation counters of the client's main page, image polls and input events;
  - the padded root viewport, whose served width and height carry two signals (an iframe is
    waiting; the cursor to show) in their remainders;
  - the FIFO queue of iframes to show (popups, clipboard, downloads), and the finished
    downloads kept for a while under fresh indices.

  The request paths are routed by a grammar that takes the place of the seven regular
  expressions at the top of the file. The events carried in a path are replayed so that a
  retransmitted batch is never dispatched twice.
- **The image compressor** (`viceplugins/retrojsvice/src/image_compressor.cpp`) decides when
  a new compression starts. It also decides whether a frame request is served at once or made
  to wait, and what a finished compression does. Its `fetchImage_` copies the offered image
  row by row into a packed buffer.
- **The command-line options** (`src/config.cpp`) cover:
  - the per-type value parsers and default formatters;
  - the word-wrapped, sorted `--help` text, and `--version`;
  - the argument loop of `Config::read`, with its error cases.
- **The text helpers** (`src/text.cpp`) cover:
  - UTF-8 character stepping (`jumpUTF8Chars`);
  - the checked graymap allocation;
  - the clipped threshold blit of a rendered graymap onto an image slice;
  - the scrolling offset of a one-line text field (`OverflowTextLayout`).

Each stateful object of the source is a Dafny `class` whose methods change its fields step by
step. Each method's postcondition says that the new state equals what a function of the
previous state computes. The functions live in spec modules, together with the lemmas that
state what the source promises:
- `SessionSpec` and `SessionProperties` for `Session.Session`;
- `ImageCompressorSpec` for `ImageCompressor.Compressor`.

Loops of the source are `while` loops with invariants, proved against a reference function:
- `handleEvents_` is `Session.ReplayEvents`;
- the `fetchImage_` copy is `ImageCompressor.CopyRows`;
- `jumpUTF8Chars` is `Text.JumpUtf8Chars`;
- `helpLine` is `Config.HelpLine`;
- the argument loop is `Config.ReadConfig`, which starts from the defaults and runs `Config.ArgumentLoop`, one `Config.ReadRound` per argument.

Files:
- `wrappers.dfy`: `Option`, bytes, `Min`, `Max` and `IndexOf`.
- `decimal.dfy`: decimal digit strings.
- `routes.dfy`: the request-path grammar.
- `session_spec.dfy`, `session_props.dfy` and `session.dfy`: the session.
- `image_compressor.dfy`: the compressor.
- `config.dfy`: the options.
- `text.dfy`: the text helpers.

Interaction with the outside world is a parameter or an entry in a log. This covers the
clock (`now`), what the browser engine reports, whether browser creation succeeded, the
image offered by the event handler, and the platform's hardware concurrency. What the
session asks of the browser, the widgets and the compressor is appended to
`SessionState.actions`. What the compressor answers is appended to `CompressorState.served`.

## Model

| member | source | states |
|---|---|---|
| SessionSpec.Initial | src/session.cpp:339-395 | a new session is Pending, has no browser, all counters at 0, nothing queued or kept, an 800x600 root viewport, and satisfies the session invariant |
| SessionSpec.InvFramed | src/session.cpp:842-844 | under the session invariant both signals are in range and the padded viewport has room to trim to them, which is what sendViewportToCompressor_ requires |
| SessionSpec.ClampViewport | src/session.cpp:829-830 | a requested size is clamped into [64, 4096]: sizes in range are kept, smaller ones become 64, larger ones 4096 |
| SessionSpec.CursorFor | src/session.cpp:252-254 | the hand cursor exactly for the browser's hand pointer, the text cursor exactly for the I-beam, the normal cursor otherwise; always below CursorTypeCount |
| SessionProperties.ArmInactivityKeepsInv | src/session.cpp:767-791 | re-arming the inactivity timers keeps the session invariant |
| SessionProperties.ArmInactivityArmsOne | src/session.cpp:767-791 | after updateInactivityTimeout_ exactly one timer runs while the session is Pending or Open (the short one when asked for) and none otherwise; nothing else changes |
| SessionProperties.CloseKeepsInv | src/session.cpp:408-426 | close() keeps the invariant (a browser exists exactly while Open or Closing) |
| SessionProperties.CloseTransitions | src/session.cpp:408-426 | an Open session becomes Closing and asks the browser to close and the compressor to flush; a Pending one only records closeOnOpen; a Closing or Closed one is unchanged |
| SessionProperties.CloseWhilePendingTakesEffectOnOpen | src/session.cpp:144-146 | a close requested while Pending takes effect as the browser is created: the session ends up Closing with the browser attached and closed |
| SessionProperties.AfterCreatedKeepsInv | src/session.cpp:134-147 | OnAfterCreated keeps the invariant |
| SessionProperties.AfterCreatedOpens | src/session.cpp:134-147 | without a deferred close, OnAfterCreated makes the session Open with a browser |
| SessionProperties.BeforeCloseKeepsInv | src/session.cpp:149-162 | OnBeforeClose keeps the invariant |
| SessionProperties.BeforeCloseEnds | src/session.cpp:149-162 | OnBeforeClose leaves the session Closed without a browser and with no timer armed, after detaching the browser area, flushing the compressor and announcing the close |
| SessionProperties.AfterConstructKeepsInv | src/session.cpp:735-765 | afterConstruct_ keeps the invariant |
| SessionProperties.AfterConstructOutcome | src/session.cpp:735-765 | a failed browser creation of a non-popup session closes it, announces it and arms no timer; otherwise the lifecycle is kept and the long timer runs |
| SessionProperties.InactivityTimeoutKeepsInv | src/session.cpp:778-789 | a firing inactivity timer keeps the invariant |
| SessionProperties.InactivityTimeoutCloses | src/session.cpp:778-789 | a timer that is not armed does nothing; an armed one is disarmed, after which a live session is closed exactly as close() does and a dead one is otherwise left as it is |
| SessionProperties.ClosedSessionRefusesRequests | src/session.cpp:431-434 | a Closing or Closed session answers every request with 503 and changes nothing |
| SessionProperties.SecurityRefreshTouchesOnlyStatus | src/session.cpp:436-442 | the refresh ahead of routing takes a new time stamp exactly when the last one is 1000 ms old or more, and changes nothing else but the action log |
| SessionProperties.UnroutedRequestRefused | src/session.cpp:595 | a request that matches no pattern, or is not a GET, gets 400 "Invalid request URI or method" |
| SessionProperties.HandleRequestKeepsInv | src/session.cpp:428-596 | every request keeps the session invariant; in particular the width signal says "new iframe" exactly while the iframe queue is non-empty, and kept downloads hold issued indices |
| SessionProperties.HandleImageKeepsInv | src/session.cpp:448-474 | the image poll keeps the invariant |
| SessionProperties.HandleIframeKeepsInv | src/session.cpp:476-498 | the iframe poll keeps the invariant |
| SessionProperties.HandleMainKeepsInv | src/session.cpp:535-564 | the main page keeps the invariant |
| SessionProperties.HandlePrevKeepsInv | src/session.cpp:566-581 | the prev page keeps the invariant |
| SessionProperties.HandleNextKeepsInv | src/session.cpp:583-593 | the next page keeps the invariant |
| SessionProperties.StaleImagePollRefused | src/session.cpp:458-459 | an image path of another generation, or with an image index not above the last one, gets 400 "Outdated request" and changes nothing past the security refresh |
| SessionProperties.ImagePollIsRouted | src/session.cpp:448-457 | a well-formed image path written by a client reaches the image handler with the numbers and the event tokens it carries |
| SessionProperties.AcceptedImage | src/session.cpp:460-471 | an accepted poll adopts its image index, moves the event index past its batch, clamps the viewport, arms the long timer and hands the request to the compressor, now or waiting as the immediate flag says; queue and downloads are kept |
| SessionProperties.AcceptedImagePoll | src/session.cpp:448-474 | the same for a whole request: the event index becomes the larger of the old one and the start index plus the number of tokens in the path |
| SessionProperties.RepeatedImagePollRefused | src/session.cpp:458-459 | the same image path sent twice: the second copy is refused as outdated |
| SessionProperties.TokensOfEventsText | src/session.cpp:872-884 | the events of a path written from tokens are cut back into exactly those tokens, each with its '/' |
| SessionProperties.ReplayDispatchesEachOnce | src/session.cpp:861-899 | a replay keeps the old log and appends only dispatches, one per index from the first undispatched one up to the new current index, each with the token of that index |
| SessionProperties.ReplayRetransmissionIsIgnored | src/session.cpp:886-897 | replaying a batch a second time changes nothing |
| SessionProperties.ReplayLogBounds | src/session.cpp:861-899 | the event index never goes down, and every entry a replay logs is a dispatch with an index between the old and the new current index |
| SessionProperties.ReplayBatchesAreDisjoint | src/session.cpp:861-899 | of two successive batches, every index the second one dispatches lies past every index the first one did |
| SessionProperties.ServedWidthEncodesSignal | src/session.cpp:846-849 | the served width has the width signal as its remainder modulo 2, does not cut into the root viewport, and is the largest such width within the padding |
| SessionProperties.ServedHeightEncodesSignal | src/session.cpp:851-854 | the same for the height and the cursor signal modulo 3 |
| SessionProperties.SentImageCarriesSignals | src/session.cpp:842-859 | the image handed to the compressor has a size from which the client reads back both signals, and covers the root viewport |
| SessionProperties.ResizeViewportRules | src/session.cpp:826-840 | the requested size is clamped per axis; the padded buffer (one less than each modulus larger) is reallocated only when the clamped size differs, and otherwise nothing changes |
| SessionProperties.SetHeightSignalKeepsInv | src/session.cpp:908-913 | setting the height signal keeps the invariant |
| SessionProperties.AddIframeKeepsInv | src/session.cpp:915-918 | queueing an iframe keeps the invariant |
| SessionProperties.AddIframeAppends | src/session.cpp:915-918 | addIframe_ appends the job and raises the width signal; when the signal changes, exactly one image is sent, whose width carries the new-iframe signal and whose height keeps the cursor signal, both within the padding of the root viewport |
| SessionProperties.HandleRequestMonotone | src/session.cpp:428-596 | no request lowers the main index or the download index, and a request that keeps the generation lowers neither the image index nor the event index |
| SessionProperties.IframePollRules | src/session.cpp:476-498 | another generation gets 400; an empty queue gets 200 "OK" and nothing changes; otherwise the oldest job is taken off, the width signal drops once the queue runs empty, and a popup or clipboard job's page is served; a download job is served under the next download index, which then keeps the file; on a served job the long inactivity timer is re-armed, the generation, lifecycle and every field other than the queue, timers, width signal, download bookkeeping and action log are unchanged, and when the queue runs empty exactly one image is sent whose width encodes "no new iframe", whose height encodes the cursor and which covers the root viewport; otherwise no image is sent |
| SessionProperties.IframeQueueIsFifo | src/session.cpp:482-494 | two queued popups are served in the order queued, and a third poll finds the queue empty with the width signal lowered |
| SessionProperties.FirstMainVisit | src/session.cpp:535-562 | the first main-page request serves the bootstrap page, records the visit and re-arms the long inactivity timer; nothing else changes |
| SessionProperties.LaterMainVisit | src/session.cpp:535-558 | each later main-page request starts a new generation (event and image indices reset, prev/next flag cleared), reloads the browser only if it is not the first generation, no prev/next click led to it and the debounce allows it, and releases keys and mouse; the long inactivity timer is re-armed |
| SessionProperties.CloseRequestRules | src/session.cpp:514-533 | another generation gets 400; the current one ends (main index up, image and event indices reset), 200 "OK" is sent and only the short timer runs; nothing else changes |
| SessionProperties.PrevNextNavigatesOncePerGeneration | src/session.cpp:569-572 | once a main page was served, the first prev or next click of a generation navigates and sets the flag, and later ones navigate no more; before that nothing happens |
| SessionProperties.SecondPrevNextDoesNotNavigate | src/session.cpp:566-593 | a prev or next page after a click already counted in the generation adds no action: only the long timer is re-armed, and the prev page records its visit |
| SessionProperties.NavigateDebounce | src/session.cpp:920-943 | a navigation within 200 ms of the last accepted one is dropped and keeps the old time stamp; an accepted one takes the new time stamp and reaches the browser if there is one |
| SessionProperties.DoubleReportedNavigationDropped | src/session.cpp:923-929 | of two navigations within the window, only the first reaches the browser |
| SessionProperties.DownloadIndexIsFresh | src/session.cpp:718-720 | serving a download iframe hands out the next index, which no kept download holds, keeps the file under it and offers its name |
| SessionProperties.DownloadLookupRules | src/session.cpp:500-512 | a download index not (or no longer) kept gets 400 "Outdated download index"; a kept one serves its file |
| SessionProperties.DownloadExpiredKeepsInv | src/session.cpp:722-727 | a download expiry keeps the invariant |
| SessionProperties.DownloadExpiryForgetsOnlyItsOwn | src/session.cpp:722-727 | an expiry timer erases its own download, no other, and nothing else |
| SessionProperties.BeforePopupKeepsInv | src/session.cpp:84-132 | popup creation keeps the invariant |
| SessionProperties.BeforePopupRules | src/session.cpp:84-132 | with no event handler, or a full server, the popup is cancelled and nothing changes; otherwise it is allowed and its iframe is queued with the width signal raised |
| SessionProperties.FindResultKeepsInv | src/session.cpp:290-304 | a find result keeps the invariant |
| SessionProperties.FindResultRules | src/session.cpp:290-304 | results of a search older than the last reported one are ignored; newer or equal ones are shown and recorded, so the last identifier never goes down |
| Session.SessionIds.constructor | src/session.cpp:16 | no identifier is in use at start |
| Session.SessionIds.Acquire | src/session.cpp:350-356 | the identifier drawn was not in use, and it is in use afterwards |
| Session.SessionIds.Release | src/session.cpp:402-405 | the identifier is no longer in use |
| Session.Session.constructor | src/session.cpp:339-395 | the fields are SessionSpec.Initial, with a fresh identifier added to the set in use |
| Session.Session.Destroy | src/session.cpp:397-406 | every kept download's timer is cleared and the identifier is released; nothing else changes |
| Session.Session.UpdateInactivityTimeout | src/session.cpp:767-791 | the new state is ArmInactivity of the old |
| Session.Session.Close | src/session.cpp:408-426 | the new state is SessionSpec.Close of the old, and the invariant is kept |
| Session.Session.OnAfterCreated | src/session.cpp:134-147 | the new state is AfterCreated of the old |
| Session.Session.OnBeforeClose | src/session.cpp:149-162 | the new state is BeforeClose of the old |
| Session.Session.AfterConstruct | src/session.cpp:735-765 | the new state is SessionSpec.AfterConstruct of the old |
| Session.Session.FireInactivityTimer | src/session.cpp:778-789 | the new state is InactivityTimeout of the old |
| Session.Session.Navigate | src/session.cpp:920-943 | the new state is SessionSpec.Navigate of the old |
| Session.Session.UpdateSecurityStatus | src/session.cpp:793-824 | a new time stamp and a status update in the log |
| Session.Session.OnPreKeyEvent | src/session.cpp:307-323 | Backspace outside an editable field navigates back, or forward with Shift, and is consumed; other keys are passed on |
| Session.Session.OnRefreshHotkey | src/session.cpp:638-640 | the refresh hotkey is a debounced reload |
| Session.Session.UpdateRootViewportSize | src/session.cpp:826-840 | the new state is ResizeViewport of the old |
| Session.ServedWidth | src/session.cpp:846-849 | counting the width down stops at the largest width not above the padded one with the signalled remainder |
| Session.ServedHeight | src/session.cpp:851-854 | counting the height down stops at the largest height not above the padded one with the signalled remainder |
| Session.Session.SendViewportToCompressor | src/session.cpp:842-859 | the two count-down loops end at the sizes SendViewport computes |
| Session.Session.OnViewDirty | src/session.cpp:690-693 | a dirty view sends the viewport to the compressor |
| Session.Session.SetWidthSignal | src/session.cpp:901-906 | the new state is SessionSpec.SetWidthSignal of the old: a changed signal is stored and the viewport is sent |
| Session.Session.SetHeightSignal | src/session.cpp:908-913 | the same for the height signal |
| Session.Session.AddIframe | src/session.cpp:915-918 | the new state is SessionSpec.AddIframe of the old |
| Session.Session.HandleEvents | src/session.cpp:861-899 | the new state is Replay of the old |
| Session.Session.HandleHttpRequest | src/session.cpp:428-596 | the new state and the response are HandleRequest of the old state, and the invariant is kept |
| Session.Session.HandleImageRequest | src/session.cpp:448-474 | state and response are HandleImage of the old state |
| Session.Session.HandleIframeRequest | src/session.cpp:476-498 | state and response are HandleIframe of the old state |
| Session.Session.RunIframeJob | src/session.cpp:709-732 | state and response are RunIframe of the old state |
| Session.Session.HandleMainRequest | src/session.cpp:535-564 | state and response are HandleMain of the old state |
| Session.Session.PrevNextClick | src/session.cpp:569-572 | the new state is PrevNextNavigate of the old |
| Session.Session.OnDownloadCompleted | src/session.cpp:705-733 | the completed file is queued as a download iframe |
| Session.Session.OnClipboardButtonPressed | src/session.cpp:682-688 | a clipboard iframe is queued |
| Session.Session.FireDownloadTimer | src/session.cpp:722-727 | the new state is DownloadExpired of the old |
| Session.Session.OnBeforePopup | src/session.cpp:84-132 | state and the cancel flag are BeforePopup of the old state |
| Session.Session.OnCursorChange | src/session.cpp:244-258 | the widgets are told the cursor CursorFor gives, and nothing else changes |
| Session.Session.OnWidgetCursorChanged | src/session.cpp:613-622 | the widgets' cursor becomes the height signal |
| Session.Session.OnFindResult | src/session.cpp:290-304 | the new state is FindResult of the old |
| Session.ReplayEvents | src/session.cpp:861-899 | the loop ends with the current index past the batch and has dispatched exactly the Dispatches of the batch's tokens from the first index not yet dispatched |
| Session.ScanEvent | src/session.cpp:874-884 | the inner loop stops just past the next '/', which it reports, or at the end of the batch when there is none |
| Session.DispatchStep | src/session.cpp:886-897 | one iteration dispatches its token exactly when its index is the current one |
| Session.TokensNext | src/session.cpp:872-884 | the token the inner loop found is the first token of what is left of the batch |
| Routes.Split | src/session.cpp:19-33 | a path cuts into at least one '/'-free segment |
| Routes.SplitJoin | src/session.cpp:19-33 | splitting undoes joining '/'-free segments |
| Routes.JoinSplit | src/session.cpp:19-33 | joining undoes splitting |
| Routes.JoinEvents | src/session.cpp:23 | the event part of an image path, ([A-Z0-9_-]+/)*, is the tokens each followed by '/' |
| Routes.ImageSegmentsFields | src/session.cpp:22-24 | the segments of an image path a client writes hold its six numbers, the 0/1 flag and the event tokens in the positions of the pattern's groups |
| Routes.ParseImageSegments | src/session.cpp:22-24 | a path whose segments fit the image pattern parses to the values of its groups |
| Routes.ParseImagePath | src/session.cpp:448-457 | an image path written by a client parses back to the numbers and events it carries |
| Routes.ParseMainPath | src/session.cpp:19 | "/id/" is the main page |
| Routes.ParsePrevPath | src/session.cpp:20 | "/id/prev/" is the prev page |
| Routes.ParseNextPath | src/session.cpp:21 | "/id/next/" is the next page |
| Routes.ParseIframePath | src/session.cpp:25-27 | "/id/iframe/main/nonce/" is an iframe poll of that generation |
| Routes.ParseClosePath | src/session.cpp:31-33 | "/id/close/main/" is a close request of that generation |
| Routes.ParseDownloadPath | src/session.cpp:28-30 | "/id/download/idx/name" is a download request for that index |
| Routes.OnlyGetIsRouted | src/session.cpp:448 | a method other than GET matches no route |
| Decimal.DigitsRoundTrip | src/session.cpp:450-455 | reading back the decimal text of a number gives the number |
| Decimal.NatToDigits | src/config.cpp:63-68 | the decimal text of a number is one or more digits |
| ImageCompressorSpec.RowsLength | viceplugins/retrojsvice/src/image_compressor.cpp:258 | the packed buffer holds 4 bytes per pixel, row after row |
| ImageCompressorSpec.RowsIndex | viceplugins/retrojsvice/src/image_compressor.cpp:260-266 | byte x of packed row y is byte x of source row y, except the last byte of each row, which stays 255 |
| ImageCompressorSpec.RowsInsideIff | viceplugins/retrojsvice/src/image_compressor.cpp:260-265 | all copied rows lie inside the source buffer exactly when the last one does |
| ImageCompressorSpec.FetchedFrameShape | viceplugins/retrojsvice/src/image_compressor.cpp:233-277 | the fetched frame is non-empty with 4 bytes per pixel and at most 16384 pixels per axis; the handler's dimensions clipped to 16384, or one white pixel when the handler is gone |
| ImageCompressorSpec.FetchedBytes | viceplugins/retrojsvice/src/image_compressor.cpp:253-266 | the fetched bytes are the source's bytes at pitch-spaced rows, with the last byte of each row 255 |
| ImageCompressorSpec.InitialInv | viceplugins/retrojsvice/src/image_compressor.cpp:118-146 | a new compressor holds a white pixel as its image, has no change, no fresh image, nothing in progress or scheduled, and satisfies the invariant |
| ImageCompressorSpec.PumpKeepsInv | viceplugins/retrojsvice/src/image_compressor.cpp:279-325 | pump_ keeps the invariant (at most one compression in progress) |
| ImageCompressorSpec.PumpStartsIff | viceplugins/retrojsvice/src/image_compressor.cpp:279-325 | a compression starts exactly when none is in progress, the image changed and the last compressed image was served; it schedules one task of the fetched frame at the current quality; otherwise nothing changes |
| ImageCompressorSpec.UpdateNotifyKeepsInv | viceplugins/retrojsvice/src/image_compressor.cpp:167-172 | updateNotify keeps the invariant and leaves the change either recorded or being compressed |
| ImageCompressorSpec.SetQualityRules | viceplugins/retrojsvice/src/image_compressor.cpp:157-165 | the same quality changes nothing; a new one is stored and counts as a changed image; the invariant is kept |
| ImageCompressorSpec.FlushKeepsInv | viceplugins/retrojsvice/src/image_compressor.cpp:201-207 | flush keeps the invariant and leaves no request waiting |
| ImageCompressorSpec.ServeKeepsInv | viceplugins/retrojsvice/src/image_compressor.cpp:179-182 | serving the current image keeps the invariant |
| ImageCompressorSpec.SendNowServes | viceplugins/retrojsvice/src/image_compressor.cpp:174-183 | the request gets the current image, after the waiting request if any; no fresh image stays marked and none waits |
| ImageCompressorSpec.SendWaitReplacesWaiting | viceplugins/retrojsvice/src/image_compressor.cpp:185-199 | a wait-mode request arriving while another waits: the older one is answered with the current image and the new one waits in its place |
| ImageCompressorSpec.SendWaitServesIff | viceplugins/retrojsvice/src/image_compressor.cpp:185-199 | a request is served at once exactly when a fresh image is there; otherwise it is kept waiting without being served |
| ImageCompressorSpec.RunTaskCompresses | viceplugins/retrojsvice/src/image_compressor.cpp:298-316 | the worker compresses to PNG exactly at the maximum quality and to JPEG otherwise, with a JPEG quality in (0, 100], from a non-empty buffer of 4 bytes per pixel, as the codecs demand; the result is posted back and the invariant kept |
| ImageCompressorSpec.ShutdownStopsWorker | viceplugins/retrojsvice/src/image_compressor.cpp:209-231 | once shutdown is scheduled the worker runs nothing more |
| ImageCompressorSpec.CompressTaskDoneRules | viceplugins/retrojsvice/src/image_compressor.cpp:327-336 | the result becomes the current image and the invariant is kept; with no request waiting it is marked fresh and nothing is in progress, and a waiting request is answered with it and nothing is marked fresh |
| ImageCompressor.FetchImage | viceplugins/retrojsvice/src/image_compressor.cpp:233-277 | the buffer, width and height returned are FetchedFrame of the handler's image |
| ImageCompressor.CopyRows | viceplugins/retrojsvice/src/image_compressor.cpp:258-266 | the resize to 255 and the row loop produce exactly Rows of the source |
| ImageCompressor.CopyRow | viceplugins/retrojsvice/src/image_compressor.cpp:263 | the memcpy of one row writes its bytes but the last and nothing else |
| ImageCompressor.Compressor.constructor | viceplugins/retrojsvice/src/image_compressor.cpp:118-146 | the state is Initial, and the PNG thread count is the hardware concurrency clamped to [1, 4] |
| ImageCompressor.Compressor.SetQuality | viceplugins/retrojsvice/src/image_compressor.cpp:157-165 | the new state is SetQuality of the old |
| ImageCompressor.Compressor.UpdateNotify | viceplugins/retrojsvice/src/image_compressor.cpp:167-172 | the new state is UpdateNotify of the old |
| ImageCompressor.Compressor.Pump | viceplugins/retrojsvice/src/image_compressor.cpp:279-325 | the new state is Pump of the old |
| ImageCompressor.Compressor.SendCompressedImageNow | viceplugins/retrojsvice/src/image_compressor.cpp:174-183 | the new state is SendNow of the old |
| ImageCompressor.Compressor.SendCompressedImageWait | viceplugins/retrojsvice/src/image_compressor.cpp:185-199 | the new state is SendWait of the old |
| ImageCompressor.Compressor.Flush | viceplugins/retrojsvice/src/image_compressor.cpp:201-207 | the new state is Flush of the old |
| ImageCompressor.Compressor.FireWaitTimer | viceplugins/retrojsvice/src/image_compressor.cpp:194-197 | the delayed send, when it fires, serves the waiting request |
| ImageCompressor.Compressor.RunCompressorTask | viceplugins/retrojsvice/src/image_compressor.cpp:215-225 | one step of the worker is RunTask of the old state |
| ImageCompressor.Compressor.Shutdown | viceplugins/retrojsvice/src/image_compressor.cpp:148-155 | the destructor schedules the shutdown of the worker and changes nothing else |
| ImageCompressor.Compressor.CompressTaskDone | viceplugins/retrojsvice/src/image_compressor.cpp:327-336 | the new state is CompressTaskDone of the old |
| Config.ParseBool | src/config.cpp:27-53 | true exactly for 1, yes, true, enable, enabled and false exactly for 0, no, false, disable, disabled, in any case; nothing for anything else |
| Config.LowerIdempotent | src/config.cpp:29-31 | lowercasing twice is lowercasing once |
| Config.ParseBoolIgnoresCase | src/config.cpp:27-53 | strings equal up to case parse alike, and no word is both true and false |
| Config.FormatParseRoundTrip | src/config.cpp:20-75 | every default formatted for the help text parses back to itself, and the string parser accepts anything as it is |
| Config.AtomEnd | src/config.cpp:141-144 | an atom's tail runs up to the next whitespace or the end of the description |
| Config.TrimLeft | src/config.cpp:128-132 | the leading whitespace of an atom is dropped and only that |
| Config.AtomsConcat | src/config.cpp:138-147 | the atoms of a description put together give the description back |
| Config.AtomsShape | src/config.cpp:139-147 | every atom is non-empty and holds whitespace at most in its first character |
| Config.HelpLineHead | src/config.cpp:113-118 | a help line starts with "  --name=VALSPEC " padded with spaces to column 33 or more |
| Config.WriteAtomBreaks | src/config.cpp:120-136 | a line break is written only when the line is past column 35 and the atom would pass column 90; the continuation is 35 spaces and the atom without its leading whitespace; otherwise the atom is written whole |
| Config.ColumnAppend | src/config.cpp:135 | text without a newline moves the column by its length |
| Config.ColumnAfterBreak | src/config.cpp:122-126 | after a break and n spaces the column is n plus what follows |
| Config.WriteAtomsTracksColumn | src/config.cpp:118-148 | linePos always equals the column of the text written so far |
| Config.WriteAtomTracksColumn | src/config.cpp:120-136 | one atom keeps linePos equal to the column |
| Config.WriteAtomTo | src/config.cpp:120-136 | writeAtom as written appends WriteAtom's text and arrives at its column |
| Config.AppendSpaces | src/config.cpp:123-125 | the indentation loop appends exactly n spaces |
| Config.SkipSpaces | src/config.cpp:128-132 | the skipping loop stops at the start of TrimLeft of the atom |
| Config.HelpLine | src/config.cpp:107-151 | helpLine as written produces HelpLineText: the padded head, the wrapped atoms of the description and the bracketed default |
| Config.StrLeTotal | src/config.cpp:221 | any two strings are ordered one way or the other |
| Config.StrLeTrans | src/config.cpp:221 | the string order is transitive |
| Config.InsertLineKeeps | src/config.cpp:221 | inserting into sorted lines keeps them sorted and adds exactly the one line |
| Config.SortLinesSorts | src/config.cpp:221 | the help lines come out sorted and are a permutation of the lines collected |
| Config.CollectHelpLines | src/config.cpp:214-217 | the collected lines are the help line of every option in table order |
| Config.HelpText | src/config.cpp:212-224 | the --help loop produces HelpLines: one line per option plus --help and --version, sorted |
| Config.SplitOptionIff | src/config.cpp:234-248 | "--name=value" splits into name and value exactly when name holds no '='; the value may hold any |
| Config.ClassifyAcceptsIff | src/config.cpp:234-258 | an argument is taken exactly when it sets a known option, not set before, to a value that parses and validates, and then it is taken with that value; an argument that is not taken ends the read without a configuration |
| Config.ClassifyHelpVersion | src/config.cpp:207-232 | --help prints the usage and the help lines and --version prints the version, both ending the read |
| Config.ClassifySetsOption | src/config.cpp:239-255 | for a known option: an error if set before, an error naming the value if it does not parse and validate, otherwise the option is set |
| Config.ClassifyValueMissing | src/config.cpp:260-261 | "--name" alone for a known option is a missing value |
| Config.ClassifyUnrecognized | src/config.cpp:262-263 | any other argument is unrecognized |
| Config.ReadArgsSucceedsIff | src/config.cpp:205-267 | the argument loop succeeds exactly when every argument sets a known option to a valid value, no option is set twice, and none was seen before |
| Config.ReadArgsValues | src/config.cpp:249-255 | on success each option named by an argument holds that argument's value and every other option keeps its value |
| Config.ReadArgsStopsAt | src/config.cpp:205-267 | the loop stops at the first argument that does not set an option, and what that argument does is the result, whatever follows |
| Config.NamesAreKnown | src/config.cpp:241 | an option found by name carries that name |
| Config.LookupFinds | src/config.cpp:241 | the name of every entry of the table is found by the lookup |
| Config.DefaultsCover | src/config.cpp:157-163 | every option starts at its default |
| Config.ReadSucceedsIff | src/config.cpp:183-269 | Config::read returns a configuration exactly when every argument after the program name sets a known option, once, to a value that parses and validates |
| Config.ReadValues | src/config.cpp:183-269 | after a successful read each option named by an argument holds that argument's value and every other option its default |
| Config.ReadStopsAt | src/config.cpp:205-267 | Config::read as a whole is decided by the first argument that does not set an option |
| Config.FindEqSign | src/config.cpp:235-238 | the loop stops at the first '=' after "--", or at the end |
| Config.HandleArg | src/config.cpp:206-266 | one round of the loop does what Classify says |
| Config.ReadConfig | src/config.cpp:183-269 | starting from the defaults, the read returns Read of the table and argv |
| Config.ArgumentLoop | src/config.cpp:205-267 | the loop over argv[1..] returns ReadArgs from no options seen and the values it starts from |
| Config.ReadRound | src/config.cpp:206-266 | one argument either ends the read with the result ReadArgs gives, or leaves ReadArgs of the rest unchanged |
| Text.LeadLengthFollowsRfc3629 | src/text.cpp:16-27 | the bit tests on a lead byte give lengths 1 to 4 exactly for the lead-byte ranges of section 3 of RFC 3629, and reject continuation bytes and 0xF8 and up |
| Text.CharLength | src/text.cpp:15-32 | a character that passes the checks is 1 to 4 bytes long and lies within the text |
| Text.JumpUtf8Chars | src/text.cpp:11-43 | the loop computes Jump: the index count characters on, or None exactly where one of its checks fails |
| Text.JumpBounds | src/text.cpp:11-43 | a successful jump of count characters moves between count and 4 * count bytes and ends on a character boundary |
| Text.JumpZero | src/text.cpp:38-41 | a jump of zero characters succeeds exactly on a boundary and stays there |
| Text.JumpCompose | src/text.cpp:14-37 | jumping a + b characters is jumping a and then b |
| Text.JumpMonotone | src/text.cpp:14-37 | jumping further never ends earlier, and a shorter jump succeeds when a longer one does |
| Text.NewGraymap | src/text.cpp:131-147 | a graymap is made exactly when both sides are positive and width < (INT_MAX / 9) / height; then it has those sides and a zeroed buffer of width * height bytes |
| Text.GraymapAreaFits | src/text.cpp:138-141 | the size check keeps nine times the area below INT_MAX |
| Text.GrayIndexInRange | src/text.cpp:256-258 | the row-major index of a pixel inside the graymap lies inside its buffer |
| Text.Intersection | src/text.cpp:247-253 | a point is in the intersection exactly when it is in both rectangles |
| Text.Translate | src/text.cpp:249-252 | a point is in the translated rectangle exactly when its back-translation is in the original |
| Text.BlitGraymap | src/text.cpp:245-272 | after moving offsetY to align the bottoms, each slice pixel covered by a graymap value of 128 or more gets the colour bytes b, g, r with its fourth byte kept, and every other pixel of the buffer is untouched |
| Text.TruncDiv | src/text.cpp:209 | C division truncates toward zero |
| Text.ClampExtents | src/text.cpp:275-281 | the extents keep their position and get width and height of at least one pixel, unchanged when already positive |
| Text.FitBuffer | src/text.cpp:287-288 | the rasterised coverage fills a buffer of exactly the graymap's size |
| Text.TextLayout.constructor | src/text.cpp:166-173 | a new layout has the empty text and no graymap |
| Text.TextLayout.SetText | src/text.cpp:181-190 | the text is replaced and the cached graymap dropped |
| Text.TextLayout.Extents | src/text.cpp:275-281 | the extents are at least one pixel wide and high |
| Text.TextLayout.Width | src/text.cpp:323-326 | the width is at least one pixel |
| Text.TextLayout.Height | src/text.cpp:328-331 | the height is at least one pixel |
| Text.TextLayout.IndexToXCoord | src/text.cpp:204-210 | the cursor's x in whole pixels, truncated toward zero: within one pixel of the engine's position, on the same side of zero |
| Text.TextLayout.XCoordToIndex | src/text.cpp:192-202 | the engine's index advanced by its trailing count with Jump, a byte index within the text, or None where a check fails |
| Text.TextLayout.VisualMoveIdx | src/text.cpp:212-236 | the engine's -1 becomes 0, G_MAXINT the text length, and any other index must lie in the text and is advanced with Jump |
| Text.TextLayout.EnsureGraymapRendered | src/text.cpp:283-289 | a cached graymap is kept; otherwise one of the clamped extents is made, or the size check fails |
| Text.TextLayout.Render | src/text.cpp:238-273 | the slice is changed exactly as BlitGraymap says for the layout's graymap, which has the layout's extents, or not at all when the graymap cannot be made |
| Text.ClampOffset | src/text.cpp:463-466 | the offset is at least 0 and, unless 0, at most textWidth + 1 - width; an offset already in range is kept |
| Text.ClampOffsetIdempotent | src/text.cpp:463-466 | clamping twice is clamping once |
| Text.VisibleOffset | src/text.cpp:426-430 | the offset asked for puts cursor x inside a window of the width, and is the old one when the cursor was already visible |
| Text.MadeVisibleCursorShows | src/text.cpp:423-432 | after makeVisible a cursor within the text shows inside a window at least one pixel wide |
| Text.OverflowTextLayout.constructor | src/text.cpp:361-375 | a new field has empty text, width 0 and offset 0 |
| Text.OverflowTextLayout.ClampOffsetNow | src/text.cpp:463-466 | clampOffset_ stores ClampOffset of the offset |
| Text.OverflowTextLayout.SetText | src/text.cpp:377-382 | the text is replaced and the offset clamped to it |
| Text.OverflowTextLayout.SetWidth | src/text.cpp:388-394 | the width is stored and the offset clamped to it |
| Text.OverflowTextLayout.SetOffset | src/text.cpp:411-416 | the offset is stored clamped |
| Text.OverflowTextLayout.MakeVisible | src/text.cpp:423-432 | the offset becomes the clamped VisibleOffset, so a cursor within the text is inside the window |
| Text.OverflowTextLayout.IndexToXCoord | src/text.cpp:439-442 | the window coordinate is the layout coordinate shifted left by the offset, so never to its right |
| Text.OverflowTextLayout.XCoordToIndex | src/text.cpp:434-437 | the inner layout's index at x shifted by the offset |
| Text.OverflowTextLayout.VisualMoveIdx | src/text.cpp:444-447 | the inner layout's visual move, unchanged |
| Text.OverflowTextLayout.Render | src/text.cpp:449-454 | only the leftmost width columns of the slice change, by the blit of the graymap, of the layout's size, shifted left by the offset |

## Left out

- The browser engine (CEF) is not modelled. Browser creation, navigation, closing, find, the
  SSL status and the load, error and address callbacks (`OnLoadStart`, `OnLoadError`,
  `OnAddressChange`, `OnCertificateError`, `OnLoadingStateChange`, `GetResourceRequestHandler`)
  are only entries in the action log, or are left out. So are the certificate-error page and
  its signed data URLs.
- The security status itself (Secure, Warning, Insecure from the certificate bits) is not
  modelled: it is read from the browser. Only the time stamp and the update entry are kept.
- The seven regular expressions are replaced by a segment grammar with unbounded numbers.
  `parseString` overflow is not modelled. In the source the generation, image, event and
  download indices are `uint64_t` and fail to parse past 64 bits, while the image poll's
  `immediate`, width and height are `int` and fail past 32 bits (`2147483647`); such a
  request falls through every pattern to the 400 "Invalid request URI or method" of
  src/session.cpp:595. The model reads all of them as unbounded `nat`s, so it accepts, for
  example, an image poll with width 3000000000 (clamped to 4096) that the source refuses.
- Timers and posted tasks are explicit steps (`FireInactivityTimer`, `FireDownloadTimer`,
  `FireWaitTimer`, `RunCompressorTask`), not clocks. The clock is the `now` parameter.
- Session.SessionIds.Acquire: the random draw from a Mersenne twister is replaced by the choice
  of any identifier not in use.
- Session.Session.Destroy: the source posts the release of the identifier as a task, and the
  model releases it at once.
- Global hotkeys other than Refresh (address, find, find next), `onAddressSubmitted`,
  `onQualityChanged`, `onPendingDownloadAccepted`, `onFind`, `onStopFind`, the download
  progress and count callbacks and `id()` only call widgets or the browser, and are not
  modelled.
- The popup session created by `OnBeforePopup` is not constructed. Its identifier is a
  parameter, and the new Client object is outside the model.
- The HTML page writers and the HTTP response bytes are not modelled. A response is a tag
  with the page's parameters.
- The input event parser (`processEvent`) and its warning for an unparseable token are not
  modelled. An event is dispatched as its token.
- Session header constants that are not part of this model (session.hpp, quality.hpp) take
  their usual values: width signal modulus 2, three cursor types, qualities 10 to 100 for
  JPEG and 101 for PNG.
- The image compressor's threads, mutex and condition variable are not modelled. The worker
  is one step on a shared record. The scheduled flag and the task are one `Option` field.
- The codecs (`compressPNG_`, `compressJPEG_`, `PNGCompressor`) and the white JPEG pixel's
  bytes are not modelled. A compressed image records what it was made from.
- ImageCompressorSpec.Flush: `waitTag_->expedite()` (the delayed-task API is not part of
  this model) is taken to run the waiting send at once, inside `flush()`. The tag, which the
  source never resets, is modelled as cleared (`waiting := None`) once its send has run. If
  `expedite` posted the send instead, a new request would be answered before the waiting one.
- ImageCompressor.FetchImage: the handler's callback is modelled as an optional image. The
  source's checks that it is called exactly once are not modelled.
- `updateImage`, called by the session with a sub-rectangle of the padded viewport, is
  not part of image_compressor.cpp. The link between the session's `SendImage` entry and the
  compressor's `UpdateNotify` is not modelled.
- Config: config_defs.hpp is not part of this model, so the option table is a parameter.
  Option names are assumed distinct, as the source's handler map makes them, and lookup takes
  the first match.
- Config: the `int` parser (`parseString<int>`) is read as an optional minus sign and
  digits without a range limit. The messages written to `cerr` are result values.
- Config.ClassifyHelpVersion: the `--version` output's CEF version (`CEF_VERSION`) is not
  modelled. Only the Browservice version is.
- Text: Pango shaping, FreeType rasterisation, the font-map setup (`TextRenderContext`) and
  the environment guard (`FreeType2SetEnv`) are not modelled. The layout engine is a value
  whose functions stand for what it reports.
- Text.TextLayout.SetText: the check that Pango accepts the text as valid UTF-8 is not
  modelled.
- Text: the single-colour `render` overloads only repeat one byte three times, and are not
  modelled separately.
- Text.OverflowTextLayout.Render: the field's width must fit in the slice. The source leaves
  that to `ImageSlice::subRect` (image_slice.hpp, not part of this model).
- Text: a `CHECK` on an argument the caller supplies is a precondition: the byte index of
  `indexToXCoord` and `visualMoveIdx`, the width of `setWidth`, and the index `makeVisible`
  passes to `indexToXCoord`. The other checks abort the source process, and the model
  returns `None` or `false` there instead: those inside `jumpUTF8Chars` and the Graymap
  constructor, and those on the index the layout engine reports in `xCoordToIndex` and
  `visualMoveIdx`.
- Config: strings are sequences of characters, while the source counts bytes (`tellp`,
  `atom.size()` for the columns) and applies `tolower` and `isspace` byte by byte. The two
  agree for ASCII option names and descriptions only.
