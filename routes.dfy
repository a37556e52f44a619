/** The request-path grammar of a browser session (the seven path patterns at the top of
    src/session.cpp), stated on the '/'-separated segments of the path instead of through a
    regular-expression engine. */
module Routes {
  import opened Wrappers
  import opened Decimal

  /** The pieces of s between '/' characters; an empty piece before a leading '/', between
      two adjacent ones and after a trailing one. */
  function Split(s: string): (segs: seq<string>)
    ensures |segs| >= 1
    ensures forall k :: 0 <= k < |segs| ==> '/' !in segs[k]
    decreases |s|
  {
    var i := IndexOf(s, '/');
    assert '/' !in s[..i] by {
      forall k | 0 <= k < i ensures s[..i][k] != '/' { }
    }
    if i == |s| then [s] else [s[..i]] + Split(s[i + 1..])
  }

  /** The pieces glued back with '/' between each pair. */
  function Join(segs: seq<string>): string
    requires |segs| >= 1
    decreases |segs|
  {
    if |segs| == 1 then segs[0] else segs[0] + "/" + Join(segs[1..])
  }

  lemma IndexOfAfterPiece(a: string, rest: string)
    requires '/' !in a
    ensures IndexOf(a + "/" + rest, '/') == |a|
  {
    var s := a + "/" + rest;
    assert s[|a|] == '/';
    assert forall k :: 0 <= k < |a| ==> s[k] == a[k];
  }

  /** Splitting undoes joining pieces that hold no '/'. */
  lemma {:induction false} SplitJoin(segs: seq<string>)
    requires |segs| >= 1
    requires forall k :: 0 <= k < |segs| ==> '/' !in segs[k]
    ensures Split(Join(segs)) == segs
    decreases |segs|
  {
    if |segs| > 1 {
      var rest := Join(segs[1..]);
      var s := segs[0] + "/" + rest;
      IndexOfAfterPiece(segs[0], rest);
      assert s[..|segs[0]|] == segs[0];
      assert s[|segs[0]| + 1..] == rest;
      SplitJoin(segs[1..]);
      assert segs == [segs[0]] + segs[1..];
    }
  }

  /** Joining undoes splitting. */
  lemma {:induction false} JoinSplit(s: string)
    ensures Join(Split(s)) == s
    decreases |s|
  {
    var i := IndexOf(s, '/');
    if i < |s| {
      var rest := Split(s[i + 1..]);
      var segs := [s[..i]] + rest;
      assert Split(s) == segs;
      assert segs[1..] == rest;
      JoinSplit(s[i + 1..]);
      assert Join(segs) == s[..i] + "/" + s[i + 1..];
      assert s == s[..i] + "/" + s[i + 1..];
    }
  }

  /** The characters of one input-event token, [A-Z0-9_-]. */
  predicate IsEventChar(c: char)
  {
    'A' <= c <= 'Z' || '0' <= c <= '9' || c == '_' || c == '-'
  }

  predicate IsEventToken(t: string)
  {
    |t| > 0 && forall i :: 0 <= i < |t| ==> IsEventChar(t[i])
  }

  /** The segments after the sixth number of an image path, ([A-Z0-9_-]+/)*: zero or more
      tokens each closed by '/', so the last segment is empty. */
  predicate EventSegments(segs: seq<string>)
  {
    |segs| >= 1 && segs[|segs| - 1] == "" &&
    forall k :: 0 <= k < |segs| - 1 ==> IsEventToken(segs[k])
  }

  /** '.' of the download pattern matches any character but a line terminator. */
  predicate NoLineBreak(s: string)
  {
    '\n' !in s && '\r' !in s
  }

  /** What a request path asks for. Numbers are unbounded. */
  datatype Route =
    | ImageRoute(mainIdx: nat, imgIdx: nat, immediate: bool, width: nat, height: nat,
                 startEventIdx: nat, events: string)
    | IframeRoute(mainIdx: nat)
    | DownloadRoute(downloadIdx: nat)
    | CloseRoute(mainIdx: nat)
    | MainRoute
    | PrevRoute
    | NextRoute
    | NoRoute

  /** The path patterns, tried in the order of the request handler: image, iframe, download,
      close, main, prev, next. Every pattern starts with "/<session id digits>/" and must
      match the whole path, and only GET requests are routed. */
  function ParseRoute(verb: string, path: string): Route
  {
    var segs := Split(path);
    if verb != "GET" || |segs| < 3 || segs[0] != "" || !IsDigits(segs[1]) then NoRoute
    else if segs[2] == "image" && |segs| >= 10 && IsDigits(segs[3]) && IsDigits(segs[4])
         && (segs[5] == "0" || segs[5] == "1") && IsDigits(segs[6]) && IsDigits(segs[7])
         && IsDigits(segs[8]) && EventSegments(segs[9..]) then
      ImageRoute(DigitsValue(segs[3]), DigitsValue(segs[4]), segs[5] == "1",
                 DigitsValue(segs[6]), DigitsValue(segs[7]), DigitsValue(segs[8]),
                 Join(segs[9..]))
    else if segs[2] == "iframe" && |segs| == 6 && IsDigits(segs[3]) && IsDigits(segs[4])
         && segs[5] == "" then
      IframeRoute(DigitsValue(segs[3]))
    else if segs[2] == "download" && |segs| >= 5 && IsDigits(segs[3])
         && NoLineBreak(Join(segs[4..])) then
      DownloadRoute(DigitsValue(segs[3]))
    else if segs[2] == "close" && |segs| == 5 && IsDigits(segs[3]) && segs[4] == "" then
      CloseRoute(DigitsValue(segs[3]))
    else if |segs| == 3 && segs[2] == "" then MainRoute
    else if |segs| == 4 && segs[2] == "prev" && segs[3] == "" then PrevRoute
    else if |segs| == 4 && segs[2] == "next" && segs[3] == "" then NextRoute
    else NoRoute
  }

  /** The event part of an image path written from its tokens, each followed by '/'. */
  function EventsText(tokens: seq<string>): string
    decreases |tokens|
  {
    if |tokens| == 0 then "" else tokens[0] + "/" + EventsText(tokens[1..])
  }

  lemma {:induction false} JoinEvents(tokens: seq<string>)
    ensures Join(tokens + [""]) == EventsText(tokens)
    decreases |tokens|
  {
    if |tokens| > 0 {
      assert (tokens + [""])[1..] == tokens[1..] + [""];
      JoinEvents(tokens[1..]);
    }
  }

  function BoolDigit(b: bool): string { if b then "1" else "0" }

  function ImageSegments(sessionId: nat, mainIdx: nat, imgIdx: nat, immediate: bool, width: nat,
                         height: nat, startEventIdx: nat, tokens: seq<string>): seq<string>
  {
    ["", NatToDigits(sessionId), "image", NatToDigits(mainIdx), NatToDigits(imgIdx),
     BoolDigit(immediate), NatToDigits(width), NatToDigits(height),
     NatToDigits(startEventIdx)] + tokens + [""]
  }

  /** The image-poll path a client writes. */
  function ImagePath(sessionId: nat, mainIdx: nat, imgIdx: nat, immediate: bool, width: nat,
                     height: nat, startEventIdx: nat, tokens: seq<string>): string
  {
    Join(ImageSegments(sessionId, mainIdx, imgIdx, immediate, width, height, startEventIdx,
                       tokens))
  }

  function MainPath(sessionId: nat): string { Join(["", NatToDigits(sessionId), ""]) }

  function PrevPath(sessionId: nat): string { Join(["", NatToDigits(sessionId), "prev", ""]) }

  function NextPath(sessionId: nat): string { Join(["", NatToDigits(sessionId), "next", ""]) }

  function IframePath(sessionId: nat, mainIdx: nat, nonce: nat): string
  {
    Join(["", NatToDigits(sessionId), "iframe", NatToDigits(mainIdx), NatToDigits(nonce), ""])
  }

  function ClosePath(sessionId: nat, mainIdx: nat): string
  {
    Join(["", NatToDigits(sessionId), "close", NatToDigits(mainIdx), ""])
  }

  function DownloadPath(sessionId: nat, downloadIdx: nat, fileName: string): string
  {
    Join(["", NatToDigits(sessionId), "download", NatToDigits(downloadIdx), fileName])
  }

  lemma DigitsHaveNoSlash(n: nat)
    ensures '/' !in NatToDigits(n)
  {
    var d := NatToDigits(n);
    forall k | 0 <= k < |d| ensures d[k] != '/' {
      assert IsDigit(d[k]);
    }
  }

  lemma TokenHasNoSlash(t: string)
    requires IsEventToken(t)
    ensures '/' !in t
  {
    forall k | 0 <= k < |t| ensures t[k] != '/' {
      assert IsEventChar(t[k]);
    }
  }

  lemma ImageSegmentsHaveNoSlash(sessionId: nat, mainIdx: nat, imgIdx: nat, immediate: bool,
                                 width: nat, height: nat, startEventIdx: nat,
                                 tokens: seq<string>)
    requires forall k :: 0 <= k < |tokens| ==> IsEventToken(tokens[k])
    ensures var segs := ImageSegments(sessionId, mainIdx, imgIdx, immediate, width, height,
                                      startEventIdx, tokens);
            forall k :: 0 <= k < |segs| ==> '/' !in segs[k]
  {
    var segs := ImageSegments(sessionId, mainIdx, imgIdx, immediate, width, height,
                              startEventIdx, tokens);
    DigitsHaveNoSlash(sessionId); DigitsHaveNoSlash(mainIdx); DigitsHaveNoSlash(imgIdx);
    DigitsHaveNoSlash(width); DigitsHaveNoSlash(height); DigitsHaveNoSlash(startEventIdx);
    forall k | 0 <= k < |segs| ensures '/' !in segs[k] {
      if 9 <= k < |segs| - 1 {
        assert segs[k] == tokens[k - 9];
        TokenHasNoSlash(tokens[k - 9]);
      }
    }
  }

  lemma ImageSegmentsFields(sessionId: nat, mainIdx: nat, imgIdx: nat, immediate: bool,
                            width: nat, height: nat, startEventIdx: nat, tokens: seq<string>)
    requires forall k :: 0 <= k < |tokens| ==> IsEventToken(tokens[k])
    ensures var segs := ImageSegments(sessionId, mainIdx, imgIdx, immediate, width, height,
                                      startEventIdx, tokens);
            EventSegments(segs[9..]) && |segs| >= 10
            && segs[0] == "" && IsDigits(segs[1]) && segs[2] == "image"
            && (segs[5] == "0" || segs[5] == "1") && (segs[5] == "1" <==> immediate)
            && IsDigits(segs[3]) && DigitsValue(segs[3]) == mainIdx
            && IsDigits(segs[4]) && DigitsValue(segs[4]) == imgIdx
            && IsDigits(segs[6]) && DigitsValue(segs[6]) == width
            && IsDigits(segs[7]) && DigitsValue(segs[7]) == height
            && IsDigits(segs[8]) && DigitsValue(segs[8]) == startEventIdx
            && Join(segs[9..]) == EventsText(tokens)
  {
    var segs := ImageSegments(sessionId, mainIdx, imgIdx, immediate, width, height,
                              startEventIdx, tokens);
    assert segs[9..] == tokens + [""];
    JoinEvents(tokens);
    DigitsRoundTrip(mainIdx); DigitsRoundTrip(imgIdx); DigitsRoundTrip(width);
    DigitsRoundTrip(height); DigitsRoundTrip(startEventIdx);
  }

  /** The image branch of the grammar, read off already split segments. */
  lemma ParseImageSegments(path: string, segs: seq<string>)
    requires Split(path) == segs
    requires |segs| >= 10 && segs[0] == "" && IsDigits(segs[1]) && segs[2] == "image"
    requires IsDigits(segs[3]) && IsDigits(segs[4]) && (segs[5] == "0" || segs[5] == "1")
    requires IsDigits(segs[6]) && IsDigits(segs[7]) && IsDigits(segs[8])
    requires EventSegments(segs[9..])
    ensures ParseRoute("GET", path)
         == ImageRoute(DigitsValue(segs[3]), DigitsValue(segs[4]), segs[5] == "1",
                       DigitsValue(segs[6]), DigitsValue(segs[7]), DigitsValue(segs[8]),
                       Join(segs[9..]))
  {
  }

  /** An image path written by a client parses back to the numbers and events it carries. */
  lemma ParseImagePath(sessionId: nat, mainIdx: nat, imgIdx: nat, immediate: bool, width: nat,
                       height: nat, startEventIdx: nat, tokens: seq<string>)
    requires forall k :: 0 <= k < |tokens| ==> IsEventToken(tokens[k])
    ensures ParseRoute("GET", ImagePath(sessionId, mainIdx, imgIdx, immediate, width, height,
                                      startEventIdx, tokens))
         == ImageRoute(mainIdx, imgIdx, immediate, width, height, startEventIdx,
                       EventsText(tokens))
  {
    ImageSegmentsHaveNoSlash(sessionId, mainIdx, imgIdx, immediate, width, height,
                             startEventIdx, tokens);
    SplitJoin(ImageSegments(sessionId, mainIdx, imgIdx, immediate, width, height,
                            startEventIdx, tokens));
    ImageSegmentsFields(sessionId, mainIdx, imgIdx, immediate, width, height, startEventIdx,
                        tokens);
    ParseImageSegments(ImagePath(sessionId, mainIdx, imgIdx, immediate, width, height,
                                 startEventIdx, tokens),
                       ImageSegments(sessionId, mainIdx, imgIdx, immediate, width, height,
                                     startEventIdx, tokens));
  }

  lemma ParseMainPath(sessionId: nat)
    ensures ParseRoute("GET", MainPath(sessionId)) == MainRoute
  {
    DigitsHaveNoSlash(sessionId);
    SplitJoin(["", NatToDigits(sessionId), ""]);
  }

  lemma ParsePrevPath(sessionId: nat)
    ensures ParseRoute("GET", PrevPath(sessionId)) == PrevRoute
  {
    DigitsHaveNoSlash(sessionId);
    SplitJoin(["", NatToDigits(sessionId), "prev", ""]);
  }

  lemma ParseNextPath(sessionId: nat)
    ensures ParseRoute("GET", NextPath(sessionId)) == NextRoute
  {
    DigitsHaveNoSlash(sessionId);
    SplitJoin(["", NatToDigits(sessionId), "next", ""]);
  }

  lemma ParseIframePath(sessionId: nat, mainIdx: nat, nonce: nat)
    ensures ParseRoute("GET", IframePath(sessionId, mainIdx, nonce)) == IframeRoute(mainIdx)
  {
    DigitsHaveNoSlash(sessionId); DigitsHaveNoSlash(mainIdx); DigitsHaveNoSlash(nonce);
    SplitJoin(["", NatToDigits(sessionId), "iframe", NatToDigits(mainIdx), NatToDigits(nonce), ""]);
    DigitsRoundTrip(mainIdx);
  }

  lemma ParseClosePath(sessionId: nat, mainIdx: nat)
    ensures ParseRoute("GET", ClosePath(sessionId, mainIdx)) == CloseRoute(mainIdx)
  {
    DigitsHaveNoSlash(sessionId); DigitsHaveNoSlash(mainIdx);
    SplitJoin(["", NatToDigits(sessionId), "close", NatToDigits(mainIdx), ""]);
    DigitsRoundTrip(mainIdx);
  }

  /** The file name after the download index may be anything without '/' or a line break. */
  lemma ParseDownloadPath(sessionId: nat, downloadIdx: nat, fileName: string)
    requires '/' !in fileName && NoLineBreak(fileName)
    ensures ParseRoute("GET", DownloadPath(sessionId, downloadIdx, fileName))
         == DownloadRoute(downloadIdx)
  {
    DigitsHaveNoSlash(sessionId); DigitsHaveNoSlash(downloadIdx);
    var segs := ["", NatToDigits(sessionId), "download", NatToDigits(downloadIdx), fileName];
    SplitJoin(segs);
    assert segs[4..] == [fileName];
    DigitsRoundTrip(downloadIdx);
  }

  /** Only GET requests are routed. */
  lemma OnlyGetIsRouted(verb: string, path: string)
    requires verb != "GET"
    ensures ParseRoute(verb, path) == NoRoute
  {
  }
}
