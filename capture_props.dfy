/** Properties of the capture/upload controller: what discovery stores, how
    the error counter evolves, when rediscovery happens, that every frame goes
    back to the camera driver, and when the connectivity check runs. */
module CaptureProps {
  import opened Text
  import opened Net
  import opened CaptureSpec

  /** How often e occurs in a trace. */
  function Count(trace: seq<Event>, e: Event): nat
    decreases |trace|
  {
    if trace == [] then 0 else (if trace[0] == e then 1 else 0) + Count(trace[1..], e)
  }

  lemma {:induction false} CountAppend(a: seq<Event>, b: seq<Event>, e: Event)
    ensures Count(a + b, e) == Count(a, e) + Count(b, e)
    decreases |a|
  {
    if a != [] {
      assert (a + b)[0] == a[0] && (a + b)[1..] == a[1..] + b;
      CountAppend(a[1..], b, e);
    } else {
      assert a + b == b;
    }
  }

  /** Who holds the current frame buffer: nobody, the controller (lent by the
      driver), or the trace broke the discipline. While a frame is lent only
      its upload may happen; everything else happens with no frame in hand. */
  datatype Custody = Idle | Lent(frame: Frame) | Violated

  function Track(c: Custody, e: Event): Custody
  {
    match e
    case Acquire(f) => if c == Idle then Lent(f) else Violated
    case Release(f) => if c == Lent(f) then Idle else Violated
    case UploadPost(_) => if c.Lent? then c else Violated
    case _ => if c == Idle then Idle else Violated
  }

  function CustodyAfter(c: Custody, trace: seq<Event>): Custody
    decreases |trace|
  {
    if trace == [] then c else CustodyAfter(Track(c, trace[0]), trace[1..])
  }

  lemma {:induction false} CustodyAppend(c: Custody, a: seq<Event>, b: seq<Event>)
    ensures CustodyAfter(c, a + b) == CustodyAfter(CustodyAfter(c, a), b)
    decreases |a|
  {
    if a != [] {
      assert (a + b)[0] == a[0] && (a + b)[1..] == a[1..] + b;
      CustodyAppend(Track(c, a[0]), a[1..], b);
    } else {
      assert a + b == b;
    }
  }

  /** Every frame acquired in the trace went back before anything else
      happened, and the trace ends with no frame outstanding. */
  predicate FramesReturned(trace: seq<Event>) { CustodyAfter(Idle, trace) == Idle }

  // ---------------------------------------------------------------- discovery

  /** Discovery always yields a usable endpoint (non-empty address, positive
      port), keeps the model's invariant, and the URLs built from it name the
      gateway and the app port and nothing else. */
  lemma DiscoveryTargetsGateway(s: State, h: Handshake, g: IPv4, p: int)
    requires Valid(s)
    requires UploadUrl(DiscoverStep(s, h).step.state) == Url(IPv4ToString(g), p, UPLOAD_PATH)
    ensures var e := DiscoverStep(s, h).step.state;
      |e.serverIP| > 0 && e.serverPort > 0 && Valid(e)
    ensures g == h.gateway && p == FLUTTER_APP_PORT
  {
    IPv4TextHasNoColon(h.gateway);
    IPv4TextHasNoColon(g);
    UrlDeterminesEndpoint(IPv4ToString(h.gateway), FLUTTER_APP_PORT, IPv4ToString(g), p, UPLOAD_PATH);
    IPv4ToStringInjective(h.gateway, g);
  }

  /** The handshake goes to the gateway at the app port and to nothing else. */
  lemma HandshakeTargetsGateway(s: State, h: Handshake, g: IPv4, p: int)
    requires DiscoverStep(s, h).step.trace == [HandshakePost(Url(IPv4ToString(g), p, HANDSHAKE_PATH))]
    ensures g == h.gateway && p == FLUTTER_APP_PORT
  {
    IPv4TextHasNoColon(h.gateway);
    IPv4TextHasNoColon(g);
    UrlDeterminesEndpoint(IPv4ToString(h.gateway), FLUTTER_APP_PORT, IPv4ToString(g), p, HANDSHAKE_PATH);
    IPv4ToStringInjective(h.gateway, g);
  }

  /** A started firmware has a ready camera, a zero counter and the gateway
      endpoint; it starts iff camera and WiFi both came up. */
  lemma SetupEstablishes(cameraInitOk: bool, wifiUp: bool, h: Handshake)
    ensures var r := SetupStep(cameraInitOk, wifiUp, h);
      (r.started <==> cameraInitOk && wifiUp) &&
      (r.started ==> Valid(r.step.state) && r.step.state.cameraReady && r.step.state.httpErrors == 0 &&
                     r.step.state.serverIP == IPv4ToString(h.gateway) && r.step.state.serverPort == FLUTTER_APP_PORT &&
                     r.step.state.serverDiscovered == Confirmed(h))
  {
    IPv4TextHasNoColon(h.gateway);
  }

  // ------------------------------------------------------------ capture tick

  /** With WiFi down a pass only asks for reconnection: no frame, no upload,
      the globals untouched. */
  lemma DisconnectedTickSkips(s: State, t: TickInput)
    requires !t.linkUp
    ensures TickStep(s, t).state == s
    ensures TickStep(s, t).trace == [Reconnect]
  {
  }

  /** The counter rules of a pass: unchanged when nothing was uploaded, 0 after
      a success, one more after a failure, unless that failure reached the
      threshold and the rediscovery was confirmed, in which case 0. */
  lemma TickCounter(s: State, t: TickInput)
    ensures TickStep(s, t).state.httpErrors ==
      if !Uploads(s, t) then s.httpErrors
      else if UploadSucceeds(s, t) then 0
      else if s.httpErrors + 1 >= MAX_HTTP_ERRORS && Confirmed(t.handshake) then 0
      else s.httpErrors + 1
    ensures Valid(s) ==> Valid(TickStep(s, t).state)
    ensures TickStep(s, t).state.cameraReady == s.cameraReady
    ensures TickStep(s, t).state.lastWiFiCheck == s.lastWiFiCheck
  {
    IPv4TextHasNoColon(t.handshake.gateway);
  }

  /** A pass rediscovers exactly once iff its upload failed and the counter,
      after the increment, reached MAX_HTTP_ERRORS; never otherwise. The
      endpoint changes only in such a pass. */
  lemma TickRediscoversIff(s: State, t: TickInput)
    ensures Count(TickStep(s, t).trace, Rediscovery) ==
      if Uploads(s, t) && !UploadSucceeds(s, t) && s.httpErrors + 1 >= MAX_HTTP_ERRORS then 1 else 0
    ensures Count(TickStep(s, t).trace, Rediscovery) == 0 ==>
      TickStep(s, t).state.(httpErrors := s.httpErrors) == s
  {
    if Uploads(s, t) {
      var f := t.frame.value;
      var sent := SendDecision(s, t.frame, t.upload);
      var handled := [Acquire(f)] + sent.posts + [Release(f)];
      HandledFrame(f, sent.posts, f);
      if !sent.ok && s.httpErrors + 1 >= MAX_HTTP_ERRORS {
        var failed := s.(httpErrors := s.httpErrors + 1);
        RediscoveryTouchesNoFrame(failed, t.handshake, f);
        CountAppend(handled, RediscoverStep(failed, t.handshake).trace, Rediscovery);
        assert Uploads(s, t) && !UploadSucceeds(s, t);
      }
    }
  }

  /** The events of a pass that got a frame, up to its return: the frame is
      acquired, uploaded (at most one POST) and returned. */
  lemma HandledFrame(g: Frame, posts: seq<Event>, f: Frame)
    requires posts == [] || (|posts| == 1 && posts[0].UploadPost?)
    ensures var handled := [Acquire(g)] + posts + [Release(g)];
      FramesReturned(handled) &&
      Count(handled, Acquire(f)) == Count(handled, Release(f)) == (if g == f then 1 else 0) &&
      Count(handled, Rediscovery) == 0
  {
    var handled := [Acquire(g)] + posts + [Release(g)];
    CountAppend([Acquire(g)], posts, Release(f));
    CountAppend([Acquire(g)] + posts, [Release(g)], Release(f));
    CountAppend([Acquire(g)], posts, Acquire(f));
    CountAppend([Acquire(g)] + posts, [Release(g)], Acquire(f));
    CountAppend([Acquire(g)], posts, Rediscovery);
    CountAppend([Acquire(g)] + posts, [Release(g)], Rediscovery);
    CustodyAppend(Idle, [Acquire(g)], posts);
    CustodyAppend(Idle, [Acquire(g)] + posts, [Release(g)]);
  }

  /** A rediscovery touches no frame and happens with no frame in hand. */
  lemma RediscoveryTouchesNoFrame(s: State, h: Handshake, f: Frame)
    ensures var tr := RediscoverStep(s, h).trace;
      FramesReturned(tr) && Count(tr, Acquire(f)) == 0 && Count(tr, Release(f)) == 0 && Count(tr, Rediscovery) == 1
  {
    var hs := DiscoverStep(s, h).step.trace;
    CountAppend([Rediscovery], hs, Release(f));
    CountAppend([Rediscovery], hs, Acquire(f));
    CountAppend([Rediscovery], hs, Rediscovery);
    CustodyAppend(Idle, [Rediscovery], hs);
  }

  /** Every frame acquired in a pass is returned exactly once, after its
      upload and before anything else, whatever the upload's outcome. */
  lemma TickReturnsFrame(s: State, t: TickInput, f: Frame)
    ensures FramesReturned(TickStep(s, t).trace)
    ensures Count(TickStep(s, t).trace, Release(f)) == Count(TickStep(s, t).trace, Acquire(f))
    ensures Count(TickStep(s, t).trace, Acquire(f)) == if Uploads(s, t) && t.frame == Some(f) then 1 else 0
  {
    var r := TickStep(s, t);
    if Uploads(s, t) {
      var g := t.frame.value;
      var sent := SendDecision(s, t.frame, t.upload);
      var handled := [Acquire(g)] + sent.posts + [Release(g)];
      HandledFrame(g, sent.posts, f);
      if r.trace != handled {
        var failed := s.(httpErrors := s.httpErrors + 1);
        var d := RediscoverStep(failed, t.handshake);
        assert r.trace == handled + d.trace;
        RediscoveryTouchesNoFrame(failed, t.handshake, f);
        CountAppend(handled, d.trace, Release(f));
        CountAppend(handled, d.trace, Acquire(f));
        CustodyAppend(Idle, handled, d.trace);
      }
    }
  }

  /** A pass that starts below the threshold ends below it when its
      rediscovery, should it happen, is confirmed. */
  lemma TickBelowThreshold(s: State, t: TickInput)
    requires 0 <= s.httpErrors < MAX_HTTP_ERRORS
    requires Confirmed(t.handshake)
    ensures 0 <= TickStep(s, t).state.httpErrors < MAX_HTTP_ERRORS
  {
    TickCounter(s, t);
  }

  // -------------------------------------------------------------- loop()

  /** The timed check runs only when the unsigned elapsed time exceeds 30000
      ms, reconnects only when WiFi is down, always records the second millis()
      reading when it runs, and changes nothing else. */
  lemma WifiCheckRules(s: State, nowAtTest: U32, linkUp: bool, nowAtRecord: U32)
    ensures var r := WifiCheckStep(s, nowAtTest, linkUp, nowAtRecord);
      r.state.lastWiFiCheck == (if CheckDue(s, nowAtTest) then nowAtRecord else s.lastWiFiCheck) &&
      r.state.(lastWiFiCheck := s.lastWiFiCheck) == s &&
      (Reconnect in r.trace <==> CheckDue(s, nowAtTest) && !linkUp) &&
      (r.trace == [] || r.trace == [Reconnect])
  {
  }

  /** Because the subtraction is unsigned, the check becomes due exactly when
      more than 30000 ms have really passed since the last one, even across a
      wrap-around of millis(). */
  lemma WifiCheckAcrossWrap(s: State, t: nat)
    requires t < TWO_32
    ensures CheckDue(s, (s.lastWiFiCheck + t) % TWO_32) <==> t > WIFI_CHECK_INTERVAL_MS
  {
    ElapsedAcrossWrap(s.lastWiFiCheck, t);
  }

  /** The command is recognised whatever surrounds it in white space and
      whatever its letter case. */
  lemma DiscoverCommandAccepted(p: string, w: string, q: string)
    requires AllSpace(p) && AllSpace(q)
    requires ToLower(w) == DISCOVER_COMMAND
    ensures IsDiscoverCommand(p + w + q)
  {
    assert LowerChar(w[0]) == 'd' && LowerChar(w[|w| - 1]) == 'r';
    TrimAround(p, w, q);
  }

  /** Conversely, a line runs the discover command only if it is `discover`,
      in some letter case, with nothing but white space around it. */
  lemma DiscoverCommandOnly(line: string)
    requires IsDiscoverCommand(line)
    ensures exists i, j ::
      0 <= i <= j <= |line| && AllSpace(line[..i]) && AllSpace(line[j..]) && ToLower(line[i..j]) == DISCOVER_COMMAND
  {
    var t := TrimStart(line);
    var i := |line| - |t|;
    var r := TrimEnd(t);
    var j := i + |r|;
    assert line[i..j] == r;
    assert forall k :: j <= k < |line| ==> line[k] == t[k - i];
    assert AllSpace(line[..i]);
    assert AllSpace(line[j..]);
  }

  /** A serial line other than the discover command leaves everything as it
      was; the discover command is a rediscovery. */
  lemma CommandRules(s: State, line: Option<string>, h: Handshake)
    ensures line.Some? && IsDiscoverCommand(line.value) ==> CommandStep(s, line, h) == RediscoverStep(s, h)
    ensures !(line.Some? && IsDiscoverCommand(line.value)) ==> CommandStep(s, line, h) == Step(s, [])
  {
  }

  /** A loop() pass touches no frame and no upload, changes the counter
      only through a confirmed discover command, and keeps the invariant. */
  lemma LoopStepSafe(s: State, l: LoopInput, f: Frame)
    ensures var r := LoopStep(s, l);
      FramesReturned(r.trace) &&
      Count(r.trace, Acquire(f)) == 0 && Count(r.trace, Release(f)) == 0 &&
      r.state.cameraReady == s.cameraReady &&
      r.state.httpErrors == (if l.line.Some? && IsDiscoverCommand(l.line.value) && Confirmed(l.handshake) then 0 else s.httpErrors) &&
      (Valid(s) ==> Valid(r.state))
  {
    var c := WifiCheckStep(s, l.nowAtTest, l.linkUp, l.nowAtRecord);
    var d := CommandStep(c.state, l.line, l.handshake);
    assert LoopStep(s, l) == Step(d.state, c.trace + d.trace);
    assert c.trace == [] || c.trace == [Reconnect];
    CommandSafe(c.state, l.line, l.handshake, f);
    CountAppend(c.trace, d.trace, Acquire(f));
    CountAppend(c.trace, d.trace, Release(f));
    CustodyAppend(Idle, c.trace, d.trace);
  }

  /** A serial command touches no frame and, when it rediscovers, keeps the
      invariant. */
  lemma CommandSafe(s: State, line: Option<string>, h: Handshake, f: Frame)
    ensures var d := CommandStep(s, line, h);
      FramesReturned(d.trace) &&
      Count(d.trace, Acquire(f)) == 0 && Count(d.trace, Release(f)) == 0 &&
      d.state.cameraReady == s.cameraReady &&
      d.state.lastWiFiCheck == s.lastWiFiCheck &&
      d.state.httpErrors == (if line.Some? && IsDiscoverCommand(line.value) && Confirmed(h) then 0 else s.httpErrors) &&
      (Valid(s) ==> Valid(d.state))
  {
    var d := CommandStep(s, line, h);
    IPv4TextHasNoColon(h.gateway);
    if d.trace != [] {
      var hs := DiscoverStep(s, h).step.trace;
      assert d.trace == [Rediscovery] + hs;
      CountAppend([Rediscovery], hs, Acquire(f));
      CountAppend([Rediscovery], hs, Release(f));
      CustodyAppend(Idle, [Rediscovery], hs);
    }
  }

  // ------------------------------------------------------------------- runs

  /** Continuing a run pass by pass from recorded events appends the events of
      the run to them. */
  lemma {:induction false} RunFromIsRunSteps(s: State, recorded: seq<Event>, acts: seq<Activity>)
    ensures RunFrom(Step(s, recorded), acts) == Step(RunSteps(s, acts).state, recorded + RunSteps(s, acts).trace)
    decreases |acts|
  {
    if acts == [] {
      TraceAssoc(recorded, [], []);
    } else {
      var q := ActivityStep(s, acts[0]);
      RunFromIsRunSteps(q.state, recorded + q.trace, acts[1..]);
      RunStepsFirst(s, acts);
      TraceAssoc(recorded, q.trace, RunSteps(q.state, acts[1..]).trace);
    }
  }

  /** Event sequences concatenate associatively, with the empty one as unit. */
  lemma TraceAssoc(a: seq<Event>, b: seq<Event>, c: seq<Event>)
    ensures (a + b) + c == a + (b + c)
    ensures a + [] == a && [] + a == a
  {
  }

  /** A run is its first pass followed by the run of the remaining passes. */
  lemma {:induction false} RunStepsFirst(s: State, acts: seq<Activity>)
    requires acts != []
    ensures var q := ActivityStep(s, acts[0]);
      var rest := RunSteps(q.state, acts[1..]);
      RunSteps(s, acts) == Step(rest.state, q.trace + rest.trace)
    decreases |acts|
  {
    var q := ActivityStep(s, acts[0]);
    var rest := acts[1..];
    if |acts| == 1 {
      assert acts[..0] == [];
      assert rest == [];
      TraceAssoc([], q.trace, []);
    } else {
      var init := acts[..|acts| - 1];
      var last := acts[|acts| - 1];
      RunStepsFirst(s, init);
      assert init[0] == acts[0];
      assert rest[..|rest| - 1] == init[1..];
      assert rest[|rest| - 1] == last;
      var mid := RunSteps(q.state, init[1..]);
      var fin := ActivityStep(mid.state, last);
      assert RunSteps(s, init) == Step(mid.state, q.trace + mid.trace);
      assert RunSteps(s, acts) == Step(fin.state, (q.trace + mid.trace) + fin.trace);
      assert RunSteps(q.state, rest) == Step(fin.state, mid.trace + fin.trace);
      TraceAssoc(q.trace, mid.trace, fin.trace);
    }
  }


  function HandshakeOf(a: Activity): Handshake
  {
    match a
    case Capture(t) => t.handshake
    case Foreground(l) => l.handshake
  }

  /** Over any interleaving of the two tasks the invariant holds, the camera
      flag never changes, and every frame taken is given back once. */
  lemma {:induction false} RunKeepsInvariant(s: State, acts: seq<Activity>, f: Frame)
    requires Valid(s)
    ensures Valid(RunSteps(s, acts).state)
    ensures RunSteps(s, acts).state.cameraReady == s.cameraReady
    ensures FramesReturned(RunSteps(s, acts).trace)
    ensures Count(RunSteps(s, acts).trace, Release(f)) == Count(RunSteps(s, acts).trace, Acquire(f))
    decreases |acts|
  {
    if acts != [] {
      var init := acts[..|acts| - 1];
      var p := RunSteps(s, init);
      var q := ActivityStep(p.state, acts[|acts| - 1]);
      RunKeepsInvariant(s, init, f);
      match acts[|acts| - 1] {
        case Capture(t) =>
          TickCounter(p.state, t);
          TickReturnsFrame(p.state, t, f);
        case Foreground(l) =>
          LoopStepSafe(p.state, l, f);
      }
      CustodyAppend(Idle, p.trace, q.trace);
      CountAppend(p.trace, q.trace, Release(f));
      CountAppend(p.trace, q.trace, Acquire(f));
    }
  }

  /** If every rediscovery is confirmed, the counter stays below the
      threshold after every pass of either task. */
  lemma {:induction false} RunBelowThreshold(s: State, acts: seq<Activity>)
    requires Valid(s) && s.httpErrors < MAX_HTTP_ERRORS
    requires forall i :: 0 <= i < |acts| ==> Confirmed(HandshakeOf(acts[i]))
    ensures RunSteps(s, acts).state.httpErrors < MAX_HTTP_ERRORS
    decreases |acts|
  {
    if acts != [] {
      var init := acts[..|acts| - 1];
      var p := RunSteps(s, init);
      RunBelowThreshold(s, init);
      RunKeepsInvariant(s, init, Frame(0));
      assert Confirmed(HandshakeOf(acts[|acts| - 1]));
      match acts[|acts| - 1] {
        case Capture(t) => TickBelowThreshold(p.state, t);
        case Foreground(l) => LoopStepSafe(p.state, l, Frame(0));
      }
    }
  }

  /** A pass whose upload fails: WiFi up, a frame, then no successful POST. */
  predicate FailingTick(t: TickInput)
  {
    t.linkUp && t.frame.Some? && !(t.upload.linkUp && |t.upload.encoded| > 0 && t.upload.code > 0)
  }

  predicate FailingCaptures(acts: seq<Activity>, confirmed: bool)
  {
    forall i :: 0 <= i < |acts| ==>
      acts[i].Capture? && FailingTick(acts[i].tick) && Confirmed(acts[i].tick.handshake) == confirmed
  }

  /** One failed upload: the counter goes up, and at the threshold there is
      one rediscovery, which resets it when confirmed. */
  lemma FailedTick(s: State, t: TickInput)
    requires s.cameraReady && FailingTick(t)
    ensures var q := TickStep(s, t);
      var due := s.httpErrors + 1 >= MAX_HTTP_ERRORS;
      q.state.cameraReady &&
      q.state.httpErrors == (if due && Confirmed(t.handshake) then 0 else s.httpErrors + 1) &&
      Count(q.trace, Rediscovery) == (if due then 1 else 0)
  {
    TickCounter(s, t);
    TickRediscoversIff(s, t);
  }

  /** Counting one more failure modulo the threshold. */
  lemma CountUpStep(n: nat)
    ensures (n + 1) % MAX_HTTP_ERRORS == if n % MAX_HTTP_ERRORS + 1 == MAX_HTTP_ERRORS then 0 else n % MAX_HTTP_ERRORS + 1
    ensures (n + 1) / MAX_HTTP_ERRORS == n / MAX_HTTP_ERRORS + if n % MAX_HTTP_ERRORS + 1 == MAX_HTTP_ERRORS then 1 else 0
  {
  }

  /** After n consecutive failed uploads from a zero counter, with confirmed
      rediscoveries, the counter is n mod 5 and there were n div 5
      rediscoveries: one every MAX_HTTP_ERRORS failures. */
  lemma {:induction false} ConsecutiveFailures(s: State, acts: seq<Activity>)
    requires s.cameraReady && s.httpErrors == 0
    requires FailingCaptures(acts, true)
    ensures RunSteps(s, acts).state.httpErrors == |acts| % MAX_HTTP_ERRORS
    ensures RunSteps(s, acts).state.cameraReady
    ensures Count(RunSteps(s, acts).trace, Rediscovery) == |acts| / MAX_HTTP_ERRORS
    decreases |acts|
  {
    if acts != [] {
      var init := acts[..|acts| - 1];
      var p := RunSteps(s, init);
      var t := acts[|acts| - 1].tick;
      var q := TickStep(p.state, t);
      assert acts[|acts| - 1] == Capture(t);
      assert RunSteps(s, acts) == Step(q.state, p.trace + q.trace);
      assert FailingCaptures(init, true);
      ConsecutiveFailures(s, init);
      CountUpStep(|init|);
      FailedTick(p.state, t);
      CountAppend(p.trace, q.trace, Rediscovery);
    }
  }

  /** Five failed uploads in a row from a zero counter: one rediscovery, and
      the counter is back at 0 when it is confirmed. */
  lemma FiveFailuresRediscoverOnce(s: State, acts: seq<Activity>)
    requires s.cameraReady && s.httpErrors == 0
    requires |acts| == MAX_HTTP_ERRORS
    requires forall i :: 0 <= i < |acts| ==> acts[i].Capture? && FailingTick(acts[i].tick)
    ensures Count(RunSteps(s, acts).trace, Rediscovery) == 1
    ensures RunSteps(s, acts).state.httpErrors ==
      if Confirmed(acts[MAX_HTTP_ERRORS - 1].tick.handshake) then 0 else MAX_HTTP_ERRORS
  {
    var init := acts[..|acts| - 1];
    var p := RunSteps(s, init);
    var t := acts[|acts| - 1].tick;
    var q := TickStep(p.state, t);
    assert acts[|acts| - 1] == Capture(t);
    assert RunSteps(s, acts) == Step(q.state, p.trace + q.trace);
    FailuresBelowThreshold(s, init);
    FailedTick(p.state, t);
    CountAppend(p.trace, q.trace, Rediscovery);
  }

  /** Fewer than MAX_HTTP_ERRORS failed uploads from 0 count up without any
      rediscovery, whatever the handshakes would answer. */
  lemma {:induction false} FailuresBelowThreshold(s: State, acts: seq<Activity>)
    requires s.cameraReady && s.httpErrors == 0
    requires |acts| < MAX_HTTP_ERRORS
    requires forall i :: 0 <= i < |acts| ==> acts[i].Capture? && FailingTick(acts[i].tick)
    ensures RunSteps(s, acts).state.httpErrors == |acts|
    ensures RunSteps(s, acts).state.cameraReady
    ensures Count(RunSteps(s, acts).trace, Rediscovery) == 0
    decreases |acts|
  {
    if acts != [] {
      var init := acts[..|acts| - 1];
      var p := RunSteps(s, init);
      var t := acts[|acts| - 1].tick;
      var q := TickStep(p.state, t);
      assert acts[|acts| - 1] == Capture(t);
      assert RunSteps(s, acts) == Step(q.state, p.trace + q.trace);
      FailuresBelowThreshold(s, init);
      FailedTick(p.state, t);
      CountAppend(p.trace, q.trace, Rediscovery);
    }
  }

  /** As the code is written, an unconfirmed rediscovery does not reset the
      counter, so from then on every failed upload rediscovers again, one
      handshake per pass, and the counter keeps growing. */
  lemma {:induction false} UnconfirmedRediscoveryRepeats(s: State, acts: seq<Activity>)
    requires s.cameraReady && s.httpErrors >= MAX_HTTP_ERRORS - 1
    requires FailingCaptures(acts, false)
    ensures RunSteps(s, acts).state.httpErrors == s.httpErrors + |acts|
    ensures RunSteps(s, acts).state.cameraReady
    ensures Count(RunSteps(s, acts).trace, Rediscovery) == |acts|
    decreases |acts|
  {
    if acts != [] {
      var init := acts[..|acts| - 1];
      var p := RunSteps(s, init);
      var t := acts[|acts| - 1].tick;
      var q := TickStep(p.state, t);
      assert acts[|acts| - 1] == Capture(t);
      assert RunSteps(s, acts) == Step(q.state, p.trace + q.trace);
      assert FailingCaptures(init, false);
      UnconfirmedRediscoveryRepeats(s, init);
      FailedTick(p.state, t);
      CountAppend(p.trace, q.trace, Rediscovery);
    }
  }
}
