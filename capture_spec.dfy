/** The capture/upload controller of the ESP32-CAM firmware as pure step
    functions. A State holds the globals the firmware mutates; every step
    returns the new State and the observable events it caused (frame
    acquisitions and returns, HTTP POSTs, reconnections, rediscoveries).
    WiFi status, the gateway address, frame availability, the Base64 text,
    HTTP response codes and millis() are inputs of the steps. */
module CaptureSpec {
  import opened Text
  import opened Net

  const FLUTTER_APP_PORT: int := 8080
  const MAX_HTTP_ERRORS: int := 5
  const WIFI_CHECK_INTERVAL_MS: int := 30000
  const HANDSHAKE_PATH: string := "/handshake"
  const UPLOAD_PATH: string := "/upload"
  const DISCOVER_COMMAND: string := "discover"

  datatype Option<T> = None | Some(value: T)

  /** A frame buffer handed out by the camera driver; only its identity matters here. */
  datatype Frame = Frame(id: nat)

  /** The observable effects of the controller. */
  datatype Event =
    | Reconnect                  // reconnectWiFi() is invoked
    | Acquire(frame: Frame)      // esp_camera_fb_get() handed out a frame
    | Release(frame: Frame)      // esp_camera_fb_return() gave it back
    | HandshakePost(url: string) // the discovery handshake POST
    | UploadPost(url: string)    // the image upload POST
    | Rediscovery                // rediscoverServer() is entered

  /** The firmware's globals. */
  datatype State = State(
    serverIP: string,        // discoveredServerIP
    serverPort: int,         // discoveredServerPort
    serverDiscovered: bool,  // serverDiscovered
    httpErrors: int,         // consecutiveHttpErrors
    cameraReady: bool,       // camera_ready
    lastWiFiCheck: U32)      // the static lastWiFiCheck of loop()

  /** The globals' initial values, before setup() runs. */
  const Boot: State := State("", 0, false, 0, false, 0)

  /** What every step keeps: the counter is never negative and the stored
      address holds no ':' (so the URLs built from it can be taken apart). */
  predicate Valid(s: State) { s.httpErrors >= 0 && ':' !in s.serverIP }

  datatype Step = Step(state: State, trace: seq<Event>)

  /** What the network answers during one discovery: WiFi.gatewayIP() and the
      response code of the handshake POST (<= 0 means no response). */
  datatype Handshake = Handshake(gateway: IPv4, code: int)

  predicate Confirmed(h: Handshake) { h.code > 0 }

  /** What sendImageToFlutter observes: WiFi.status() at its own check, the
      text base64::encode returned, and the response code of the POST. */
  datatype UploadEnv = UploadEnv(linkUp: bool, encoded: string, code: int)

  /** What one pass of captureTask's loop observes: WiFi.status() at the top,
      the frame esp_camera_fb_get() returns, the upload and, should the pass
      rediscover, the discovery. */
  datatype TickInput = TickInput(linkUp: bool, frame: Option<Frame>, upload: UploadEnv, handshake: Handshake)

  /** What one pass of loop() observes: millis() at the test and at the
      record, WiFi.status(), the serial line if one is available, and the
      discovery should the line be the discover command. */
  datatype LoopInput = LoopInput(nowAtTest: U32, linkUp: bool, nowAtRecord: U32, line: Option<string>, handshake: Handshake)

  /** One atomic step of either task. */
  datatype Activity = Capture(tick: TickInput) | Foreground(pass: LoopInput)

  function HandshakeUrl(gateway: IPv4): string { Url(IPv4ToString(gateway), FLUTTER_APP_PORT, HANDSHAKE_PATH) }

  function UploadUrl(s: State): string { Url(s.serverIP, s.serverPort, UPLOAD_PATH) }

  datatype Discovery = Discovery(confirmed: bool, step: Step)

  /** discoverServerViaGateway(): the endpoint becomes the gateway at the app
      port whatever the handshake gives; the handshake is one POST, and the
      discovery is confirmed iff it got a positive response code. */
  function DiscoverStep(s: State, h: Handshake): (r: Discovery)
    ensures r.step.state.serverIP == IPv4ToString(h.gateway)
    ensures r.step.state.serverPort == FLUTTER_APP_PORT
    ensures r.confirmed == r.step.state.serverDiscovered == Confirmed(h)
    ensures r.step.state.(serverIP := s.serverIP, serverPort := s.serverPort, serverDiscovered := s.serverDiscovered) == s
    ensures r.step.trace == [HandshakePost(HandshakeUrl(h.gateway))]
  {
    var ip := IPv4ToString(h.gateway);
    var endpoint := s.(serverIP := ip, serverPort := FLUTTER_APP_PORT);
    var trace := [HandshakePost(Url(ip, FLUTTER_APP_PORT, HANDSHAKE_PATH))];
    if h.code > 0 then Discovery(true, Step(endpoint.(serverDiscovered := true), trace))
    else Discovery(false, Step(endpoint.(serverDiscovered := false), trace))
  }

  /** rediscoverServer(): a discovery, after which the error counter is reset
      only if the global serverDiscovered says it was confirmed. */
  function RediscoverStep(s: State, h: Handshake): (r: Step)
    ensures r.state.httpErrors == if Confirmed(h) then 0 else s.httpErrors
    ensures r.state.(httpErrors := s.httpErrors) == DiscoverStep(s, h).step.state
    ensures r.trace == [Rediscovery] + DiscoverStep(s, h).step.trace
  {
    var d := DiscoverStep(s, h).step;
    if d.state.serverDiscovered then Step(d.state.(httpErrors := 0), [Rediscovery] + d.trace)
    else Step(d.state, [Rediscovery] + d.trace)
  }

  datatype Sent = Sent(ok: bool, posts: seq<Event>)

  /** sendImageToFlutter(): no frame, no WiFi or an empty encoding fail at once
      without a request; otherwise exactly one POST to the stored endpoint,
      successful iff the response code is positive. */
  function SendDecision(s: State, frame: Option<Frame>, u: UploadEnv): (r: Sent)
    ensures r.posts == [] <==> frame.None? || !u.linkUp || |u.encoded| == 0
    ensures r.posts != [] ==> r.posts == [UploadPost(UploadUrl(s))]
    ensures r.ok <==> r.posts != [] && u.code > 0
  {
    if frame.None? || !u.linkUp then Sent(false, [])
    else if |u.encoded| == 0 then Sent(false, [])
    else Sent(u.code > 0, [UploadPost(Url(s.serverIP, s.serverPort, UPLOAD_PATH))])
  }

  /** A pass of captureTask gets as far as an upload attempt. */
  predicate Uploads(s: State, t: TickInput) { t.linkUp && s.cameraReady && t.frame.Some? }

  predicate UploadSucceeds(s: State, t: TickInput) { SendDecision(s, t.frame, t.upload).ok }

  /** One pass of the while loop of captureTask. */
  function TickStep(s: State, t: TickInput): Step
  {
    if !t.linkUp then Step(s, [Reconnect])
    else if !s.cameraReady then Step(s, [])
    else match t.frame
      case None => Step(s, [])
      case Some(f) =>
        var sent := SendDecision(s, t.frame, t.upload);
        var handled := [Acquire(f)] + sent.posts + [Release(f)];
        var c := OutcomeStep(s, sent.ok, t.handshake);
        Step(c.state, handled + c.trace)
  }

  /** The error accounting after the frame was returned: a success clears the
      counter; a failure raises it and, at the threshold, rediscovers. */
  function OutcomeStep(s: State, ok: bool, h: Handshake): Step
  {
    if ok then Step(s.(httpErrors := 0), [])
    else
      var failed := s.(httpErrors := s.httpErrors + 1);
      if failed.httpErrors >= MAX_HTTP_ERRORS then RediscoverStep(failed, h)
      else Step(failed, [])
  }

  /** The connectivity check of loop() is due: unsigned millis() - lastWiFiCheck > 30000. */
  predicate CheckDue(s: State, now: U32) { ElapsedMs(now, s.lastWiFiCheck) > WIFI_CHECK_INTERVAL_MS }

  /** The timed connectivity check at the top of loop(). */
  function WifiCheckStep(s: State, nowAtTest: U32, linkUp: bool, nowAtRecord: U32): Step
  {
    if ElapsedMs(nowAtTest, s.lastWiFiCheck) > WIFI_CHECK_INTERVAL_MS then
      Step(s.(lastWiFiCheck := nowAtRecord), if linkUp then [] else [Reconnect])
    else Step(s, [])
  }

  /** processSerialCommand() compares the line after trim() and toLowerCase(). */
  predicate IsDiscoverCommand(line: string) { ToLower(Trim(line)) == DISCOVER_COMMAND }

  /** processSerialCommand(): only the discover command changes state. */
  function CommandStep(s: State, line: Option<string>, h: Handshake): Step
  {
    if line.Some? && IsDiscoverCommand(line.value) then RediscoverStep(s, h) else Step(s, [])
  }

  /** One pass of loop(): the timed check, then the serial command. */
  function LoopStep(s: State, l: LoopInput): Step
  {
    var c := WifiCheckStep(s, l.nowAtTest, l.linkUp, l.nowAtRecord);
    var d := CommandStep(c.state, l.line, l.handshake);
    Step(d.state, c.trace + d.trace)
  }

  function ActivityStep(s: State, a: Activity): Step
  {
    match a
    case Capture(t) => TickStep(s, t)
    case Foreground(l) => LoopStep(s, l)
  }

  /** A finite prefix of the firmware's life: the two tasks' passes in the
      order they happen, each one atomic. */
  function RunSteps(s: State, acts: seq<Activity>): Step
    decreases |acts|
  {
    if acts == [] then Step(s, [])
    else
      var p := RunSteps(s, acts[..|acts| - 1]);
      var q := ActivityStep(p.state, acts[|acts| - 1]);
      Step(q.state, p.trace + q.trace)
  }

  /** The same run, continuing from a state and the events recorded so far,
      pass by pass as the firmware executes it. */
  function RunFrom(done: Step, acts: seq<Activity>): Step
    decreases |acts|
  {
    if acts == [] then done
    else
      var q := ActivityStep(done.state, acts[0]);
      RunFrom(Step(q.state, done.trace + q.trace), acts[1..])
  }

  datatype Startup = Startup(started: bool, step: Step)

  /** setup(): camera bring-up, WiFi association, then the first discovery;
      a failure of either of the first two halts before any loop starts. */
  function SetupStep(cameraInitOk: bool, wifiUp: bool, h: Handshake): Startup
  {
    if !cameraInitOk then Startup(false, Step(Boot, []))
    else if !wifiUp then Startup(false, Step(Boot.(cameraReady := true), []))
    else Startup(true, DiscoverStep(Boot.(cameraReady := true), h).step)
  }
}
