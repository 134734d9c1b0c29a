/** The firmware's globals and the functions of main.cpp that update them, as
    one controller object. Each method does what its C++ counterpart does,
    step by step, and is proved to agree with the step function of
    CaptureSpec, whose properties CaptureProps proves. The field `log` keeps
    the observable events (frames, POSTs, reconnections, rediscoveries). */
module Firmware {
  import opened Net
  import opened CaptureSpec
  import CaptureProps

  class Controller {
    var serverIP: string       // discoveredServerIP
    var serverPort: int        // discoveredServerPort
    var serverDiscovered: bool // serverDiscovered
    var httpErrors: int        // consecutiveHttpErrors
    var cameraReady: bool      // camera_ready
    var lastWiFiCheck: U32     // static lastWiFiCheck of loop()
    var log: seq<Event>

    function Globals(): State
      reads this
    {
      State(serverIP, serverPort, serverDiscovered, httpErrors, cameraReady, lastWiFiCheck)
    }

    predicate Valid()
      reads this
    {
      CaptureSpec.Valid(Globals())
    }

    /** The globals' initial values. */
    constructor ()
      ensures Globals() == Boot && log == [] && Valid()
    {
      serverIP, serverPort, serverDiscovered := "", 0, false;
      httpErrors, cameraReady, lastWiFiCheck := 0, false, 0;
      log := [];
    }

    /** setup(): camera, WiFi, then the first discovery. A false result is the
        halt of setup(), after which no loop runs. */
    method Setup(cameraInitOk: bool, wifiUp: bool, h: Handshake) returns (started: bool)
      requires Globals() == Boot
      modifies this
      ensures var r := SetupStep(cameraInitOk, wifiUp, h);
        started == r.started && Globals() == r.step.state && log == old(log) + r.step.trace
      ensures Valid()
    {
      if !cameraInitOk {
        return false;
      }
      cameraReady := true;
      if !wifiUp {
        return false;
      }
      var _ := DiscoverServer(h);
      started := true;
    }

    /** discoverServerViaGateway() */
    method DiscoverServer(h: Handshake) returns (confirmed: bool)
      requires Valid()
      modifies this
      ensures var d := DiscoverStep(old(Globals()), h);
        confirmed == d.confirmed && Globals() == d.step.state && log == old(log) + d.step.trace
      ensures Valid()
    {
      IPv4TextHasNoColon(h.gateway);
      serverIP := IPv4ToString(h.gateway);
      serverPort := FLUTTER_APP_PORT;
      var handshakeUrl := Url(serverIP, serverPort, HANDSHAKE_PATH);
      log := log + [HandshakePost(handshakeUrl)];
      var httpResponseCode := h.code;
      if httpResponseCode > 0 {
        serverDiscovered := true;
        return true;
      } else {
        serverDiscovered := false;
        return false;
      }
    }

    /** rediscoverServer() */
    method RediscoverServer(h: Handshake)
      requires Valid()
      modifies this
      ensures var r := RediscoverStep(old(Globals()), h);
        Globals() == r.state && log == old(log) + r.trace
      ensures Valid()
    {
      log := log + [Rediscovery];
      var _ := DiscoverServer(h);
      if serverDiscovered {
        httpErrors := 0;
      }
    }

    /** sendImageToFlutter(): reads the stored endpoint, changes nothing but
        the record of the POST it issues. */
    method SendImage(fb: Option<Frame>, u: UploadEnv) returns (ok: bool)
      modifies this`log
      ensures var r := SendDecision(Globals(), fb, u);
        ok == r.ok && log == old(log) + r.posts
    {
      if fb.None? || !u.linkUp {
        return false;
      }
      var base64Image := u.encoded;
      if |base64Image| == 0 {
        return false;
      }
      var url := Url(serverIP, serverPort, UPLOAD_PATH);
      log := log + [UploadPost(url)];
      var httpResponseCode := u.code;
      ok := httpResponseCode > 0;
    }

    /** One pass of the while loop of captureTask. */
    method CaptureTick(t: TickInput)
      requires Valid()
      modifies this
      ensures var r := TickStep(old(Globals()), t);
        Globals() == r.state && log == old(log) + r.trace
      ensures Valid()
    {
      if !t.linkUp {
        log := log + [Reconnect];
        return;
      }
      if cameraReady {
        var fb := t.frame;
        if fb.Some? {
          ghost var s0 := Globals();
          ghost var log0 := log;
          ghost var sent := SendDecision(s0, fb, t.upload);
          log := log + [Acquire(fb.value)];
          var success := SendImage(fb, t.upload);
          log := log + [Release(fb.value)];
          ghost var handled := [Acquire(fb.value)] + sent.posts + [Release(fb.value)];
          assert log == log0 + handled;
          ghost var c := OutcomeStep(Globals(), success, t.handshake);
          RecordOutcome(success, t.handshake);
          assert log == log0 + (handled + c.trace);
        }
      }
    }

    /** The counter update of captureTask after the frame is returned. */
    method RecordOutcome(success: bool, h: Handshake)
      requires Valid()
      modifies this
      ensures var r := OutcomeStep(old(Globals()), success, h);
        Globals() == r.state && log == old(log) + r.trace
      ensures Valid()
    {
      if success {
        httpErrors := 0;
      } else {
        httpErrors := httpErrors + 1;
        if httpErrors >= MAX_HTTP_ERRORS {
          RediscoverServer(h);
        }
      }
    }

    /** The timed connectivity check at the top of loop(). */
    method CheckWiFi(nowAtTest: U32, linkUp: bool, nowAtRecord: U32)
      requires Valid()
      modifies this
      ensures var r := WifiCheckStep(old(Globals()), nowAtTest, linkUp, nowAtRecord);
        Globals() == r.state && log == old(log) + r.trace
      ensures Valid()
    {
      if ElapsedMs(nowAtTest, lastWiFiCheck) > WIFI_CHECK_INTERVAL_MS {
        if !linkUp {
          log := log + [Reconnect];
        }
        lastWiFiCheck := nowAtRecord;
      }
    }

    /** processSerialCommand(): only the discover branch changes state. The
        line is trimmed, lower-cased and compared with DISCOVER_COMMAND, which
        is what IsDiscoverCommand states. */
    method ProcessCommand(line: Option<string>, h: Handshake)
      requires Valid()
      modifies this
      ensures var r := CommandStep(old(Globals()), line, h);
        Globals() == r.state && log == old(log) + r.trace
      ensures Valid()
    {
      if line.Some? {
        if IsDiscoverCommand(line.value) {
          RediscoverServer(h);
        }
      }
    }

    /** One pass of loop(). */
    method LoopIteration(l: LoopInput)
      requires Valid()
      modifies this
      ensures var r := LoopStep(old(Globals()), l);
        Globals() == r.state && log == old(log) + r.trace
      ensures Valid()
    {
      ghost var log0 := log;
      ghost var c := WifiCheckStep(Globals(), l.nowAtTest, l.linkUp, l.nowAtRecord);
      CheckWiFi(l.nowAtTest, l.linkUp, l.nowAtRecord);
      ghost var d := CommandStep(c.state, l.line, l.handshake);
      ProcessCommand(l.line, l.handshake);
      assert log == log0 + (c.trace + d.trace);
    }

    /** One pass of either loop. */
    method Pass(a: Activity)
      requires Valid()
      modifies this
      ensures var r := ActivityStep(old(Globals()), a);
        Globals() == r.state && log == old(log) + r.trace
      ensures Valid()
    {
      match a {
        case Capture(t) => CaptureTick(t);
        case Foreground(l) => LoopIteration(l);
      }
    }

    /** The two loops' passes, one at a time, in the given order. The
        invariant is kept throughout. */
    method Run(acts: seq<Activity>)
      requires Valid()
      modifies this
      ensures var r := RunSteps(old(Globals()), acts);
        Globals() == r.state && log == old(log) + r.trace && Valid()
    {
      ghost var start := Globals();
      ghost var log0 := log;
      var i := 0;
      while i < |acts|
        invariant 0 <= i <= |acts|
        invariant RunFrom(Step(Globals(), log), acts[i..]) == RunFrom(Step(start, log0), acts)
        invariant Valid()
      {
        assert acts[i..][1..] == acts[i + 1..];
        Pass(acts[i]);
        i := i + 1;
      }
      CaptureProps.RunFromIsRunSteps(start, log0, acts);
    }
  }
}
