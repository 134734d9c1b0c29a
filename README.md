# DriveGuard ESP32-CAM capture/upload controller in Dafny

This project models the control logic of the DriveGuard ESP32-CAM firmware
(`ESP32-CAM/src/main.cpp`). The firmware runs two loops:

- a background capture task. Each pass takes a frame from the camera and
  POSTs its Base64 text to a server. It counts consecutive failed uploads
  and, after `MAX_HTTP_ERRORS` (5) of them, looks for the server again;
- the foreground `loop()`. Every 30 s it checks WiFi and reconnects if
  needed, and it runs the serial `discover` command.

"Server discovery" always takes the WiFi gateway (the phone running the
hotspot) as the server, at port `FLUTTER_APP_PORT` (8080). A handshake POST
then decides whether the server counts as confirmed.

The model has five modules:

- `Text` (text.dfy): Arduino's `String(int)` decimal printing and the
  `trim()`/`toLowerCase()` used on serial commands, with the round trip and
  the trimming facts they need.
- `Net` (net.dfy): IPv4 addresses and their dotted text, the
  `"http://" + ip + ":" + port + path` URLs, and the unsigned 32-bit
  `millis()` difference.
- `CaptureSpec` (capture_spec.dfy): the firmware's globals as a `State`,
  plus one pure step function per C++ routine. Each step returns the new
  state and the events it caused: reconnections, frame acquisitions and
  returns, handshake and upload POSTs, rediscoveries.
- `CaptureProps` (capture_props.dfy): lemmas about those steps and about
  runs, where a run is any finite interleaving of capture passes and
  `loop()` passes.
- `Firmware` (controller.dfy): the class `Controller`, whose fields are the
  globals. Its methods do what the C++ functions do, statement by
  statement, and each method's `ensures` ties its new state and event log
  to the step function of `CaptureSpec`.

Inputs are parameters. The model never computes them:

- `WiFi.status()` is read twice per capture pass, at the top of the pass
  and again inside `sendImageToFlutter`, so it is two inputs.
- `WiFi.gatewayIP()`, the camera's frame or no frame, the text returned by
  `base64::encode`, and the response codes of the handshake and upload
  POSTs are inputs.
- `millis()` is read twice in `loop()`, once at the test and once when the
  time is recorded, so it is two inputs.

Each pass of either loop is one atomic step.

Three behaviours of the code are worth stating plainly:

- `rediscoverServer` resets `consecutiveHttpErrors` only when the new
  discovery is confirmed (main.cpp:212-217). So while the server is
  unreachable, every further failed upload rediscovers again, with its
  handshake, on each pass
  (`CaptureProps.UnconfirmedRediscoveryRepeats`).
- An upload or a handshake succeeds exactly when the response code is
  `> 0` (main.cpp:180, 338); zero and negative codes are failures.
- The foreground `discover` command runs `rediscoverServer`, so `loop()`
  can change the endpoint, `serverDiscovered` and the counter
  (main.cpp:98-101).

## Model

| member | source | states |
|---|---|---|
| `CaptureSpec.DiscoverStep` | ESP32-CAM/src/main.cpp:145-201 | the endpoint becomes the gateway's dotted address at port 8080 whatever the handshake gives; `serverDiscovered` and the result are both true iff the handshake code is > 0; one handshake POST to the gateway's `/handshake`; nothing else changes |
| `CaptureProps.HandshakeTargetsGateway` | ESP32-CAM/src/main.cpp:149-166 | the handshake URL names the gateway at port 8080 and no other address or port |
| `CaptureProps.DiscoveryTargetsGateway` | ESP32-CAM/src/main.cpp:324-328 | after discovery the endpoint is usable (non-empty address, positive port), the invariant holds, and the upload URL built from it identifies exactly the gateway and port 8080 |
| `CaptureSpec.RediscoverStep` | ESP32-CAM/src/main.cpp:204-218 | a rediscovery runs one discovery with the same endpoint effect; the counter becomes 0 if the discovery is confirmed and otherwise stays exactly as it was |
| `CaptureProps.UnconfirmedRediscoveryRepeats` | ESP32-CAM/src/main.cpp:212-217 | once the counter is at the threshold and rediscoveries go unconfirmed, n further failed uploads cause n rediscoveries and add n to the counter |
| `CaptureSpec.SendDecision` | ESP32-CAM/src/main.cpp:318-339 | no request and `false` when there is no frame, WiFi is down or the encoding is empty; otherwise exactly one POST to `http://<stored ip>:<stored port>/upload`, and the result is `code > 0` |
| `CaptureSpec.TickStep` | ESP32-CAM/src/main.cpp:348-373 | one pass of the `captureTask` loop: reconnect when WiFi is down; otherwise, with the camera ready and a frame, acquire it, send it, return it, then account for the outcome (no contract of its own: its properties are the lemmas below) |
| `CaptureSpec.OutcomeStep` | ESP32-CAM/src/main.cpp:361-372 | the accounting after the frame is returned: 0 after a success, +1 after a failure and a rediscovery once the counter reaches 5 (no contract of its own: `TickCounter`, `FailedTick` and `TickRediscoversIff` state it) |
| `CaptureProps.DisconnectedTickSkips` | ESP32-CAM/src/main.cpp:349-353 | with WiFi down a pass only asks for reconnection: no frame, no upload, globals unchanged |
| `CaptureProps.TickCounter` | ESP32-CAM/src/main.cpp:355-372 | the counter is unchanged without an upload attempt (camera not ready, no frame), 0 after a success, +1 after a failure unless a confirmed rediscovery at the threshold reset it; the invariant (counter >= 0) is kept |
| `CaptureProps.TickRediscoversIff` | ESP32-CAM/src/main.cpp:368-372 | a pass rediscovers (once) iff its upload failed and the incremented counter is >= 5; the endpoint changes only then |
| `CaptureProps.HandledFrame` | ESP32-CAM/src/main.cpp:356-359 | a frame is acquired, uploaded at most once while held and returned, leaving nothing outstanding |
| `CaptureProps.RediscoveryTouchesNoFrame` | ESP32-CAM/src/main.cpp:204-218 | a rediscovery acquires and returns no frame and runs with no frame held |
| `CaptureProps.TickReturnsFrame` | ESP32-CAM/src/main.cpp:356-359 | every frame acquired in a pass is returned exactly once, after its upload and before any rediscovery, whatever the outcome |
| `CaptureProps.TickBelowThreshold` | ESP32-CAM/src/main.cpp:361-372 | a pass starting below 5 ends below 5 when its rediscovery, if any, is confirmed |
| `CaptureProps.RunBelowThreshold` | ESP32-CAM/src/main.cpp:345-378 | over any interleaving of both loops in which every rediscovery is confirmed, the counter stays below 5 |
| `CaptureProps.RunKeepsInvariant` | ESP32-CAM/src/main.cpp:345-378 | over any interleaving the counter is never negative, the camera flag never changes, and every frame taken is returned exactly once, in order |
| `CaptureProps.FailedTick` | ESP32-CAM/src/main.cpp:361-372 | a failed upload raises the counter by one; at the threshold it causes exactly one rediscovery, which resets the counter when confirmed |
| `CaptureProps.RunStepsFirst` | ESP32-CAM/src/main.cpp:345-378 | a run of passes is its first pass followed by the run of the rest, with the events in that order |
| `CaptureProps.RunFromIsRunSteps` | ESP32-CAM/src/main.cpp:345-378 | executing the passes one at a time from recorded events appends exactly the run's events and reaches the run's state |
| `CaptureProps.ConsecutiveFailures` | ESP32-CAM/src/main.cpp:361-372 | n failed uploads in a row from 0, with confirmed rediscoveries, leave the counter at n mod 5 after n div 5 rediscoveries |
| `CaptureProps.FiveFailuresRediscoverOnce` | ESP32-CAM/src/main.cpp:365-372 | five failed uploads from 0 cause exactly one rediscovery, whatever the handshakes answer; afterwards the counter is 0 if that rediscovery is confirmed and 5 if not |
| `CaptureProps.FailuresBelowThreshold` | ESP32-CAM/src/main.cpp:365-368 | fewer than five failed uploads from 0 leave the counter at their number, with no rediscovery and the camera flag kept |
| `CaptureSpec.WifiCheckStep` | ESP32-CAM/src/main.cpp:441-447 | the timed connectivity check of `loop()` (no contract of its own: `WifiCheckRules` states it) |
| `CaptureSpec.IsDiscoverCommand` | ESP32-CAM/src/main.cpp:64-68 | the line, trimmed and lower-cased, equals `discover` (no contract of its own: `DiscoverCommandAccepted` and `DiscoverCommandOnly` state what it accepts) |
| `CaptureSpec.CommandStep` | ESP32-CAM/src/main.cpp:64-101 | `processSerialCommand()`: the `discover` line rediscovers, any other line or none changes nothing (no contract of its own: `CommandRules` and `CommandSafe` state it) |
| `CaptureSpec.LoopStep` | ESP32-CAM/src/main.cpp:440-453 | one `loop()` pass: the timed check, then the serial command (no contract of its own: `LoopStepSafe` states it) |
| `CaptureSpec.ActivityStep` | ESP32-CAM/src/main.cpp:345-378 | one pass of either loop, a `captureTask` pass or a `loop()` pass (no contract of its own) |
| `CaptureSpec.RunSteps` | ESP32-CAM/src/main.cpp:345-378 | a finite interleaving of passes of both loops (no contract of its own: `RunKeepsInvariant`, `RunBelowThreshold`, `ConsecutiveFailures` and `UnconfirmedRediscoveryRepeats` state its properties) |
| `CaptureSpec.SetupStep` | ESP32-CAM/src/main.cpp:385-406 | `setup()`: camera, WiFi, then the first discovery (no contract of its own: `SetupEstablishes` states it) |
| `CaptureProps.WifiCheckRules` | ESP32-CAM/src/main.cpp:441-447 | the check runs only when the unsigned elapsed time exceeds 30000 ms, reconnects iff it runs and WiFi is down, records the second `millis()` reading whenever it runs, and changes nothing else |
| `CaptureProps.WifiCheckAcrossWrap` | ESP32-CAM/src/main.cpp:442 | the check becomes due exactly when more than 30000 ms have really passed, even across a wrap-around of `millis()` |
| `Net.ElapsedMs` | ESP32-CAM/src/main.cpp:442 | `millis() - lastWiFiCheck` in 32-bit unsigned arithmetic: the plain difference, or the difference plus 2^32 after a wrap |
| `Net.ElapsedAcrossWrap` | ESP32-CAM/src/main.cpp:442 | the unsigned difference equals the true elapsed time whenever less than 2^32 ms passed |
| `CaptureProps.DiscoverCommandAccepted` | ESP32-CAM/src/main.cpp:66-68 | `discover` is recognised whatever white space surrounds it and whatever its letter case |
| `CaptureProps.DiscoverCommandOnly` | ESP32-CAM/src/main.cpp:66-98 | only such lines are recognised: a line runs the command only if, between white space on both sides, it is `discover` in some letter case |
| `CaptureProps.CommandRules` | ESP32-CAM/src/main.cpp:98-101 | the `discover` command runs a rediscovery; any other line, or no line, changes nothing |
| `CaptureProps.LoopStepSafe` | ESP32-CAM/src/main.cpp:440-453 | a `loop()` pass touches no frame and issues no upload; it changes the counter only through a confirmed `discover`; it keeps the invariant |
| `CaptureProps.CommandSafe` | ESP32-CAM/src/main.cpp:98-101 | a serial command touches no frame, leaves the camera flag and the WiFi-check time alone, resets the counter only through a confirmed `discover`, and keeps the invariant |
| `CaptureProps.SetupEstablishes` | ESP32-CAM/src/main.cpp:385-406 | the loops start iff the camera and WiFi came up, and then with camera ready, counter 0 and the gateway endpoint at 8080 |
| `Text.NatToDecimal` | ESP32-CAM/src/main.cpp:166 | decimal text: at least one digit, digits only, no leading zero except for "0" |
| `Text.DecimalRoundTrip` | ESP32-CAM/src/main.cpp:166 | reading the decimal text back gives the number |
| `Text.NatToDecimalInjective` | ESP32-CAM/src/main.cpp:166 | different numbers print differently |
| `Text.IntToDecimal` | ESP32-CAM/src/main.cpp:328 | `String(int)`: non-empty, starts with '-' iff negative, and everything after that sign (or everything, when non-negative) is digits |
| `Text.IntToDecimalValue` | ESP32-CAM/src/main.cpp:328 | the digits after the optional sign read back as the magnitude of the number |
| `Text.IntToDecimalInjective` | ESP32-CAM/src/main.cpp:328 | different ports print differently |
| `Text.SplitAtFirst` | ESP32-CAM/src/main.cpp:328 | text split at the first separator is determined on both sides |
| `Text.TrimStart` | ESP32-CAM/src/main.cpp:67 | leading white space removed: the longest suffix that does not start with white space |
| `Text.TrimEnd` | ESP32-CAM/src/main.cpp:67 | trailing white space removed: the longest prefix that does not end with white space |
| `Text.Trim` | ESP32-CAM/src/main.cpp:67 | `trim()`: no longer than the line, and the result neither starts nor ends with white space |
| `Text.TrimAround` | ESP32-CAM/src/main.cpp:67 | trimming returns exactly the word inside surrounding white space |
| `Text.LowerChar` | ESP32-CAM/src/main.cpp:68 | `tolower`: capitals move to lower case, everything else is unchanged, and no capital remains |
| `Text.ToLower` | ESP32-CAM/src/main.cpp:68 | `toLowerCase()`: same length, `tolower` on every character |
| `Net.IPv4ToString` | ESP32-CAM/src/main.cpp:158 | the dotted text of an address has at least 7 characters, all digits or dots |
| `Net.IPv4ToStringInjective` | ESP32-CAM/src/main.cpp:158 | different gateway addresses give different stored text |
| `Net.Url` | ESP32-CAM/src/main.cpp:165-166 | `"http://" + ip + ":" + String(port) + path` (no contract of its own: `UrlLayout` and `UrlDeterminesEndpoint` state it) |
| `CaptureSpec.HandshakeUrl` | ESP32-CAM/src/main.cpp:165-166 | the handshake URL: the gateway's dotted text, port 8080, `/handshake` (no contract of its own: `HandshakeTargetsGateway` states it) |
| `CaptureSpec.UploadUrl` | ESP32-CAM/src/main.cpp:324-328 | the upload URL: the stored address and port, `/upload` (no contract of its own: `DiscoveryTargetsGateway` states it) |
| `Net.UrlLayout` | ESP32-CAM/src/main.cpp:165-166 | a URL is "http://", the host, ':', the decimal port and the path, in that order |
| `Net.UrlDeterminesEndpoint` | ESP32-CAM/src/main.cpp:328 | a URL built from a host with no ':' determines its host and port |
| `Firmware.Controller.constructor` | ESP32-CAM/src/main.cpp:26-33 | the globals start as "", 0, false, 0, false (lines 26-33) and the `static lastWiFiCheck` of `loop()` at 0 (line 441), with an empty event log |
| `Firmware.Controller.Setup` | ESP32-CAM/src/main.cpp:385-406 | `setup()`: the state and events are those of `SetupStep`; the result is false when `setup()` halts; the invariant holds afterwards |
| `Firmware.Controller.DiscoverServer` | ESP32-CAM/src/main.cpp:145-201 | the result, new globals and logged POST are those of `DiscoverStep`; the invariant is kept |
| `Firmware.Controller.RediscoverServer` | ESP32-CAM/src/main.cpp:204-218 | the new globals and events are those of `RediscoverStep`; the invariant is kept |
| `Firmware.Controller.SendImage` | ESP32-CAM/src/main.cpp:318-339 | changes only the log; its result and logged POST are those of `SendDecision` on the stored endpoint |
| `Firmware.Controller.CaptureTick` | ESP32-CAM/src/main.cpp:348-377 | one pass of the `captureTask` loop: new globals and events are those of `TickStep`; the invariant is kept |
| `Firmware.Controller.RecordOutcome` | ESP32-CAM/src/main.cpp:361-372 | the counter update after the frame is returned: new globals and events are those of `OutcomeStep`; the invariant is kept |
| `Firmware.Controller.CheckWiFi` | ESP32-CAM/src/main.cpp:441-447 | new globals and events are those of `WifiCheckStep`; the invariant is kept |
| `Firmware.Controller.ProcessCommand` | ESP32-CAM/src/main.cpp:64-101 | new globals and events are those of `CommandStep`; the invariant is kept |
| `Firmware.Controller.LoopIteration` | ESP32-CAM/src/main.cpp:440-453 | one `loop()` pass: new globals and events are those of `LoopStep`; the invariant is kept |
| `Firmware.Controller.Pass` | ESP32-CAM/src/main.cpp:345-378 | one pass of either loop: new globals and events are those of `ActivityStep`; the invariant is kept |
| `Firmware.Controller.Run` | ESP32-CAM/src/main.cpp:345-378 | a sequence of passes of both loops ends in the state and events of `RunSteps` and keeps the invariant |

## Left out

- Camera bring-up and sensor tuning (`initCamera`, the pin macros): hardware configuration through `esp_camera_init`. Only its success flag reaches the model, as an input of `Setup`.
- The WiFi association retries (`connectToWiFi`) and the inside of `reconnectWiFi`: platform I/O. Reconnection is a `Reconnect` event, and the next step's WiFi input says whether it worked.
- `HTTPClient` mechanics: `begin`, headers, the 5000 ms timeouts, `end`, and the one `http` object shared by both loops. These are library calls; a POST is an event and its response code is an input.
- The JSON bodies of the handshake (device IP and MAC) and of the upload (image and `millis()` timestamp): formatting done by library code. Only the URLs are modelled.
- The Base64 encoding (`base64::encode`, RFC 4648 section 4): a library function, so its output text is an input. Only its emptiness matters to the code.
- `IPAddress::toString()` belongs to the Arduino core, not to this repository. It is modelled as its dotted-decimal format.
- Serial output, and the `help`, `server`, `info`, `wifi` and `camera` commands and the unknown-command message: they only print. `Serial.available()`/`readStringUntil('\n')` become an optional input line.
- FreeRTOS task creation and the `vTaskDelay`/`delay` pauses (500 ms, 5000 ms, 1000 ms, 100 ms). These are timing only.
- Concurrency: each pass of either loop is atomic, so interleavings inside a pass are not modelled. An example is a `discover` command running in the middle of an upload on the shared HTTP client.
- The `while (1)` halts of `setup()`: `Setup` returns false and nothing runs afterwards.
- `consecutiveHttpErrors` is an unbounded integer. The C `int` could only overflow after more than 2^31 consecutive failures, each of which costs a rediscovery and its handshake timeout.
- The serial line is modelled as a sequence of characters compared as a whole. The Arduino core's `String` holds bytes, and its `toLowerCase()` and `==` stop at an embedded NUL, so a line such as "discover\0x" would run the command on the device; that behaviour belongs to the Arduino core, not to this repository, and is not modelled.
- `startUDPListener` is declared in main.cpp but never defined or called.
