# ESP32-CAM RC: a Dafny model of the control and streaming core

ESP32-CAM RC is a remote-controlled car with three parts:

- the ESP32 firmware (`ESP32/main/main.c`), which streams camera frames over a WebSocket, accepts control frames and runs a Wi-Fi provisioning page;
- an Android app, which finds cars, shows the stream and sends a six-byte control array every 50 ms;
- a Node test server (`server.js`), which stands in for the car on a desktop.

This project models the logic of those parts in Dafny and proves properties of it. It covers the following.

In the firmware:

- **The raw-frame header.** `ws_broadcast_raw_sync` builds the 14-byte "RAWH" header: magic, version 1, format, then width, height and payload length, all little-endian.
- **Frame geometry.** `ws_broadcast_raw_*_from_fb` computes the row bytes, effective height and effective length of a camera buffer. The model keeps the firmware's `uint16_t` and 32-bit `size_t` truncations.
- **RGB565 to GRAY8 conversion.** Each pixel is read most-significant byte first. Its channels are widened by bit replication and weighted 77/150/29.
- **Provisioning form parsing** (`module UrlForm`):
  - `url_decode_inplace`, including what `strtol` accepts after a `%`;
  - `form_get_value`, as a pure function and also as the loop that cuts and mends the body it reads;
  - the page's `URLSearchParams` serializer, which is the decoder's inverse.
- **The control channel** (`module Firmware`):
  - the acceptance rule of `ws_root_handler`;
  - the reset when a station leaves the access point;
  - the station-mode reconnect counter;
  - the camera initialisation retry loop;
  - `frame_interval_ms`.

In the Android app:

- **The WebSocket client.** It is a state machine with a manual-close flag, a fixed 2000 ms reconnect and status notifications (`module WsClient`).
- **The control screen.** It holds the button flags and the steering byte, and runs a 50 ms publisher (`module ControlPanel`).
- **The device list.** It deduplicates by service name (`module DeviceList`).

In the test server (`module TestServer`):

- **Change-only control logging.** This uses `Array.prototype.toString`, which the model writes out exactly.
- **The single-flight screenshot loop.**

`module ControlLink` connects the phone's publisher to the firmware's handler. It shows that the car, as written, never accepts what the phone sends.

Modelling choices:

- **Bytes.** Bytes are integers 0..255. A Kotlin `Byte` is represented by its bit pattern.
- **Events.** Callbacks, timers, promises and socket events are one serialized sequence of events. Each component's reaction is a sequence of outputs, and delays are recorded as numbers.
- **Oracles.** Whether `BitmapFactory` decodes an image, whether `init_camera` succeeds, and whether `ws` hands the listener a `Buffer` are inputs of the model.
- **The header decoder.** The Android client has no parser for the RAWH header: binary messages go to `BitmapFactory`. `RawFrame.DecodeHeader` exists only to state what the encoder's bytes mean.
- **Status notifications.** The client emits a disconnected status on every failure and every closing, repeats included. The model follows that code.

## Model

| member | source | states |
|---|---|---|
| Firmware.HandleRecv | ESP32/main/main.c:717-769 | The control state changes if and only if a non-empty binary frame of exactly the configured length differs from it. It then becomes that frame. A state log line is emitted exactly when the state changes. The session is closed exactly on a header or payload read error. |
| Firmware.LogReadsPastEnd | ESP32/main/main.c:752-760 | With the five-byte `controlState`, every frame the handler accepts that changes the state logs a line that reads an index outside the array. The first UP press after power-up is one such frame. |
| Firmware.CorrectedLogInBounds | ESP32/main/main.c:752-760 | With a six-byte control array, every index any handler log line reads is inside the array, whatever frame arrives. |
| Firmware.StationLeft | ESP32/main/main.c:237-243 | When a station leaves, the control state keeps its length and every byte becomes zero. |
| Firmware.ControlRunOrigin | ESP32/main/main.c:752-760 | After any sequence of frames and station departures, the state has the configured length. It is the starting state, all zeros, or the payload of some binary frame that arrived. |
| Firmware.StaStep | ESP32/main/main.c:248-266 | A connection resets the retry count to 0 and does nothing else. A disconnection reconnects, and counts one more retry, exactly when the count is below `WIFI_STA_MAX_RETRY`. At the limit, the count stays put and failure is signalled exactly when the event group exists. The count never exceeds the limit. |
| Firmware.StaDisconnectRun | ESP32/main/main.c:252-266 | Starting from `count` retries, disconnection `i` of a run reconnects while `count + i < 5` and signals failure after that. The count ends at `min(count + n, 5)`. |
| Firmware.StaConnectResets | ESP32/main/main.c:248-266 | A connection anywhere in a run of events resets the count. The later count and actions are those of a run that starts from zero, whatever came before. |
| Firmware.CamInitBounded | ESP32/main/main.c:928-948 | With a positive retry budget, the loop is ready at the first success within the budget. It gives up after exactly `retriesLeft` failures, and never tries more often than that. |
| Firmware.CamInitNegative | ESP32/main/main.c:928-948 | A negative budget is never decremented, so the loop retries until the camera comes up. |
| Firmware.CamInitZeroNeverTries | ESP32/main/main.c:928-929 | A budget of 0 gives up before the first attempt. |
| Firmware.CamInitDocumentedFacts | ESP32/main/rc_config.h:63-66 | Read as documented: 0 or a negative budget never gives up, and every other setting behaves like the loop. The default of 1 makes exactly one attempt. |
| Firmware.FrameIntervalMeaning | ESP32/main/main.c:48-53 | For a positive rate, the interval is the largest whole number of milliseconds with `interval * fps <= 1000`. For any other rate it is 200. The default `STREAM_FPS` of 5 also gives 200. |
| UrlForm.StrtolPairIsStrtol | ESP32/main/main.c:444-451 | A `%XY` escape is accepted exactly when `strtol` in base 16 (C standard, section 7.22.1.4) consumes both characters. This includes a sign or white space before one digit. The byte written is the value modulo 256. |
| UrlForm.DecodeRestBounds | ESP32/main/main.c:436-456 | Decoding only appends to what was written. A completed decode is never longer than its input. A rejection stops at a `%` whose next two bytes fail the `strtol` test, and leaves that suffix of the input unread. |
| UrlForm.UrlDecodeInPlace | ESP32/main/main.c:430-459 | The buffer never grows. After a failure, no terminator is written and the buffer keeps its full length. |
| UrlForm.UrlDecodeBuffer | ESP32/main/main.c:430-459 | The in-place loop, which reads the buffer it writes, returns exactly what `UrlDecodeInPlace` specifies. |
| UrlForm.FormEncode | ESP32/main/main.c:532 | The page's serializer output is 1 to 3 times the input length, and contains no `&`, `=` or NUL. |
| UrlForm.DecodeFormEncode | ESP32/main/main.c:436-456 | Decoding a serialized string reproduces the original bytes after whatever was already written. |
| UrlForm.FormRoundTrip | ESP32/main/main.c:430-459 | `url_decode_inplace` succeeds on every serialized string and restores it exactly. |
| UrlForm.JoinSegments | ESP32/main/main.c:469-496 | Splitting a body at `&` and joining the parts gives back the body. |
| UrlForm.SegmentsJoin | ESP32/main/main.c:469-496 | Joining `&`-free segments and splitting them again gives back the segments. |
| UrlForm.LookupCons | ESP32/main/main.c:469-496 | The first segment decides the lookup when its key is exactly `key`. Otherwise it is skipped, whether or not it has an `=`. |
| UrlForm.FormGetValue | ESP32/main/main.c:461-498 | The body is read as a C string, up to its first NUL. The result is true exactly when `out_len > 0` and some pair in that string has the key. `out` is written exactly when `out_len > 0`, and it is `""` when nothing matches. A found value is shorter than `out_len`. |
| UrlForm.SplitPair | ESP32/main/main.c:474-491 | Cutting a NUL-free segment at its `=`, comparing the key and restoring the `=` yields the value of that pair and leaves the buffer as it was. |
| UrlForm.ScanSegment | ESP32/main/main.c:471-495 | One pass finds the next `&` before the body's first NUL, reads that segment's pair and leaves the buffer as it was. |
| UrlForm.ScanBody | ESP32/main/main.c:467-497 | For any received body, NULs included, the cut-and-mend loop finds the raw value of the first pair with the key before the first NUL. It leaves the body byte for byte unchanged. |
| UrlForm.FormGetValueInPlace | ESP32/main/main.c:461-498 | For any received body, on every path the body is unchanged afterwards, and the result and `out` are those of `FormGetValue`. |
| UrlForm.RawNulEndsBody | ESP32/main/main.c:467-492 | In the received body `x=`, NUL, `&ssid=b`, the raw bytes hold an `ssid` pair, but `form_get_value` stops at the NUL and reports nothing found with an empty `out`. |
| UrlForm.LookupSaveBody | ESP32/main/main.c:532 | In a body built by the page, `ssid` and `pass` are both found, each with its serialized value. |
| UrlForm.SaveBodyWhole | ESP32/main/main.c:532 | A body built by the page holds no NUL, so `form_get_value` reads all of it. |
| UrlForm.ProvisioningRoundTrip | ESP32/main/main.c:638-644 | A value whose serialized form fits its buffer (33 bytes for `ssid`, 65 for `pass`) arrives in the buffer exactly as typed. The handler reads it as a C string, and that string is the typed value exactly when the value holds no NUL. |
| UrlForm.EmbeddedNulCutsPassphrase | ESP32/main/main.c:638-649 | A passphrase typed as `a`, NUL, `b` arrives whole in the buffer. The handler then uses it as the one-letter passphrase `a`. |
| UrlForm.TruncatedBeforeDecoding | ESP32/main/main.c:482-484 | A 32-byte SSID of 31 `a` and a `!` is read back as 31 `a` and a `%`. |
| UrlForm.FormGetValueDecodeFirst | ESP32/main/main.c:482-484 | Decoding before cutting keeps the contract of `form_get_value`: when it reports found, when it writes `out`, and that the value is shorter than `out_len`. |
| UrlForm.DecodeFirstRoundTrip | ESP32/main/main.c:638-644 | Decoding first, every SSID up to 32 bytes and every passphrase up to 64 bytes arrives in the buffer exactly. It is used whole exactly when it holds no NUL. Where the raw value fits, both readings agree. |
| RawFrame.Le32RoundTrip | ESP32/main/main.c:839-842 | The four little-endian bytes of a 32-bit length read back as that length. |
| RawFrame.Le32Inverse | ESP32/main/main.c:839-842 | Any four bytes are the little-endian encoding of the number they denote. |
| RawFrame.EncodeHeader | ESP32/main/main.c:827-843 | The header has 14 bytes. Bytes 6-7, 8-9 and 10-13 read back as width, height and payload length. |
| RawFrame.DecodeEncodeHeader | ESP32/main/main.c:827-843 | Decoding an encoded header recovers format, width, height and length exactly. |
| RawFrame.EncodeDecodeHeader | ESP32/main/main.c:827-843 | Every decodable 14-byte message is the encoding of what it decodes to. |
| RawFrame.BroadcastRaw | ESP32/main/main.c:821-846 | Nothing is sent exactly when the payload is empty or a dimension is 0. Otherwise two messages are sent: a header describing `(format, width, height, len)`, then the payload itself. |
| RawFrame.FrameGeometry | ESP32/main/main.c:855-861 | The effective length never exceeds the buffer, and it is 0 when the row size is 0. |
| RawFrame.RowsFit | ESP32/main/main.c:857-859 | The truncated row count times the row size fits in the buffer, so the `size_t` product never wraps. Below 65536 rows, nothing is truncated. |
| RawFrame.OrdinaryGeometry | ESP32/main/main.c:855-861 | For an ordinary frame, the effective height is the number of whole rows in the buffer (at least one), and less than a row is left over. |
| RawFrame.ShortFrameGeometry | ESP32/main/main.c:855-861 | A buffer shorter than one row has effective height 0. |
| RawFrame.RawRgb565Skips | ESP32/main/main.c:848-864 | Nothing is sent for a buffer that is not RGB565, or that is shorter than one row. |
| RawFrame.RawRgb565Ordinary | ESP32/main/main.c:848-864 | For an ordinary frame, the header says RGB565, the frame width, and as many rows as fit. The payload is exactly `2 * width * height` bytes from the start of the buffer. |
| RawFrame.Expand5 | ESP32/main/main.c:893 | Widening a 5-bit channel puts the channel in the top five bits of the byte and repeats its top three bits in the low three. |
| RawFrame.Expand6 | ESP32/main/main.c:894 | Widening a 6-bit channel puts the channel in the top six bits of the byte and repeats its top two bits in the low two. |
| RawFrame.ExpandExtremes | ESP32/main/main.c:893-895 | Channel 0 widens to 0, and the channel maxima widen to 255. |
| RawFrame.Expand5Monotone | ESP32/main/main.c:893 | Widening preserves the order of channel values. |
| RawFrame.LumaNoWrap | ESP32/main/main.c:896 | `77 r + 150 g + 29 b` is at most 0xFF00, so the `uint16_t` never wraps. |
| RawFrame.LumaOfGray | ESP32/main/main.c:896-897 | The weights add up to 256, so three equal channels keep their level after `>> 8`. |
| RawFrame.GrayExtremes | ESP32/main/main.c:889-897 | Pixel 0x0000 becomes gray 0, and 0xFFFF becomes 255. |
| RawFrame.GrayPlane | ESP32/main/main.c:887-898 | The loop writes the gray level of bytes `2p, 2p+1` to pixel `p` while `2p+1` is within the effective length. Other pixels keep what the allocator left. |
| RawFrame.RawGray8FromFb | ESP32/main/main.c:866-902 | Nothing is sent for a non-RGB565 or short buffer, or when the gray plane cannot be allocated. Otherwise an ordinary frame sends a GRAY8 header with the width and the whole-row height, then `width * height` bytes, each the gray level of its pixel. |
| WsClient.DoConnect | app/src/main/java/com/example/myapplication/WebSocketClient.kt:28-33 | `connect` records the URL, clears the manual-close flag, dials it, and leaves posted reconnects alone. |
| WsClient.AttemptReconnect | app/src/main/java/com/example/myapplication/WebSocketClient.kt:57-60 | After a manual close, nothing happens. Otherwise exactly one reconnect is posted, with the 2000 ms delay. |
| WsClient.Step | app/src/main/java/com/example/myapplication/WebSocketClient.kt:28-72 | `connect` behaves as `DoConnect`. `onOpen` reports connected, and a text message is passed on as telemetry. A failure or closing reports disconnected, then does what `attemptReconnect` does. A reconnect is scheduled exactly when the close was not manual; after a manual close only the disconnected report is emitted. A due reconnect with a stored URL dials that same URL and uses up one posted callback; with nothing posted it does nothing. `send` with no socket sends nothing. An image is delivered only when it decodes. `disconnect` sends close code 1000 when there is a socket, and leaves no socket and nothing posted. |
| WsClient.FailureRedials | app/src/main/java/com/example/myapplication/WebSocketClient.kt:45-60 | After `connect(u)`, a failure posts one 2000 ms reconnect. When the handler runs it, the client dials `u` again, from any starting state. |
| WsClient.StepKeepsQuiescent | app/src/main/java/com/example/myapplication/WebSocketClient.kt:57-72 | No event leaves a reconnect posted after a manual close. |
| WsClient.ClosedStep | app/src/main/java/com/example/myapplication/WebSocketClient.kt:67-72 | A client closed by hand stays closed under any event but `connect`, and neither dials, sends nor schedules. |
| WsClient.NoReconnectAfterDisconnect | app/src/main/java/com/example/myapplication/WebSocketClient.kt:67-72 | After `disconnect`, and until the next `connect`, nothing is dialled, sent or scheduled, whatever the old socket reports. |
| WsClient.DisconnectCloses | app/src/main/java/com/example/myapplication/WebSocketClient.kt:67-72 | `disconnect` reaches the closed state from any state. |
| WsClient.NoBackoff | app/src/main/java/com/example/myapplication/WebSocketClient.kt:57-60 | Every reconnect in any run is scheduled with the same 2000 ms delay. |
| WsClient.PendingCountsSchedules | app/src/main/java/com/example/myapplication/WebSocketClient.kt:45-60 | Without a disconnect, the posted reconnects equal those scheduled minus those the handler ran. |
| ControlPanel.ButtonIndex | app/src/main/java/com/example/myapplication/SecondFragment.kt:93-97 | Every button's index is below the steering index 5. |
| ControlPanel.ButtonIndexInjective | app/src/main/java/com/example/myapplication/SecondFragment.kt:93-97 | Distinct buttons own distinct bytes. |
| ControlPanel.Touch | app/src/main/java/com/example/myapplication/SecondFragment.kt:103-117 | Down sets the button's byte to 1. Up and cancel set it to 0. Any other action changes nothing, and no other byte ever changes. |
| ControlPanel.ToByte | app/src/main/java/com/example/myapplication/SecondFragment.kt:80 | `toByte` keeps a progress in 0..255 and otherwise wraps it modulo 256. |
| ControlPanel.ProgressChanged | app/src/main/java/com/example/myapplication/SecondFragment.kt:79-81 | A bar movement writes the steering byte only. |
| ControlPanel.StopTracking | app/src/main/java/com/example/myapplication/SecondFragment.kt:85-89 | Releasing the bar snaps the steering byte to 5 and leaves the flags alone. |
| ControlPanel.Step | app/src/main/java/com/example/myapplication/SecondFragment.kt:45-125 | Every event keeps the array six bytes long, with each button flag 0 or 1. |
| ControlPanel.FreshPanel | app/src/main/java/com/example/myapplication/SecondFragment.kt:25 | The initial array is six bytes, all 0 except the steering byte, which is 5. |
| ControlPanel.TickSendsArray | app/src/main/java/com/example/myapplication/SecondFragment.kt:28-33 | One tick with a live socket sends the whole current array once, re-arms after 50 ms, and changes nothing. |
| ControlPanel.TicksSendRepeatedly | app/src/main/java/com/example/myapplication/SecondFragment.kt:28-33 | `k` ticks send the same array `k` times, each followed by a re-arm. |
| ControlPanel.DestroyViewStops | app/src/main/java/com/example/myapplication/SecondFragment.kt:119-125 | `onDestroyView` stops the publisher and closes the client, from any state. |
| ControlPanel.NothingAfterDestroy | app/src/main/java/com/example/myapplication/SecondFragment.kt:119-125 | After the view is destroyed, and until it is created again, no tick fires and nothing is sent, dialled or scheduled. This holds whatever the buttons, the bar or the old socket do. |
| ControlPanel.StepTransmits | app/src/main/java/com/example/myapplication/SecondFragment.kt:28-33 | A step transmits nothing but the current array. |
| ControlPanel.TransmitsAreControlArrays | app/src/main/java/com/example/myapplication/SecondFragment.kt:25-33 | Everything the screen ever transmits is six bytes, with each button flag 0 or 1. |
| DeviceList.NoneNamed | app/src/main/java/com/example/myapplication/DeviceAdapter.kt:16 | The scan returns true exactly when no listed entry has the name. |
| DeviceList.AddDevice | app/src/main/java/com/example/myapplication/DeviceAdapter.kt:15-20 | A listed name leaves the list as it was. A new name is appended at the end. |
| DeviceList.AddKeepsUnique | app/src/main/java/com/example/myapplication/DeviceAdapter.kt:15-20 | Adding keeps service names unique. |
| DeviceList.AddFacts | app/src/main/java/com/example/myapplication/DeviceAdapter.kt:15-20 | Afterwards the name is listed and earlier entries keep their places. The count grows by one exactly when the name was new. |
| DeviceList.AddIdempotent | app/src/main/java/com/example/myapplication/DeviceAdapter.kt:16 | Adding a service whose name is already there, including the same service again, changes nothing. |
| DeviceList.AddAllFacts | app/src/main/java/com/example/myapplication/DeviceAdapter.kt:15-20 | After any sequence of additions, names are unique and the old entries stay in front, in order. Every added name is listed. |
| DeviceList.ClearEmpties | app/src/main/java/com/example/myapplication/DeviceAdapter.kt:22-25 | After `clear` the item count is 0, and the next addition gives a one-entry list. |
| TestServer.ParseDecimalOf | app/ESP32_TEST_SERVER/server.js:18 | Each element's decimal text reads back as the element. |
| TestServer.ToStr | app/ESP32_TEST_SERVER/server.js:18 | `toString` of an array is empty exactly when the array is. |
| TestServer.ToStrInjective | app/ESP32_TEST_SERVER/server.js:18 | Two byte arrays print the same exactly when they are equal. |
| TestServer.OnMessageChangeOnly | app/ESP32_TEST_SERVER/server.js:14-26 | A buffer is logged exactly when it differs from the current controls, and it becomes the controls. Text is logged and never touches the controls. |
| TestServer.RepeatsLoggedOnce | app/ESP32_TEST_SERVER/server.js:16-22 | A frame sent `k` times is logged at most once. It is logged exactly when it differs from the controls and `k > 0`. |
| TestServer.SendScreen | app/ESP32_TEST_SERVER/server.js:29-42 | `sendScreen` starts a capture exactly when the socket is open and nothing is in flight. Otherwise it does nothing. |
| TestServer.Connected | app/ESP32_TEST_SERVER/server.js:43 | A new connection starts exactly one capture, with no timer pending. |
| TestServer.StepSchedules | app/ESP32_TEST_SERVER/server.js:32-40 | A finished send sets exactly one timer of 200 ms. A failed capture sets exactly one of 1000 ms. Both clear `isSending`, and a successful capture moves on to the send. |
| TestServer.StepSingleFlight | app/ESP32_TEST_SERVER/server.js:29-42 | Each event keeps the chain single. A capture starts only from the one pending timer, on an open socket. |
| TestServer.RunSingleFlight | app/ESP32_TEST_SERVER/server.js:29-42 | From a single chain, any sequence of events keeps it single. |
| TestServer.ConnectedSingle | app/ESP32_TEST_SERVER/server.js:43 | The chain starts single. |
| TestServer.ClosedLoopStops | app/ESP32_TEST_SERVER/server.js:29-42 | Once the socket is closed, no capture starts again. At most one more timer is set: the one that ends a capture or send already in flight. |
| ControlLink.AsWrittenCarIgnoresPhone | ESP32/main/main.c:752-760 | Every array the control screen transmits, in any run, leaves the five-byte control state of the car unchanged. |
| ControlLink.CorrectedCarFollowsPhone | ESP32/main/main.c:752-760 | With a control length of 6, every transmitted array becomes the car's control state. |
| ControlLink.HoldUpOnce | app/src/main/java/com/example/myapplication/SecondFragment.kt:28-33 | Opening the screen, holding UP and one tick transmits `[1, 0, 0, 0, 0, 5]`. The car as written stays stopped; the corrected car takes the array. |

## Left out

- Wi-Fi, NVS, mDNS and HTTP-server plumbing: `app_main`, `wifi_*`, `nvs_*`, `start_*_server`, `schedule_restart_ms`, `ws_broadcast_binary_sync` and `ws_has_clients`. They are ESP-IDF I/O. A broadcast is modelled as the list of messages it hands to the clients.
- The camera driver, the JPEG path (`fmt2jpg`) and the streaming loop of `camera_stream_task` after initialisation. They are driver calls and timing. Only the initialisation retry loop is modelled, with `init_camera`'s outcomes as input.
- The rest of `provision_save_handler`: the content-length check, the receive loop, the NVS save and the restart. Only its two `form_get_value` calls and buffer sizes are modelled.
- The HTML of `provision_index_handler`, except its `URLSearchParams` serializer. The `/api/scan` JSON builder and `log_wifi_password` are logging and `snprintf` arithmetic.
- The return codes of `ws_root_handler`. The model keeps its effect on the control state, the session and the log. Ping, pong and close frames are one "other" frame type.
- `UrlForm.Strtol16`: overflow of `long` is not modelled. The decoder only ever parses two characters.
- `BitmapFactory`, OkHttp timeouts and pings, Android `Handler` timing, `screenshot-desktop` and the `ws` library. They are oracles or events. Time is not modelled; only the delays requested are recorded.
- `TestServer.OnMessage`: whether `ws` delivers a message as a `Buffer` depends on the library version. Newer versions deliver text frames as `Buffer`s too. The model takes `Buffer.isBuffer(data)` as an input.
- `WebSocketClient.send(String)`: no modelled screen uses it.
- The UI: status text, image view and keep-screen-on flag. They appear only as the client's `Status`, `Telemetry` and `Image` outputs.
- Concurrency between OkHttp's threads and the main thread. All callbacks are one serialized sequence of events.
- ControlPanel.Step: callbacks from an earlier view's socket are delivered to the current client. In the app they reach the old client instance. This over-approximation keeps every all-runs property sound but does not model which instance handles a late callback.
- `MainActivity.kt`, `FirstFragment.kt`, `MdnsHelper.kt`, `TcpClient.kt` and `DeviceAdapter`'s view binding. They are UI, navigation, service discovery and an unused socket client.
- RawFrame.RawRgb565Ordinary: the message contents are stated for ordinary frames only. An ordinary frame is RGB565, narrower than 32768 pixels, and holds at least one and fewer than 65536 rows. `FrameGeometry` models the `uint16_t` truncation of taller buffers, but no lemma describes what is sent for them.
- RawFrame.RawGray8FromFb: the same restriction to ordinary frames applies to its third postcondition.
- RawFrame.GrayOf: the gray level has no separate integer-arithmetic reference. Its properties are the channel widening, the no-wrap bound, equal channels and the black and white extremes.

## Findings

| source | as written | input that shows it | evidently intended | confidence | as-written member | corrected member |
|---|---|---|---|---|---|---|
| ESP32/main/rc_config.h:56 | `RC_CONTROL_LEN` is 5, and `ws_root_handler` accepts only binary frames of exactly that length (main.c:752). | The phone's publisher sends the six bytes `[1, 0, 0, 0, 0, 5]` after UP is pressed (SecondFragment.kt:25-33). | Control frames of six bytes, as the phone sends and the log line reads. | high, not executed | ControlLink.AsWrittenCarIgnoresPhone | ControlLink.CorrectedCarFollowsPhone |
| ESP32/main/main.c:757-758 | The state log reads `controlState[5]` of a five-byte array. | Any accepted control frame that differs from the state, such as `[1, 0, 0, 0, 0]` on an all-zero state. | Log only indices that exist, which a six-byte array provides. | high, not executed | Firmware.LogReadsPastEnd | Firmware.CorrectedLogInBounds |
| ESP32/main/main.c:928-948 | The loop condition `retries_left != 0` means a configured 0 never enters the loop, although rc_config.h:64 documents 0 as "retry forever". | `CAM_INIT_MAX_RETRIES` = 0: no attempt is made and the task stops. | Keep trying until the camera comes up. | high, not executed | Firmware.CamInitZeroNeverTries | Firmware.CamInitDocumentedFacts |
| ESP32/main/main.c:482-484 | The raw value is cut to `out_len - 1` bytes before it is percent-decoded. | The SSID of 31 `a` and a `!` (32 bytes, the largest legal SSID) is posted as 31 `a` then `%21`. It is read back as 31 `a` then `%`. | Decode first, then cut to the buffer. Every SSID of up to 32 bytes then comes back. | medium, not executed | UrlForm.TruncatedBeforeDecoding | UrlForm.DecodeFirstRoundTrip |
