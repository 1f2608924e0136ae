# Device-Tracking: a Dafny model

This project models the core of the AWS IoT EduKit "Device Tracking" demo
for the Core2 board. The application samples GPS points on a fixed period.
It buffers them in a bounded FreeRTOS queue and publishes each one as an
MQTT message on the topic `<client id>/location`. Its screen has a header
line, an output text area kept under 1024 characters, three buttons with a
callback table, and a Wi-Fi status label.

Modules, one per concern:

- `Config` (config.dfy): the `uint32_t` constants of `main.h` and the
  queue-depth formula of `app_main`. The C arithmetic is written out modulo
  2^32.
- `GpsQueue` (gps_queue.dfy): the point queue as a class (`PointQueue`)
  with the three FreeRTOS operations the tasks use. Pure functions
  `AfterSend` and `AfterReceive` give their effect on the contents.
- `Tracker` (tracker.dfy): topic and payload construction and the publish
  parameters. The MQTT client is the log of calls made on it
  (`MqttClient`). Also here: queue creation and one iteration of each
  task's loop. The two tasks running together are an interleaving of loop
  iterations (`Action`s), each atomic. `Replay` gives the resulting run,
  and `RunTasks` shows that the methods produce exactly that run.
- `Ui` (ui.dfy): the LVGL text area as its text and cursor. Also here:
  `ui_txt_prune`, `ui_txt_set` and `ui_txt_add` as methods on it, the
  button table with `btn_cb`'s dispatch loop, and the label rules of
  `ui_btn_txt_set` and `ui_wifi_label_update`. `ui_hdr_txt_set` and
  `ui_out_txt_add` are `SetFormatted` on the header area and `AddFormatted`
  on the output area.
- `CFormat` (cformat.dfy): the C library behaviour the core depends on.
  `Format` is `sprintf` with `%s`, `%d` and `%%`. The format ends at its
  first NUL, and `%s` copies its argument up to the first NUL (`CString`).
  `Decimal` is `%d`'s rendering of an integer. `CStrLen` is `strlen`.
- `Wrappers` (wrappers.dfy): `Option`, used for NULL pointers and for a
  peek that times out.

Text is `seq<char>` with one element per C `char`. The one exception is
`LV_SYMBOL_WIFI`, which is the single code point U+F1EB. A `const char*`
argument is any sequence; every operation reads it as C does, up to its
first NUL (`CString`). Text areas and labels therefore only ever hold
NUL-free text.

The GPS point is a placeholder: `struct GpsPoint` holds one integer,
which the producer sets to 7 (main.c:53-56, 99). The payload is therefore
the text `Hello from AWS IoT EduKit  (7)`. The producer has no pause flag
and no modes.

## Model

| member | source | states |
|---|---|---|
| Config.DurationInMs | Device-Tracking/main/main.h:33 | minutes × 60 × 1000 computed in `uint32_t` equals the exact product whenever that product fits in 32 bits |
| Config.CeilQuotient | Device-Tracking/main/main.c:236 | over the naturals, (d + p − 1) / p is the smallest count of periods p that covers d |
| Config.RoundsUpWithoutWrap | Device-Tracking/main/main.c:236 | when d + p − 1 does not wrap, the `uint32_t` expression is the ceiling of d / p and is positive exactly when d is |
| Config.QueueLength | Device-Tracking/main/main.c:236 | the queue depth formula, for any duration and any positive period: if the sum does not wrap, it is the ceiling quotient and is positive iff the duration is positive |
| Config.ConfiguredQueueLength | Device-Tracking/main/main.h:27-33 | the period 10000 is positive; the buffer is 600000 ms; duration + period − 1 fits in 32 bits; the depth is exactly 60, and 60 periods cover the buffer exactly |
| GpsQueue.SendIsBoundedFifo | Device-Tracking/main/main.c:103-107 | sending keeps the occupancy ≤ depth and leaves every queued point in place; the point is appended at the back iff there was room, and otherwise the queue is unchanged (the newest point is dropped) |
| GpsQueue.ReceiveIsFifo | Device-Tracking/main/main.c:172 | receiving removes exactly the oldest point and keeps the rest in order |
| GpsQueue.PointQueue.constructor | Device-Tracking/main/main.c:240 | the queue is created empty with the given positive depth, which never changes afterwards (`const`) |
| GpsQueue.PointQueue.SendToBack | Device-Tracking/main/main.c:103-107 | returns success iff the queue had room; the new contents are `AfterSend` of the old |
| GpsQueue.PointQueue.Peek | Device-Tracking/main/main.c:163 | returns the oldest point and changes nothing, so two peeks with no removal between them return the same point; returns None (a timed-out wait) iff the queue is empty |
| GpsQueue.PointQueue.Receive | Device-Tracking/main/main.c:172 | removes and returns the oldest point; on an empty queue it returns None and changes nothing |
| CFormat.Decimal | Device-Tracking/main/main.c:119 | `%d` writes at least one character; it starts with '-' iff the number is negative, and never has a leading zero, neither at the start nor after the '-' |
| CFormat.Format | Device-Tracking/main/ui.c:149 | what `sprintf` writes before its terminating NUL (here, and at main.c:119 and 221 and ui.c:172 and 204) never holds a NUL, so `strlen` of the buffer is the length of the text |
| CFormat.CStrLen | Device-Tracking/main/ui.c:129 | `strlen` is at most the length of the sequence; `CStrLenIsFirstNul` states where it stops |
| CFormat.DecimalRoundTrip | Device-Tracking/main/main.c:119 | the `%d` rendering of any integer parses back to that integer |
| CFormat.CStrLenIsFirstNul | Device-Tracking/main/main.c:126 | `strlen` is the index of the first NUL: every character before it is not NUL, and it is at a NUL or at the end |
| CFormat.CString | Device-Tracking/main/main.c:221 | what `%s` copies from its argument: a NUL-free prefix as long as the argument's `strlen`, which is the whole argument when it has no NUL |
| CFormat.DecimalOfInt32 | Device-Tracking/main/main.c:119 | `%d` of a 32-bit `int` is at most 11 characters |
| Tracker.Topic | Device-Tracking/main/main.c:221 | the topic is the client id, up to its first NUL, followed by "/location" (the whole id when it has no NUL); the topic's `strlen` is its length; it fits `MQTT_TOPIC_NAME_LEN` with its NUL whenever the id's `strlen` is below `CLIENT_ID_LEN` |
| Tracker.TopicText | Device-Tracking/main/main.c:221 | `sprintf` with "%s/location" writes the id, up to its first NUL, followed by "/location" |
| Tracker.TopicIsNulFree | Device-Tracking/main/main.c:129 | the `strlen` of the topic passed to publish is the topic's full length |
| Tracker.TopicRoundTrip | Device-Tracking/main/main.c:221 | the client id, up to its first NUL, can be read back from its topic |
| Tracker.TopicInjective | Device-Tracking/main/main.c:221 | two NUL-free client ids get the same topic iff they are equal |
| Tracker.Payload | Device-Tracking/main/main.c:119 | the payload is "Hello from AWS IoT EduKit ", then " (", then the decimal point value, then ")" |
| Tracker.NumberText | Device-Tracking/main/main.c:119 | the " (%d)" part of the format renders as " (" + decimal + ")" |
| Tracker.PayloadTextWith | Device-Tracking/main/main.c:119 | `"%s (%d)"` with any NUL-free text and a number writes text + " (" + decimal + ")" |
| Tracker.PayloadText | Device-Tracking/main/main.c:119 | `sprintf(cPayload, "%s (%d)", greeting, tbd)` writes greeting + " (" + decimal + ")" |
| Tracker.PayloadRoundTrip | Device-Tracking/main/main.c:119 | the point value can be read back from the payload |
| Tracker.PayloadInjective | Device-Tracking/main/main.c:119 | two points have the same payload iff they are the same point |
| Tracker.PayloadIsNulFree | Device-Tracking/main/main.c:126 | the payload has no NUL, so `strlen` measures all of it |
| Tracker.PayloadFitsBuffer | Device-Tracking/main/main.c:117-119 | for any 32-bit `tbd`, the payload and its NUL fit the 100-byte `cPayload` buffer |
| Tracker.MqttClient.constructor | Device-Tracking/main/main.c:141 | a new client has made no calls |
| Tracker.MqttClient.Publish | Device-Tracking/main/main.c:129 | logs one publish of the topic, the topic's `strlen` and the parameters, with the given outcome, and returns that outcome |
| Tracker.MqttClient.Yield | Device-Tracking/main/main.c:181 | logs one yield with the given timeout |
| Tracker.MessageFor | Device-Tracking/main/main.c:121-126 | publish parameters are QoS 0 and not retained; they carry the payload text, with a length equal to the whole payload |
| Tracker.PublishOne | Device-Tracking/main/main.c:116-136 | makes exactly one publish call, on the given topic, with `MessageFor` of the point, and returns its outcome |
| Tracker.CreateQueue | Device-Tracking/main/main.c:236-240 | start-up creates an empty queue of depth 60 from the configured constants |
| Tracker.ProduceIteration | Device-Tracking/main/main.c:98-107 | one producer iteration sends point 7 without waiting; it is queued iff there was room; the queue keeps its bound |
| Tracker.UploadCalls | Device-Tracking/main/main.c:163-181 | every uploader iteration ends with a yield of 100 ms, whether or not a point was peeked or published |
| Tracker.UploadIteration | Device-Tracking/main/main.c:160-186 | peeks; publishes the head if there is one; removes the head only on a successful publish; always yields; the queue keeps its bound |
| Tracker.UploadCallsEffect | Device-Tracking/main/main.c:163-181 | the publishes of one uploader iteration that reported SUCCESS carry at most the head's payload (exactly that when the queue was non-empty and the publish succeeded); the iteration yields exactly once |
| Tracker.ProduceKeepsConsistent | Device-Tracking/main/main.c:103-107 | a producer iteration keeps the run consistent and makes no client call; the point is added to the accepted points when the queue had room and to the dropped points otherwise |
| Tracker.UploadKeepsOrder | Device-Tracking/main/main.c:163-177 | delivered then queued points stay the same sequence across an uploader iteration: a point is delivered only from the head |
| Tracker.UploadPublishesDelivered | Device-Tracking/main/main.c:163-181 | after an uploader iteration the payloads of the publishes that reported SUCCESS are still exactly those of the delivered points, and one more yield has been made |
| Tracker.UploadKeepsConsistent | Device-Tracking/main/main.c:160-186 | an uploader iteration keeps the run consistent, adds one yield, and accepts or drops nothing |
| Tracker.ReplayIsConsistent | Device-Tracking/main/main.c:94-186 | in every interleaving of the two loops: occupancy ≤ depth; delivered + queued = accepted, in enqueue order (nothing skipped, duplicated or reordered); the publishes that reported SUCCESS carried exactly the delivered points' payloads, in order; one yield per uploader iteration; as many points are accepted or dropped as were produced |
| Tracker.ReplaySplitsProduced | Device-Tracking/main/main.c:98-107 | in every interleaving, the accepted and the dropped points together are exactly the produced points, each produced point in one of the two |
| Tracker.RunTasks | Device-Tracking/main/main.c:94-186 | running the two loop bodies on a new queue and client, in any interleaving, leaves exactly the queue and call log that `Replay` describes |
| Tracker.RetryAfterFailedPublish | Device-Tracking/main/main.c:163-177 | a failed publish leaves the queue and deliveries unchanged; the next successful iteration publishes the same point, then removes it and delivers it once |
| Tracker.FillThenDrop | Device-Tracking/main/main.c:103-107 | with no uploads, the queue and the accepted points are the first `depth` points produced; every later point is dropped; nothing is published |
| Tracker.SixtyFirstPointDropped | Device-Tracking/main/main.c:103-107 | at the configured depth of 60, sixty points fill the queue and the sixty-first is dropped |
| Ui.PrunedIsSuffix | Device-Tracking/main/ui.c:131-136 | pruning is a no-op when current + new length < 1024; otherwise it removes min(new length, current length) characters from the front and keeps an unchanged suffix |
| Ui.AppendStaysUnderLimit | Device-Tracking/main/ui.c:173-178 | from a text under 1024 characters, pruning for a chunk under 1024 and appending it gives a text still under 1024 that ends with the whole chunk |
| Ui.ChosenText | Device-Tracking/main/ui.c:145-153 | the text written by `ui_txt_set` and `ui_txt_add` never holds a NUL, whatever the base text and parameter |
| Ui.ChosenTextVerbatim | Device-Tracking/main/ui.c:152-153 | with a NULL parameter or zero parameter length, the base text is used verbatim up to its first NUL: its `strlen` characters, which is all of it when it has no NUL |
| Ui.FormattedFitsBuffer | Device-Tracking/main/ui.c:146-149 | for a base text with one `%s` and a parameter whose `strlen` is at most `paramLen`, the formatted text and its NUL fit the `strlen(baseTxt) + paramLen` buffer |
| Ui.ClientIdMessage | Device-Tracking/main/main.c:202 | the client-id message shows the id, up to its first NUL, between ">> " and " <<" on its own line |
| Ui.TextArea.constructor | Device-Tracking/main/ui.c:265-271 | a text area starts empty with the cursor at 0 |
| Ui.TextArea.SetText | Device-Tracking/main/ui.c:150 | the text is replaced by the argument up to its first NUL, and the cursor goes to its end |
| Ui.TextArea.AddText | Device-Tracking/main/ui.c:174 | the argument, up to its first NUL, is inserted at the cursor and the cursor moves past it; the text stays NUL-free |
| Ui.TextArea.SetCursorPos | Device-Tracking/main/ui.c:133 | the text is unchanged; `LV_TEXTAREA_CURSOR_LAST` or a position past the end puts the cursor at the end |
| Ui.TextArea.DelCharForward | Device-Tracking/main/ui.c:134 | the character after the cursor, if any, is removed; the cursor stays |
| Ui.TextArea.Prune | Device-Tracking/main/ui.c:127-138 | `strlen` of the NUL-free text is its length; the deletion loop leaves exactly `Pruned(old text, n)`; the cursor is unchanged when nothing is pruned and at the end otherwise |
| Ui.TextArea.SetFormatted | Device-Tracking/main/ui.c:141-161 | a NULL base text changes nothing; otherwise the whole text becomes the formatted text (non-NULL parameter and non-zero length) or the base text up to its first NUL, with the cursor at the end |
| Ui.TextArea.AddFormatted | Device-Tracking/main/ui.c:164-186 | a NULL base text changes nothing; otherwise the text is pruned by the `strlen` of the chosen text, which is inserted at the cursor; from a cursor at the end, the result is the pruned text followed by the chosen text |
| Ui.Label.constructor | Device-Tracking/main/ui.c:273-275 | a label holds the text it is created with, up to its first NUL |
| Ui.Label.SetText | Device-Tracking/main/ui.c:205 | the label text is replaced by the argument up to its first NUL |
| Ui.WifiLabelText | Device-Tracking/main/ui.c:202-209 | connected: "#0000ff " + Wi-Fi symbol + " #"; disconnected: the bare Wi-Fi symbol |
| Ui.WifiLabelShowsGlyph | Device-Tracking/main/ui.c:202-209 | the label starts with the recolour marker iff connected, and shows the Wi-Fi glyph in both states |
| Ui.WifiLabelUpdate | Device-Tracking/main/ui.c:199-212 | the Wi-Fi label is set to `WifiLabelText(state)` |
| Ui.UiButton.Index | Device-Tracking/main/includes/ui.h:32-37 | the three buttons index 0, 1, 2, all below `BTN_COUNT` |
| Ui.LabelFor | Device-Tracking/main/ui.c:220-227 | the label's state is DISABLED iff the text is NULL; the label's text is the given text up to its first NUL (all of it when it has none), or "" for NULL |
| Ui.DispatchIgnoresOtherObjects | Device-Tracking/main/ui.c:241-247 | an event on an object that is none of the buttons calls nothing |
| Ui.DispatchReachesOwner | Device-Tracking/main/ui.c:241-247 | with distinct button objects, an event on button k calls k's registered callback exactly once, with index k and the event; it calls nothing when k's entry is NULL |
| Ui.Buttons.constructor | Device-Tracking/main/ui.c:45-47 | three distinct button objects; the buttons start with empty, released labels and no registered callbacks |
| Ui.Buttons.SetCallback | Device-Tracking/main/ui.c:233-235 | only the given button's table entry is overwritten; the buttons stay valid |
| Ui.Buttons.SetLabel | Device-Tracking/main/ui.c:215-230 | the given button's label gets `LabelFor(txt)`; the other labels are unchanged |
| Ui.Buttons.Dispatch | Device-Tracking/main/ui.c:238-248 | the loop over the buttons makes exactly the calls `Dispatched` describes; an event on button k calls k's callback once with index k and the event, or nothing when k's entry is NULL; an event on any other object calls nothing; the event must be a valid index into the event-name table |

## Left out

- `SafeLock`/`SafeUnlock` and the GUI mutex: the model treats every UI call and every loop iteration as atomic.
- `ui_init`: widget creation, geometry and styling. Only its resulting initial state is modelled, in the constructors.
- `LV_EVENT_NAMES`: only used for logging. `Buttons.Dispatch` requires the event index to be below its 22 entries.
- Logging (`ESP_LOG*`) and the yield return code, which is only logged.
- FreeRTOS timing and tasks: the `vTaskDelayUntil` cadence, the 10 s peek timeout (an empty queue stands for a timed-out peek), task creation and priorities, `vTaskDelete`, and real concurrency. The tasks are interleaved atomic loop iterations.
- `iot.c`, the AWS IoT SDK and the network: TLS set-up, connect and its retries. A publish outcome is a parameter of the uploader step, and the client is the log of calls made on it.
- `wifi_wait_for_connection_up`, `Core2ForAWS_*` hardware initialisation and `check_task_stack_usage`.
- `get_client_id`: reading the ATECC608 serial number. The client id is a parameter of `Topic`.
- The `abort()` paths at start-up: a failed client init or connect, a failed serial read, and `xQueueCreate` returning NULL.
- The call at main.c:202 is to `ui_textarea_add`, which neither ui.c nor ui.h defines. `Ui.ClientIdMessage` models it as `ui_out_txt_add`, which takes the same arguments.
- LVGL internals: `lv_textarea_set_max_length` (24 for the header, 1024 for the output area), which would make LVGL refuse characters past the limit; UTF-8 multi-byte characters, which LVGL deletes as one character and `strlen` counts as several; rendering and recolouring.
- `CFormat.Format`: only the `%s`, `%d` and `%%` directives the core uses. Width, precision and other conversions are not modelled. A `%s` or `%d` whose argument is missing or of the wrong kind is undefined behaviour in C; the model copies such a directive verbatim, and no call in the core does this.
- `Tracker.Payload`: `tbd` is an unbounded integer. The C `int` is 32 bits, and `PayloadFitsBuffer` assumes that range.
- `GpsQueue.PointQueue`: a copy of the point is stored, so the source's reuse of one local `gpsPoint` buffer has no counterpart.
- `Tracker.RunTasks`: it covers the interleavings in which every produced point is the producer's constant point 7, which is every run the source can make.
