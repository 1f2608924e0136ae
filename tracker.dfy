/**
 * The tracker application (main.c): the start-up that sizes the GPS point
 * queue and builds the MQTT topic, the loop bodies of the producer task and
 * of the uploader task, and the message each GPS point becomes.
 *
 * The AWS IoT MQTT client is represented by the log of calls made on it;
 * what the SDK returns from a publish is a parameter of the uploader step.
 * The concurrent tasks are modelled as an interleaving of their loop
 * iterations (`Action`s), each iteration atomic.
 */
module Tracker {
  import opened Wrappers
  import opened CFormat
  import opened Config
  import opened GpsQueue

  // ---------------------------------------------------------------------
  // Client id and topic

  /** Bytes in the ATECC608 serial number (cryptoauthlib's ATCA_SERIAL_NUM_SIZE). */
  const AtcaSerialNumSize: nat := 9

  /** Buffer for the client id: two hex digits per serial byte and a NUL. */
  const ClientIdLen: nat := AtcaSerialNumSize * 2 + 1

  /** Buffer for the topic: the client id buffer plus "/location". */
  const MqttTopicNameLen: nat := ClientIdLen + 9

  const TopicSuffix: string := "/location"
  const TopicFormat: string := "%s" + TopicSuffix

  /**
   * `sprintf(mqttTopicName, "%s/location", clientId)`: the client id, up to
   * its first NUL, followed by "/location". The topic's `strlen` is its
   * length, and with its NUL it fits the topic buffer whenever the id fits
   * the client id buffer.
   */
  function Topic(clientId: string): (t: string)
    ensures t == CString(clientId) + TopicSuffix
    ensures NulFree(clientId) ==> t == clientId + TopicSuffix
    ensures CStrLen(t) == |t|
    ensures CStrLen(clientId) < ClientIdLen ==> |t| < MqttTopicNameLen
  {
    TopicText(clientId);
    TopicIsNulFree(clientId);
    Format(TopicFormat, [Str(clientId)])
  }

  lemma TopicText(clientId: string)
    ensures Format(TopicFormat, [Str(clientId)]) == CString(clientId) + TopicSuffix
  {
    assert TopicFormat == [] + Directive(Str(clientId)) + TopicSuffix;
    assert Verbatim(TopicSuffix);
    FormatOne([], TopicSuffix, Str(clientId));
  }

  lemma TopicIsNulFree(clientId: string)
    ensures CStrLen(CString(clientId) + TopicSuffix) == |CString(clientId) + TopicSuffix|
  {
    assert NulFree(TopicSuffix);
    NulFreeConcat(CString(clientId), TopicSuffix);
    NulFreeStrLen(CString(clientId) + TopicSuffix);
  }

  /** The client id a topic was built from. */
  function TopicClientId(topic: string): Option<string> {
    if |topic| >= |TopicSuffix| && topic[|topic| - |TopicSuffix|..] == TopicSuffix
    then Some(topic[..|topic| - |TopicSuffix|])
    else None
  }

  /** The client id, as far as C sees it, can be read back from its topic. */
  lemma TopicRoundTrip(clientId: string)
    ensures TopicClientId(Topic(clientId)) == Some(CString(clientId))
  {
    var t := Topic(clientId);
    assert t[|t| - |TopicSuffix|..] == TopicSuffix;
    assert t[..|t| - |TopicSuffix|] == CString(clientId);
  }

  /** Distinct NUL-free client ids get distinct topics. */
  lemma TopicInjective(a: string, b: string)
    requires NulFree(a) && NulFree(b)
    ensures Topic(a) == Topic(b) <==> a == b
  {
    if Topic(a) == Topic(b) {
      TopicRoundTrip(a);
      TopicRoundTrip(b);
    }
  }

  // ---------------------------------------------------------------------
  // Payload

  const Greeting: string := "Hello from AWS IoT EduKit "
  const NumberPart: string := " (%d)"
  const PayloadFormat: string := "%s" + NumberPart

  /** Size of the `cPayload` buffer in `publish_one_mqtt_message`. */
  const PayloadBufferSize: nat := 100

  /**
   * `sprintf(cPayload, "%s (%d)", "Hello from AWS IoT EduKit ", point.tbd)`:
   * the greeting (which ends in a space), a space, and the point's number in
   * parentheses.
   */
  function Payload(p: GpsPoint): (s: string)
    ensures s == Greeting + " (" + Decimal(p.tbd) + ")"
  {
    PayloadText(p.tbd);
    Format(PayloadFormat, [Str(Greeting), Int(p.tbd)])
  }

  lemma NumberText(tbd: int)
    ensures Format(NumberPart, [Int(tbd)]) == " (" + Decimal(tbd) + ")"
  {
    assert NumberPart == " (" + Directive(Int(tbd)) + ")";
    assert Verbatim(" (") && Verbatim(")");
    FormatOne(" (", ")", Int(tbd));
  }

  /** The payload format is a `%s` directive for the text, then the number part. */
  lemma PayloadFormatShape(text: string)
    ensures PayloadFormat == Directive(Str(text)) + NumberPart
  {
  }

  /** `"%s (%d)"` with any NUL-free text and a number. */
  lemma PayloadTextWith(greeting: string, tbd: int)
    requires NulFree(greeting)
    ensures Format(PayloadFormat, [Str(greeting), Int(tbd)]) == greeting + " (" + Decimal(tbd) + ")"
  {
    var g := Str(greeting);
    PayloadFormatShape(greeting);
    assert [g, Int(tbd)] == [g] + [Int(tbd)];
    FormatDirective(NumberPart, g, [Int(tbd)]);
    NumberText(tbd);
  }

  lemma PayloadText(tbd: int)
    ensures Format(PayloadFormat, [Str(Greeting), Int(tbd)]) == Greeting + " (" + Decimal(tbd) + ")"
  {
    assert NulFree(Greeting);
    PayloadTextWith(Greeting, tbd);
  }

  /** The point number carried by a payload. */
  function PayloadValue(s: string): Option<int> {
    var head := Greeting + " (";
    if |s| > |head| && s[..|head|] == head && s[|s| - 1] == ')'
    then ParseDecimal(s[|head|..|s| - 1])
    else None
  }

  /** The payload carries the point: it can be read back from it. */
  lemma PayloadRoundTrip(p: GpsPoint)
    ensures PayloadValue(Payload(p)) == Some(p.tbd)
  {
    var head := Greeting + " (";
    var s := Payload(p);
    DecimalIsPlain(p.tbd);
    assert s[..|head|] == head;
    assert s[|head|..|s| - 1] == Decimal(p.tbd);
    DecimalRoundTrip(p.tbd);
  }

  /** Different points give different payloads. */
  lemma PayloadInjective(p: GpsPoint, q: GpsPoint)
    ensures Payload(p) == Payload(q) <==> p == q
  {
    if Payload(p) == Payload(q) {
      PayloadRoundTrip(p);
      PayloadRoundTrip(q);
    }
  }

  lemma PayloadIsNulFree(p: GpsPoint)
    ensures NulFree(Payload(p))
  {
    var head := Greeting + " (";
    var number := Decimal(p.tbd);
    assert NulFree(head);
    assert NulFree(")");
    DecimalIsPlain(p.tbd);
    NulFreeConcat(head, number);
    NulFreeConcat(head + number, ")");
    assert Payload(p) == head + number + ")";
  }

  /** For any 32-bit `tbd` the payload and its NUL fit the 100-byte buffer. */
  lemma PayloadFitsBuffer(p: GpsPoint)
    requires -0x8000_0000 <= p.tbd < 0x8000_0000
    ensures |Payload(p)| + 1 <= PayloadBufferSize
  {
    DecimalOfInt32(p.tbd);
    assert |Payload(p)| == |Greeting| + 3 + |Decimal(p.tbd)|;
  }

  // ---------------------------------------------------------------------
  // The MQTT client, as the log of calls made on it

  datatype QoS = QoS0 | QoS1

  datatype PublishParams = PublishParams(qos: QoS, isRetained: bool, payload: string, payloadLen: nat)

  datatype MqttCall =
    | PublishCall(topic: string, topicLen: nat, params: PublishParams, succeeded: bool)
    | YieldCall(timeoutMs: nat)

  class MqttClient {
    var calls: seq<MqttCall>

    constructor ()
      ensures calls == []
    {
      calls := [];
    }

    /** `aws_iot_mqtt_publish`; `outcome` is what the SDK reports. */
    method Publish(topic: string, params: PublishParams, outcome: bool) returns (ok: bool)
      modifies this
      ensures ok == outcome
      ensures calls == old(calls) + [PublishCall(topic, CStrLen(topic), params, outcome)]
    {
      calls := calls + [PublishCall(topic, CStrLen(topic), params, outcome)];
      ok := outcome;
    }

    /** `aws_iot_mqtt_yield`: gives the client time to service the connection. */
    method Yield(timeoutMs: nat)
      modifies this
      ensures calls == old(calls) + [YieldCall(timeoutMs)]
    {
      calls := calls + [YieldCall(timeoutMs)];
    }
  }

  /**
   * The parameters `publish_one_mqtt_message` sends for a point: QoS 0, not
   * retained, the payload text and its `strlen`, which is its whole length.
   */
  function MessageFor(p: GpsPoint): (m: PublishParams)
    ensures m.qos == QoS0 && !m.isRetained
    ensures m.payload == Greeting + " (" + Decimal(p.tbd) + ")"
    ensures m.payloadLen == |m.payload|
  {
    var payload := Payload(p);
    PayloadIsNulFree(p);
    NulFreeStrLen(payload);
    PublishParams(QoS0, false, payload, CStrLen(payload))
  }

  /** `publish_one_mqtt_message`. */
  method PublishOne(client: MqttClient, topic: string, p: GpsPoint, outcome: bool) returns (ok: bool)
    modifies client
    ensures ok == outcome
    ensures client.calls == old(client.calls) + [PublishCall(topic, CStrLen(topic), MessageFor(p), outcome)]
  {
    ok := client.Publish(topic, MessageFor(p), outcome);
  }

  // ---------------------------------------------------------------------
  // Start-up

  /** `app_main`: the queue gets the configured depth of 60 points. */
  method CreateQueue() returns (q: PointQueue)
    ensures fresh(q) && q.Valid() && q.items == []
    ensures q.depth == 60
  {
    ConfiguredQueueLength();
    var length := QueueLength(GpsPointBufferDurationInMs, GpsPointPeriodInMs);
    q := new PointQueue(length as nat);
  }

  // ---------------------------------------------------------------------
  // The two tasks' loop bodies

  /** The point the producer creates on every iteration. */
  const SampledPoint: GpsPoint := GpsPoint(7)

  /** Timeout the uploader passes to `aws_iot_mqtt_yield`, in milliseconds. */
  const YieldTimeoutMs: nat := 100

  /** One iteration of `produce_gps_points_task` after its periodic delay. */
  method ProduceIteration(q: PointQueue) returns (queued: bool)
    requires q.Valid()
    modifies q
    ensures q.Valid()
    ensures queued <==> |old(q.items)| < q.depth
    ensures q.items == AfterSend(old(q.items), q.depth, SampledPoint)
  {
    var gpsPoint := SampledPoint;
    queued := q.SendToBack(gpsPoint);
  }

  /** The queue after one uploader iteration: the head goes only once published. */
  function AfterUpload(items: seq<GpsPoint>, publishOk: bool): seq<GpsPoint> {
    if items != [] && publishOk then AfterReceive(items) else items
  }

  /** The client calls of one uploader iteration: a publish of the head, if any, then a yield. */
  function UploadCalls(topic: string, items: seq<GpsPoint>, publishOk: bool): (calls: seq<MqttCall>)
    ensures |calls| > 0 && calls[|calls| - 1] == YieldCall(YieldTimeoutMs)
  {
    (if items == [] then [] else [PublishCall(topic, CStrLen(topic), MessageFor(items[0]), publishOk)])
      + [YieldCall(YieldTimeoutMs)]
  }

  /**
   * One iteration of `upload_gps_points_task`: peek, publish the peeked point,
   * remove it only when the publish succeeded, and yield to the client in
   * every case.
   */
  method UploadIteration(q: PointQueue, client: MqttClient, topic: string, publishOk: bool)
    requires q.Valid()
    modifies q, client
    ensures q.Valid()
    ensures q.items == AfterUpload(old(q.items), publishOk)
    ensures client.calls == old(client.calls) + UploadCalls(topic, old(q.items), publishOk)
  {
    var gpsPoint := q.Peek();
    if gpsPoint.Some? {
      var rc := PublishOne(client, topic, gpsPoint.value, publishOk);
      if rc {
        var received := q.Receive();
      }
    }
    client.Yield(YieldTimeoutMs);
  }

  // ---------------------------------------------------------------------
  // Interleaved runs of both tasks

  /** One atomic loop iteration of either task. */
  datatype Action = Produce(p: GpsPoint) | Upload(publishOk: bool)

  /**
   * The state of a run: the queue, the client's call log, and the history
   * of points the queue accepted, dropped, and delivered (removed after a
   * successful publish).
   */
  datatype Run = Run(
    queue: seq<GpsPoint>,
    calls: seq<MqttCall>,
    accepted: seq<GpsPoint>,
    dropped: seq<GpsPoint>,
    delivered: seq<GpsPoint>)

  const Start: Run := Run([], [], [], [], [])

  /** What one iteration does; the queue and calls follow the two loop bodies above. */
  function Step(r: Run, depth: nat, topic: string, a: Action): Run {
    match a
    case Produce(p) =>
      if |r.queue| < depth
      then r.(queue := AfterSend(r.queue, depth, p), accepted := r.accepted + [p])
      else r.(queue := AfterSend(r.queue, depth, p), dropped := r.dropped + [p])
    case Upload(ok) =>
      r.(queue := AfterUpload(r.queue, ok),
         calls := r.calls + UploadCalls(topic, r.queue, ok),
         delivered := r.delivered + DeliveredBy(r.queue, ok))
  }

  /** The run after the given iterations, from an empty queue and a fresh client. */
  function Replay(depth: nat, topic: string, acts: seq<Action>): Run {
    if acts == [] then Start
    else Step(Replay(depth, topic, acts[..|acts| - 1]), depth, topic, acts[|acts| - 1])
  }

  function Payloads(ps: seq<GpsPoint>): seq<string> {
    if ps == [] then [] else Payloads(ps[..|ps| - 1]) + [Payload(ps[|ps| - 1])]
  }

  /**
   * Payloads of the publish calls that reported success, in order. At QoS 0
   * success means only that the client sent the message; no acknowledgement
   * is awaited.
   */
  function PublishedOk(calls: seq<MqttCall>): seq<string> {
    if calls == [] then []
    else
      var c := calls[|calls| - 1];
      PublishedOk(calls[..|calls| - 1])
        + (if c.PublishCall? && c.succeeded then [c.params.payload] else [])
  }

  function YieldCount(calls: seq<MqttCall>): nat {
    if calls == [] then 0
    else YieldCount(calls[..|calls| - 1]) + (if calls[|calls| - 1].YieldCall? then 1 else 0)
  }

  function UploadCount(acts: seq<Action>): nat {
    if acts == [] then 0
    else UploadCount(acts[..|acts| - 1]) + (if acts[|acts| - 1].Upload? then 1 else 0)
  }

  /** The point a producer iteration sampled; nothing for an uploader iteration. */
  function ProducedBy(a: Action): seq<GpsPoint> {
    if a.Produce? then [a.p] else []
  }

  /** The points the producer iterations sampled, in order. */
  function ProducedPoints(acts: seq<Action>): seq<GpsPoint> {
    if acts == [] then [] else ProducedPoints(acts[..|acts| - 1]) + ProducedBy(acts[|acts| - 1])
  }

  function ProduceCount(acts: seq<Action>): nat {
    if acts == [] then 0
    else ProduceCount(acts[..|acts| - 1]) + (if acts[|acts| - 1].Produce? then 1 else 0)
  }

  lemma {:induction false} PayloadsAppend(a: seq<GpsPoint>, b: seq<GpsPoint>)
    ensures Payloads(a + b) == Payloads(a) + Payloads(b)
    decreases |b|
  {
    if b != [] {
      assert (a + b)[..|a + b| - 1] == a + b[..|b| - 1];
      PayloadsAppend(a, b[..|b| - 1]);
    } else {
      assert a + b == a;
    }
  }

  lemma {:induction false} CallLogAppend(a: seq<MqttCall>, b: seq<MqttCall>)
    ensures PublishedOk(a + b) == PublishedOk(a) + PublishedOk(b)
    ensures YieldCount(a + b) == YieldCount(a) + YieldCount(b)
    decreases |b|
  {
    if b != [] {
      assert (a + b)[..|a + b| - 1] == a + b[..|b| - 1];
      CallLogAppend(a, b[..|b| - 1]);
    } else {
      assert a + b == a;
    }
  }

  /**
   * What every run keeps: the queue never holds more than its depth; the
   * delivered points followed by the queued ones are exactly the accepted
   * points in enqueue order (nothing skipped, duplicated or reordered); and
   * the publishes that reported success carried exactly the payloads of the
   * delivered points.
   */
  ghost predicate Consistent(r: Run, depth: nat) {
    && |r.queue| <= depth
    && r.delivered + r.queue == r.accepted
    && PublishedOk(r.calls) == Payloads(r.delivered)
  }

  /** The client calls of one uploader iteration publish at most the head successfully, and yield once. */
  lemma UploadCallsEffect(topic: string, items: seq<GpsPoint>, ok: bool)
    ensures PublishedOk(UploadCalls(topic, items, ok)) == (if items != [] && ok then [Payload(items[0])] else [])
    ensures YieldCount(UploadCalls(topic, items, ok)) == 1
  {
    var uc := UploadCalls(topic, items, ok);
    var y := YieldCall(YieldTimeoutMs);
    if items == [] {
      assert uc == [y];
      assert uc[..0] == [];
    } else {
      var pub := PublishCall(topic, CStrLen(topic), MessageFor(items[0]), ok);
      assert uc == [pub] + [y];
      CallLogAppend([pub], [y]);
      assert [pub][..0] == [];
      assert [y][..0] == [];
    }
  }

  lemma ProduceKeepsConsistent(r: Run, depth: nat, topic: string, p: GpsPoint)
    requires Consistent(r, depth)
    ensures Consistent(Step(r, depth, topic, Produce(p)), depth)
    ensures Step(r, depth, topic, Produce(p)).calls == r.calls
    ensures |Step(r, depth, topic, Produce(p)).accepted| + |Step(r, depth, topic, Produce(p)).dropped|
         == |r.accepted| + |r.dropped| + 1
    ensures |r.queue| < depth ==>
              Step(r, depth, topic, Produce(p)).accepted == r.accepted + [p]
              && Step(r, depth, topic, Produce(p)).dropped == r.dropped
    ensures |r.queue| >= depth ==>
              Step(r, depth, topic, Produce(p)).accepted == r.accepted
              && Step(r, depth, topic, Produce(p)).dropped == r.dropped + [p]
  {
    var r' := Step(r, depth, topic, Produce(p));
    if |r.queue| < depth {
      assert r'.delivered + r'.queue == (r.delivered + r.queue) + [p];
    }
  }

  /** What one uploader iteration delivers: the head, when its publish succeeded. */
  function DeliveredBy(queue: seq<GpsPoint>, ok: bool): seq<GpsPoint> {
    if queue != [] && ok then [queue[0]] else []
  }

  lemma UploadKeepsOrder(delivered: seq<GpsPoint>, queue: seq<GpsPoint>, ok: bool)
    ensures (delivered + DeliveredBy(queue, ok)) + AfterUpload(queue, ok) == delivered + queue
  {
    if queue != [] && ok {
      assert [queue[0]] + queue[1..] == queue;
      assert (delivered + [queue[0]]) + queue[1..] == delivered + ([queue[0]] + queue[1..]);
    } else {
      assert delivered + [] == delivered;
    }
  }

  lemma UploadPublishesDelivered(delivered: seq<GpsPoint>, queue: seq<GpsPoint>, calls: seq<MqttCall>, topic: string, ok: bool)
    requires PublishedOk(calls) == Payloads(delivered)
    ensures PublishedOk(calls + UploadCalls(topic, queue, ok)) == Payloads(delivered + DeliveredBy(queue, ok))
    ensures YieldCount(calls + UploadCalls(topic, queue, ok)) == YieldCount(calls) + 1
  {
    var d := DeliveredBy(queue, ok);
    CallLogAppend(calls, UploadCalls(topic, queue, ok));
    UploadCallsEffect(topic, queue, ok);
    PayloadsAppend(delivered, d);
    assert Payloads(d) == (if queue != [] && ok then [Payload(queue[0])] else []) by {
      if d != [] {
        assert d[..0] == [];
      }
    }
  }

  lemma UploadKeepsConsistent(r: Run, depth: nat, topic: string, ok: bool)
    requires Consistent(r, depth)
    ensures Consistent(Step(r, depth, topic, Upload(ok)), depth)
    ensures YieldCount(Step(r, depth, topic, Upload(ok)).calls) == YieldCount(r.calls) + 1
    ensures Step(r, depth, topic, Upload(ok)).accepted == r.accepted
    ensures Step(r, depth, topic, Upload(ok)).dropped == r.dropped
  {
    UploadKeepsOrder(r.delivered, r.queue, ok);
    UploadPublishesDelivered(r.delivered, r.queue, r.calls, topic, ok);
  }

  /** One iteration adds its produced point, if any, to the accepted or the dropped points. */
  lemma StepSplitsProduced(r: Run, depth: nat, topic: string, a: Action)
    ensures var r' := Step(r, depth, topic, a);
      multiset(r'.accepted + r'.dropped) == multiset(r.accepted + r.dropped) + multiset(ProducedBy(a))
  {
    var r' := Step(r, depth, topic, a);
    if a.Produce? && |r.queue| < depth {
      assert r'.accepted + r'.dropped == r.accepted + [a.p] + r.dropped;
    }
  }

  /** Over a whole run, the accepted and the dropped points are together the produced ones. */
  lemma {:induction false} ReplaySplitsProduced(depth: nat, topic: string, acts: seq<Action>)
    ensures var r := Replay(depth, topic, acts);
      multiset(r.accepted + r.dropped) == multiset(ProducedPoints(acts))
    decreases |acts|
  {
    if acts != [] {
      var init := acts[..|acts| - 1];
      ReplaySplitsProduced(depth, topic, init);
      StepSplitsProduced(Replay(depth, topic, init), depth, topic, acts[|acts| - 1]);
    }
  }

  /**
   * Every interleaving of producer and uploader iterations is consistent,
   * yields to the client once per uploader iteration, and accepts or drops
   * as many points as were produced (`ReplaySplitsProduced` says which).
   */
  lemma {:induction false} ReplayIsConsistent(depth: nat, topic: string, acts: seq<Action>)
    ensures Consistent(Replay(depth, topic, acts), depth)
    ensures YieldCount(Replay(depth, topic, acts).calls) == UploadCount(acts)
    ensures |Replay(depth, topic, acts).accepted| + |Replay(depth, topic, acts).dropped| == ProduceCount(acts)
    decreases |acts|
  {
    if acts == [] {
      assert Replay(depth, topic, acts) == Start;
    } else {
      var init := acts[..|acts| - 1];
      ReplayIsConsistent(depth, topic, init);
      var r := Replay(depth, topic, init);
      match acts[|acts| - 1]
      case Produce(p) => ProduceKeepsConsistent(r, depth, topic, p);
      case Upload(ok) => UploadKeepsConsistent(r, depth, topic, ok);
    }
  }

  lemma ReplayStep(depth: nat, topic: string, acts: seq<Action>, i: nat)
    requires i < |acts|
    ensures Replay(depth, topic, acts[..i + 1]) == Step(Replay(depth, topic, acts[..i]), depth, topic, acts[i])
  {
    assert acts[..i + 1][..i] == acts[..i];
  }

  /**
   * The two tasks running the given interleaving of their loop bodies on a
   * new queue and a fresh client: the queue and the call log end up exactly
   * as `Replay` says, so `ReplayIsConsistent` holds of the running system.
   * Every produced point is the producer's sampled point.
   */
  method RunTasks(q: PointQueue, client: MqttClient, topic: string, acts: seq<Action>)
    requires q.Valid() && q.items == [] && client.calls == []
    requires forall i :: 0 <= i < |acts| && acts[i].Produce? ==> acts[i].p == SampledPoint
    modifies q, client
    ensures q.Valid()
    ensures q.items == Replay(q.depth, topic, acts).queue
    ensures client.calls == Replay(q.depth, topic, acts).calls
  {
    for i := 0 to |acts|
      invariant q.Valid()
      invariant q.items == Replay(q.depth, topic, acts[..i]).queue
      invariant client.calls == Replay(q.depth, topic, acts[..i]).calls
    {
      ReplayStep(q.depth, topic, acts, i);
      match acts[i]
      case Produce(p) =>
        var queued := ProduceIteration(q);
      case Upload(ok) =>
        UploadIteration(q, client, topic, ok);
    }
    assert acts[..|acts|] == acts;
  }

  /**
   * A failed publish leaves the queue as it was and delivers nothing; the
   * next successful iteration publishes the same point and only then
   * removes it, so it is delivered exactly once.
   */
  lemma RetryAfterFailedPublish(r: Run, depth: nat, topic: string)
    requires r.queue != []
    ensures var failed := Step(r, depth, topic, Upload(false));
      var retried := Step(failed, depth, topic, Upload(true));
      && failed.queue == r.queue
      && failed.delivered == r.delivered
      && failed.calls[|r.calls|].params == MessageFor(r.queue[0])
      && retried.calls[|failed.calls|].params == MessageFor(r.queue[0])
      && retried.queue == r.queue[1..]
      && retried.delivered == r.delivered + [r.queue[0]]
  {
  }

  /** The run in which only the producer runs, once per point. */
  function ProduceAll(points: seq<GpsPoint>): (acts: seq<Action>)
    ensures |acts| == |points|
    ensures forall i :: 0 <= i < |points| ==> acts[i] == Produce(points[i])
  {
    seq(|points|, i requires 0 <= i < |points| => Produce(points[i]))
  }

  function Min(a: nat, b: nat): nat {
    if a < b then a else b
  }

  /** Producing one more point is one more step of the replay. */
  lemma ProduceAllStep(depth: nat, topic: string, points: seq<GpsPoint>)
    requires points != []
    ensures Replay(depth, topic, ProduceAll(points))
         == Step(Replay(depth, topic, ProduceAll(points[..|points| - 1])), depth, topic, Produce(points[|points| - 1]))
  {
    var acts := ProduceAll(points);
    assert acts[..|acts| - 1] == ProduceAll(points[..|points| - 1]);
  }

  /** The shape of a run that has only produced `points`, keeping the first `depth` of them. */
  ghost predicate FilledWith(r: Run, depth: nat, points: seq<GpsPoint>) {
    var kept := Min(depth, |points|);
    && r.queue == points[..kept]
    && r.accepted == points[..kept]
    && r.dropped == points[kept..]
    && r.delivered == []
    && r.calls == []
  }

  lemma FillStep(prev: Run, depth: nat, topic: string, points: seq<GpsPoint>)
    requires points != []
    requires FilledWith(prev, depth, points[..|points| - 1])
    ensures FilledWith(Step(prev, depth, topic, Produce(points[|points| - 1])), depth, points)
  {
    var n := |points|;
    var init := points[..n - 1];
    var last := points[n - 1];
    var kept := Min(depth, n - 1);
    assert init[..kept] == points[..kept];
    if n - 1 < depth {
      assert prev.queue + [last] == points[..n];
    } else {
      assert init[kept..] + [last] == points[kept..];
    }
  }

  /**
   * With no uploads, the queue keeps the first `depth` points and every
   * later point is dropped: it is the newest point that is discarded.
   */
  lemma {:induction false} FillThenDrop(depth: nat, topic: string, points: seq<GpsPoint>)
    ensures FilledWith(Replay(depth, topic, ProduceAll(points)), depth, points)
    decreases |points|
  {
    if points == [] {
      assert ProduceAll(points) == [];
    } else {
      var init := points[..|points| - 1];
      FillThenDrop(depth, topic, init);
      ProduceAllStep(depth, topic, points);
      FillStep(Replay(depth, topic, ProduceAll(init)), depth, topic, points);
    }
  }

  /**
   * With the configured depth of 60, sixty points fill the queue and a
   * sixty-first is refused and dropped.
   */
  lemma SixtyFirstPointDropped(topic: string, points: seq<GpsPoint>)
    requires |points| == 61
    ensures var r := Replay(60, topic, ProduceAll(points));
      r.queue == points[..60] && r.dropped == [points[60]]
  {
    FillThenDrop(60, topic, points);
    assert points[60..] == [points[60]];
  }
}
