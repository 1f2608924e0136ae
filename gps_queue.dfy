/**
 * The FreeRTOS queue that buffers GPS points between the producer task and
 * the uploader task, with the three operations main.c uses on it: send to
 * the back without waiting, peek at the head, and receive (remove) the head.
 * The two tasks are modelled as interleaved calls of these operations, each
 * of which is atomic.
 */
module GpsQueue {
  import opened Wrappers

  /** A GPS location point; the source only carries a placeholder integer. */
  datatype GpsPoint = GpsPoint(tbd: int)

  /** The queue's contents after sending `p` without waiting. */
  function AfterSend(items: seq<GpsPoint>, depth: nat, p: GpsPoint): seq<GpsPoint> {
    if |items| < depth then items + [p] else items
  }

  /** The queue's contents after receiving its head. */
  function AfterReceive(items: seq<GpsPoint>): seq<GpsPoint> {
    if items == [] then [] else items[1..]
  }

  /**
   * Sending keeps the bound, keeps every queued point where it was, adds the
   * new point at the back exactly when there is room, and otherwise drops
   * the new point (not the oldest one).
   */
  lemma SendIsBoundedFifo(items: seq<GpsPoint>, depth: nat, p: GpsPoint)
    requires |items| <= depth
    ensures var r := AfterSend(items, depth, p);
      && |r| <= depth
      && r[..|items|] == items
      && (|items| < depth <==> r == items + [p])
      && (|items| == depth <==> r == items)
  {
  }

  /** Receiving removes exactly the oldest point and keeps the others in order. */
  lemma ReceiveIsFifo(items: seq<GpsPoint>)
    requires items != []
    ensures [items[0]] + AfterReceive(items) == items
  {
  }

  class PointQueue {
    /** The length the queue was created with; never changed. */
    const depth: nat
    var items: seq<GpsPoint>

    ghost predicate Valid()
      reads this
    {
      0 < depth && |items| <= depth
    }

    /** `xQueueCreate(depth, sizeof(struct GpsPoint))`. */
    constructor (depth: nat)
      requires depth > 0
      ensures Valid() && this.depth == depth && items == []
    {
      this.depth := depth;
      items := [];
    }

    /** `xQueueSendToBack(queue, &point, 0)`: never waits; fails when full. */
    method SendToBack(p: GpsPoint) returns (ok: bool)
      requires Valid()
      modifies this
      ensures Valid()
      ensures ok <==> |old(items)| < depth
      ensures items == AfterSend(old(items), depth, p)
    {
      ok := |items| < depth;
      if ok {
        items := items + [p];
      }
    }

    /**
     * `xQueuePeek`: the oldest point, left in place; None stands for the
     * wait timing out on an empty queue.
     */
    method Peek() returns (r: Option<GpsPoint>)
      ensures r.None? <==> items == []
      ensures r.Some? ==> r.value == items[0]
    {
      if items == [] {
        r := None;
      } else {
        r := Some(items[0]);
      }
    }

    /** `xQueueReceive(queue, &point, 0)`: removes and returns the oldest point. */
    method Receive() returns (r: Option<GpsPoint>)
      requires Valid()
      modifies this
      ensures Valid()
      ensures old(items) == [] ==> r.None?
      ensures old(items) != [] ==> r == Some(old(items)[0])
      ensures items == AfterReceive(old(items))
    {
      if items == [] {
        r := None;
      } else {
        r := Some(items[0]);
        items := items[1..];
      }
    }
  }
}
