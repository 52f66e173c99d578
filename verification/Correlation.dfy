/**
 `msg.c`: which cloud uploads a sequence of fingerprint and RFID events leads to. What
 is uploaded is first defined from the history of events alone.
 */
module Correlation {

  const TICKS: nat := 0x1_0000_0000
  /** `rt_tick_from_millisecond(5000)`, at 1000 ticks a second. */
  const WINDOW: nat := 5000
  const NO_OPERATION: nat := 0xFF
  const NO_FINGER: nat := 0xFFFF

  type Tick = t: nat | t < TICKS
  type Id = i: nat | i < 0x1_0000
  type Operation = o: nat | o < 0x100

  datatype RfidResult = Item1 | Item2 | Unknown | NoTag | Error
  datatype MsgType = NoMessage | Store | Take | Scan
  datatype Message = Message(kind: MsgType, fingerId: Id, operation: Operation, rfid: RfidResult)
  datatype Event = Finger(id: Id, operation: Operation, tick: Tick) | Rfid(result: RfidResult, tick: Tick)

  /** The difference of two readings of the tick counter, which wraps around. */
  function Since(now: Tick, before: Tick): Tick {
    (now - before) % TICKS
  }

  function KindOf(operation: Operation): MsgType {
    if operation == 0 then Store else Take
  }

  /** The latest fingerprint event, or the length if there is none. */
  function LatestFinger(es: seq<Event>): (i: nat)
    ensures i <= |es|
    ensures i < |es| ==> es[i].Finger? && forall j | i < j < |es| :: es[j].Rfid?
    ensures i == |es| ==> forall j | 0 <= j < |es| :: es[j].Rfid?
  {
    if es == [] then 0
    else if es[|es|-1].Finger? then |es| - 1
    else
      var i := LatestFinger(es[..|es|-1]);
      if i == |es| - 1 then |es| else i
  }

  /** What an event uploads after a history: a scan right after a match carries its id; later scans within the window
   carry its operation and id 0; a match uploads nothing by itself. */
  function Answer(before: seq<Event>, e: Event): seq<Message> {
    if e.Finger? then []
    else
      var i := LatestFinger(before);
      if i == |before| then []
      else
        var f := before[i];
        if i == |before| - 1 then
          [Message(KindOf(f.operation), if f.id == NO_FINGER then 0 else f.id, f.operation, e.result)]
        else if f.operation != NO_OPERATION && Since(e.tick, f.tick) < WINDOW then
          [Message(KindOf(f.operation), 0, f.operation, e.result)]
        else []
  }

  function Uploads(es: seq<Event>): seq<Message> {
    if es == [] then [] else Uploads(es[..|es|-1]) + Answer(es[..|es|-1], es[|es|-1])
  }

  class Correlator {
    var currentMsg: Message
    var fingerReceived: bool
    var rfidReceived: bool
    var lastFingerOperation: Operation
    var lastFingerTime: Tick
    /** What `onenet_upload_event` has been called with. */
    var uploaded: seq<Message>
    ghost var history: seq<Event>

    /** Between events. */
    ghost predicate Valid()
      reads this
    {
      var i := LatestFinger(history);
      && uploaded == Uploads(history)
      && !rfidReceived
      && (fingerReceived <==> history != [] && i == |history| - 1)
      && (i == |history| ==> lastFingerOperation == NO_OPERATION)
      && (i < |history| ==> lastFingerOperation == history[i].operation && lastFingerTime == history[i].tick)
      && (fingerReceived ==> currentMsg.fingerId == history[i].id && currentMsg.operation == history[i].operation)
      && (fingerReceived ==> currentMsg.kind == KindOf(history[i].operation))
    }

    /** `msg_module_init`. */
    constructor ()
      ensures Valid() && history == [] && uploaded == []
    {
      currentMsg := Message(NoMessage, 0, 0, Item1);
      fingerReceived, rfidReceived, lastFingerOperation, lastFingerTime := false, false, NO_OPERATION, 0;
      uploaded, history := [], [];
    }

    /** `msg_clear_flags`. */
    method ClearFlags()
      modifies `fingerReceived, `rfidReceived, `currentMsg
      ensures !fingerReceived && !rfidReceived && currentMsg == old(currentMsg).(kind := NoMessage)
    {
      fingerReceived, rfidReceived := false, false;
      currentMsg := currentMsg.(kind := NoMessage);
    }

    /** `msg_generate_and_send`. */
    method GenerateAndSend()
      modifies `fingerReceived, `rfidReceived, `currentMsg, `uploaded
      ensures !fingerReceived && !rfidReceived
      ensures var m := old(currentMsg);
        uploaded == if m.kind == Store || m.kind == Take
          then old(uploaded) + [m.(fingerId := if m.fingerId == NO_FINGER then 0 else m.fingerId)] else old(uploaded)
    {
      if currentMsg.kind == Store || currentMsg.kind == Take {
        if currentMsg.fingerId == NO_FINGER {
          currentMsg := currentMsg.(fingerId := 0);
        }
        uploaded := uploaded + [currentMsg];
      }
      ClearFlags();
    }

    /** `finger_callback_handler`. */
    method FingerCallback(id: Id, operation: Operation, now: Tick)
      requires Valid()
      modifies this
      ensures Valid() && history == old(history) + [Finger(id, operation, now)]
      ensures uploaded == old(uploaded)
    {
      currentMsg := currentMsg.(fingerId := id, operation := operation);
      if operation == 0 {
        currentMsg := currentMsg.(kind := Store);
      } else {
        currentMsg := currentMsg.(kind := Take);
      }
      lastFingerOperation, lastFingerTime := operation, now;
      fingerReceived := true;
      if rfidReceived {
        GenerateAndSend();
      }
      history := history + [Finger(id, operation, now)];
      assert history[..|history|-1] == old(history);
    }

    /** `rfid_callback_handler`. */
    method RfidCallback(result: RfidResult, now: Tick)
      requires Valid()
      modifies this
      ensures Valid() && history == old(history) + [Rfid(result, now)]
      ensures uploaded == old(uploaded) + Answer(old(history), Rfid(result, now))
    {
      currentMsg := currentMsg.(rfid := result);
      if fingerReceived {
      } else if lastFingerOperation != NO_OPERATION && Since(now, lastFingerTime) < WINDOW {
        if lastFingerOperation == 0 {
          currentMsg := currentMsg.(kind := Store);
        } else {
          currentMsg := currentMsg.(kind := Take);
        }
        currentMsg := currentMsg.(operation := lastFingerOperation, fingerId := 0);
      } else {
        currentMsg := currentMsg.(kind := Scan);
      }
      rfidReceived := true;
      GenerateAndSend();
      history := history + [Rfid(result, now)];
      assert history[..|history|-1] == old(history);
    }
  }

  /** Any interleaving of the two callbacks uploads exactly what its history calls for. */
  method Run(es: seq<Event>) returns (uploaded: seq<Message>)
    ensures uploaded == Uploads(es)
  {
    hide Uploads, Answer, LatestFinger;
    var c := new Correlator();
    var rest := es;
    while rest != []
      invariant c.Valid() && c.history + rest == es && fresh(c)
      decreases |rest|
    {
      assert rest == [rest[0]] + rest[1..];
      Deliver(c, rest[0]);
      rest := rest[1..];
    }
    assert c.history == es;
    uploaded := c.uploaded;
  }

  method Deliver(c: Correlator, e: Event)
    requires c.Valid()
    modifies c
    ensures c.Valid() && c.history == old(c.history) + [e]
  {
    match e {
      case Finger(id, operation, tick) => c.FingerCallback(id, operation, tick);
      case Rfid(result, tick) => c.RfidCallback(result, tick);
    }
  }

  /** A scan that has to be uploaded, and the match that it belongs to. */
  datatype Pair = Pair(finger: nat, scan: nat)

  /** Event k is a scan that belongs to the match i: no other match came between, and it follows directly or the window
   is open. */
  ghost predicate Owed(es: seq<Event>, i: nat, k: nat) {
    && i < k < |es| && es[i].Finger? && es[k].Rfid?
    && (forall j | i < j < k :: es[j].Rfid?)
    && (k == i + 1 || (es[i].operation != NO_OPERATION && Since(es[k].tick, es[i].tick) < WINDOW))
  }

  /** What is due for such a scan: storing if that was the operation, taking otherwise; and only the one right after the
   match carries its id. */
  ghost predicate Due(es: seq<Event>, p: Pair, m: Message)
    requires Owed(es, p.finger, p.scan)
  {
    var f := es[p.finger];
    && m.operation == f.operation && m.rfid == es[p.scan].result
    && (m.kind == Store <==> f.operation == 0) && (m.kind == Take <==> f.operation != 0)
    && m.fingerId == if p.scan == p.finger + 1 && f.id != NO_FINGER then f.id else 0
  }

  /** The scans that have been uploaded, in order. */
  function Trail(es: seq<Event>): seq<Pair> {
    if es == [] then []
    else
      var before := es[..|es|-1];
      Trail(before) + if Answer(before, es[|es|-1]) != [] then [Pair(LatestFinger(before), |es| - 1)] else []
  }

  lemma OwedStays(es: seq<Event>, e: Event, i: nat, k: nat)
    requires k < |es|
    ensures Owed(es + [e], i, k) <==> Owed(es, i, k)
    ensures Owed(es, i, k) ==> forall m :: Due(es + [e], Pair(i, k), m) <==> Due(es, Pair(i, k), m)
  {
    var t := es + [e];
    assert forall j | 0 <= j < |es| :: t[j] == es[j];
    assert (forall j | i < j < k :: t[j].Rfid?) <==> (forall j | i < j < k :: es[j].Rfid?) by {
      forall j | i < j < k
        ensures t[j].Rfid? <==> es[j].Rfid?
      {
        assert t[j] == es[j];
      }
    }
  }

  /** For the latest event: an upload exactly if it is owed to a match, and then the right one. */
  lemma AnswerIsDue(before: seq<Event>, e: Event)
    ensures forall i: nat :: Owed(before + [e], i, |before|) ==> i == LatestFinger(before) && Answer(before, e) != []
    ensures |Answer(before, e)| <= 1
    ensures Answer(before, e) != [] ==>
      var p := Pair(LatestFinger(before), |before|);
      Owed(before + [e], p.finger, p.scan) && Due(before + [e], p, Answer(before, e)[0])
  {
    var es, f := before + [e], LatestFinger(before);
    assert forall j | 0 <= j < |before| :: es[j] == before[j];
    forall i: nat | Owed(es, i, |before|)
      ensures i == f
    {
      assert es[i] == before[i];
      assert f < |before|;
    }
  }

  lemma OneMoreEvent(before: seq<Event>, e: Event)
    ensures Uploads(before + [e]) == Uploads(before) + Answer(before, e)
    ensures Trail(before + [e]) ==
      Trail(before) + if Answer(before, e) != [] then [Pair(LatestFinger(before), |before|)] else []
    ensures Trail([]) == [] && Uploads([]) == []
  {
    hide Answer, LatestFinger;
    assert (before + [e])[..|before|] == before;
  }

  /** Over every run: the uploads are those of the trail, one for each scan that is owed to a match and for no other, in
   the order of the scans, and each carries what is due. */
  lemma {:induction false} UploadsAreDue(es: seq<Event>)
    ensures |Trail(es)| == |Uploads(es)|
    ensures forall m | 0 <= m < |Trail(es)| ::
      var p := Trail(es)[m]; Owed(es, p.finger, p.scan) && Due(es, p, Uploads(es)[m])
    ensures forall m, n | 0 <= m < n < |Trail(es)| :: Trail(es)[m].scan < Trail(es)[n].scan
    ensures forall i: nat, k: nat | Owed(es, i, k) :: Pair(i, k) in Trail(es)
  {
    if es != [] {
      var before, e := es[..|es|-1], es[|es|-1];
      assert es == before + [e];
      hide Owed, Due, Answer, Trail, Uploads, LatestFinger;
      OneMoreEvent(before, e);
      UploadsAreDue(before);
      AnswerIsDue(before, e);
      forall m | 0 <= m < |Trail(es)|
        ensures var p := Trail(es)[m]; Owed(es, p.finger, p.scan) && Due(es, p, Uploads(es)[m])
      {
        if m < |Trail(before)| {
          var p := Trail(before)[m];
          OwedStays(before, e, p.finger, p.scan);
        }
      }
      forall i: nat, k: nat | Owed(es, i, k)
        ensures Pair(i, k) in Trail(es)
      {
        if k < |before| {
          OwedStays(before, e, i, k);
        }
      }
    }
  }

  /** Over every run, no match has its id uploaded twice: an upload that carries an id carries that of its own match,
   right behind it, and every later upload for the same match carries 0. */
  lemma IdsUploadedOnce(es: seq<Event>)
    ensures |Trail(es)| == |Uploads(es)|
    ensures forall m | 0 <= m < |Trail(es)| && Uploads(es)[m].fingerId != 0 ::
      var p := Trail(es)[m];
      p.scan == p.finger + 1 < |es| && es[p.finger].Finger? && es[p.finger].id == Uploads(es)[m].fingerId
    ensures forall m, n | 0 <= m < n < |Trail(es)| && Trail(es)[m].finger == Trail(es)[n].finger ::
        Uploads(es)[n].fingerId == 0
    ensures forall m, n | 0 <= m < n < |Trail(es)| && Uploads(es)[m].fingerId != 0 && Uploads(es)[n].fingerId != 0 ::
      Trail(es)[m].finger != Trail(es)[n].finger
  {
    UploadsAreDue(es);
    forall m, n | 0 <= m < n < |Trail(es)| && Trail(es)[m].finger == Trail(es)[n].finger
      ensures Uploads(es)[n].fingerId == 0
    {
      var p, q := Trail(es)[m], Trail(es)[n];
      assert Owed(es, p.finger, p.scan) && Owed(es, q.finger, q.scan) && Due(es, q, Uploads(es)[n]);
      assert p.finger < p.scan < q.scan;
    }
  }

  /** The window is exact as long as the counter does not wrap around; once it has, an old match is taken for a recent
   one for the first 5000 ticks of every turn. */
  lemma WindowWraps(matched: Tick, elapsed: nat)
    ensures Since((matched + elapsed) % TICKS, matched) < WINDOW <==> elapsed % TICKS < WINDOW
    ensures elapsed < TICKS ==> (Since((matched + elapsed) % TICKS, matched) < WINDOW <==> elapsed < WINDOW)
  {
    var now := (matched + elapsed) % TICKS;
    var k := (matched + elapsed) / TICKS;
    assert now == matched + elapsed - k * TICKS;
    assert (now - matched) % TICKS == (elapsed - k * TICKS) % TICKS == elapsed % TICKS by { Turns(elapsed, k); }
  }

  lemma {:induction false} Turns(x: int, k: nat)
    ensures (x - k * TICKS) % TICKS == x % TICKS
    decreases k
  {
    if k > 0 {
      Turns(x, k - 1);
    }
  }
}
