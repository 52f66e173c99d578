/** From a key to the cloud: what a verification in the key loop makes the correlator upload. */
module Sessions {
  import opened Strings
  import opened Frames
  import opened Cabinet
  import opened Correlation

  /** What the correlator is told of a trace: the reports of matches, with their 16-bit ids. */
  function Heard(steps: seq<Step>, tick: Tick): seq<Event> {
    if steps == [] then []
    else (match steps[0]
      case Callback(id, operation) => [Finger(id % 0x1_0000, operation % 0x100, tick)]
      case _ => []) + Heard(steps[1..], tick)
  }

  lemma {:induction false} HeardConcat(a: seq<Step>, b: seq<Step>, tick: Tick)
    ensures Heard(a + b, tick) == Heard(a, tick) + Heard(b, tick)
  {
    if a == [] {
      assert a + b == b;
    } else {
      assert (a + b)[1..] == a[1..] + b;
      HeardConcat(a[1..], b, tick);
    }
  }

  lemma {:induction false} NothingHeard(steps: seq<Step>, tick: Tick)
    requires forall i | 0 <= i < |steps| :: !steps[i].Callback?
    ensures Heard(steps, tick) == []
  {
    if steps != [] {
      NothingHeard(steps[1..], tick);
    }
  }

  lemma HeardAttempt(a: Attempt, servo: bool, operation: nat, tick: Tick)
    requires operation < 0x100
    ensures var r := Wait([], a.pending, a.arrivals);
      Heard(AttemptSteps(a, servo, operation), tick) ==
        if a.sent && r.Matched? then [Finger(r.id % 0x1_0000, operation, tick)] else []
  {
    hide Wait;
    var steps, r := AttemptSteps(a, servo, operation), Wait([], a.pending, a.arrivals);
    if a.sent && r.Matched? {
      var last := Callback(r.id, operation);
      assert steps == steps[..|steps|-1] + [last];
      HeardConcat(steps[..|steps|-1], [last], tick);
      NothingHeard(steps[..|steps|-1], tick);
      assert [last][1..] == [];
    } else {
      NothingHeard(steps, tick);
    }
  }

  /** A verification is heard of exactly if some attempt matches after only failing ones: once, with what that one
   found. */
  lemma {:induction false} HeardVerify(attempts: seq<Attempt>, servo: bool, operation: nat, tick: Tick)
    requires operation < 0x100
    ensures !Matches(attempts) ==> Heard(Verify(attempts, servo, operation), tick) == []
    ensures forall k: nat | MatchesAt(attempts, k) ::
      Heard(Verify(attempts, servo, operation), tick) ==
        [Finger(Wait([], attempts[k].pending, attempts[k].arrivals).id % 0x1_0000, operation, tick)]
  {
    hide Wait, AttemptSteps, Heard;
    NothingHeard([], tick);
    if attempts != [] {
      HeardAttempt(attempts[0], servo, operation, tick);
      var steps := AttemptSteps(attempts[0], servo, operation);
      assert steps + [] == steps;
      if Fails(attempts[0]) {
        HeardConcat(steps, Verify(attempts[1..], servo, operation), tick);
        HeardVerify(attempts[1..], servo, operation, tick);
        LaterMatch(attempts);
        forall k: nat | MatchesAt(attempts, k)
          ensures k > 0 && MatchesAt(attempts[1..], k - 1)
        {}
      } else {
        NoAttempt(attempts);
        forall k: nat | MatchesAt(attempts, k)
          ensures k == 0
        {}
      }
    }
  }

  /** The latest match and the scan right after it. */
  lemma ScannedAfter(before: seq<Event>, f: Event, scan: Event)
    requires f.Finger? && scan.Rfid?
    ensures Uploads(before + [f] + [scan]) == Uploads(before) +
      [Message(if f.operation == 0 then Store else Take, if f.id == NO_FINGER then 0
        else f.id, f.operation, scan.result)]
  {
    var es := before + [f];
    assert (es + [scan])[..|es|] == es && es[..|before|] == before;
    assert LatestFinger(es) == |before|;
  }

  /**
   From the key to the cloud, after any history: a verification under KEY1 that matches,
   with a scan right after it, uploads one more message, that something is stored by the
   finger whose id is in the genuine packet; under KEY0, that something is taken. And a
   verification that does not match is not heard of.
   */
  lemma KeyToCloud(key: Key, k: nat, servo: bool, locked: bool, before: seq<Event>, matched: Tick, scan: Event)
    requires (key.Key0? || key.Key1?) && MatchesAt(key.attempts, k) && scan.Rfid?
    ensures var p := Wait([], key.attempts[k].pending, key.attempts[k].arrivals).packet;
      && Genuine(p)
      && Uploads(before + Heard(Press(key, servo, locked), matched) + [scan]) == Uploads(before) +
        [if key.Key1? then Message(Store, Word(p[11], p[12]), 0, scan.result)
         else Message(Take, Word(p[11], p[12]), 1, scan.result)]
  {
    hide Wait, Verify, Heard, Uploads, MatchesAt;
    var a := key.attempts[k] by { InRange(key.attempts, k); }
    MatchedAt(key.attempts, k);
    MatchedIsGenuine([], a.pending, a.arrivals);
    var r := Wait([], a.pending, a.arrivals);
    NotNobody(r.packet);
    HeardVerify(key.attempts, servo, if key.Key1? then STORE else TAKE, matched);
    ScannedAfter(before, Finger(r.id, if key.Key1? then 0 else 1, matched), scan);
  }

  lemma InRange(attempts: seq<Attempt>, k: nat)
    requires MatchesAt(attempts, k)
    ensures k < |attempts|
  {}

  lemma MatchedAt(attempts: seq<Attempt>, k: nat)
    requires MatchesAt(attempts, k)
    ensures Wait([], attempts[k].pending, attempts[k].arrivals).Matched?
  {}

  lemma NotNobody(p: Text)
    requires Genuine(p)
    ensures |p| == 17 && Word(p[11], p[12]) < NO_FINGER
  {}

  lemma UnmatchedUnheard(key: Key, servo: bool, locked: bool, tick: Tick)
    requires key.Key0? || key.Key1? ==> !Matches(key.attempts)
    ensures Heard(Press(key, servo, locked), tick) == []
  {
    hide Matches;
    match key
    case Key0(attempts) => HeardVerify(attempts, servo, TAKE, tick);
    case Key1(attempts) => HeardVerify(attempts, servo, STORE, tick);
    case _ => NothingHeard(Press(key, servo, locked), tick);
  }
}
