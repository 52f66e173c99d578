/**
 The cabinet's key loop in `finger.c`: keys, the fingerprint module and the door. What
 it does is recorded in a trace, and safety is a property of every trace.
 */
module Cabinet {
  import opened Strings
  import opened Frames
  import opened StaleBytes
  import opened FrameLoops

  const RETRY_COUNT: nat := 3
  const STORE: nat := 0
  const TAKE: nat := 1

  /** What the surroundings do during one attempt: what arrives between the clearing of the port and the command,
   whether the command gets out, and what arrives at each poll after it until the timeout. */
  datatype Attempt = Attempt(pending: Text, sent: bool, arrivals: seq<Text>)

  datatype Key = Key0(attempts: seq<Attempt>) | Key1(attempts: seq<Attempt>) | Key2(long: bool) | Key3

  datatype Step =
    | Command(early: Text, late: Text)
    | Received(packet: Text)
    | Unlock
    | Lock
    | Callback(id: nat, operation: nat)
    | HangUp

  /** One turn of the loop of `finger_receive_response`, with and without a servo. */
  function AttemptSteps(a: Attempt, servo: bool, operation: nat): seq<Step> {
    if !a.sent then []
    else
      match Wait([], a.pending, a.arrivals)
      case Matched(packet, id) =>
        [Command(a.pending, Concat(a.arrivals)), Received(packet)] + (if servo then [Unlock] else []) +
          [Callback(id, operation)]
      case NotMatched => [Command(a.pending, Concat(a.arrivals))]
      case Hung => [Command(a.pending, Concat(a.arrivals)), HangUp]
  }

  predicate Fails(a: Attempt) {
    a.sent && Wait([], a.pending, a.arrivals).NotMatched?
  }

  /** What `finger_receive_response` does: it tries again after a failure, and only then. */
  function Verify(attempts: seq<Attempt>, servo: bool, operation: nat): seq<Step> {
    if attempts == [] then []
    else
      AttemptSteps(attempts[0], servo, operation) +
      if Fails(attempts[0]) then Verify(attempts[1..], servo, operation) else []
  }

  /** Whether the door is locked after a trace; it is at the start. */
  function DoorLocked(trace: seq<Step>): bool {
    if trace == [] then true
    else if trace[|trace|-1].Lock? then true
    else if trace[|trace|-1].Unlock? then false
    else DoorLocked(trace[..|trace|-1])
  }

  predicate HasHung(trace: seq<Step>) {
    trace != [] && trace[|trace|-1].HangUp?
  }

  /** Steps that end with the report of a match. */
  predicate EndsMatched(steps: seq<Step>) {
    steps != [] && steps[|steps|-1].Callback?
  }

  function Press(key: Key, servo: bool, locked: bool): seq<Step> {
    match key
    case Key0(attempts) => Verify(attempts, servo, TAKE)
    case Key1(attempts) => Verify(attempts, servo, STORE)
    case Key2(long) => if servo && (locked || long) then [Lock] else []
    case Key3 => []
  }

  /** The trace of a run; after the receiver has hung nothing more happens. */
  function Trace(keys: seq<Key>, servo: bool): seq<Step> {
    if keys == [] then []
    else
      var before := Trace(keys[..|keys|-1], servo);
      if HasHung(before) then before else before + Press(keys[|keys|-1], servo, DoorLocked(before))
  }

  predicate GoodKey(key: Key) {
    key.Key0? || key.Key1? ==> |key.attempts| == RETRY_COUNT
  }

  /** The door is only opened right after a genuine packet has been received, and the packet is part of what has arrived
   since that same attempt has cleared the port; or, in the strict sense, since it has sent its command. */
  ghost predicate Safe(trace: seq<Step>, strict: bool) {
    forall i | 0 <= i < |trace| && trace[i].Unlock? :: SafeAt(trace, i, strict)
  }

  ghost predicate SafeAt(trace: seq<Step>, i: nat, strict: bool)
    requires i < |trace|
  {
    && i >= 2 && trace[i-1].Received? && trace[i-2].Command? && Genuine(trace[i-1].packet)
    && Occurs(trace[i-1].packet, (if strict then [] else trace[i-2].early) + trace[i-2].late)
  }

  lemma SafeConcat(a: seq<Step>, b: seq<Step>, strict: bool)
    requires Safe(a, strict) && Safe(b, strict)
    ensures Safe(a + b, strict)
  {
    var t := a + b;
    forall i | 0 <= i < |t| && t[i].Unlock?
      ensures SafeAt(t, i, strict)
    {
      if i < |a| {
        assert a[i].Unlock? && SafeAt(a, i, strict);
      } else {
        assert b[i-|a|].Unlock? && SafeAt(b, i - |a|, strict);
      }
    }
  }

  /** What came before the command cannot become part of a genuine packet. */
  ghost predicate Harmless(a: Attempt) {
    |a.pending| + 17 <= BUFFER_SIZE && !StalePossible(a.pending)
  }

  ghost predicate AllHarmless(attempts: seq<Attempt>) {
    forall i | 0 <= i < |attempts| :: Harmless(attempts[i])
  }

  ghost predicate HarmlessKey(key: Key) {
    key.Key0? || key.Key1? ==> AllHarmless(key.attempts)
  }

  lemma AttemptSafe(a: Attempt, servo: bool, operation: nat, strict: bool)
    requires strict ==> Harmless(a)
    ensures Safe(AttemptSteps(a, servo, operation), strict)
  {
    hide Genuine, Occurs, Wait, StalePossible, Concat;
    if a.sent && Wait([], a.pending, a.arrivals).Matched? {
      MatchedIsGenuine([], a.pending, a.arrivals);
      assert [] + a.pending + Concat(a.arrivals) == a.pending + Concat(a.arrivals);
      if strict {
        SinceCommandIff(a.pending);
        assert [] + Concat(a.arrivals) == Concat(a.arrivals);
      }
    }
  }

  lemma {:induction false} VerifySafe(attempts: seq<Attempt>, servo: bool, operation: nat, strict: bool)
    requires strict ==> AllHarmless(attempts)
    ensures Safe(Verify(attempts, servo, operation), strict)
  {
    hide Safe, AttemptSteps, Harmless;
    if attempts == [] {
      NoStepsSafe(strict);
    } else {
      var rest := if Fails(attempts[0]) then Verify(attempts[1..], servo, operation) else [];
      AttemptSafe(attempts[0], servo, operation, strict);
      VerifySafe(attempts[1..], servo, operation, strict);
      NoStepsSafe(strict);
      SafeConcat(AttemptSteps(attempts[0], servo, operation), rest, strict);
    }
  }

  lemma NoStepsSafe(strict: bool)
    ensures Safe([], strict)
  {}

  lemma PressSafe(key: Key, servo: bool, locked: bool, strict: bool)
    requires strict ==> HarmlessKey(key)
    ensures Safe(Press(key, servo, locked), strict)
  {
    if key.Key0? {
      VerifySafe(key.attempts, servo, TAKE, strict);
    } else if key.Key1? {
      VerifySafe(key.attempts, servo, STORE, strict);
    }
  }

  lemma {:induction false} TraceSafe(keys: seq<Key>, servo: bool, strict: bool)
    requires strict ==> forall i | 0 <= i < |keys| :: HarmlessKey(keys[i])
    ensures Safe(Trace(keys, servo), strict)
  {
    hide Safe, Press, HarmlessKey;
    if keys == [] {
      NoStepsSafe(strict);
    } else {
      var before, key := Trace(keys[..|keys|-1], servo), keys[|keys|-1];
      TraceSafe(keys[..|keys|-1], servo, strict);
      PressSafe(key, servo, DoorLocked(before), strict);
      SafeConcat(before, Press(key, servo, DoorLocked(before)), strict);
    }
  }

  /** Door safety, over every run of the key loop: with respect to the clearing of the port without any condition, with
   respect to the command as long as nothing from before it could become part of a genuine packet. */
  lemma DoorSafety(keys: seq<Key>, servo: bool)
    ensures Safe(Trace(keys, servo), false)
    ensures (forall i | 0 <= i < |keys| :: HarmlessKey(keys[i])) ==> Safe(Trace(keys, servo), true)
  {
    TraceSafe(keys, servo, false);
    if forall i | 0 <= i < |keys| :: HarmlessKey(keys[i]) {
      TraceSafe(keys, servo, true);
    }
  }

  /** That condition is exact: an attempt is safe with respect to its command, whatever arrives after it, if and only if
   what was there before could not become part of a genuine packet. */
  lemma SafeSinceCommandIff(pending: Text, operation: nat)
    requires |pending| + 17 <= BUFFER_SIZE
    ensures !StalePossible(pending) <==>
      forall arrivals :: Safe(AttemptSteps(Attempt(pending, true, arrivals), true, operation), true)
  {
    hide Genuine, Occurs, Wait, StalePossible, Concat, AttemptSteps;
    SinceCommandIff(pending);
    forall arrivals | Wait([], pending, arrivals).Matched?
      ensures Safe(AttemptSteps(Attempt(pending, true, arrivals), true, operation), true)
        ==> Occurs(Wait([], pending, arrivals).packet, Concat(arrivals))
    {
      MatchOpens(pending, arrivals, operation);
    }
    if !StalePossible(pending) {
      forall arrivals
        ensures Safe(AttemptSteps(Attempt(pending, true, arrivals), true, operation), true)
      {
        AttemptSafe(Attempt(pending, true, arrivals), true, operation, true);
      }
    }
  }

  lemma MatchOpens(pending: Text, arrivals: seq<Text>, operation: nat)
    requires Wait([], pending, arrivals).Matched?
    ensures Safe(AttemptSteps(Attempt(pending, true, arrivals), true, operation), true)
      ==> Occurs(Wait([], pending, arrivals).packet, Concat(arrivals))
  {
    hide Genuine, Occurs, Wait, Concat;
    var steps := AttemptSteps(Attempt(pending, true, arrivals), true, operation);
    assert steps[2] == Unlock && steps[1].packet == Wait([], pending, arrivals).packet &&
      steps[0].late == Concat(arrivals);
    assert [] + Concat(arrivals) == Concat(arrivals);
  }

  /** The input that fails: a genuine packet left over from before the command opens the door on its own. */
  lemma StalePacketOpens(p: Text, operation: nat)
    requires Genuine(p)
    ensures var steps := AttemptSteps(Attempt(p, true, [[]]), true, operation); Unlock in steps && !Safe(steps, true)
  {
    StalePacketAccepted(p);
    var steps := AttemptSteps(Attempt(p, true, [[]]), true, operation);
    assert steps[2] == Unlock;
    MatchOpens(p, [[]], operation);
  }

  function Commands(steps: seq<Step>): nat {
    if steps == [] then 0 else (if steps[0].Command? then 1 else 0) + Commands(steps[1..])
  }

  lemma {:induction false} CommandsConcat(a: seq<Step>, b: seq<Step>)
    ensures Commands(a + b) == Commands(a) + Commands(b)
  {
    if a == [] {
      assert a + b == b;
    } else {
      CommandsConcat(a[1..], b);
      assert (a + b)[1..] == a[1..] + b;
    }
  }

  lemma AttemptCommands(a: Attempt, servo: bool, operation: nat)
    ensures Commands(AttemptSteps(a, servo, operation)) <= 1
  {
    var steps := AttemptSteps(a, servo, operation);
    if steps != [] {
      NoCommands(steps[1..]);
    }
  }

  lemma {:induction false} VerifyCommands(attempts: seq<Attempt>, servo: bool, operation: nat)
    ensures Commands(Verify(attempts, servo, operation)) <= |attempts|
  {
    if attempts != [] {
      var rest := if Fails(attempts[0]) then Verify(attempts[1..], servo, operation) else [];
      AttemptCommands(attempts[0], servo, operation);
      VerifyCommands(attempts[1..], servo, operation);
      CommandsConcat(AttemptSteps(attempts[0], servo, operation), rest);
    }
  }

  lemma {:induction false} NoCommands(steps: seq<Step>)
    requires forall i | 0 <= i < |steps| :: !steps[i].Command?
    ensures Commands(steps) == 0
  {
    if steps != [] {
      NoCommands(steps[1..]);
    }
  }

  /** No key press sends more than three commands to the fingerprint module. */
  lemma AtMostThreeCommands(key: Key, servo: bool, locked: bool)
    requires GoodKey(key)
    ensures Commands(Press(key, servo, locked)) <= RETRY_COUNT
  {
    match key
    case Key0(attempts) => VerifyCommands(attempts, servo, TAKE);
    case Key1(attempts) => VerifyCommands(attempts, servo, STORE);
    case Key2(_) => NoCommands(Press(key, servo, locked));
    case Key3 =>
  }

  /** The k-th attempt is reached and ends with a match. */
  ghost predicate MatchesAt(attempts: seq<Attempt>, k: nat) {
    && k < |attempts|
    && (forall i | 0 <= i <= k :: attempts[i].sent)
    && (forall i | 0 <= i < k :: Wait([], attempts[i].pending, attempts[i].arrivals).NotMatched?)
    && Wait([], attempts[k].pending, attempts[k].arrivals).Matched?
  }

  ghost predicate Matches(attempts: seq<Attempt>) {
    exists k: nat :: MatchesAt(attempts, k)
  }

  /** Exactly when a verification opens the door and reports the match: there is a servo (for the door), and some
   attempt matches after only failing ones. Failures, timeouts and garbled packets alone never do. */
  lemma {:induction false} OpensIff(attempts: seq<Attempt>, servo: bool, operation: nat)
    ensures Unlock in Verify(attempts, servo, operation) <==> servo && Matches(attempts)
    ensures (exists id :: Callback(id, operation) in Verify(attempts, servo, operation)) <==> Matches(attempts)
  {
    hide Matches;
    NoAttempt(attempts);
    if attempts != [] {
      var steps := AttemptSteps(attempts[0], servo, operation);
      if Fails(attempts[0]) {
        OpensIff(attempts[1..], servo, operation);
        LaterMatch(attempts);
        ConsIn(steps[0], Verify(attempts[1..], servo, operation), operation);
      } else if attempts[0].sent && Wait([], attempts[0].pending, attempts[0].arrivals).Matched? {
        assert steps + [] == steps;
        assert steps[|steps|-1] == Callback(Wait([], attempts[0].pending, attempts[0].arrivals).id, operation);
        assert servo ==> steps[2] == Unlock;
      }
    }
  }

  lemma NoAttempt(attempts: seq<Attempt>)
    ensures attempts == [] || !attempts[0].sent || Wait([], attempts[0].pending, attempts[0].arrivals).Hung? ==>
      !Matches(attempts)
    ensures attempts != [] && attempts[0].sent && Wait([], attempts[0].pending, attempts[0].arrivals).Matched? ==>
      Matches(attempts)
  {
    if attempts != [] && attempts[0].sent && Wait([], attempts[0].pending, attempts[0].arrivals).Matched? {
      assert MatchesAt(attempts, 0);
    }
  }

  lemma LaterMatch(attempts: seq<Attempt>)
    requires attempts != [] && attempts[0].sent && Wait([], attempts[0].pending, attempts[0].arrivals).NotMatched?
    ensures Matches(attempts) <==> Matches(attempts[1..])
  {
    if Matches(attempts) {
      var k: nat :| MatchesAt(attempts, k);
      assert MatchesAt(attempts[1..], k - 1);
    }
    if Matches(attempts[1..]) {
      var k: nat :| MatchesAt(attempts[1..], k);
      assert MatchesAt(attempts, k + 1);
    }
  }

  lemma ConsIn(c: Step, rest: seq<Step>, operation: nat)
    requires c.Command?
    ensures Unlock in [c] + rest <==> Unlock in rest
    ensures forall id :: Callback(id, operation) in [c] + rest <==> Callback(id, operation) in rest
  {}

  /** What a key does to the door: KEY0 and KEY1 open it if there is a servo and an attempt matches, KEY2 locks it when
   held long, and nothing else moves it. */
  lemma DoorAfterPress(trace: seq<Step>, key: Key, servo: bool)
    ensures DoorLocked(trace + Press(key, servo, DoorLocked(trace))) <==>
      match key
      case Key2(long) => DoorLocked(trace) || (long && servo)
      case Key3 => DoorLocked(trace)
      case _ => DoorLocked(trace) && !(servo && Matches(key.attempts))
  {
    hide Matches, Verify;
    var steps := Press(key, servo, DoorLocked(trace));
    match key
    case Key2(_) =>
      assert steps == [] ==> trace + steps == trace;
    case Key3 =>
      assert trace + steps == trace;
    case _ =>
      var operation := if key.Key0? then TAKE else STORE;
      OpensIff(key.attempts, servo, operation);
      NeverLocks(key.attempts, servo, operation);
      DoorUnlocked(trace, steps);
  }

  lemma {:induction false} NeverLocks(attempts: seq<Attempt>, servo: bool, operation: nat)
    ensures Lock !in Verify(attempts, servo, operation)
  {
    if attempts != [] {
      NeverLocks(attempts[1..], servo, operation);
    }
  }

  lemma {:induction false} DoorUnlocked(trace: seq<Step>, steps: seq<Step>)
    requires Lock !in steps
    ensures DoorLocked(trace + steps) <==> DoorLocked(trace) && Unlock !in steps
    decreases |steps|
  {
    if steps == [] {
      assert trace + steps == trace;
    } else {
      var front, last := steps[..|steps|-1], steps[|steps|-1];
      DoorUnlocked(trace, front);
      assert steps == front + [last];
      assert (trace + steps)[..|trace + steps|-1] == trace + front;
    }
  }

  lemma DoorAfter(trace: seq<Step>, steps: seq<Step>)
    requires forall i | 0 <= i < |steps| :: !steps[i].Lock? && !steps[i].Unlock?
    ensures DoorLocked(trace + steps) == DoorLocked(trace)
    decreases |steps|
  {
    if steps == [] {
      assert trace + steps == trace;
    } else {
      DoorAfter(trace, steps[..|steps|-1]);
      assert (trace + steps)[..|trace + steps|-1] == trace + steps[..|steps|-1];
    }
  }

  lemma VerifyStep(attempts: seq<Attempt>, servo: bool, operation: nat)
    ensures var steps := Verify(attempts, servo, operation);
      if attempts == [] then steps == [] && !HasHung(steps) && !EndsMatched(steps)
      else if Fails(attempts[0]) then
        && steps == AttemptSteps(attempts[0], servo, operation) + Verify(attempts[1..], servo, operation)
        && (HasHung(steps) <==> HasHung(Verify(attempts[1..], servo, operation)))
        && (EndsMatched(steps) <==> EndsMatched(Verify(attempts[1..], servo, operation)))
        && !EndsMatched(AttemptSteps(attempts[0], servo, operation))
      else steps == AttemptSteps(attempts[0], servo, operation)
  {
    if attempts != [] && Fails(attempts[0]) {
      HungConcat(AttemptSteps(attempts[0], servo, operation), Verify(attempts[1..], servo, operation));
    }
  }

  class Controller {
    var isLocked: bool
    var isUnlocked: bool
    var fingerVerifying: bool
    var operationType: nat
    var unlockRfidMode: bool
    /** Whether the PWM device has been found. */
    const servoPwm: bool
    ghost var trace: seq<Step>

    ghost predicate Valid()
      reads `isLocked, `isUnlocked, `trace
    {
      isLocked == !isUnlocked && isLocked == DoorLocked(trace)
    }

    /** The state in which the key loop starts. */
    constructor (servoPwm: bool)
      ensures Valid() && !fingerVerifying && trace == [] && this.servoPwm == servoPwm && isLocked
    {
      isLocked, isUnlocked, fingerVerifying, operationType, unlockRfidMode := true, false, false, STORE, false;
      this.servoPwm, trace := servoPwm, [];
    }

    /** `servo_unlock`: without a PWM device the flags stay as they are. */
    method ServoUnlock() returns (ok: bool)
      requires Valid()
      modifies `isLocked, `isUnlocked, `trace
      ensures Valid() && ok == servoPwm && trace == old(trace) + (if servoPwm then [Unlock] else [])
    {
      ok := servoPwm;
      if ok {
        isLocked, isUnlocked := false, true;
        trace := trace + [Unlock];
      }
    }

    /** `servo_lock`. */
    method ServoLock() returns (ok: bool)
      requires Valid()
      modifies `isLocked, `isUnlocked, `trace
      ensures Valid() && ok == servoPwm && trace == old(trace) + (if servoPwm then [Lock] else [])
    {
      ok := servoPwm;
      if ok {
        isLocked, isUnlocked := true, false;
        trace := trace + [Lock];
      }
    }

    ghost method Record(step: Step)
      requires Valid() && !step.Lock? && !step.Unlock?
      modifies `trace
      ensures Valid() && trace == old(trace) + [step]
    {
      DoorAfter(trace, [step]);
      trace := trace + [step];
    }

    /** What `finger_receive_response` does on a match: the result of moving the servo is not looked at. */
    method Accept(packet: Text, id: nat)
      requires Valid()
      modifies this
      ensures Valid() && operationType == old(operationType) && !fingerVerifying && unlockRfidMode
      ensures trace ==
        old(trace) + ([Received(packet)] + (if servoPwm then [Unlock] else []) + [Callback(id, operationType)])
    {
      Record(Received(packet));
      var moved := ServoUnlock();
      Record(Callback(id, operationType));
      unlockRfidMode := true;
      fingerVerifying := false;
    }

    /** One turn of the loop of `finger_receive_response`. */
    method TryOnce(a: Attempt) returns (again: bool, hung: bool)
      requires Valid()
      modifies this
      ensures Valid() && operationType == old(operationType)
      ensures trace == old(trace) + AttemptSteps(a, servoPwm, operationType)
      ensures again == Fails(a) && hung == HasHung(AttemptSteps(a, servoPwm, operationType))
      ensures fingerVerifying == (old(fingerVerifying) && (again || hung))
      ensures unlockRfidMode == (old(unlockRfidMode) || EndsMatched(AttemptSteps(a, servoPwm, operationType)))
    {
      again, hung := false, false;
      if !a.sent {
        fingerVerifying := false;
        return;
      }
      var result := WaitResponseOnce(a.pending, a.arrivals);
      Record(Command(a.pending, Concat(a.arrivals)));
      if result.Hung? {
        Record(HangUp);
        hung := true;
      } else if result.Matched? {
        Accept(result.packet, result.id);
      } else {
        again := true;
      }
    }

    /** `finger_receive_response`. */
    method ReceiveResponse(attempts: seq<Attempt>) returns (hung: bool)
      requires Valid() && |attempts| == RETRY_COUNT
      modifies this
      ensures Valid() && operationType == old(operationType)
      ensures trace == old(trace) + Verify(attempts, servoPwm, operationType)
      ensures hung <==> HasHung(Verify(attempts, servoPwm, operationType))
      ensures fingerVerifying == (old(fingerVerifying) && hung)
      ensures unlockRfidMode == (old(unlockRfidMode) || EndsMatched(Verify(attempts, servoPwm, operationType)))
    {
      hide Verify, AttemptSteps, Fails, DoorLocked, HasHung, EndsMatched, Valid;
      ghost var whole := trace + Verify(attempts, servoPwm, operationType);
      var rest := attempts;
      while rest != []
        invariant Valid() && operationType == old(operationType)
        invariant trace + Verify(rest, servoPwm, operationType) == whole
        invariant HasHung(Verify(attempts, servoPwm, operationType)) <==> HasHung(Verify(rest, servoPwm, operationType))
        invariant EndsMatched(Verify(attempts, servoPwm, operationType)) <==>
          EndsMatched(Verify(rest, servoPwm, operationType))
        invariant fingerVerifying == old(fingerVerifying) && unlockRfidMode == old(unlockRfidMode)
        decreases |rest|
      {
        VerifyStep(rest, servoPwm, operationType);
        ghost var steps := AttemptSteps(rest[0], servoPwm, operationType);
        ghost var before := trace;
        var again;
        again, hung := TryOnce(rest[0]);
        if !again {
          return;
        }
        assert before + (steps + Verify(rest[1..], servoPwm, operationType)) == before + steps +
          Verify(rest[1..], servoPwm, operationType);
        rest := rest[1..];
      }
      VerifyStep([], servoPwm, operationType);
      fingerVerifying := false;
      return false;
    }

    /** What KEY0 and KEY1 have in common in the key loop. */
    method StartVerification(operation: nat, attempts: seq<Attempt>) returns (hung: bool)
      requires Valid() && !fingerVerifying && |attempts| == RETRY_COUNT
      modifies this
      ensures Valid() && fingerVerifying == hung && operationType == operation
      ensures unlockRfidMode ==
        ((old(unlockRfidMode) && !old(isUnlocked)) || EndsMatched(Verify(attempts, servoPwm, operation)))
      ensures trace == old(trace) + Verify(attempts, servoPwm, operation)
      ensures hung <==> HasHung(Verify(attempts, servoPwm, operation))
    {
      if isUnlocked {
        unlockRfidMode := false;
      }
      operationType := operation;
      fingerVerifying := true;
      hung := ReceiveResponse(attempts);
    }

    /** One key press in the key loop. */
    method PressKey(key: Key) returns (hung: bool)
      requires Valid() && !fingerVerifying && GoodKey(key)
      modifies this
      ensures Valid() && fingerVerifying == hung
      ensures operationType == match key case Key0(_) => TAKE case Key1(_) => STORE case _ => old(operationType)
      ensures unlockRfidMode == match key
        case Key2(long) => old(unlockRfidMode) && !(old(isUnlocked) && long && servoPwm)
        case Key3 => old(unlockRfidMode)
        case _ => (old(unlockRfidMode) && !old(isUnlocked)) || EndsMatched(Press(key, servoPwm, old(isLocked)))
      ensures trace == old(trace) + Press(key, servoPwm, old(isLocked))
      ensures hung <==> HasHung(Press(key, servoPwm, old(isLocked)))
    {
      hung := false;
      match key {
        case Key0(attempts) => hung := StartVerification(TAKE, attempts);
        case Key1(attempts) => hung := StartVerification(STORE, attempts);
        case Key2(long) =>
          if isUnlocked {
            if long {
              var ok := ServoLock();
              if ok {
                unlockRfidMode := false;
              }
            }
          } else {
            var ok := ServoLock();
          }
        case Key3 =>
      }
    }
  }

  /** The key loop: every run leaves the flags as its trace says, and its trace is the one that the safety results are
   about. */
  method KeyLoop(keys: seq<Key>, servoPwm: bool) returns (locked: bool, hung: bool, ghost trace: seq<Step>)
    requires forall i | 0 <= i < |keys| :: GoodKey(keys[i])
    ensures trace == Trace(keys, servoPwm)
    ensures locked == DoorLocked(Trace(keys, servoPwm)) && hung == HasHung(Trace(keys, servoPwm))
  {
    hide Press, DoorLocked;
    var c := new Controller(servoPwm);
    hung := false;
    var k := 0;
    while k < |keys| && !hung
      invariant k <= |keys| && c.Valid() && fresh(c) && c.servoPwm == servoPwm
      invariant c.trace == Trace(keys[..k], servoPwm) && hung == HasHung(c.trace)
      invariant !hung ==> !c.fingerVerifying
    {
      assert keys[..k + 1][..k] == keys[..k];
      ghost var before := c.trace;
      hung := c.PressKey(keys[k]);
      HungConcat(before, c.trace[|before|..]);
      assert c.trace == before + c.trace[|before|..];
      k := k + 1;
    }
    StaysHung(keys, k, servoPwm);
    assert keys[..|keys|] == keys;
    locked, trace := c.isLocked, c.trace;
  }

  lemma HungConcat(a: seq<Step>, b: seq<Step>)
    requires !HasHung(a)
    ensures HasHung(a + b) <==> HasHung(b)
    ensures !EndsMatched(a) ==> (EndsMatched(a + b) <==> EndsMatched(b))
  {
    if b == [] {
      assert a + b == a;
    }
  }

  lemma {:induction false} StaysHung(keys: seq<Key>, k: nat, servo: bool)
    requires k <= |keys| && (k < |keys| ==> HasHung(Trace(keys[..k], servo)))
    ensures Trace(keys, servo) == Trace(keys[..k], servo)
    decreases |keys|
  {
    if k == |keys| {
      assert keys[..k] == keys;
    } else {
      var shorter := keys[..|keys|-1];
      assert shorter[..k] == keys[..k];
      StaysHung(shorter, k, servo);
    }
  }
}
