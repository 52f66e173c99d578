/** Bytes that wait in the driver when a command goes out: exactly when one of them can end up in an accepted packet. */
module StaleBytes {
  import opened Strings
  import opened Frames

  // ----- a test on the bytes themselves

  /** The bytes can be continued to a genuine packet, or begin with one. */
  predicate CanBeGenuine(s: Text) {
    && (|s| > 0 ==> s[0] == HEADER_HIGH) && (|s| > 1 ==> s[1] == HEADER_LOW)
    && (|s| > 6 ==> s[6] == 0x07) && (|s| > 7 ==> s[7] == 0x00) && (|s| > 8 ==> s[8] == 0x08)
    && (|s| > 9 ==> s[9] == 0x00) && (|s| > 10 ==> s[10] == 0x05)
    && (|s| > 12 ==> !(s[11] == 0xFF && s[12] == 0xFF))
    && (|s| > 15 ==> Sum(s[6..15]) / 256 == s[15]) && (|s| > 16 ==> Sum(s[6..15]) % 256 == s[16])
  }

  /** The bytes that a packet from place i on still lacks. */
  function Missing(s: Text, i: nat): nat {
    if i + 17 <= |s| then 0 else i + 17 - |s|
  }

  /**
   How far the inner loop moves on in front of a packet at place i; 0 where it does not get
   there. Of a header whose length is not all there, the rest can be such that it announces
   more than there is, and is stepped over; unless its second length byte is the packet's
   own type byte and its first one is 0.
   */
  function Hop(s: Text, i: nat): nat
    requires 0 < i < |s|
  {
    if !StartsFrame(s) then 1
    else if |s| >= 9 then
      var full := FullLength(s);
      if full > |s| + Missing(s, i) then 1
      else if full <= i && ParsePacket(s[..full]).Other? then full
      else 0
    else if i == 2 && |s| == 8 && s[7] == 0 then 0
    else 1
  }

  /** The inner loop can get to place i. */
  predicate CanReach(s: Text, i: nat)
    decreases |s|
  {
    i == 0 || (i < |s| && 0 < Hop(s, i) <= i && CanReach(s[Hop(s, i)..], i - Hop(s, i)))
  }

  /** Bytes that wait when the command goes out could become the start of a genuine packet that the scan comes upon. */
  predicate StalePossible(pending: Text) {
    exists i | 0 <= i < |pending| :: CanReach(pending, i) && CanBeGenuine(pending[i..])
  }

  // ----- what the test means

  /** The same with the bytes c that are still to come. */
  ghost predicate StaleAt(pending: Text, i: nat, c: Text) {
    i < |pending| && |c| == Missing(pending, i) && Visited(pending + c, i) && Genuine((pending + c)[i..i+17])
  }

  lemma GenuineParts(p: Text, n: nat)
    requires Genuine(p) && n <= 17
    ensures CanBeGenuine(p[..n])
  {
    SumBound(p[6..15]);
    if n > 15 {
      assert p[..n][6..15] == p[6..15];
    }
  }

  lemma GenuineWhole(p: Text)
    requires |p| == 17 && CanBeGenuine(p)
    ensures Genuine(p)
  {
    SumBound(p[6..15]);
  }

  /** With few bytes left there is nothing in the way. */
  lemma {:induction false} ShortReach(s: Text, i: nat)
    requires i < |s| <= 7
    ensures CanReach(s, i)
    decreases |s|
  {
    if i > 0 {
      ShortReach(s[1..], i - 1);
    }
  }

  /** In front of a packet at place i, with all bytes or any others of the same number to come. */
  lemma HopIsAdvance(s: Text, i: nat, c: Text)
    requires 0 < i < |s| && |c| == Missing(s, i) && (StartsFrame(s) ==> |s| >= 9)
    ensures 0 < Advance(s + c) <= i ==> Hop(s, i) == Advance(s + c)
    ensures 0 < Hop(s, i) <= i ==> Advance(s + c) == Hop(s, i)
  {
    hide ParsePacket;
    var t := s + c;
    if StartsFrame(s) && FullLength(s) <= i {
      assert t[..FullLength(s)] == s[..FullLength(s)];
    }
  }

  lemma SkipConcat(s: Text, c: Text, n: nat, i: nat)
    requires n <= i < |s| && i + 17 <= |s + c|
    ensures s[n..] + c == (s + c)[n..] && (s[n..] + c)[i-n..i-n+17] == (s + c)[i..i+17]
  {}

  /** A place that the loop gets to, with whatever bytes to come, passes the test. */
  lemma {:induction false} VisitedCanReach(s: Text, i: nat, c: Text)
    requires StaleAt(s, i, c)
    ensures CanReach(s, i)
    decreases |s|
  {
    hide ParsePacket, Genuine, Advance;
    if i > 0 {
      var t := s + c;
      var n := Advance(t);
      if StartsFrame(s) && |s| < 9 {
        UnknownLength(s, i, c);
        if |s| == 8 {
          ShortReach(s[1..], i - 1);
        } else {
          ShortReach(s, i);
        }
      } else {
        HopIsAdvance(s, i, c);
        assert 0 < n <= i && t != [] && Visited(t[n..], i - n);
        SkipConcat(s, c, n, i);
        VisitedCanReach(s[n..], i - n, c);
      }
    }
  }

  lemma GenuineBytes(p: Text)
    requires Genuine(p)
    ensures |p| == 17 && p[0] == 0xEF && p[1] == 0x01 && p[6] == 0x07 && p[7] == 0x00 && p[8] == 0x08
  {}

  /** Before a length that is cut off, the packet's own bytes decide at most once. */
  lemma UnknownLength(s: Text, i: nat, c: Text)
    requires 0 < i && StaleAt(s, i, c) && StartsFrame(s) && |s| < 9
    ensures !(i == 2 && |s| == 8 && s[7] == 0)
  {
    hide ParsePacket, Genuine;
    var t := s + c;
    GenuineBytes(t[i..i+17]);
  }

  /** What makes a packet of its beginning: a large address, nothing else set, and the checksum. */
  const TEMPLATE: Text := [0xEF, 0x01, 0x7F, 0x7F, 0x7F, 0x7F, 0x07, 0x00, 0x08, 0x00, 0x05, 0x00, 0x00, 0x00, 0x00]

  function Completed(u: Text): (p: Text)
    requires |u| < 17 && CanBeGenuine(u)
    ensures |p| == 17 && p[..|u|] == u
    ensures forall q | |u| <= q < 15 :: p[q] == TEMPLATE[q]
  {
    var body := if |u| < 15 then u + TEMPLATE[|u|..] else u[..15];
    SumBound(body[6..]);
    var p := body + [Sum(body[6..]) / 256, Sum(body[6..]) % 256];
    assert |u| == 16 ==> u[6..15] == body[6..];
    p
  }

  lemma CompletedGenuine(u: Text)
    requires |u| < 17 && CanBeGenuine(u)
    ensures Genuine(Completed(u))
  {
    var p := Completed(u);
    assert forall q | 0 <= q < |u| :: p[q] == u[q];
    var body := if |u| < 15 then u + TEMPLATE[|u|..] else u[..15];
    SumBound(body[6..]);
    assert p[6..15] == body[6..];
    GenuineWhole(p);
  }

  /** The bytes that complete the packet. */
  function Rest(u: Text): (c: Text)
    requires CanBeGenuine(u)
    ensures |c| == if |u| < 17 then 17 - |u| else 0
  {
    if |u| < 17 then Completed(u)[|u|..] else []
  }

  lemma RestGenuine(u: Text)
    requires CanBeGenuine(u)
    ensures Genuine((u + Rest(u))[..17])
    ensures forall q | |u| <= q < 15 :: (u + Rest(u))[q] == TEMPLATE[q]
  {
    if |u| < 17 {
      CompletedGenuine(u);
      assert u + Rest(u) == Completed(u) == Completed(u)[..17];
    } else {
      assert (u + [])[..17] == u[..17] && u[..17][6..15] == u[6..15];
      GenuineWhole(u[..17]);
    }
  }

  /** A place that passes the test is one that the loop gets to, with these bytes. */
  lemma {:induction false} CanReachVisited(s: Text, i: nat)
    requires i < |s| && CanReach(s, i) && CanBeGenuine(s[i..])
    ensures Visited(s + Rest(s[i..]), i)
    decreases |s|
  {
    hide ParsePacket, CanBeGenuine, Rest, Advance;
    if i > 0 {
      var c := Rest(s[i..]);
      var t := s + c;
      var n := Hop(s, i);
      assert s[n..][i-n..] == s[i..];
      CanReachVisited(s[n..], i - n);
      SkipConcat(s, c, n, i);
      if StartsFrame(s) && |s| < 9 {
        StepsOver(s, i);
      } else {
        HopIsAdvance(s, i, c);
      }
    }
  }

  /** A header whose length is not all there is stepped over. */
  lemma StepsOver(s: Text, i: nat)
    requires 0 < i < |s| < 9 && StartsFrame(s) && CanBeGenuine(s[i..]) && Hop(s, i) == 1
    ensures Advance(s + Rest(s[i..])) == 1
  {
    hide ParsePacket, Rest, CanBeGenuine, FullLength;
    var t := s + Rest(s[i..]);
    assert i != 1 by { HeaderFirst(s[i..]); }
    LargeLength(s, i);
    assert |t| == i + 17;
  }

  lemma HeaderFirst(u: Text)
    requires u != [] && CanBeGenuine(u)
    ensures u[0] == HEADER_HIGH
  {}

  /** The byte at a place behind what waits is the template's. */
  lemma ByteToCome(s: Text, i: nat, q: nat)
    requires i < |s| && CanBeGenuine(s[i..]) && |s| <= q < i + 15
    ensures q < |s + Rest(s[i..])| && (s + Rest(s[i..]))[q] == TEMPLATE[q-i]
  {
    hide Rest, CanBeGenuine;
    var u := s[i..];
    RestGenuine(u);
    assert (s + Rest(u))[q] == Rest(u)[q-|s|] == (u + Rest(u))[q-i];
  }

  /** It announces more than there is. */
  lemma LargeLength(s: Text, i: nat)
    requires 1 < i < |s| < 9 && CanBeGenuine(s[i..]) && !(i == 2 && |s| == 8 && s[7] == 0)
    ensures var t := s + Rest(s[i..]); |t| == i + 17 && FullLength(t) > |t|
  {
    hide Rest, CanBeGenuine;
    var t := s + Rest(s[i..]);
    ByteToCome(s, i, 8);
    if |s| < 8 {
      ByteToCome(s, i, 7);
    } else {
      assert t[7] == s[7] == s[i..][7-i];
      HeaderFirst(s[i..]);
    }
    LargeWord(t[7], t[8], i);
  }

  lemma LargeWord(high: Byte, low: Byte, i: nat)
    requires 1 < i < 8 && low == TEMPLATE[8-i]
    requires (i == 2 ==> high > 0) && (i == 7 ==> high == HEADER_HIGH)
    ensures (9 + Word(high, low)) % 0x1_0000 > i + 17
  {
    assert TEMPLATE[1] == 0x01 && TEMPLATE[6] == 0x07;
    assert TEMPLATE[2] == TEMPLATE[3] == TEMPLATE[4] == TEMPLATE[5] == 0x7F;
    assert 24 < 9 + Word(high, low) < 0x1_0000;
  }

  /** The test is exact: some bytes to come make a packet that the scan gets to of what waits. */
  lemma StaleExactly(pending: Text)
    ensures StalePossible(pending) <==> exists i: nat, c: Text :: StaleAt(pending, i, c)
  {
    hide CanReach, CanBeGenuine, Visited, Genuine, Rest;
    forall i: nat, c: Text | StaleAt(pending, i, c)
      ensures CanReach(pending, i) && CanBeGenuine(pending[i..])
    {
      VisitedCanReach(pending, i, c);
      StartsGenuine(pending, i, c);
    }
    if StalePossible(pending) {
      var i :| 0 <= i < |pending| && CanReach(pending, i) && CanBeGenuine(pending[i..]);
      var c := Rest(pending[i..]);
      CanReachVisited(pending, i);
      RestGenuine(pending[i..]);
      assert (pending + c)[i..i+17] == (pending[i..] + c)[..17];
      assert StaleAt(pending, i, c);
    }
  }

  lemma StartsGenuine(pending: Text, i: nat, c: Text)
    requires StaleAt(pending, i, c)
    ensures CanBeGenuine(pending[i..])
  {
    hide Genuine;
    var p := (pending + c)[i..i+17];
    if i + 17 <= |pending| {
      GenuineParts(p, 17);
      assert p[..17] == p;
      GenuineStart(pending[i..], p);
    } else {
      GenuineParts(p, |pending| - i);
      assert p[..|pending|-i] == pending[i..];
    }
  }

  lemma GenuineStart(s: Text, p: Text)
    requires |s| >= 17 && s[..17] == p && CanBeGenuine(p)
    ensures CanBeGenuine(s)
  {
    assert forall q | 0 <= q < 17 :: s[q] == p[q];
    assert s[6..15] == p[6..15];
  }

  // ----- bytes from before the command

  lemma {:induction false} ScanPlace(s: Text) returns (i: nat)
    requires Scan(s).Decided?
    ensures Visited(s, i) && i + |Scan(s).packet| <= |s| && s[i..i+|Scan(s).packet|] == Scan(s).packet
    decreases |s|
  {
    hide ParsePacket;
    var n := Advance(s);
    if n == 0 {
      i := 0;
    } else {
      var k := ScanPlace(s[n..]);
      i := n + k;
      assert s[n..][k..k+|Scan(s).packet|] == s[i..i+|Scan(s).packet|];
    }
  }

  /** What the scan does before a place does not depend on what comes some bytes behind it. */
  lemma {:induction false} VisitedShorter(s: Text, i: nat, m: nat)
    requires Visited(s, i) && i + 9 <= m <= |s|
    ensures Visited(s[..m], i)
    decreases |s|
  {
    hide ParsePacket;
    if i > 0 {
      var n := Advance(s);
      VisitedShorter(s[n..], i - n, m - n);
      assert s[n..][..m-n] == s[..m][n..];
      hide Advance;
      AdvanceShorter(s, m);
    }
  }

  lemma AdvanceShorter(s: Text, m: nat)
    requires s != [] && 0 < Advance(s) && Advance(s) + 9 <= m <= |s|
    ensures Advance(s[..m]) == Advance(s)
  {
    hide ParsePacket;
    if StartsFrame(s) && FullLength(s) <= |s| {
      assert s[..m][..FullLength(s)] == s[..FullLength(s)];
    }
  }

  /** Nothing of what is scanned is from before the command, except the given beginning of the buffer. */
  lemma {:induction false} MatchedIsFresh(pending: Text, late: Text, queue: Text, arrivals: seq<Text>)
    requires |pending + late| <= 224 && !StalePossible(pending)
    requires Wait(pending + late, queue, arrivals).Matched?
    ensures Occurs(Wait(pending + late, queue, arrivals).packet, late + queue + Concat(arrivals))
    decreases |arrivals|
  {
    hide Genuine, Occurs, Scan, ParsePacket, Concat, Visited, StalePossible;
    var buffer := pending + late;
    var available := queue + arrivals[0];
    var n := if |available| <= BUFFER_SIZE - |buffer| then |available| else BUFFER_SIZE - |buffer|;
    var later, left := late + available[..n], available[n..];
    Polled(late, queue, arrivals, n);
    assert buffer + available[..n] == pending + later;
    if n == 0 {
      MatchedIsFresh(pending, late, available, arrivals[1..]);
      assert later == late && left == available;
      assert late + available + Concat(arrivals[1..]) == later + (left + Concat(arrivals[1..]));
    } else if Scan(pending + later).Decided? {
      FreshHere(pending, later);
      var packet := Scan(pending + later).packet;
      OccursInside(packet, later, [], left + Concat(arrivals[1..]));
      assert [] + later + (left + Concat(arrivals[1..])) == later + (left + Concat(arrivals[1..]));
    } else if |pending + later| > 224 {
      MatchedIsGenuine([], left, arrivals[1..]);
      assert [] + left + Concat(arrivals[1..]) == left + Concat(arrivals[1..]);
      OccursBehind(Wait([], left, arrivals[1..]).packet, left + Concat(arrivals[1..]), later);
    } else {
      MatchedIsFresh(pending, later, left, arrivals[1..]);
      assert later + left + Concat(arrivals[1..]) == later + (left + Concat(arrivals[1..]));
    }
  }

  lemma FreshHere(pending: Text, late: Text)
    requires !StalePossible(pending) && Scan(pending + late).Decided? && Scan(pending + late).verdict.Success?
    ensures Occurs(Scan(pending + late).packet, late)
  {
    hide ParsePacket, Genuine, Scan, Visited, StalePossible;
    var s := pending + late;
    var packet := Scan(s).packet;
    var i := ScanPlace(s);
    ScanFinds(s);
    GenuineLength(packet);
    if i < |pending| {
      StaleHere(pending, late, i);
    } else {
      var k := i - |pending|;
      assert late == late[..k] + packet + late[k+17..];
    }
  }

  lemma StaleHere(pending: Text, late: Text, i: nat)
    requires i < |pending| && i + 17 <= |pending + late|
    requires Visited(pending + late, i) && Genuine((pending + late)[i..i+17])
    ensures StalePossible(pending)
  {
    hide Genuine, Visited;
    var s := pending + late;
    var m := if i + 17 <= |pending| then |pending| else i + 17;
    VisitedShorter(s, i, m);
    var c := late[..m - |pending|];
    assert s[..m] == pending + c && (pending + c)[i..i+17] == s[i..i+17];
    assert StaleAt(pending, i, c);
    StaleExactly(pending);
  }

  lemma TooShort(packet: Text, c: Text)
    requires |c| < |packet|
    ensures !Occurs(packet, c)
  {
    forall before: Text, after: Text
      ensures c != before + packet + after
    {
      assert |before + packet + after| >= |packet|;
    }
  }

  lemma GenuineLength(p: Text)
    requires Genuine(p)
    ensures |p| == 17
  {}

  /** Exactly when every packet that is taken for a match, however the rest arrives, is from after the command: no bytes
   from before it could become part of a genuine packet. The driver's 64-byte queue keeps them far below the bound. */
  lemma SinceCommandIff(pending: Text)
    requires |pending| + 17 <= BUFFER_SIZE
    ensures !StalePossible(pending) <==>
      forall arrivals | Wait([], pending, arrivals).Matched? ::
        Occurs(Wait([], pending, arrivals).packet, Concat(arrivals))
  {
    if StalePossible(pending) {
      StaleExactly(pending);
      var i: nat, c: Text :| StaleAt(pending, i, c);
      StaleOpens(pending, i, c);
      var r := Wait([], pending, [c]);
      assert Concat([c]) == c by { assert [c][1..] == []; }
      TooShort(r.packet, c);
    } else {
      forall arrivals | Wait([], pending, arrivals).Matched?
        ensures Occurs(Wait([], pending, arrivals).packet, Concat(arrivals))
      {
        FirstPoll(pending, arrivals);
      }
    }
  }

  /** A stale packet is accepted as soon as its missing bytes are there. */
  lemma StaleOpens(pending: Text, i: nat, c: Text)
    requires |pending| + 17 <= BUFFER_SIZE && StaleAt(pending, i, c)
    ensures Wait([], pending, [c]).Matched? && |Wait([], pending, [c]).packet| == 17
  {
    hide ParsePacket, Visited;
    var s := pending + c;
    VisitedScan(s, i);
    var p := s[i..i+17];
    AcceptedIsGenuine(p);
    assert s[i..][..17] == p;
    GenuineHeader(p, s[i..]);
    assert [] + s[..|s|] == s;
  }

  lemma GenuineHeader(p: Text, s: Text)
    requires Genuine(p) && |s| >= 17 && s[..17] == p
    ensures StartsFrame(s) && FullLength(s) == 17 && Scan(s) == Decided(p, ParsePacket(p))
  {
    AcceptedIsGenuine(p);
    assert forall k | 0 <= k < 17 :: s[k] == s[..17][k] == p[k];
  }

  lemma FirstPoll(pending: Text, arrivals: seq<Text>)
    requires |pending| + 17 <= BUFFER_SIZE && !StalePossible(pending) && Wait([], pending, arrivals).Matched?
    ensures Occurs(Wait([], pending, arrivals).packet, Concat(arrivals))
  {
    hide Genuine, Occurs, Scan, ParsePacket, Concat, Visited, StalePossible;
    var available := pending + arrivals[0];
    var n := if |available| <= BUFFER_SIZE then |available| else BUFFER_SIZE;
    ConcatHead(arrivals);
    if n == 0 {
      assert pending == [] && arrivals[0] == [] && available == [];
      MatchedIsGenuine([], [], arrivals[1..]);
      assert [] + [] + Concat(arrivals[1..]) == arrivals[0] + Concat(arrivals[1..]);
    } else {
      var late, left := available[|pending|..n], available[n..];
      assert [] + available[..n] == pending + late && arrivals[0] == late + left;
      if Scan(pending + late).Decided? {
        FreshHere(pending, late);
        OccursInside(Scan(pending + late).packet, late, [], left + Concat(arrivals[1..]));
        assert [] + late + (left + Concat(arrivals[1..])) == arrivals[0] + Concat(arrivals[1..]);
      } else if |pending + late| > 224 {
        MatchedIsGenuine([], left, arrivals[1..]);
        assert [] + left + Concat(arrivals[1..]) == left + Concat(arrivals[1..]);
        OccursBehind(Wait([], left, arrivals[1..]).packet, left + Concat(arrivals[1..]), late);
        assert late + (left + Concat(arrivals[1..])) == arrivals[0] + Concat(arrivals[1..]);
      } else {
        MatchedIsFresh(pending, late, left, arrivals[1..]);
        assert late + left + Concat(arrivals[1..]) == arrivals[0] + Concat(arrivals[1..]);
      }
    }
  }

  /** The input that shows it: a genuine packet that was there before the command, and nothing after it. */
  lemma StalePacketAccepted(p: Text)
    requires Genuine(p)
    ensures Wait([], p, [[]]).Matched? && StalePossible(p)
    ensures !Occurs(Wait([], p, [[]]).packet, Concat([[]]))
  {
    assert p + [] == p && p[0..17] == p;
    assert StaleAt(p, 0, []);
    StaleExactly(p);
    StaleOpens(p, 0, []);
    var nothing: seq<Text> := [[]];
    assert nothing[1..] == [];
    ConcatHead(nothing);
  }
}
