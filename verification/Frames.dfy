/** The fingerprint module's frames: what a packet says, and what the rescanning receiver makes of a stream. */
module Frames {
  import opened Strings

  const HEADER_HIGH: Byte := 0xEF
  const HEADER_LOW: Byte := 0x01
  const BUFFER_SIZE: nat := 256

  function Word(high: Byte, low: Byte): (w: nat)
    ensures w < 0x1_0000
  {
    high * 256 + low
  }

  function Sum(s: Text): nat {
    if s == [] then 0 else Sum(s[..|s|-1]) + s[|s|-1]
  }

  /** The checksum that a packet should have: over everything from the packet identifier on, in 16 bits. */
  function Checksum(p: Text): nat
    requires |p| >= 8
  {
    Sum(p[6..|p|-2]) % 0x1_0000
  }

  /** `verify_fingerprint_checksum`. */
  predicate ChecksumHolds(p: Text) {
    |p| >= 12 && Checksum(p) == Word(p[|p|-2], p[|p|-1])
  }

  datatype Verdict = Other | Success(id: nat, score: nat) | Failed

  /** `parse_fingerprint_packet`. */
  function ParsePacket(p: Text): Verdict {
    if |p| < 17 then Other
    else if p[0] != HEADER_HIGH || p[1] != HEADER_LOW then Other
    else if p[6] != 0x07 then Other
    else if Word(p[7], p[8]) != 0x0008 then Other
    else if !ChecksumHolds(p) then Other
    else if p[9] == 0x00 && p[10] == 0x05 then
      if Word(p[11], p[12]) == 0xFFFF then Failed else Success(Word(p[11], p[12]), Word(p[13], p[14]))
    else if p[9] == 0x00 then Other
    else Failed
  }

  /** The number of bytes that a header announces, as the receiver computes it in 16 bits. */
  function FullLength(s: Text): nat
    requires |s| >= 9
  {
    (9 + Word(s[7], s[8])) % 0x1_0000
  }

  predicate StartsFrame(s: Text) {
    |s| >= 2 && s[0] == HEADER_HIGH && s[1] == HEADER_LOW
  }

  /** What one pass over the buffer finds: a decisive packet, none, or a frame of computed length 0 that it never gets
   past. */
  datatype Found = Decided(packet: Text, verdict: Verdict) | Undecided | Stuck

  /** The inner loop of `finger_wait_response_once`, on what is left of the buffer. */
  function Scan(s: Text): (r: Found)
    ensures r.Decided? ==> r.verdict == ParsePacket(r.packet) && !r.verdict.Other?
    decreases |s|
  {
    if s == [] then Undecided
    else if StartsFrame(s) && |s| >= 9 && FullLength(s) <= |s| then
      var full := FullLength(s);
      if !ParsePacket(s[..full]).Other? then Decided(s[..full], ParsePacket(s[..full]))
      else if full == 0 then Stuck
      else Scan(s[full..])
    else Scan(s[1..])
  }

  /** How waiting for a response ends. */
  datatype Response = Matched(packet: Text, id: nat) | NotMatched | Hung

  /** `finger_wait_response_once`: at each poll some bytes have arrived at the driver; the receiver takes what its
   buffer has room for, scans the whole buffer again, and empties it when it is nearly full. The list of polls ends with
   the timeout. */
  function Wait(buffer: Text, queue: Text, arrivals: seq<Text>): Response
    requires |buffer| <= 224
    decreases |arrivals|
  {
    if arrivals == [] then NotMatched
    else
      var available := queue + arrivals[0];
      var n := if |available| <= BUFFER_SIZE - |buffer| then |available| else BUFFER_SIZE - |buffer|;
      if n == 0 then Wait(buffer, available, arrivals[1..])
      else
        var filled := buffer + available[..n];
        var found := Scan(filled);
        if found.Decided? then
          if found.verdict.Success? then Matched(found.packet, found.verdict.id) else NotMatched
        else if found.Stuck? then Hung
        else Wait(if |filled| > 224 then [] else filled, available[n..], arrivals[1..])
  }

  /** The only packets that are taken for a match: 17 bytes, a response of length 8 with a right checksum that reports
   success of the final step for a finger that exists. */
  ghost predicate Genuine(p: Text) {
    && |p| == 17 && p[0] == 0xEF && p[1] == 0x01 && p[6] == 0x07 && p[7] == 0x00 && p[8] == 0x08
    && p[9] == 0x00 && p[10] == 0x05 && !(p[11] == 0xFF && p[12] == 0xFF)
    && Sum(p[6..15]) == Word(p[15], p[16])
  }

  lemma {:induction false} SumBound(s: Text)
    ensures Sum(s) <= 255 * |s|
  {
    if s != [] {
      SumBound(s[..|s|-1]);
    }
  }

  /** What the receiver cuts out of the buffer and accepts is genuine, and the other way round. */
  lemma AcceptedIsGenuine(p: Text)
    ensures |p| == 17 && ParsePacket(p).Success? <==> Genuine(p)
  {
    if |p| == 17 {
      SumBound(p[6..15]);
    }
  }

  /** A response of the right form and checksum. */
  ghost predicate WellFormed(p: Text) {
    && |p| >= 17 && p[0] == 0xEF && p[1] == 0x01 && p[6] == 0x07 && p[7] == 0x00 && p[8] == 0x08
    && Sum(p[6..|p|-2]) % 0x1_0000 == Word(p[|p|-2], p[|p|-1])
  }

  /** The packets that report a failure: any other confirmation code than 0, or a final step without a finger. */
  ghost predicate Failing(p: Text) {
    WellFormed(p) && (p[9] != 0x00 || (p[10] == 0x05 && p[11] == 0xFF && p[12] == 0xFF))
  }

  /** Exactly which packets fail; with `AcceptedIsGenuine`, which decide at all. */
  lemma FailedIsFailing(p: Text)
    ensures ParsePacket(p).Failed? <==> Failing(p)
    ensures |p| == 17 ==> (ParsePacket(p).Other? <==> !Genuine(p) && !Failing(p))
  {
    AcceptedIsGenuine(p);
  }

  lemma {:induction false} SumUpdate(s: Text, k: nat, b: Byte)
    requires k < |s|
    ensures Sum(s[k := b]) == Sum(s) - s[k] + b
  {
    var n := |s| - 1;
    if k == n {
      assert s[k := b][..n] == s[..n];
    } else {
      SumUpdate(s[..n], k, b);
      assert s[k := b][..n] == s[..n][k := b];
    }
  }

  /** Flipping any one byte from the packet identifier to the checksum of a genuine packet makes it unacceptable. */
  lemma OneByteFlipped(p: Text, k: nat, b: Byte)
    requires Genuine(p) && 6 <= k <= 16 && b != p[k]
    ensures !ParsePacket(p[k := b]).Success?
  {
    var q := p[k := b];
    SumBound(p[6..15]);
    SumBound(q[6..15]);
    if k < 15 {
      assert q[6..15] == p[6..15][k - 6 := b];
      SumUpdate(p[6..15], k - 6, b);
    } else {
      assert q[6..15] == p[6..15];
    }
  }

  function Concat(parts: seq<Text>): Text {
    if parts == [] then [] else parts[0] + Concat(parts[1..])
  }

  /** The packet is an unbroken part of the stream. */
  ghost predicate Occurs(packet: Text, stream: Text) {
    exists before: Text, after: Text :: stream == before + packet + after
  }

  lemma OccursInside(packet: Text, inner: Text, before: Text, after: Text)
    requires Occurs(packet, inner)
    ensures Occurs(packet, before + inner + after)
  {
    var b, a :| inner == b + packet + a;
    assert before + inner + after == (before + b) + packet + (a + after);
  }

  lemma OccursFirst(packet: Text, after: Text)
    ensures Occurs(packet, packet + after)
  {
    assert packet + after == [] + packet + after;
  }

  lemma OccursBehind(packet: Text, inner: Text, before: Text)
    requires Occurs(packet, inner)
    ensures Occurs(packet, before + inner)
  {
    OccursInside(packet, inner, before, []);
    assert before + inner + [] == before + inner;
  }

  lemma {:induction false} ScanFinds(s: Text)
    ensures Scan(s).Decided? ==> Occurs(Scan(s).packet, s) && (Scan(s).verdict.Success? ==> Genuine(Scan(s).packet))
    decreases |s|
  {
    hide ParsePacket, Occurs, Genuine;
    if s != [] {
      if StartsFrame(s) && |s| >= 9 && FullLength(s) <= |s| {
        var full := FullLength(s);
        assert s == s[..full] + s[full..];
        if !ParsePacket(s[..full]).Other? {
          OccursFirst(s[..full], s[full..]);
          if ParsePacket(s[..full]).Success? {
            SuccessLength(s[..full], s);
            AcceptedIsGenuine(s[..full]);
          }
        } else if full > 0 {
          ScanFinds(s[full..]);
          if Scan(s).Decided? {
            OccursBehind(Scan(s).packet, s[full..], s[..full]);
          }
        }
      } else {
        ScanFinds(s[1..]);
        assert s == s[..1] + s[1..];
        if Scan(s).Decided? {
          OccursBehind(Scan(s).packet, s[1..], s[..1]);
        }
      }
    }
  }

  lemma SuccessLength(p: Text, s: Text)
    requires |s| >= 9 && |p| == FullLength(s) <= |s| && p == s[..|p|] && ParsePacket(p).Success?
    ensures |p| == 17
  {}

  /** One poll of the receiver, with all of the stream accounted for. */
  lemma Polled(buffer: Text, queue: Text, arrivals: seq<Text>, n: nat)
    requires arrivals != [] && n <= |queue + arrivals[0]|
    ensures buffer + queue + Concat(arrivals)
      == (buffer + (queue + arrivals[0])[..n]) + ((queue + arrivals[0])[n..] + Concat(arrivals[1..]))
  {
    var available := queue + arrivals[0];
    assert available == available[..n] + available[n..];
    assert buffer + queue + Concat(arrivals) == buffer + available + Concat(arrivals[1..]);
  }

  /** A match is always a genuine packet in what has arrived since the receiver started. */
  lemma {:induction false} MatchedIsGenuine(buffer: Text, queue: Text, arrivals: seq<Text>)
    requires |buffer| <= 224 && Wait(buffer, queue, arrivals).Matched?
    ensures var r := Wait(buffer, queue, arrivals);
      Genuine(r.packet) && r.id == Word(r.packet[11], r.packet[12]) &&
        Occurs(r.packet, buffer + queue + Concat(arrivals))
    decreases |arrivals|
  {
    hide Genuine, Occurs, Scan, ParsePacket, Concat;
    var available := queue + arrivals[0];
    var n := if |available| <= BUFFER_SIZE - |buffer| then |available| else BUFFER_SIZE - |buffer|;
    var filled, left := buffer + available[..n], available[n..];
    Polled(buffer, queue, arrivals, n);
    if n == 0 {
      MatchedIsGenuine(buffer, available, arrivals[1..]);
      assert filled == buffer && left == available;
      assert buffer + available + Concat(arrivals[1..]) == filled + (left + Concat(arrivals[1..]));
    } else if Scan(filled).Decided? {
      ScanFinds(filled);
      MatchedId(filled);
      OccursInside(Scan(filled).packet, filled, [], left + Concat(arrivals[1..]));
      assert [] + filled + (left + Concat(arrivals[1..])) == filled + (left + Concat(arrivals[1..]));
    } else if |filled| > 224 {
      MatchedIsGenuine([], left, arrivals[1..]);
      assert [] + left + Concat(arrivals[1..]) == left + Concat(arrivals[1..]);
      OccursBehind(Wait([], left, arrivals[1..]).packet, left + Concat(arrivals[1..]), filled);
    } else {
      MatchedIsGenuine(filled, left, arrivals[1..]);
      assert filled + left + Concat(arrivals[1..]) == filled + (left + Concat(arrivals[1..]));
    }
  }

  lemma MatchedId(s: Text)
    requires Scan(s).Decided? && Scan(s).verdict.Success?
    ensures |Scan(s).packet| >= 17 && Scan(s).verdict.id == Word(Scan(s).packet[11], Scan(s).packet[12])
  {}

  predicate Quiet(s: Text) {
    forall i | 0 <= i < |s| - 1 :: !(s[i] == HEADER_HIGH && s[i+1] == HEADER_LOW)
  }

  /** A frame as the module sends it: complete, and with no header inside. */
  predicate Frame(f: Text) {
    StartsFrame(f) && |f| >= 9 && |f| == 9 + Word(f[7], f[8]) && Quiet(f[1..])
  }

  predicate Frames(fs: seq<Text>) {
    forall i | 0 <= i < |fs| :: Frame(fs[i])
  }

  /** The first frame that decides, by its bytes. */
  ghost function First(fs: seq<Text>): Found {
    if fs == [] then Undecided
    else
      var p := fs[0];
      if Genuine(p) then Decided(p, Success(Word(p[11], p[12]), Word(p[13], p[14])))
      else if Failing(p) then Decided(p, Failed)
      else First(fs[1..])
  }

  /** Of a frame as the module sends it, the bytes say what the packet parser makes of it. */
  lemma FrameDecides(f: Text)
    requires Frame(f)
    ensures ParsePacket(f).Other? <==> !Genuine(f) && !Failing(f)
    ensures Genuine(f) ==> ParsePacket(f) == Success(Word(f[11], f[12]), Word(f[13], f[14]))
    ensures Failing(f) ==> ParsePacket(f) == Failed && !Genuine(f)
  {
    AcceptedIsGenuine(f);
    FailedIsFailing(f);
  }

  ghost function Verdicts(fs: seq<Text>): Response {
    var found := First(fs);
    if found.Decided? && found.verdict.Success? then Matched(found.packet, found.verdict.id) else NotMatched
  }

  lemma QuietPart(s: Text, i: nat, j: nat)
    requires Quiet(s) && i <= j <= |s|
    ensures Quiet(s[i..j])
  {
    forall k | 0 <= k < j - i - 1
      ensures !(s[i..j][k] == HEADER_HIGH && s[i..j][k+1] == HEADER_LOW)
    {
      assert s[i..j][k] == s[i+k] && s[i..j][k+1] == s[i+k+1];
    }
  }

  lemma {:induction false} ScanQuiet(s: Text)
    requires Quiet(s)
    ensures Scan(s) == Undecided
    decreases |s|
  {
    if s != [] {
      QuietPart(s, 1, |s|);
      ScanQuiet(s[1..]);
    }
  }

  lemma ScanPart(f: Text, m: nat)
    requires Frame(f) && m < |f| < 0x1_0000
    ensures Scan(f[..m]) == Undecided
  {
    if m > 0 {
      var s := f[..m];
      QuietPart(f[1..], 0, m - 1);
      assert s[1..] == f[1..][0..m-1];
      ScanQuiet(s[1..]);
    }
  }

  /** The scan of any part of the stream that starts at its beginning: the first decisive frame, once it is complete. */
  lemma {:induction false} ScanStream(fs: seq<Text>, m: nat)
    requires Frames(fs) && m <= |Concat(fs)| <= 224
    ensures Scan(Concat(fs)[..m]) == Undecided || (First(fs).Decided? && Scan(Concat(fs)[..m]) == First(fs))
    ensures m == |Concat(fs)| ==> Scan(Concat(fs)[..m]) == First(fs)
  {
    hide ParsePacket;
    if fs != [] {
      var f, rest := fs[0], Concat(fs[1..]);
      var s := Concat(fs)[..m];
      if m < |f| {
        assert s == f[..m];
        ScanPart(f, m);
      } else {
        assert s == f + rest[..m - |f|];
        assert s[..|f|] == f && s[|f|..] == rest[..m - |f|];
        assert FullLength(s) == |f|;
        FrameDecides(f);
        ScanStream(fs[1..], m - |f|);
      }
    }
  }

  /** Chunking independence: for every stream of whole frames that fits the buffer, and however the polls cut it up, the
   answer is that of the first decisive frame. */
  lemma {:induction false} ChunkingDoesNotMatter(fs: seq<Text>, buffer: Text, arrivals: seq<Text>)
    requires Frames(fs) && |Concat(fs)| <= 224 && buffer + Concat(arrivals) == Concat(fs)
    requires Scan(buffer) == Undecided
    ensures Wait(buffer, [], arrivals) == Verdicts(fs)
    decreases |arrivals|
  {
    if arrivals == [] {
      assert buffer == Concat(fs) == Concat(fs)[..|Concat(fs)|];
      ScanStream(fs, |Concat(fs)|);
    } else {
      var available := [] + arrivals[0];
      assert available == arrivals[0];
      var filled := buffer + arrivals[0];
      assert filled + Concat(arrivals[1..]) == Concat(fs);
      assert filled == Concat(fs)[..|filled|];
      ScanStream(fs, |filled|);
      assert available[..|available|] == available && available[|available|..] == [];
      if arrivals[0] == [] {
        assert filled == buffer;
        ChunkingDoesNotMatter(fs, buffer, arrivals[1..]);
      } else if Scan(filled).Undecided? {
        ChunkingDoesNotMatter(fs, filled, arrivals[1..]);
      }
    }
  }

  /** Whatever follows, and however the polls cut it up: once the frames are there, the first decisive one among them
   has decided. */
  lemma {:induction false} FirstDecides(fs: seq<Text>, buffer: Text, arrivals: seq<Text>)
    requires Frames(fs) && |Concat(fs)| <= 224 && First(fs).Decided? && Concat(fs) <= buffer + Concat(arrivals)
    requires Scan(buffer) == Undecided && buffer <= Concat(fs)
    ensures Wait(buffer, [], arrivals) == Verdicts(fs)
    decreases |arrivals|
  {
    hide ParsePacket, Genuine, Failing, Frame, First, Scan;
    var stream := Concat(fs);
    ScanStream(fs, |buffer|);
    assert buffer == stream[..|buffer|];
    if arrivals != [] {
      var available := [] + arrivals[0];
      var n := if |available| <= BUFFER_SIZE - |buffer| then |available| else BUFFER_SIZE - |buffer|;
      var filled := buffer + available[..n];
      assert buffer + Concat(arrivals) == buffer + arrivals[0] + Concat(arrivals[1..]);
      if |filled| >= |stream| {
        assert stream <= filled;
        ScanBehind(fs, filled[|stream|..]);
        assert stream + filled[|stream|..] == filled;
      } else {
        assert n == |available| && available[..n] == arrivals[0] && available[n..] == [];
        assert filled == stream[..|filled|];
        ScanStream(fs, |filled|);
        if Scan(filled).Undecided? {
          FirstDecides(fs, filled, arrivals[1..]);
        }
      }
    }
  }

  lemma {:induction false} ScanBehind(fs: seq<Text>, rest: Text)
    requires Frames(fs) && |Concat(fs)| <= 224 && First(fs).Decided?
    ensures Scan(Concat(fs) + rest) == First(fs)
  {
    hide ParsePacket, Genuine, Failing;
    var f, s := fs[0], Concat(fs) + rest;
    FrameDecides(f);
    assert s == f + (Concat(fs[1..]) + rest);
    assert s[..|f|] == f && s[|f|..] == Concat(fs[1..]) + rest && FullLength(s) == |f|;
    if ParsePacket(f).Other? {
      ScanBehind(fs[1..], rest);
    }
  }

  /** A stream that begins with undecided frames and one that fails is a failure, whatever comes behind. */
  lemma FailureDecides(fs: seq<Text>, f: Text, arrivals: seq<Text>)
    requires Frames(fs) && (forall i | 0 <= i < |fs| :: !Genuine(fs[i]) && !Failing(fs[i]))
    requires Frame(f) && Failing(f) && |Concat(fs)| + |f| <= 224 && Concat(fs) + f <= Concat(arrivals)
    ensures Wait([], [], arrivals) == NotMatched
  {
    hide Genuine, Failing, Frame, Scan;
    FrameDecides(f);
    UndecidedBefore(fs, f);
    assert [] + Concat(arrivals) == Concat(arrivals);
    NothingScanned();
    FirstDecides(fs + [f], [], arrivals);
  }

  lemma NothingScanned()
    ensures Scan([]) == Undecided
  {}

  lemma {:induction false} UndecidedBefore(fs: seq<Text>, f: Text)
    requires (forall i | 0 <= i < |fs| :: !Genuine(fs[i]) && !Failing(fs[i])) && Failing(f) && !Genuine(f)
    ensures First(fs + [f]) == Decided(f, Failed) && Concat(fs + [f]) == Concat(fs) + f
  {
    hide Genuine, Failing;
    if fs == [] {
      assert fs + [f] == [f] && [f][1..] == [];
    } else {
      assert (fs + [f])[1..] == fs[1..] + [f];
      UndecidedBefore(fs[1..], f);
    }
  }

  // ----- where a scan comes by

  /** How far one turn of the inner loop moves on; 0 where the loop ends or never ends. */
  function Advance(s: Text): (n: nat)
    requires s != []
    ensures n <= |s|
  {
    if StartsFrame(s) && |s| >= 9 && FullLength(s) <= |s| then
      if ParsePacket(s[..FullLength(s)]).Other? then FullLength(s) else 0
    else 1
  }

  /** The inner loop gets to the i-th byte of the buffer, and looks for a frame there. */
  ghost predicate Visited(s: Text, i: nat)
    decreases |s|
  {
    i == 0 || (s != [] && 0 < Advance(s) <= i && Visited(s[Advance(s)..], i - Advance(s)))
  }

  lemma {:induction false} VisitedScan(s: Text, i: nat)
    requires Visited(s, i)
    ensures i <= |s| && Scan(s) == Scan(s[i..])
    decreases |s|
  {
    hide ParsePacket;
    if i == 0 {
      assert s[0..] == s;
    } else {
      var n := Advance(s);
      VisitedScan(s[n..], i - n);
      assert s[n..][i-n..] == s[i..];
    }
  }

  predicate BadHeader(s: Text) {
    StartsFrame(s) && |s| >= 9 && Word(s[7], s[8]) == 0xFFF7
  }

  ghost predicate BadAt(s: Text, i: nat) {
    i <= |s| && Visited(s, i) && BadHeader(s[i..])
  }

  ghost predicate ComesToBad(s: Text) {
    exists i: nat :: BadAt(s, i)
  }

  /** Exactly when the receiver never gets past its buffer: the scan comes to a header that announces 0xFFF7 bytes,
   whose length wraps around to 0. Inside a frame that is skipped, or behind a decisive one, such a header does no harm.
   */
  lemma {:induction false} StuckIff(s: Text)
    ensures Scan(s).Stuck? <==> ComesToBad(s)
    decreases |s|
  {
    hide ComesToBad;
    if s == [] {
      NothingBad();
    } else if Advance(s) == 0 {
      OnlyHere(s);
    } else {
      StuckIff(s[Advance(s)..]);
      StuckLater(s);
    }
  }

  lemma NothingBad()
    ensures !ComesToBad([])
  {}

  lemma OnlyHere(s: Text)
    requires s != [] && Advance(s) == 0
    ensures Scan(s).Stuck? <==> BadHeader(s)
    ensures ComesToBad(s) <==> BadHeader(s)
  {
    assert s[0..] == s && s[..0] == [];
    assert BadHeader(s) ==> FullLength(s) == 0;
    assert BadAt(s, 0) <==> BadHeader(s);
    assert forall i: nat | BadAt(s, i) :: i == 0;
  }

  lemma AdvanceScan(s: Text)
    requires s != [] && Advance(s) > 0
    ensures Scan(s) == Scan(s[Advance(s)..])
  {
    hide ParsePacket;
  }

  lemma StuckLater(s: Text)
    requires s != [] && Advance(s) > 0
    ensures Scan(s) == Scan(s[Advance(s)..])
    ensures ComesToBad(s) <==> ComesToBad(s[Advance(s)..])
  {
    hide Scan, BadAt, Advance;
    var n := Advance(s);
    AdvanceScan(s);
    if ComesToBad(s) {
      var i: nat :| BadAt(s, i);
      BadLater(s, i);
      assert BadAt(s[n..], i - n);
    }
    if ComesToBad(s[n..]) {
      var i: nat :| BadAt(s[n..], i);
      BadLater(s, n + i);
      assert BadAt(s, n + i);
    }
  }

  lemma BadLater(s: Text, i: nat)
    requires s != [] && Advance(s) > 0
    ensures BadAt(s, i) <==> i >= Advance(s) && BadAt(s[Advance(s)..], i - Advance(s))
  {
    hide BadHeader, Advance;
    NotHere(s);
    if Advance(s) <= i <= |s| {
      assert s[Advance(s)..][i-Advance(s)..] == s[i..];
    }
  }

  lemma NotHere(s: Text)
    requires s != [] && Advance(s) > 0
    ensures !BadHeader(s) && !BadHeader(s[0..])
  {
    assert s[0..] == s && s[..0] == [];
  }

  lemma ScanOverFrame(f: Text, rest: Text)
    requires Frame(f) && ParsePacket(f).Other? && |f| < 0x1_0000
    ensures Scan(f + rest) == Scan(rest)
  {
    hide ParsePacket;
    var s := f + rest;
    assert s[..|f|] == f && s[|f|..] == rest;
  }

  lemma {:induction false} ScanOverFrames(fs: seq<Text>, tail: Text)
    requires Frames(fs) && First(fs).Undecided? && |Concat(fs)| < 0x1_0000
    ensures Scan(Concat(fs) + tail) == Scan(tail)
  {
    hide ParsePacket, Scan, Frame;
    if fs == [] {
      assert Concat(fs) + tail == tail;
    } else {
      hide Concat;
      ConcatHead(fs);
      FrameDecides(fs[0]);
      ScanOverFrame(fs[0], Concat(fs[1..]) + tail);
      assert Concat(fs) + tail == fs[0] + (Concat(fs[1..]) + tail);
      ScanOverFrames(fs[1..], tail);
    }
  }

  /** Whatever frames without a decision come before it, and however the polls cut it up: a stream with such a header
   behind them hangs the receiver as soon as the header is complete. */
  lemma {:induction false} BadHeaderHangs(fs: seq<Text>, bad: Text, buffer: Text, arrivals: seq<Text>)
    requires Frames(fs) && First(fs).Undecided? && |bad| == 9 && BadHeader(bad) && Quiet(bad[1..])
    requires |Concat(fs)| + 9 <= 224 && buffer + Concat(arrivals) == Concat(fs) + bad
    requires |buffer| < |Concat(fs)| + 9
    ensures Wait(buffer, [], arrivals) == Hung
    decreases |arrivals|
  {
    hide Scan, Frames, Frame, First, BadHeader, Quiet;
    var whole := Concat(fs) + bad;
    var available := [] + arrivals[0];
    assert available == arrivals[0];
    var filled := buffer + arrivals[0];
    assert filled + Concat(arrivals[1..]) == whole;
    assert available[..|available|] == available && available[|available|..] == [];
    if arrivals[0] == [] {
      BadHeaderHangs(fs, bad, buffer, arrivals[1..]);
    } else if |filled| == |whole| {
      assert filled == whole;
      ScanOverFrames(fs, bad);
      StuckAtOnce(bad);
    } else {
      ScanBefore(fs, bad, |filled|);
      assert filled == whole[..|filled|];
      BadHeaderHangs(fs, bad, filled, arrivals[1..]);
    }
  }

  lemma StuckAtOnce(s: Text)
    requires BadHeader(s)
    ensures Scan(s) == Stuck
  {
    assert s[..0] == [];
  }

  lemma {:induction false} ScanBefore(fs: seq<Text>, bad: Text, m: nat)
    requires Frames(fs) && First(fs).Undecided? && |bad| == 9 && Quiet(bad[1..])
    requires m < |Concat(fs)| + 9 <= 224
    ensures Scan((Concat(fs) + bad)[..m]) == Undecided
  {
    var whole := Concat(fs) + bad;
    if m <= |Concat(fs)| {
      assert whole[..m] == Concat(fs)[..m];
      ScanStream(fs, m);
    } else {
      var k := m - |Concat(fs)|;
      assert whole[..m] == Concat(fs) + bad[..k];
      ScanOverFrames(fs, bad[..k]);
      QuietPart(bad[1..], 0, k - 1);
      assert bad[..k][1..] == bad[1..][0..k-1];
      ScanQuiet(bad[..k][1..]);
    }
  }

  lemma ConcatHead(arrivals: seq<Text>)
    requires arrivals != []
    ensures Concat(arrivals) == arrivals[0] + Concat(arrivals[1..])
  {}
}
