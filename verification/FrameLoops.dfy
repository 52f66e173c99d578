/** The receiver of the fingerprint module as the program runs it. */
module FrameLoops {
  import opened Strings
  import opened Frames

  /** The accumulating loop of `verify_fingerprint_checksum`, in 16 bits. */
  method VerifyChecksum(packet: Text) returns (ok: bool)
    ensures ok <==> ChecksumHolds(packet)
  {
    if |packet| < 12 {
      return false;
    }
    var checksum: nat := 0;
    var received := Word(packet[|packet|-2], packet[|packet|-1]);
    var i := 6;
    while i < |packet| - 2
      invariant 6 <= i <= |packet| - 2 && checksum == Sum(packet[6..i]) % 0x1_0000
    {
      checksum := (checksum + packet[i]) % 0x1_0000;
      assert packet[6..i + 1][..i - 6] == packet[6..i];
      i := i + 1;
    }
    ok := checksum == received;
  }

  /** `parse_fingerprint_packet`. */
  method ExaminePacket(packet: Text) returns (verdict: Verdict)
    ensures verdict == ParsePacket(packet)
  {
    if |packet| < 17 {
      return Other;
    }
    if packet[0] != 0xEF || packet[1] != 0x01 || packet[6] != 0x07 {
      return Other;
    }
    if Word(packet[7], packet[8]) != 0x0008 {
      return Other;
    }
    var intact := VerifyChecksum(packet);
    if !intact {
      return Other;
    }
    var confirmCode, param := packet[9], packet[10];
    if confirmCode == 0x00 && param == 0x05 {
      var fingerId, matchScore := Word(packet[11], packet[12]), Word(packet[13], packet[14]);
      return if fingerId == 0xFFFF then Failed else Success(fingerId, matchScore);
    }
    return if confirmCode == 0x00 then Other else Failed;
  }

  /** The rescanning loop of `finger_wait_response_once`. A turn that makes no progress is reported: the loop would
   take the same turn for ever. */
  method ScanBuffer(buffer: array<Byte>, totalRead: nat) returns (found: Found)
    requires totalRead <= buffer.Length
    ensures found == Scan(buffer[..totalRead])
  {
    hide Scan, ParsePacket;
    var pos := 0;
    while pos < totalRead
      invariant pos <= totalRead && Scan(buffer[pos..totalRead]) == Scan(buffer[..totalRead])
    {
      ghost var s := buffer[pos..totalRead];
      ScanStep(s);
      assert s[1..] == buffer[pos + 1..totalRead];
      if pos + 1 < totalRead && buffer[pos] == HEADER_HIGH && buffer[pos + 1] == HEADER_LOW && pos + 8 < totalRead {
        var full := (9 + Word(buffer[pos + 7], buffer[pos + 8])) % 0x1_0000;
        assert full == FullLength(s);
        if pos + full <= totalRead {
          var packet := buffer[pos..pos + full];
          assert packet == s[..full];
          assert s[full..] == buffer[pos + full..totalRead];
          var verdict := ExaminePacket(packet);
          if !verdict.Other? {
            return Decided(packet, verdict);
          }
          if full == 0 {
            return Stuck;
          }
          pos := pos + full;
          continue;
        }
      }
      pos := pos + 1;
    }
    assert buffer[pos..totalRead] == [];
    ScanNothing();
    found := Undecided;
  }

  lemma ScanNothing()
    ensures Scan([]) == Undecided
  {}

  lemma ScanStep(s: Text)
    requires s != []
    ensures if StartsFrame(s) && |s| >= 9 && FullLength(s) <= |s| then
        var full := FullLength(s);
        Scan(s) == if !ParsePacket(s[..full]).Other? then Decided(s[..full], ParsePacket(s[..full]))
                   else if full == 0 then Stuck else Scan(s[full..])
      else Scan(s) == Scan(s[1..])
  {}

  /** `finger_wait_response_once`, with what waits at the driver and what arrives at each poll until the timeout. */
  method WaitResponseOnce(pending: Text, arrivals: seq<Text>) returns (response: Response)
    ensures response == Wait([], pending, arrivals)
  {
    hide Scan;
    var buffer := new Byte[BUFFER_SIZE];
    var totalRead := 0;
    var queue := pending;
    var polls := arrivals;
    assert buffer[..0] == [];
    while polls != []
      invariant totalRead <= 224 && buffer.Length == BUFFER_SIZE
      invariant Wait(buffer[..totalRead], queue, polls) == Wait([], pending, arrivals)
      decreases |polls|
    {
      var available := queue + polls[0];
      var readLen := if |available| <= BUFFER_SIZE - totalRead then |available| else BUFFER_SIZE - totalRead;
      ghost var before := buffer[..totalRead];
      forall i | 0 <= i < readLen {
        buffer[totalRead + i] := available[i];
      }
      assert buffer[..totalRead + readLen] == before + available[..readLen];
      queue := available[readLen..];
      if readLen > 0 {
        totalRead := totalRead + readLen;
        var found := ScanBuffer(buffer, totalRead);
        if found.Decided? {
          return if found.verdict.Success? then Matched(found.packet, found.verdict.id) else NotMatched;
        }
        if found.Stuck? {
          return Hung;
        }
        if totalRead > 224 {
          totalRead := 0;
          assert buffer[..0] == [];
        }
      } else {
        assert available[..0] == [] && available[0..] == available && before + [] == before;
      }
      polls := polls[1..];
    }
    response := NotMatched;
  }
}
