/** Which keys `decode_pointer_inplace` gives back after `encode_string_as_pointer`. */
module PointerDecoding {
  import opened Strings
  import opened Pointer

  lemma {:induction false} EncodeIsLonger(k: Text)
    ensures |Encode(k)| >= |k|
  {
    if k != [] {
      EncodeIsLonger(k[1..]);
    }
  }

  /** The byte left at index i once the escaped form of k has been decoded in place. */
  ghost function Landed(k: Text, i: nat): Byte
    requires i < |k|
  {
    EncodeIsLonger(k);
    if k[i] == TILDE then TILDE
    else if i > 0 && k[i-1] == SLASH then SLASH
    else Encode(k)[i]
  }

  /** The buffer after w bytes of k have been decoded and r bytes of its escaped form read. */
  ghost predicate Halfway(k: Text, buffer: Text, r: nat, w: nat) {
    var e := Encode(k);
    && |buffer| == |e|
    && w <= |k| && w <= r <= |e|
    && e[r..] == Encode(k[w..]) && buffer[r..] == e[r..]
    && (forall i | 0 <= i < w :: buffer[i] == Landed(k, i))
    && (forall i | w < i < r :: buffer[i] == e[i])
    && (w > 0 && k[w-1] == SLASH ==> w < r && buffer[w] == SLASH)
    && (w < r && !(w > 0 && k[w-1] == SLASH) ==> buffer[w] == e[w])
  }

  lemma StepOver(k: Text, buffer: Text, r: nat, w: nat)
    requires Halfway(k, buffer, r, w) && w < |k| && k[w] != TILDE && k[w] != SLASH
    ensures r < |buffer| && buffer[r] == k[w] && Halfway(k, buffer, r + 1, w + 1)
  {
    var e := Encode(k);
    assert k[w..][0] == k[w] && k[w..][1..] == k[w+1..];
    assert e[r] == e[r..][0] == k[w] && buffer[r] == buffer[r..][0];
    assert e[r+1..] == e[r..][1..] == Encode(k[w+1..]);
    assert buffer[r+1..] == buffer[r..][1..];
    assert buffer[w] == Landed(k, w);
  }

  lemma StepTilde(k: Text, buffer: Text, r: nat, w: nat)
    requires Halfway(k, buffer, r, w) && w < |k| && k[w] == TILDE
    ensures r + 1 < |buffer| && buffer[r] == TILDE && buffer[r+1] == ZERO
    ensures Halfway(k, buffer[w := TILDE], r + 2, w + 1)
  {
    EscapeAhead(k, buffer, r, w);
  }

  lemma StepSlash(k: Text, buffer: Text, r: nat, w: nat)
    requires Halfway(k, buffer, r, w) && w < |k| && k[w] == SLASH
    ensures r + 1 < |buffer| && buffer[r] == TILDE && buffer[r+1] == ONE
    ensures Halfway(k, buffer[w+1 := SLASH], r + 2, w + 1)
  {
    EscapeAhead(k, buffer, r, w);
    assert buffer[w] == Landed(k, w);
  }

  lemma Split(b: Text, r: nat, x: Text, y: Text)
    requires r <= |b| && b[r..] == x + y && |x| == 2
    ensures r + 2 <= |b| && b[r] == x[0] && b[r+1] == x[1] && b[r+2..] == y
  {
    assert b[r] == b[r..][0] && b[r+1] == b[r..][1];
    assert b[r+2..] == b[r..][2..];
  }

  lemma EscapeAhead(k: Text, buffer: Text, r: nat, w: nat)
    requires Halfway(k, buffer, r, w) && w < |k| && (k[w] == TILDE || k[w] == SLASH)
    ensures r + 1 < |buffer| && Encode(k)[r+2..] == Encode(k[w+1..]) && buffer[r+2..] == Encode(k)[r+2..]
    ensures buffer[r] == TILDE && buffer[r+1] == if k[w] == TILDE then ZERO else ONE
    ensures buffer[r] == Encode(k)[r] && buffer[r+1] == Encode(k)[r+1]
  {
    assert k[w..][0] == k[w] && k[w..][1..] == k[w+1..];
    assert Encode(k[w..]) == EncodeByte(k[w]) + Encode(k[w+1..]);
    Split(Encode(k), r, EncodeByte(k[w]), Encode(k[w+1..]));
    Split(buffer, r, EncodeByte(k[w]), Encode(k[w+1..]));
  }

  ghost predicate Lands(k: Text, d: Text) {
    |d| == |k| && forall i | 0 <= i < |k| :: d[i] == Landed(k, i)
  }

  lemma HalfwayDone(k: Text, buffer: Text, r: nat, w: nat)
    requires Halfway(k, buffer, r, w) && w == |k|
    ensures r == |buffer| && Lands(k, buffer[..w])
  {
    assert k[w..] == [];
  }

  lemma DecodeUnfold(buffer: Text, r: nat, w: nat)
    requires w <= r < |buffer|
    ensures buffer[r] != TILDE ==> DecodeLoop(buffer, r, w) == DecodeLoop(buffer, r + 1, w + 1)
    ensures buffer[r] == TILDE && r + 1 < |buffer| && buffer[r+1] == ZERO ==>
      DecodeLoop(buffer, r, w) == DecodeLoop(buffer[w := TILDE], r + 2, w + 1)
    ensures buffer[r] == TILDE && r + 1 < |buffer| && buffer[r+1] == ONE ==>
      DecodeLoop(buffer, r, w) == DecodeLoop(buffer[w+1 := SLASH], r + 2, w + 1)
  {}

  lemma HalfwayBounds(k: Text, buffer: Text, r: nat, w: nat)
    requires Halfway(k, buffer, r, w)
    ensures w <= r <= |buffer|
  {}

  lemma Step(k: Text, buffer: Text, r: nat, w: nat) returns (buffer': Text, r': nat)
    requires Halfway(k, buffer, r, w) && w < |k|
    ensures Halfway(k, buffer', r', w + 1)
    ensures w + 1 <= r' <= |buffer'| && w <= r <= |buffer|
    ensures DecodeLoop(buffer, r, w) == DecodeLoop(buffer', r', w + 1)
  {
    hide Halfway, DecodeLoop;
    HalfwayBounds(k, buffer, r, w);
    if k[w] == TILDE {
      StepTilde(k, buffer, r, w);
      buffer', r' := buffer[w := TILDE], r + 2;
    } else if k[w] == SLASH {
      StepSlash(k, buffer, r, w);
      buffer', r' := buffer[w+1 := SLASH], r + 2;
    } else {
      StepOver(k, buffer, r, w);
      buffer', r' := buffer, r + 1;
    }
    DecodeUnfold(buffer, r, w);
    HalfwayBounds(k, buffer', r', w + 1);
  }

  lemma {:induction false} DecodeLands(k: Text, buffer: Text, r: nat, w: nat)
    requires Halfway(k, buffer, r, w)
    ensures Lands(k, DecodeLoop(buffer, r, w))
    decreases |k| - w
  {
    if w == |k| {
      HalfwayDone(k, buffer, r, w);
    } else {
      var buffer', r' := Step(k, buffer, r, w);
      DecodeLands(k, buffer', r', w + 1);
    }
  }

  /** Decoding the escaped form of k: every byte of the outcome. */
  lemma DecodeEncoded(k: Text)
    ensures Lands(k, DecodeInPlace(Encode(k)))
  {
    assert Encode(k)[0..] == Encode(k) && k[0..] == k;
    DecodeLands(k, Encode(k), 0, 0);
  }

  /**
   A key without `/` whose ordinary bytes all sit where its escaped form has them too:
   in particular every key without `/` and without `~`.
   */
  predicate Survives(k: Text) {
    EncodeIsLonger(k);
    SLASH !in k && forall i | 0 <= i < |k| :: k[i] == TILDE || k[i] == Encode(k)[i]
  }

  lemma EncodedAvoidsSlash(k: Text)
    ensures SLASH !in Encode(k)
  {
    if k != [] {
      EncodedAvoidsSlash(k[1..]);
    }
  }

  lemma SlashFails(k: Text)
    requires SLASH in k
    ensures DecodeInPlace(Encode(k)) != k
  {
    DecodeEncoded(k);
    EncodedAvoidsSlash(k);
    EncodeIsLonger(k);
    var i := FirstSlash(k);
    assert Landed(k, i) == Encode(k)[i];
  }

  /** The in-place decoder undoes the encoder on exactly these keys. */
  lemma DecodeUndoesEncode(k: Text)
    ensures DecodeInPlace(Encode(k)) == k <==> Survives(k)
  {
    if SLASH in k {
      SlashFails(k);
    } else {
      DecodeEncoded(k);
      var d := DecodeInPlace(Encode(k));
      assert forall i | 0 <= i < |k| :: d[i] == Landed(k, i);
    }
  }

  ghost function FirstSlash(k: Text): (i: nat)
    requires SLASH in k
    ensures i < |k| && k[i] == SLASH && SLASH !in k[..i]
  {
    if k[0] == SLASH then 0 else
      assert k[1..][..FirstSlash(k[1..])] == k[1..1+FirstSlash(k[1..])];
      assert k[..1+FirstSlash(k[1..])] == [k[0]] + k[1..1+FirstSlash(k[1..])];
      1 + FirstSlash(k[1..])
  }

  lemma {:induction false} EncodePlain(k: Text)
    requires SLASH !in k && TILDE !in k
    ensures Encode(k) == k
  {
    if k != [] {
      EncodePlain(k[1..]);
    }
  }

  lemma PlainSurvives(k: Text)
    requires SLASH !in k && TILDE !in k
    ensures Survives(k)
  {
    EncodePlain(k);
  }

  /** RFC 6901, section 6: the name a pointer token stands for is not always what the decoder yields. */
  lemma SlashIsLost()
    ensures DecodeInPlace(Encode([97, SLASH, 98])) == [97, TILDE, SLASH]
  {
    var k := [97, SLASH, 98];
    DecodeEncoded(k);
    assert Encode(k[1..]) == [TILDE, ONE] + Encode(k[2..]);
    assert Encode(k) == [97, TILDE, ONE] + Encode(k[2..]);
    var d := DecodeInPlace(Encode(k));
    assert d[0] == 97 && d[1] == TILDE && d[2] == SLASH;
  }
}
