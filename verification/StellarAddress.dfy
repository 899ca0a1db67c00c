/** The checksum part of decoding a Stellar public key (SEP-0023): which altered
    addresses it turns away. */
module StellarAddress {
  import opened MachineInts
  import opened Crc16

  datatype AddressError = BadLength | BadChecksum

  /** What is left to do once base32 is decoded: version byte, 32 key bytes, checksum. */
  function DecodePayload(decoded: seq<Byte>): Outcome<seq<Byte>, AddressError> {
    if |decoded| != 35 then Err(BadLength)
    else if decoded[33..35] != Checksum(decoded[..33]) then Err(BadChecksum)
    else Ok(decoded[1..33])
  }

  method DecodeStellarPublicKey(decoded: seq<Byte>) returns (r: Outcome<seq<Byte>, AddressError>)
    ensures r == DecodePayload(decoded)
    ensures r.Ok? <==> |decoded| == 35 && Crc(Codeword(decoded)) == 0
    ensures r.Ok? ==> |r.value| == 32 && decoded == Encoded(decoded[0], r.value)
  {
    KeyIsInside(decoded);
    if |decoded| != 35 {
      return Err(BadLength);
    }
    AcceptedExactly(decoded);
    var calculated := Crc16Xmodem(decoded[..33]);
    if decoded[33..35] != calculated {
      return Err(BadChecksum);
    }
    r := Ok(decoded[1..33]);
  }

  // ----- the key that is returned

  /** A version byte and a key as an address carries them. */
  function Encoded(version: Byte, key: seq<Byte>): seq<Byte> {
    [version] + key + Checksum([version] + key)
  }

  /** What is returned is the 32 bytes between the version byte and a checksum of both. */
  lemma KeyIsInside(decoded: seq<Byte>)
    ensures var r := DecodePayload(decoded);
            && (r == Err(BadLength) <==> |decoded| != 35)
            && (r.Ok? ==> |r.value| == 32 && decoded == Encoded(decoded[0], r.value))
  {
    hide Checksum;
    if DecodePayload(decoded).Ok? {
      assert decoded[..33] == [decoded[0]] + decoded[1..33];
      assert decoded == decoded[..33] + decoded[33..35];
    }
  }

  /** Decoding gives every 32-byte key back, whatever the version byte. */
  lemma DecodesEncoded(version: Byte, key: seq<Byte>)
    requires |key| == 32
    ensures DecodePayload(Encoded(version, key)) == Ok(key)
  {
    hide Checksum;
    var d := Encoded(version, key);
    assert |Checksum([version] + key)| == 2 by { ChecksumLength([version] + key); }
    assert d[..33] == [version] + key && d[33..35] == Checksum([version] + key) && d[1..33] == key;
  }

  lemma ChecksumLength(data: seq<Byte>)
    ensures |Checksum(data)| == 2
  {
  }

  // ----- an accepted address is a multiple of the generator

  /** Payload and checksum in the order the division reads them: high byte first. */
  function Codeword(d: seq<Byte>): seq<Byte>
    requires |d| == 35
  {
    d[..33] + [d[34], d[33]]
  }

  lemma {:induction false} AllBitsJoin(a: seq<Byte>, b: seq<Byte>)
    ensures AllBits(a + b) == AllBits(a) + AllBits(b)
  {
    hide Bits;
    if b == [] {
      assert a + b == a;
    } else {
      var front := b[..|b| - 1];
      AllBitsJoin(a, front);
      assert (a + b)[..|a + b| - 1] == a + front;
      var x, y, z := AllBits(a), AllBits(front), Bits(b[|b| - 1]);
      assert (x + y) + z == x + (y + z);
    }
  }

  lemma OwnHigh(r: Word)
    ensures r ^ ((High(r) as Word) << 8) == r & 0xFF
  {
  }

  lemma OwnLow(r: Word)
    ensures ((r & 0xFF) << 8) ^ ((Low(r) as Word) << 8) == 0
  {
  }

  lemma LowHalfShifts(w: Word)
    requires w & 0xFF00 == 0
    ensures Shift(w) == w << 1 && Shift(w << 1) == w << 2 && Shift(w << 2) == w << 3 && Shift(w << 3) == w << 4
    ensures Shift(w << 4) == w << 5 && Shift(w << 5) == w << 6 && Shift(w << 6) == w << 7 && Shift(w << 7) == w << 8
  {
  }

  lemma EightRounds(w: Word)
    ensures Rounds(w, 8) == Shift(Shift(Shift(Shift(Shift(Shift(Shift(Shift(w))))))))
  {
    hide Shift;
    hide Rounds;
    NextRound(w, 0);
    NextRound(w, 1);
    NextRound(w, 2);
    NextRound(w, 3);
    NextRound(w, 4);
    NextRound(w, 5);
    NextRound(w, 6);
    NextRound(w, 7);
  }

  lemma NextRound(w: Word, k: nat)
    ensures Rounds(w, 0) == w && Rounds(w, k + 1) == Shift(Rounds(w, k))
  {
  }

  /** A register divided by itself, high byte first, leaves nothing. */
  lemma OwnRegister(r: Word)
    ensures Update(Update(r, High(r)), Low(r)) == 0
  {
    hide Shift;
    hide Rounds;
    hide High;
    hide Low;
    var w := r & 0xFF;
    OwnHigh(r);
    OwnLow(r);
    EightRounds(w);
    EightRounds(0);
    LowHalfShifts(w);
    LowHalfShifts(0);
  }

  lemma {:induction false} AllBitsInjective(a: seq<Byte>, b: seq<Byte>)
    requires |a| == |b| && AllBits(a) == AllBits(b)
    ensures a == b
  {
    hide Bits;
    if a != [] {
      var n := |a| - 1;
      assert AllBits(a)[..8 * n] == AllBits(b)[..8 * n];
      assert AllBits(a)[8 * n..] == AllBits(b)[8 * n..];
      AllBitsInjective(a[..n], b[..n]);
      BitsInjective(a[n], b[n]);
      assert a == a[..n] + [a[n]] && b == b[..n] + [b[n]];
    }
  }

  /** Appending two bytes makes the whole divide evenly exactly when they are the checksum. */
  lemma TrailerExactly(data: seq<Byte>, h: Byte, l: Byte)
    ensures Crc(data + [h, l]) == 0 <==> [l, h] == Checksum(data)
  {
    hide Update;
    hide Low;
    hide High;
    var own := [High(Crc(data)), Low(Crc(data))];
    CrcOfTwoMore(data, High(Crc(data)), Low(Crc(data)));
    CrcOfTwoMore(data, h, l);
    OwnRegister(Crc(data));
    if Crc(data + [h, l]) == 0 && [h, l] != own {
      BytesDiffer(data + [h, l], data + own, |data|, 2);
    }
  }

  lemma CrcOfOneMore(data: seq<Byte>, b: Byte)
    ensures Crc(data + [b]) == Update(Crc(data), b)
  {
    hide Update;
    assert (data + [b])[..|data|] == data;
  }

  lemma CrcOfTwoMore(data: seq<Byte>, h: Byte, l: Byte)
    ensures Crc(data + [h, l]) == Update(Update(Crc(data), h), l)
  {
    hide *;
    assert data + [h, l] == (data + [h]) + [l];
    CrcOfOneMore(data, h);
    CrcOfOneMore(data + [h], l);
  }

  lemma AcceptedExactly(d: seq<Byte>)
    requires |d| == 35
    ensures DecodePayload(d).Ok? <==> Crc(Codeword(d)) == 0
  {
    TrailerExactly(d[..33], d[34], d[33]);
    assert d[33..35] == [d[33], d[34]];
  }

  // ----- what changes a checksum

  /** Changes within two neighbouring bytes change the checksum. */
  lemma BytesDiffer(a: seq<Byte>, b: seq<Byte>, i: nat, n: nat)
    requires |a| == |b| && i + n <= |a| && n <= 2 && a != b
    requires a[..i] == b[..i] && a[i + n..] == b[i + n..]
    ensures Crc(a) != Crc(b)
  {
    hide Bits;
    hide Feed;
    CrcIsRemainder(a);
    CrcIsRemainder(b);
    BitsDifferWithin(a, b, i, n);
    BurstDetected(AllBits(a), AllBits(b), 8 * i, 8 * n);
  }

  lemma BitsDifferWithin(a: seq<Byte>, b: seq<Byte>, i: nat, n: nat)
    requires |a| == |b| && i + n <= |a| && a != b
    requires a[..i] == b[..i] && a[i + n..] == b[i + n..]
    ensures DifferWithin(AllBits(a), AllBits(b), 8 * i, 8 * n)
  {
    hide Bits;
    hide AllBits;
    Split(a, i);
    Split(b, i);
    Split(a, i + n);
    Split(b, i + n);
    if AllBits(a) == AllBits(b) {
      AllBitsInjective(a, b);
    }
  }

  lemma Split(a: seq<Byte>, k: nat)
    requires k <= |a|
    ensures AllBits(a)[..8 * k] == AllBits(a[..k]) && AllBits(a)[8 * k..] == AllBits(a[k..])
  {
    hide AllBits;
    AllBitsJoin(a[..k], a[k..]);
    assert a == a[..k] + a[k..];
    var x, y := AllBits(a[..k]), AllBits(a[k..]);
    assert (x + y)[..|x|] == x && (x + y)[|x|..] == y;
  }

  /** One changed byte changes the checksum of any input. */
  lemma OneByteDetected(data: seq<Byte>, i: nat, b: Byte)
    requires i < |data| && b != data[i]
    ensures Checksum(data[i := b]) != Checksum(data)
  {
    hide Crc;
    hide Low;
    hide High;
    var changed := data[i := b];
    var l, h := Low(Crc(data)), High(Crc(data));
    TrailerExactly(data, h, l);
    TrailerExactly(changed, h, l);
    var whole := data + [h, l];
    assert changed + [h, l] == whole[i := b];
    assert whole[i := b][..i] == whole[..i] && whole[i := b][i + 1..] == whole[i + 1..] && whole[i := b][i] != whole[i];
    BytesDiffer(whole, whole[i := b], i, 1);
  }

  // ----- the parity of the bits

  predicate Odd(a: bool, b: bool, c: bool, d: bool) { (a != b) != (c != d) }

  /** Whether a word has an odd number of ones. */
  predicate Parity(w: Word) {
    Odd(Odd(w & 0x8000 != 0, w & 0x4000 != 0, w & 0x2000 != 0, w & 0x1000 != 0),
        Odd(w & 0x800 != 0, w & 0x400 != 0, w & 0x200 != 0, w & 0x100 != 0),
        Odd(w & 0x80 != 0, w & 0x40 != 0, w & 0x20 != 0, w & 0x10 != 0),
        Odd(w & 8 != 0, w & 4 != 0, w & 2 != 0, w & 1 != 0))
  }

  function Ones(bits: seq<bool>): nat {
    if bits == [] then 0 else Ones(bits[..|bits| - 1]) + if bits[|bits| - 1] then 1 else 0
  }

  lemma ParityShiftsLow(w: Word)
    requires w & 0x8000 == 0
    ensures Parity(w << 1) == Parity(w)
  {
  }

  lemma ParityShiftsHigh(w: Word)
    requires w & 0x8000 != 0
    ensures Parity((w << 1) ^ 0x1021) == Parity(w)
  {
  }

  /** The generator has an even number of terms, so a round keeps the parity. */
  lemma ParityOfShift(w: Word)
    ensures Parity(Shift(w)) == Parity(w)
  {
    hide Parity;
    if w & 0x8000 == 0 {
      ParityShiftsLow(w);
    } else {
      ParityShiftsHigh(w);
    }
  }

  lemma ParityOfTop(w: Word, bit: bool)
    ensures Parity(Xor(w, Top(bit))) == (Parity(w) != bit)
  {
    hide Parity;
    if bit {
      ParityFlips(w);
    } else {
      XorZero(w, 0);
    }
  }

  lemma ParityFlips(w: Word)
    ensures Parity(w ^ 0x8000) != Parity(w)
  {
  }

  lemma {:induction false} ParityOfFeed(bits: seq<bool>)
    ensures Parity(Feed(0, bits)) <==> Ones(bits) % 2 == 1
  {
    hide Parity;
    hide Shift;
    hide Xor;
    hide Top;
    if bits == [] {
      assert !Parity(0) by { ParityOfZero(); }
    } else {
      var n := |bits| - 1;
      ParityOfFeed(bits[..n]);
      ParityOfShift(Xor(Feed(0, bits[..n]), Top(bits[n])));
      ParityOfTop(Feed(0, bits[..n]), bits[n]);
    }
  }

  lemma ParityOfZero()
    ensures !Parity(0)
  {
  }

  /** An odd number of flipped bits changes the remainder. */
  lemma OddDetected(a: seq<bool>, b: seq<bool>)
    requires |a| == |b| && Ones(Diff(a, b)) % 2 == 1
    ensures Feed(0, a) != Feed(0, b)
  {
    hide Parity;
    hide Xor;
    hide Feed;
    FeedLinear(0, a, 0, b);
    XorZero(0, 0);
    XorZero(Feed(0, a), Feed(0, b));
    ParityOfFeed(Diff(a, b));
    ParityOfZero();
  }

  // ----- altered addresses

  /** No burst of up to 16 bits turns one accepted address into another, when bits are
      counted with the two checksum bytes swapped, as the division reads them. */
  lemma CodewordBurstRejected(d: seq<Byte>, d': seq<Byte>, p: nat, w: nat)
    requires DecodePayload(d).Ok? && |d'| == 35
    requires w <= 16 && p + w <= |AllBits(Codeword(d))|
    requires DifferWithin(AllBits(Codeword(d)), AllBits(Codeword(d')), p, w)
    ensures DecodePayload(d') == Err(BadChecksum)
  {
    hide Crc;
    hide Feed;
    hide Bits;
    AcceptedExactly(d);
    AcceptedExactly(d');
    CrcIsRemainder(Codeword(d));
    CrcIsRemainder(Codeword(d'));
    BurstDetected(AllBits(Codeword(d)), AllBits(Codeword(d')), p, w);
  }

  /** Nor does any odd number of flipped bits, in whatever order. */
  lemma OddRejected(d: seq<Byte>, d': seq<Byte>)
    requires DecodePayload(d).Ok? && |d'| == 35
    requires Ones(Diff(AllBits(Codeword(d)), AllBits(Codeword(d')))) % 2 == 1
    ensures DecodePayload(d') == Err(BadChecksum)
  {
    hide Crc;
    hide Feed;
    hide Bits;
    AcceptedExactly(d);
    AcceptedExactly(d');
    CrcIsRemainder(Codeword(d));
    CrcIsRemainder(Codeword(d'));
    OddDetected(AllBits(Codeword(d)), AllBits(Codeword(d')));
  }

  /** Any one altered byte of an accepted address, key or checksum, makes it rejected. */
  lemma AlteredByteRejected(d: seq<Byte>, i: nat, b: Byte)
    requires DecodePayload(d).Ok? && i < 35 && b != d[i]
    ensures DecodePayload(d[i := b]) == Err(BadChecksum)
  {
    hide Bits;
    var c, c' := Codeword(d), Codeword(d[i := b]);
    var k := if i < 33 then i else 67 - i;
    assert c' == c[k := b];
    assert c'[..k] == c[..k] && c'[k + 1..] == c[k + 1..] && c[k] != c'[k];
    BitsDifferWithin(c, c', k, 1);
    CodewordBurstRejected(d, d[i := b], 8 * k, 8);
  }
}
