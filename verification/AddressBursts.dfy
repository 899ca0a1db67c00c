/** Bursts of flipped bits in an address, counted in the order in which it is sent. The
    checksum is stored low byte first, so a burst across the border between payload and
    checksum is not one burst to the division, and a few such bursts cancel out. */
module AddressBursts {
  import opened MachineInts
  import opened Crc16
  import opened StellarAddress

  function XorByte(a: Byte, b: Byte): Byte { a ^ b }

  /** Checksum bytes as a word, first byte on top. */
  function Join(h: Byte, l: Byte): Word { ((h as Word) << 8) | (l as Word) }

  /** The two differences in the last four bytes: of the payload's last two, and of the
      stored checksum, in the order of the address. */
  function TailDiff(d: seq<Byte>, d': seq<Byte>): (Word, Word)
    requires |d| == |d'| == 35
  {
    (Join(XorByte(d[31], d'[31]), XorByte(d[32], d'[32])), Join(XorByte(d[33], d'[33]), XorByte(d[34], d'[34])))
  }

  /** Bursts across the border between payload and checksum that cancel out, because the
      address stores the checksum low byte first. */
  predicate Listed(x: Word, t: Word) {
    || (x == 0x1 && t == 0x2110) || (x == 0x2 && t == 0x4220) || (x == 0x3 && t == 0x6330)
    || (x == 0x4 && t == 0x8440) || (x == 0x5 && t == 0xA550) || (x == 0x6 && t == 0xC660)
    || (x == 0x7 && t == 0xE770) || (x == 0x89 && t == 0xA100) || (x == 0x235 && t == 0x9400)
    || (x == 0x8C5 && t == 0x4000) || (x == 0x118A && t == 0x8000) || (x == 0x194F && t == 0xC000)
  }

  function Eight(w: Word): Word { Shift(Shift(Shift(Shift(Shift(Shift(Shift(Shift(w)))))))) }

  function Swap(w: Word): Word { (w << 8) | (w >> 8) }

  lemma RoundsLinear(a: Word, b: Word)
    ensures Eight(Xor(a, b)) == Xor(Eight(a), Eight(b))
  {
    hide Shift;
    hide Xor;
    ShiftTwice(a, b);
    var a2, b2 := Shift(Shift(a)), Shift(Shift(b));
    ShiftTwice(a2, b2);
    var a4, b4 := Shift(Shift(a2)), Shift(Shift(b2));
    ShiftTwice(a4, b4);
    ShiftTwice(Shift(Shift(a4)), Shift(Shift(b4)));
  }

  lemma ShiftTwice(a: Word, b: Word)
    ensures Shift(Shift(Xor(a, b))) == Xor(Shift(Shift(a)), Shift(Shift(b)))
  {
    hide Shift;
    hide Xor;
    ShiftLinear(a, b);
    ShiftLinear(Shift(a), Shift(b));
  }

  lemma HighXor(b: Byte, c: Byte)
    ensures Xor((b as Word) << 8, (c as Word) << 8) == (XorByte(b, c) as Word) << 8
  {
  }

  /** The update by one byte is linear. */
  lemma UpdateLinear(r: Word, b: Byte, q: Word, c: Byte)
    ensures Xor(Update(r, b), Update(q, c)) == Update(Xor(r, q), XorByte(b, c))
  {
    hide Shift;
    hide XorByte;
    hide Xor;
    hide Rounds;
    var x, y := (b as Word) << 8, (c as Word) << 8;
    HighXor(b, c);
    EightRounds(Xor(r, x));
    EightRounds(Xor(q, y));
    EightRounds(Xor(Xor(r, q), Xor(x, y)));
    RoundsLinear(Xor(r, x), Xor(q, y));
    XorAssociative(Xor(r, x), q, y);
    XorSwap(r, q, x);
    XorAssociative(Xor(r, q), x, y);
    hide Eight;
  }

  lemma LowEight(c: Byte)
    ensures Eight(c as Word) == (c as Word) << 8
  {
    hide Shift;
    LowHalfShifts(c as Word);
  }

  lemma JoinXor(h: Byte, l: Byte)
    ensures Join(h, l) == Xor((h as Word) << 8, l as Word)
    ensures Xor(0, (h as Word) << 8) == (h as Word) << 8
  {
  }

  /** Two bytes from an empty register are sixteen rounds of the word they make. */
  lemma TwoBytes(h: Byte, l: Byte)
    ensures Update(Update(0, h), l) == Eight(Eight(Join(h, l)))
  {
    hide Shift;
    hide Xor;
    hide Rounds;
    hide Join;
    var x := (h as Word) << 8;
    JoinXor(h, l);
    EightRounds(x);
    RoundsLinear(x, l as Word);
    LowEight(l);
    EightRounds(Xor(Eight(x), (l as Word) << 8));
    assert Update(0, h) == Eight(x);
    assert Eight(Join(h, l)) == Xor(Eight(x), (l as Word) << 8);
  }

  /** How far apart two more bytes take the same register. */
  lemma RegisterDiff(r: Word, b: Byte, c: Byte, b': Byte, c': Byte)
    ensures Xor(Update(Update(r, b), c), Update(Update(r, b'), c')) == Eight(Eight(Join(XorByte(b, b'), XorByte(c, c'))))
  {
    hide *;
    UpdateLinear(r, b, r, b');
    XorZero(r, r);
    UpdateLinear(Update(r, b), c, Update(r, b'), c');
    TwoBytes(XorByte(b, b'), XorByte(c, c'));
  }

  lemma JoinParts(r: Word, h: Byte, l: Byte)
    ensures Join(High(r), Low(r)) == r
    ensures (l == Low(r) && h == High(r)) <==> r == Join(h, l)
    ensures Swap(Join(l, h)) == Join(h, l)
  {
  }

  lemma HighDistributes(a: Byte, b: Byte)
    ensures (XorByte(a, b) as Word) == Xor(a as Word, b as Word)
  {
  }

  lemma JoinDistributes(a: Byte, b: Byte, c: Byte, e: Byte)
    ensures Join(XorByte(a, c), XorByte(b, e)) == Xor(Join(a, b), Join(c, e))
  {
    hide XorByte;
    hide Xor;
    hide Join;
    JoinXor(a, b);
    JoinXor(c, e);
    JoinXor(XorByte(a, c), XorByte(b, e));
    HighXor(a, c);
    HighDistributes(b, e);
    var x, y, z, w := (a as Word) << 8, b as Word, (c as Word) << 8, e as Word;
    XorAssociative(Xor(x, y), z, w);
    XorSwap(x, z, y);
    XorAssociative(Xor(x, z), y, w);
  }

  lemma XorSame(r: Word, a: Word, b: Word)
    ensures Xor(r, a) == Xor(r, b) <==> a == b
  {
    hide Xor;
    XorAssociative(r, r, a);
    XorAssociative(r, r, b);
    XorGroup(r, r);
    XorGroup(0, a);
    XorGroup(0, b);
    XorGroup(a, 0);
    XorGroup(b, 0);
  }

  /** A stored checksum stays right exactly when it changes as the register does. */
  lemma StoredDiff(r: Word, r': Word, l': Byte, h': Byte)
    ensures (l' == Low(r') && h' == High(r')) <==> Xor(r, r') == Swap(Join(XorByte(Low(r), l'), XorByte(High(r), h')))
  {
    hide *;
    JoinParts(r, High(r), Low(r));
    JoinParts(r', h', l');
    JoinParts(r, XorByte(High(r), h'), XorByte(Low(r), l'));
    JoinDistributes(High(r), Low(r), h', l');
    XorSame(r, r', Join(h', l'));
  }

  lemma CrcOfTail(d: seq<Byte>)
    requires |d| == 35
    ensures Crc(d[..33]) == Update(Update(Crc(d[..31]), d[31]), d[32])
  {
    hide *;
    assert d[..33] == d[..31] + [d[31], d[32]];
    CrcOfTwoMore(d[..31], d[31], d[32]);
  }

  lemma StoredChecksum(d: seq<Byte>)
    requires |d| == 35
    ensures DecodePayload(d).Ok? <==> d[33] == Low(Crc(d[..33])) && d[34] == High(Crc(d[..33]))
  {
    hide Low;
    hide High;
    hide Crc;
    assert d[33..35] == [d[33], d[34]];
  }

  /** What changes in the last four bytes leave an accepted address accepted. */
  lemma TailAcceptedExactly(d: seq<Byte>, d': seq<Byte>)
    requires DecodePayload(d).Ok? && |d'| == 35 && d'[..31] == d[..31]
    ensures DecodePayload(d').Ok? <==> Eight(Eight(TailDiff(d, d').0)) == Swap(TailDiff(d, d').1)
  {
    StoredChecksum(d);
    StoredChecksum(d');
    hide Crc;
    hide DecodePayload;
    hide Low;
    hide High;
    hide Update;
    hide Eight;
    hide Join;
    hide Swap;
    hide Xor;
    hide XorByte;
    CrcOfTail(d);
    CrcOfTail(d');
    RegisterDiff(Crc(d[..31]), d[31], d[32], d'[31], d'[32]);
    StoredDiff(Crc(d[..33]), Crc(d'[..33]), d'[33], d'[34]);
  }

  // ----- differences as bits

  /** The bit of a word at place k from the top. */
  function Single(k: nat): Word {
    match k
    case 0 => 0x8000 case 1 => 0x4000 case 2 => 0x2000 case 3 => 0x1000
    case 4 => 0x800 case 5 => 0x400 case 6 => 0x200 case 7 => 0x100
    case 8 => 0x80 case 9 => 0x40 case 10 => 0x20 case 11 => 0x10
    case 12 => 8 case 13 => 4 case 14 => 2 case 15 => 1
    case _ => 0
  }

  function SingleOf8(k: nat): Byte {
    match k
    case 0 => 0x80 case 1 => 0x40 case 2 => 0x20 case 3 => 0x10
    case 4 => 8 case 5 => 4 case 6 => 2 case 7 => 1
    case _ => 0
  }

  predicate Clear(w: Word, k: nat) { w & Single(k) == 0 }

  predicate ClearOf8(b: Byte, k: nat) { b & SingleOf8(k) == 0 }

  lemma HighBit(h: Byte, l: Byte, k: nat)
    requires k < 8
    ensures Clear(Join(h, l), k) == ClearOf8(h, k)
  {
  }

  lemma LowBit(h: Byte, l: Byte, k: nat)
    requires k < 8
    ensures Clear(Join(h, l), k + 8) == ClearOf8(l, k)
  {
  }

  lemma BitOf8(b: Byte, k: nat)
    requires k < 8
    ensures Bits(b)[k] == !ClearOf8(b, k)
  {
  }

  lemma JoinBit(h: Byte, l: Byte, k: nat)
    requires k < 16
    ensures (Bits(h) + Bits(l))[k] <==> !Clear(Join(h, l), k)
  {
    hide *;
    if k < 8 {
      HighBit(h, l, k);
      BitOf8(h, k);
    } else {
      LowBit(h, l, k - 8);
      BitOf8(l, k - 8);
    }
  }

  /** Clear outside the last 16 - k bits, and clear inside them. */
  predicate Fits(w: Word, k: nat) { w & Mask(k) == w }

  predicate Empty(w: Word, k: nat) { w & Mask(k) == 0 }

  lemma FitsNext(w: Word, k: nat)
    requires k < 16 && Clear(w, k) && Fits(w, k)
    ensures Fits(w, k + 1)
  {
  }

  lemma EmptyNext(w: Word, k: nat)
    requires k < 16 && Clear(w, k) && Empty(w, k + 1)
    ensures Empty(w, k)
  {
  }

  lemma MaskEnds(w: Word)
    ensures Fits(w, 0) && Empty(w, 16)
  {
  }

  lemma {:induction false} LeadingClear(w: Word, n: nat)
    requires n <= 16 && forall k :: 0 <= k < n ==> Clear(w, k)
    ensures Fits(w, n)
  {
    hide *;
    if n == 0 {
      MaskEnds(w);
    } else {
      LeadingClear(w, n - 1);
      FitsNext(w, n - 1);
    }
  }

  lemma {:induction false} TrailingClear(w: Word, n: nat)
    requires n <= 16 && forall k :: n <= k < 16 ==> Clear(w, k)
    ensures Empty(w, n)
    decreases 16 - n
  {
    hide *;
    if n == 16 {
      MaskEnds(w);
    } else {
      TrailingClear(w, n + 1);
      EmptyNext(w, n);
    }
  }

  lemma XorMasked(a: Byte, b: Byte, m: Byte)
    requires m in {1, 2, 4, 8, 0x10, 0x20, 0x40, 0x80}
    ensures ((a ^ b) & m == 0) == ((a & m == 0) == (b & m == 0))
  {
  }

  lemma SinglesOf8(k: nat)
    requires k < 8
    ensures SingleOf8(k) in {1, 2, 4, 8, 0x10, 0x20, 0x40, 0x80}
  {
  }

  lemma XorClear(a: Byte, b: Byte, k: nat)
    requires k < 8
    ensures ClearOf8(XorByte(a, b), k) == (ClearOf8(a, k) == ClearOf8(b, k))
  {
    hide SingleOf8;
    SinglesOf8(k);
    XorMasked(a, b, SingleOf8(k));
  }

  lemma XorBits(a: Byte, b: Byte, k: nat)
    requires k < 8
    ensures Bits(XorByte(a, b))[k] <==> Bits(a)[k] != Bits(b)[k]
  {
    hide *;
    XorClear(a, b, k);
    BitOf8(a, k);
    BitOf8(b, k);
    BitOf8(XorByte(a, b), k);
  }

  lemma BitAt(d: seq<Byte>, i: nat, k: nat)
    requires i < |d| && k < 8
    ensures AllBits(d)[8 * i + k] == Bits(d[i])[k]
  {
    hide Bits;
    hide AllBits;
    Split(d, i);
    Split(d[i..], 1);
    assert d[i..][..1] == [d[i]];
    OneByteBits(d[i]);
    assert AllBits(d)[8 * i..][k] == AllBits(d)[8 * i + k];
    assert AllBits(d[i..])[..8][k] == AllBits(d[i..])[k];
  }

  lemma OneByteBits(b: Byte)
    ensures AllBits([b]) == Bits(b)
  {
    assert [b][..0] == [];
  }

  /** Where two bytes of the addresses differ, bit by bit. */
  lemma PairDiffers(d: seq<Byte>, d': seq<Byte>, i: nat, k: nat)
    requires |d| == |d'| && i + 1 < |d| && k < 16
    ensures (Bits(XorByte(d[i], d'[i])) + Bits(XorByte(d[i + 1], d'[i + 1])))[k]
            <==> AllBits(d)[8 * i + k] != AllBits(d')[8 * i + k]
  {
    hide Bits;
    hide XorByte;
    hide AllBits;
    var j, m := if k < 8 then i else i + 1, if k < 8 then k else k - 8;
    XorBits(d[j], d'[j], m);
    BitAt(d, j, m);
    BitAt(d', j, m);
    assert 8 * j + m == 8 * i + k;
  }

  /** The payload differences of the listed bursts, and none at all. */
  predicate Escaping(x: Word) {
    x <= 7 || x == 0x89 || x == 0x235 || x == 0x8C5 || x == 0x118A || x == 0x194F
  }

  lemma Span15(x: Word)
    ensures x <= 0x7FFF && Eight(Eight(x)) & 0xFF7F == 0 ==> Escaping(x)
  {
  }

  lemma Span14(x: Word)
    ensures x <= 0x3FFF && Eight(Eight(x)) & 0xFF3F == 0 ==> Escaping(x)
  {
  }

  lemma Span13(x: Word)
    ensures x <= 0x1FFF && Eight(Eight(x)) & 0xFF1F == 0 ==> Escaping(x)
  {
  }

  lemma Span12(x: Word)
    ensures x <= 0xFFF && Eight(Eight(x)) & 0xFF0F == 0 ==> Escaping(x)
  {
  }

  lemma Span11(x: Word)
    ensures x <= 0x7FF && Eight(Eight(x)) & 0xFF07 == 0 ==> Escaping(x)
  {
  }

  lemma Span10(x: Word)
    ensures x <= 0x3FF && Eight(Eight(x)) & 0xFF03 == 0 ==> Escaping(x)
  {
  }

  lemma Span9(x: Word)
    ensures x <= 0x1FF && Eight(Eight(x)) & 0xFF01 == 0 ==> Escaping(x)
  {
  }

  lemma Span8(x: Word)
    ensures x <= 0xFF && Eight(Eight(x)) & 0xFF00 == 0 ==> Escaping(x)
  {
  }

  lemma Span7(x: Word)
    ensures x <= 0x7F && Eight(Eight(x)) & 0x7F00 == 0 ==> Escaping(x)
  {
  }

  lemma Spans6(x: Word)
    ensures x <= 0x3F && Eight(Eight(x)) & 0x3F00 == 0 ==> Escaping(x)
    ensures x <= 0x1F && Eight(Eight(x)) & 0x1F00 == 0 ==> Escaping(x)
    ensures x <= 0xF && Eight(Eight(x)) & 0xF00 == 0 ==> Escaping(x)
    ensures x <= 7 ==> Escaping(x)
  {
  }

  lemma SwapBack(a: Word, b: Word)
    requires a == Swap(b)
    ensures b == Swap(a)
  {
  }

  /** A trailer clear in the last 16 - n bits, seen from the register. */
  lemma SwapMask(y: Word, n: nat)
    requires n < 16 && Empty(Swap(y), n)
    ensures y & Swap(Mask(n)) == 0
  {
  }

  lemma MaskBound(x: Word, n: nat)
    requires Fits(x, n)
    ensures x <= Mask(n)
  {
  }

  lemma EscapingOnly(x: Word, n: nat)
    requires 1 <= n <= 15 && x <= Mask(n) && Eight(Eight(x)) & Swap(Mask(n)) == 0
    ensures Escaping(x)
  {
    Span15(x);
    Span14(x);
    Span13(x);
    Span12(x);
    Span11(x);
    Span10(x);
    Span9(x);
    Span8(x);
    Span7(x);
    Spans6(x);
    hide Eight;
    hide Escaping;
  }

  /** Where the register ends for each listed payload difference. */
  lemma EscapeEnds(x: Word)
    requires Escaping(x)
    ensures Swap(Eight(Eight(0))) == 0
    ensures x != 0 ==> Listed(x, Swap(Eight(Eight(x))))
  {
  }

  lemma EscapesListed(x: Word, t: Word)
    requires Listed(x, t)
    ensures Escaping(x) && x != 0 && Swap(Eight(Eight(x))) == t
  {
    hide *;
    ListedEscaping(x, t);
    EscapeEnds(x);
    ListedOnce(x, t, Swap(Eight(Eight(x))));
  }

  lemma ListedEscaping(x: Word, t: Word)
    requires Listed(x, t)
    ensures Escaping(x) && x != 0
  {
  }

  lemma ListedOnce(x: Word, t: Word, t': Word)
    requires Listed(x, t) && Listed(x, t')
    ensures t == t'
  {
  }

  /** Among the differences whose first n bits of the payload's last two bytes are clear,
      and all but the first n of the checksum, exactly the listed ones escape. */
  lemma Escapes(x: Word, t: Word, n: nat)
    requires 1 <= n <= 15 && Fits(x, n) && Empty(t, n) && (x, t) != (0, 0)
    ensures Eight(Eight(x)) == Swap(t) <==> Listed(x, t)
  {
    hide *;
    var y := Eight(Eight(x));
    if y == Swap(t) {
      SwapBack(y, t);
      SwapMask(y, n);
      MaskBound(x, n);
      EscapingOnly(x, n);
      EscapeEnds(x);
    }
    if Listed(x, t) {
      EscapesListed(x, t);
      SwapBack(t, y);
    }
  }

  // ----- bursts in the order of the address

  const BORDER: nat := 8 * 33

  /** A burst across the border: what its place says about the two differences. */
  lemma CrossingFits(d: seq<Byte>, d': seq<Byte>, p: nat, w: nat)
    requires |d| == |d'| == 35 && p + w <= 8 * 35 && w <= 16 && p < BORDER < p + w
    requires DifferWithin(AllBits(d), AllBits(d'), p, w)
    ensures 1 <= p - 248 <= 15
    ensures Fits(TailDiff(d, d').0, p - 248) && Empty(TailDiff(d, d').1, p - 248)
    ensures d'[..31] == d[..31] && TailDiff(d, d') != (0, 0)
  {
    hide Bits;
    hide AllBits;
    hide XorByte;
    hide Join;
    hide Fits;
    hide Empty;
    hide Clear;
    var a, b, n := AllBits(d), AllBits(d'), p - 248;
    forall k | 0 <= k < n
      ensures Clear(TailDiff(d, d').0, k)
    {
      PairDiffers(d, d', 31, k);
      JoinBit(XorByte(d[31], d'[31]), XorByte(d[32], d'[32]), k);
      assert a[..p][248 + k] == b[..p][248 + k];
    }
    forall k | n <= k < 16
      ensures Clear(TailDiff(d, d').1, k)
    {
      PairDiffers(d, d', 33, k);
      JoinBit(XorByte(d[33], d'[33]), XorByte(d[34], d'[34]), k);
      assert a[p + w..][264 + k - (p + w)] == b[p + w..][264 + k - (p + w)];
    }
    LeadingClear(TailDiff(d, d').0, n);
    TrailingClear(TailDiff(d, d').1, n);
    SameFront(d, d', p);
    if TailDiff(d, d') == (0, 0) {
      NoDifference(d, d');
    }
  }

  lemma SameFront(d: seq<Byte>, d': seq<Byte>, p: nat)
    requires |d| == |d'| == 35 && 248 <= p <= 280 && AllBits(d)[..p] == AllBits(d')[..p]
    ensures d'[..31] == d[..31]
  {
    hide Bits;
    hide AllBits;
    Split(d, 31);
    Split(d', 31);
    assert AllBits(d)[..248] == AllBits(d)[..p][..248] == AllBits(d')[..248];
    AllBitsInjective(d[..31], d'[..31]);
  }

  lemma NoByteDifference(a: Byte, b: Byte, c: Byte, e: Byte)
    requires Join(XorByte(a, b), XorByte(c, e)) == 0
    ensures a == b && c == e
  {
  }

  lemma NoDifference(d: seq<Byte>, d': seq<Byte>)
    requires |d| == |d'| == 35 && d'[..31] == d[..31] && TailDiff(d, d') == (0, 0)
    ensures d == d'
  {
    NoByteDifference(d[31], d'[31], d[32], d'[32]);
    NoByteDifference(d[33], d'[33], d[34], d'[34]);
    assert forall i :: 0 <= i < 31 ==> d[i] == d[..31][i] == d'[..31][i] == d'[i];
  }

  /** A burst that stays on one side of the border is always noticed. */
  lemma OneSideRejected(d: seq<Byte>, d': seq<Byte>, p: nat, w: nat)
    requires DecodePayload(d).Ok? && |d'| == 35 && p + w <= 8 * 35 && w <= 16
    requires DifferWithin(AllBits(d), AllBits(d'), p, w)
    requires p + w <= BORDER || BORDER <= p
    ensures DecodePayload(d') == Err(BadChecksum)
  {
    hide Bits;
    hide AllBits;
    hide Crc;
    Split(d, 33);
    Split(d', 33);
    var a, b := AllBits(d), AllBits(d');
    SameOutside(a, b, p, w);
    if p + w <= BORDER {
      assert a[BORDER..] == b[BORDER..];
      AllBitsInjective(d[33..], d'[33..]);
      assert d[33] == d[33..][0] && d[34] == d[33..][1] && d'[33] == d'[33..][0] && d'[34] == d'[33..][1];
      PayloadBurst(d, d', p, w);
    } else {
      assert a[..BORDER] == b[..BORDER];
      AllBitsInjective(d[..33], d'[..33]);
      SamePayload(d, d');
    }
  }

  lemma SamePayload(d: seq<Byte>, d': seq<Byte>)
    requires DecodePayload(d).Ok? && |d'| == 35 && d'[..33] == d[..33] && AllBits(d) != AllBits(d')
    ensures DecodePayload(d') == Err(BadChecksum)
  {
    hide Crc;
    hide AllBits;
    assert d == d[..33] + d[33..35] && d' == d'[..33] + d'[33..35];
    assert d'[33..35] != d[33..35];
  }

  lemma SameAddress(d: seq<Byte>, d': seq<Byte>)
    requires |d| == |d'| == 35 && d'[33] == d[33] && d'[34] == d[34]
    requires AllBits(d)[..BORDER] == AllBits(d')[..BORDER]
    ensures d == d'
  {
    hide Bits;
    hide AllBits;
    Split(d, 33);
    Split(d', 33);
    AllBitsInjective(d[..33], d'[..33]);
    assert d == d[..33] + [d[33], d[34]] && d' == d'[..33] + [d'[33], d'[34]];
  }

  lemma SameOutside(a: seq<bool>, b: seq<bool>, p: nat, w: nat)
    requires |a| == |b| && p + w <= |a| && DifferWithin(a, b, p, w)
    ensures forall k :: 0 <= k < |a| && !(p <= k < p + w) ==> a[k] == b[k]
  {
    forall k | 0 <= k < |a| && !(p <= k < p + w)
      ensures a[k] == b[k]
    {
      if k < p {
        assert a[..p][k] == b[..p][k];
      } else {
        assert a[p + w..][k - (p + w)] == b[p + w..][k - (p + w)];
      }
    }
  }

  lemma NewTail(a: seq<bool>, b: seq<bool>, n: nat, t: seq<bool>, p: nat, w: nat)
    requires |a| == |b| && p + w <= n <= |a| && DifferWithin(a, b, p, w) && a[..n] != b[..n]
    ensures DifferWithin(a[..n] + t, b[..n] + t, p, w)
  {
    var x, y := a[..n] + t, b[..n] + t;
    SameOutside(a, b, p, w);
    assert forall k :: 0 <= k < |x| && !(p <= k < p + w) ==> x[k] == y[k];
    assert x[..n] == a[..n] && y[..n] == b[..n];
  }

  lemma PayloadBurst(d: seq<Byte>, d': seq<Byte>, p: nat, w: nat)
    requires DecodePayload(d).Ok? && |d'| == 35 && p + w <= BORDER && w <= 16
    requires d'[33] == d[33] && d'[34] == d[34]
    requires DifferWithin(AllBits(d), AllBits(d'), p, w)
    ensures DecodePayload(d') == Err(BadChecksum)
  {
    hide Bits;
    hide AllBits;
    hide Crc;
    Split(d, 33);
    Split(d', 33);
    var a, b, tail := AllBits(d), AllBits(d'), [d[34], d[33]];
    AllBitsJoin(d[..33], tail);
    AllBitsJoin(d'[..33], tail);
    if a[..BORDER] == b[..BORDER] {
      SameAddress(d, d');
    }
    NewTail(a, b, BORDER, AllBits(tail), p, w);
    CodewordBurstRejected(d, d', p, w);
  }

  /** A burst of up to 16 bits of an accepted address goes unnoticed exactly when the two
      differences it makes are one of the twelve listed pairs. */
  lemma BurstAcceptedExactly(d: seq<Byte>, d': seq<Byte>, p: nat, w: nat)
    requires DecodePayload(d).Ok? && |d'| == 35 && p + w <= 8 * 35 && w <= 16
    requires DifferWithin(AllBits(d), AllBits(d'), p, w)
    ensures DecodePayload(d').Ok? <==> d'[..31] == d[..31] && Listed(TailDiff(d, d').0, TailDiff(d, d').1)
    ensures DecodePayload(d').Ok? ==> p < BORDER < p + w
  {
    assert |d| == 35;
    hide DecodePayload;
    hide DifferWithin;
    hide AllBits;
    hide Join;
    hide XorByte;
    hide Eight;
    if p < BORDER < p + w {
      CrossingFits(d, d', p, w);
      TailAcceptedExactly(d, d');
      Escapes(TailDiff(d, d').0, TailDiff(d, d').1, p - 248);
    } else {
      OneSideRejected(d, d', p, w);
      if d'[..31] == d[..31] {
        TailAcceptedExactly(d, d');
        if Listed(TailDiff(d, d').0, TailDiff(d, d').1) {
          EscapesListed(TailDiff(d, d').0, TailDiff(d, d').1);
          SwapBack(TailDiff(d, d').1, Eight(Eight(TailDiff(d, d').0)));
        }
      }
    }
  }

  /** The address with given differences in its last four bytes. */
  function Flip(d: seq<Byte>, x: Word, t: Word): seq<Byte>
    requires |d| == 35
  {
    d[..31] + [XorByte(d[31], High(x)), XorByte(d[32], Low(x)), XorByte(d[33], High(t)), XorByte(d[34], Low(t))]
  }

  lemma FlipDiffers(d: seq<Byte>, x: Word, t: Word)
    requires |d| == 35
    ensures |Flip(d, x, t)| == 35 && Flip(d, x, t)[..31] == d[..31]
    ensures TailDiff(d, Flip(d, x, t)) == (x, t)
  {
    hide XorByte;
    hide High;
    hide Low;
    hide Join;
    Undone(d[31], High(x));
    Undone(d[32], Low(x));
    Undone(d[33], High(t));
    Undone(d[34], Low(t));
    JoinParts(x, 0, 0);
    JoinParts(t, 0, 0);
  }

  /** Each of the twelve is a burst of at most 16 bits that every accepted address lets
      through. */
  lemma EscapeGoesUnnoticed(d: seq<Byte>, x: Word, t: Word) returns (p: nat)
    requires DecodePayload(d).Ok? && Listed(x, t)
    ensures |d| == 35 && DecodePayload(Flip(d, x, t)).Ok? && Flip(d, x, t) != d
    ensures p < BORDER < p + 16 <= 8 * 35 && DifferWithin(AllBits(d), AllBits(Flip(d, x, t)), p, 16)
  {
    assert |d| == 35;
    hide *;
    FlipDiffers(d, x, t);
    TailAcceptedExactly(d, Flip(d, x, t));
    EscapesListed(x, t);
    SwapBack(t, Eight(Eight(x)));
    var n := EscapePlace(x, t);
    FittingDiffer(d, Flip(d, x, t), n);
    p := 248 + n;
  }

  lemma Undone(a: Byte, m: Byte)
    ensures XorByte(a, XorByte(a, m)) == m
  {
  }

  /** From where the payload difference of a listed pair begins, its checksum difference
      stays within 16 bits. */
  lemma EscapePlace(x: Word, t: Word) returns (n: nat)
    requires Listed(x, t)
    ensures 1 <= n <= 15 && Fits(x, n) && Empty(t, n)
  {
    n := if x <= 7 then 13 else if x == 0x89 then 8 else if x == 0x235 then 6 else if x == 0x8C5 then 4 else 3;
  }

  lemma FitsClear(w: Word, n: nat, k: nat)
    requires k < n <= 16 && Fits(w, n)
    ensures Clear(w, k)
  {
  }

  lemma EmptyClear(w: Word, n: nat, k: nat)
    requires n <= k < 16 && Empty(w, n)
    ensures Clear(w, k)
  {
  }

  lemma SameBefore(d: seq<Byte>, d': seq<Byte>, n: nat, k: nat)
    requires |d| == |d'| == 35 && n <= 15 && k < n && Fits(TailDiff(d, d').0, n)
    ensures AllBits(d)[248 + k] == AllBits(d')[248 + k]
  {
    hide *;
    FitsClear(TailDiff(d, d').0, n, k);
    PairDiffers(d, d', 31, k);
    JoinBit(XorByte(d[31], d'[31]), XorByte(d[32], d'[32]), k);
    FirstDiff(d, d');
  }

  lemma SameBehind(d: seq<Byte>, d': seq<Byte>, n: nat, k: nat)
    requires |d| == |d'| == 35 && n <= k < 16 && Empty(TailDiff(d, d').1, n)
    ensures AllBits(d)[264 + k] == AllBits(d')[264 + k]
  {
    hide *;
    EmptyClear(TailDiff(d, d').1, n, k);
    PairDiffers(d, d', 33, k);
    JoinBit(XorByte(d[33], d'[33]), XorByte(d[34], d'[34]), k);
    FirstDiff(d, d');
  }

  lemma FirstDiff(d: seq<Byte>, d': seq<Byte>)
    requires |d| == |d'| == 35
    ensures TailDiff(d, d').0 == Join(XorByte(d[31], d'[31]), XorByte(d[32], d'[32]))
    ensures TailDiff(d, d').1 == Join(XorByte(d[33], d'[33]), XorByte(d[34], d'[34]))
  {
    hide Join;
    hide XorByte;
  }

  lemma FittingDiffer(d: seq<Byte>, d': seq<Byte>, n: nat)
    requires |d| == |d'| == 35 && 1 <= n <= 15 && d'[..31] == d[..31] && TailDiff(d, d').0 != 0
    requires Fits(TailDiff(d, d').0, n) && Empty(TailDiff(d, d').1, n)
    ensures d' != d && DifferWithin(AllBits(d), AllBits(d'), 248 + n, 16)
  {
    hide Bits;
    hide AllBits;
    hide TailDiff;
    hide Fits;
    hide Empty;
    Split(d, 31);
    Split(d', 31);
    var a, b, p := AllBits(d), AllBits(d'), 248 + n;
    forall k | 0 <= k < p
      ensures a[k] == b[k]
    {
      if k < 248 {
        assert a[..248][k] == b[..248][k];
      } else {
        SameBefore(d, d', n, k - 248);
      }
    }
    forall k | p + 16 <= k < 280
      ensures a[k] == b[k]
    {
      SameBehind(d, d', n, k - 264);
    }
    SelfDiff(d);
    if a == b {
      AllBitsInjective(d, d');
    }
  }

  lemma SelfDiff(d: seq<Byte>)
    requires |d| == 35
    ensures TailDiff(d, d).0 == 0
  {
  }
}
