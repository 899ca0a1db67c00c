/** The CRC-16/XModem checksum of Stellar addresses (SEP-0023): the byte-wise loop, the
    bit-serial division it stands for, and which corrupted addresses it rejects. */
module Crc16 {
  import opened MachineInts

  type Byte = bv8
  type Word = bv16

  /** One of the eight rounds of a byte: multiply by x modulo x^16 + x^12 + x^5 + 1. */
  function Shift(crc: Word): Word { if crc & 0x8000 != 0 then (crc << 1) ^ 0x1021 else crc << 1 }

  function Rounds(crc: Word, n: nat): Word { if n == 0 then crc else Shift(Rounds(crc, n - 1)) }

  function Update(crc: Word, byte: Byte): Word { Rounds(Xor(crc, (byte as Word) << 8), 8) }

  function Crc(data: seq<Byte>): Word {
    if data == [] then 0 else Update(Crc(data[..|data| - 1]), data[|data| - 1])
  }

  function Low(crc: Word): Byte { (crc & 0xFF) as Byte }

  function High(crc: Word): Byte { (crc >> 8) as Byte }

  /** Little-endian, as in an address. */
  function Checksum(data: seq<Byte>): seq<Byte> { [Low(Crc(data)), High(Crc(data))] }

  // ----- division bit by bit

  /** The generator is x^16 + x^12 + x^5 + 1: x^16 leaves x^12 + x^5 + 1, and that is added
      whenever a round shifts a bit out. */
  lemma Generator()
    ensures Feed(0, [true]) == (1 << 12) | (1 << 5) | 1
    ensures forall r: Word :: Shift(r) == (r << 1) ^ (if r >= 0x8000 then (1 << 12) | (1 << 5) | 1 else 0)
  {
    assert Feed(0, []) == 0 && [true][..0] == [];
  }

  function Top(bit: bool): Word { if bit then 0x8000 else 0 }

  function StepBit(r: Word, bit: bool): Word { Shift(Xor(r, Top(bit))) }

  /** The remainder register after shifting in a message, bit by bit. */
  function Feed(r: Word, bits: seq<bool>): Word {
    if bits == [] then r else StepBit(Feed(r, bits[..|bits| - 1]), bits[|bits| - 1])
  }

  /** A byte's bits, highest first. */
  function Bits(b: Byte): (r: seq<bool>)
    ensures |r| == 8
  {
    [b & 0x80 != 0, b & 0x40 != 0, b & 0x20 != 0, b & 0x10 != 0, b & 8 != 0, b & 4 != 0, b & 2 != 0, b & 1 != 0]
  }

  function AllBits(data: seq<Byte>): (r: seq<bool>)
    ensures |r| == 8 * |data|
  {
    if data == [] then [] else AllBits(data[..|data| - 1]) + Bits(data[|data| - 1])
  }

  /** Addition of polynomials over GF(2). Proofs hide its bits and use the laws below. */
  function Xor(a: Word, b: Word): Word { a ^ b }

  lemma XorGroup(a: Word, b: Word)
    ensures Xor(a, b) == Xor(b, a) && Xor(a, a) == 0 && Xor(a, 0) == a
  {
  }

  lemma XorAssociative(a: Word, b: Word, c: Word)
    ensures Xor(Xor(a, b), c) == Xor(a, Xor(b, c))
  {
  }

  lemma XorSwap(a: Word, b: Word, c: Word)
    ensures Xor(Xor(a, c), b) == Xor(Xor(a, b), c)
  {
    hide Xor;
    XorAssociative(a, c, b);
    XorGroup(c, b);
    XorAssociative(a, b, c);
  }

  lemma XorCancel(a: Word, b: Word, c: Word)
    ensures Xor(Xor(a, c), Xor(b, c)) == Xor(a, b)
  {
    hide Xor;
    XorAssociative(a, c, Xor(b, c));
    XorGroup(b, c);
    XorAssociative(c, c, b);
    XorGroup(c, c);
    XorGroup(0, b);
    XorGroup(b, b);
  }

  lemma XorZero(a: Word, b: Word)
    ensures Xor(a, b) == 0 <==> a == b
    ensures Xor(a, 0) == a
  {
    hide Xor;
    XorAssociative(a, b, b);
    XorGroup(b, b);
    XorGroup(a, a);
    XorGroup(0, b);
  }

  function Double(a: Word): Word { a << 1 }

  predicate TopSet(a: Word) { a & 0x8000 != 0 }

  lemma DoubleRaw(a: Word, b: Word)
    ensures (a ^ b) << 1 == (a << 1) ^ (b << 1)
  {
  }

  lemma DoubleOfXor(a: Word, b: Word, c: Word, d: Word, e: Word)
    requires c == a ^ b && d == a << 1 && e == b << 1
    ensures c << 1 == d ^ e
  {
    DoubleRaw(a, b);
  }

  lemma DoubleLinear(a: Word, b: Word)
    ensures Double(Xor(a, b)) == Xor(Double(a), Double(b))
  {
    DoubleOfXor(a, b, Xor(a, b), Double(a), Double(b));
  }

  lemma TopLinear(a: Word, b: Word)
    ensures TopSet(Xor(a, b)) <==> TopSet(a) != TopSet(b)
  {
  }

  lemma ShiftParts(a: Word)
    ensures Shift(a) == if TopSet(a) then Xor(Double(a), 0x1021) else Double(a)
  {
  }

  lemma ShiftLinear(a: Word, b: Word)
    ensures Shift(Xor(a, b)) == Xor(Shift(a), Shift(b))
  {
    hide *;
    var p: Word := 0x1021;
    DoubleLinear(a, b);
    TopLinear(a, b);
    ShiftParts(a);
    ShiftParts(b);
    ShiftParts(Xor(a, b));
    XorSwap(Double(a), Double(b), p);
    XorAssociative(Double(a), Double(b), p);
    XorCancel(Double(a), Double(b), p);
  }

  lemma ShiftZero(a: Word)
    ensures Shift(a) == 0 <==> a == 0
  {
  }

  lemma ShiftInjective(a: Word, b: Word)
    requires Shift(a) == Shift(b)
    ensures a == b
  {
    hide Shift;
    hide Xor;
    ShiftLinear(a, b);
    XorZero(Shift(a), Shift(b));
    ShiftZero(Xor(a, b));
    XorZero(a, b);
  }

  lemma TopXor(x: bool, y: bool)
    ensures Xor(Top(x), Top(y)) == Top(x != y)
  {
  }

  lemma StepLinear(a: Word, x: bool, b: Word, y: bool)
    ensures Xor(StepBit(a, x), StepBit(b, y)) == StepBit(Xor(a, b), x != y)
  {
    hide Shift;
    hide Top;
    hide Xor;
    TopXor(x, y);
    ShiftLinear(Xor(a, Top(x)), Xor(b, Top(y)));
    XorAssociative(Xor(a, Top(x)), b, Top(y));
    XorSwap(a, b, Top(x));
    XorAssociative(Xor(a, b), Top(x), Top(y));
  }

  lemma StepInjective(a: Word, b: Word, bit: bool)
    requires StepBit(a, bit) == StepBit(b, bit)
    ensures a == b
  {
    hide Shift;
    hide Xor;
    var t := Top(bit);
    ShiftInjective(Xor(a, t), Xor(b, t));
    XorCancel(a, b, t);
    XorZero(Xor(a, t), Xor(b, t));
    XorZero(a, b);
  }

  // ----- the loop

  lemma RoundOf(crc: Word)
    ensures Shift(crc) == if crc & 0x8000 != 0 then Xor(crc << 1, 0x1021) else crc << 1
  {
  }

  lemma CrcNext(data: seq<Byte>, k: nat, start: Word)
    requires k < |data| && start == Xor(Crc(data[..k]), (data[k] as Word) << 8)
    ensures Crc(data[..k + 1]) == Rounds(start, 8)
  {
    hide Xor;
    hide Rounds;
    assert data[..k + 1][..k] == data[..k];
  }

  method Crc16Xmodem(data: seq<Byte>) returns (checksum: seq<Byte>)
    ensures checksum == Checksum(data)
  {
    hide Xor;
    hide Shift;
    hide Crc;
    var crc: Word := 0;
    assert Crc([]) == 0 by { CrcOfNothing(); }
    assert data[..0] == [];
    for k := 0 to |data|
      invariant crc == Crc(data[..k])
    {
      crc := Xor(crc, (data[k] as Word) << 8);
      ghost var start := crc;
      CrcNext(data, k, start);
      for n := 0 to 8
        invariant crc == Rounds(start, n)
      {
        RoundOf(crc);
        if crc & 0x8000 != 0 {
          crc := Xor(crc << 1, 0x1021);
        } else {
          crc := crc << 1;
        }
      }
    }
    assert data[..|data|] == data;
    checksum := [Low(crc), High(crc)];
  }

  lemma CrcOfNothing()
    ensures Crc([]) == 0
  {
  }

  // ----- a byte is eight bits

  /** Shifting a word in from the top one bit at a time, the rest waiting to be added. */
  lemma ShiftWord(r: Word, w: Word)
    ensures Shift(Xor(r, w)) == Xor(StepBit(r, w & 0x8000 != 0), w << 1)
  {
    hide Shift;
    hide Xor;
    hide Top;
    var bit, rest := w & 0x8000 != 0, w & 0x7FFF;
    TopAndRest(w);
    XorAssociative(r, Top(bit), rest);
    ShiftLinear(Xor(r, Top(bit)), rest);
  }

  lemma TopAndRest(w: Word)
    ensures w == Xor(Top(w & 0x8000 != 0), w & 0x7FFF)
    ensures Shift(w & 0x7FFF) == w << 1
  {
  }

  /** A byte at the top of a word, after k of its bits are shifted out. */
  function Rest(b: Byte, k: nat): Word {
    var w := b as Word;
    match k
    case 0 => w << 8 case 1 => w << 9 case 2 => w << 10 case 3 => w << 11 case 4 => w << 12
    case 5 => w << 13 case 6 => w << 14 case 7 => w << 15 case _ => 0
  }

  lemma RestNext(b: Byte, k: nat)
    requires k < 8
    ensures Rest(b, k + 1) == Double(Rest(b, k))
  {
  }

  lemma RestTop(b: Byte, k: nat)
    requires k < 8
    ensures Bits(b)[k] == TopSet(Rest(b, k))
  {
  }

  /** One round, when k bits of the byte have been shifted in. */
  lemma RoundIsStep(r: Word, start: Word, bits: seq<bool>, k: nat, w: Word)
    requires k < |bits| && bits[k] == TopSet(w)
    requires Rounds(start, k) == Xor(Feed(r, bits[..k]), w)
    ensures Rounds(start, k + 1) == Xor(Feed(r, bits[..k + 1]), Double(w))
  {
    hide Shift;
    hide StepBit;
    hide Xor;
    ShiftWord(Feed(r, bits[..k]), w);
    assert bits[..k + 1][..k] == bits[..k];
  }

  lemma {:induction false} RoundsAreSteps(r: Word, b: Byte, k: nat)
    requires k <= 8
    ensures Rounds(Xor(r, Rest(b, 0)), k) == Xor(Feed(r, Bits(b)[..k]), Rest(b, k))
  {
    hide Xor;
    hide Bits;
    hide Rest;
    if k > 0 {
      RoundsAreSteps(r, b, k - 1);
      RestTop(b, k - 1);
      RestNext(b, k - 1);
      RoundIsStep(r, Xor(r, Rest(b, 0)), Bits(b), k - 1, Rest(b, k - 1));
    }
  }

  /** Eight rounds on a byte added at the top shift its eight bits in. */
  lemma UpdateIsFeed(r: Word, b: Byte)
    ensures Update(r, b) == Feed(r, Bits(b))
  {
    hide Xor;
    hide Bits;
    hide Rounds;
    RoundsAreSteps(r, b, 8);
    XorZero(Feed(r, Bits(b)), 0);
    assert Bits(b)[..8] == Bits(b);
  }

  lemma {:induction false} FeedSplit(r: Word, a: seq<bool>, b: seq<bool>)
    ensures Feed(r, a + b) == Feed(Feed(r, a), b)
  {
    if b == [] {
      assert a + b == a;
    } else {
      var front := b[..|b| - 1];
      FeedSplit(r, a, front);
      assert (a + b)[..|a + b| - 1] == a + front;
    }
  }

  /** The byte-wise checksum is the remainder of the message's bits. */
  lemma {:induction false} CrcIsRemainder(data: seq<Byte>)
    ensures Crc(data) == Feed(0, AllBits(data))
  {
    if data != [] {
      var before, b := data[..|data| - 1], data[|data| - 1];
      CrcIsRemainder(before);
      UpdateIsFeed(Crc(before), b);
      FeedSplit(0, AllBits(before), Bits(b));
    }
  }

  // ----- what it detects

  /** Where two messages of one length differ. */
  function Diff(a: seq<bool>, b: seq<bool>): (d: seq<bool>)
    requires |a| == |b|
    ensures |d| == |a|
  {
    seq(|a|, i requires 0 <= i < |a| => a[i] != b[i])
  }

  lemma {:induction false} FeedLinear(r: Word, a: seq<bool>, q: Word, b: seq<bool>)
    requires |a| == |b|
    ensures Xor(Feed(r, a), Feed(q, b)) == Feed(Xor(r, q), Diff(a, b))
  {
    hide StepBit;
    hide Xor;
    if a != [] {
      var n := |a| - 1;
      FeedLinear(r, a[..n], q, b[..n]);
      assert Diff(a, b)[..n] == Diff(a[..n], b[..n]);
      StepLinear(Feed(r, a[..n]), a[n], Feed(q, b[..n]), b[n]);
    }
  }

  lemma {:induction false} FeedInjective(r: Word, q: Word, bits: seq<bool>)
    requires Feed(r, bits) == Feed(q, bits)
    ensures r == q
  {
    hide StepBit;
    if bits != [] {
      var n := |bits| - 1;
      StepInjective(Feed(r, bits[..n]), Feed(q, bits[..n]), bits[n]);
      FeedInjective(r, q, bits[..n]);
    }
  }

  lemma {:induction false} FeedNothing(bits: seq<bool>)
    requires forall i :: 0 <= i < |bits| ==> !bits[i]
    ensures Feed(0, bits) == 0
  {
    if bits != [] {
      FeedNothing(bits[..|bits| - 1]);
    }
  }

  /** The low 16 - k bits of a word. */
  function Mask(k: nat): Word {
    match k
    case 0 => 0xFFFF case 1 => 0x7FFF case 2 => 0x3FFF case 3 => 0x1FFF
    case 4 => 0xFFF case 5 => 0x7FF case 6 => 0x3FF case 7 => 0x1FF
    case 8 => 0xFF case 9 => 0x7F case 10 => 0x3F case 11 => 0x1F
    case 12 => 0xF case 13 => 7 case 14 => 3 case 15 => 1
    case _ => 0
  }

  lemma MaskNext(k: nat)
    requires k < 16
    ensures Mask(k) == (Mask(k + 1) << 1) | 1 && Mask(k + 1) & 0x8000 == 0
  {
  }

  lemma MaskOdd(k: nat)
    requires k < 16
    ensures (0x1021 as Word) & Mask(k) != 0
  {
  }

  lemma BackOne(d: Word, bit: bool, m: Word)
    requires m & 0x8000 == 0 && StepBit(d, bit) & ((m << 1) | 1) == 0
    ensures d & m == 0
  {
  }

  /** A register that k further bits can clear has its low 16 - k bits clear already. */
  lemma {:induction false} BackFromZero(d: Word, e: seq<bool>, k: nat)
    requires k <= |e| && k <= 16 && Feed(d, e) == 0
    ensures Feed(d, e[..|e| - k]) & Mask(k) == 0
  {
    hide StepBit;
    hide Mask;
    if k == 0 {
      assert e[..|e|] == e;
      assert (0 as Word) & Mask(0) == 0;
    } else {
      BackFromZero(d, e, k - 1);
      var n := |e| - k;
      assert e[..n + 1][..n] == e[..n];
      MaskNext(k - 1);
      BackOne(Feed(d, e[..n]), e[n], Mask(k));
    }
  }

  /** No more than 16 bits, not all zero, divide evenly. */
  lemma {:induction false} BurstRemains(e: seq<bool>)
    requires |e| <= 16 && exists i :: 0 <= i < |e| && e[i]
    ensures Feed(0, e) != 0
  {
    hide Mask;
    var p := FirstSet(e);
    FeedNothing(e[..p]);
    assert e[..p + 1][..p] == e[..p];
    assert Feed(0, e[..p + 1]) == 0x1021;
    var k := |e| - (p + 1);
    MaskOdd(k);
    if Feed(0, e) == 0 {
      BackFromZero(0, e, k);
      assert false;
    }
  }

  lemma {:induction false} FirstSet(e: seq<bool>) returns (p: nat)
    requires exists i :: 0 <= i < |e| && e[i]
    ensures p < |e| && e[p] && forall i :: 0 <= i < p ==> !e[i]
  {
    p := 0;
    while !e[p]
      invariant p < |e| && forall i :: 0 <= i < p ==> !e[i]
      decreases |e| - p
    {
      p := p + 1;
    }
  }

  /** From any register, at most 16 bits are determined by the register they lead to. */
  lemma ShortFeedInjective(r: Word, x: seq<bool>, y: seq<bool>)
    requires |x| == |y| <= 16 && Feed(r, x) == Feed(r, y)
    ensures x == y
  {
    hide Feed;
    hide Xor;
    FeedLinear(r, x, r, y);
    XorZero(Feed(r, x), Feed(r, y));
    XorZero(r, r);
    forall i | 0 <= i < |x|
      ensures x[i] == y[i]
    {
      if x[i] != y[i] {
        assert Diff(x, y)[i];
        BurstRemains(Diff(x, y));
      }
    }
  }

  /** The update by one byte is injective in the running state and in the byte. */
  lemma UpdateInjective(r: Word, b: Byte, q: Word, c: Byte)
    requires Update(r, b) == Update(q, c) && (r == q || b == c)
    ensures r == q && b == c
  {
    hide Update;
    hide Feed;
    hide Bits;
    UpdateIsFeed(r, b);
    UpdateIsFeed(q, c);
    if b == c {
      FeedInjective(r, q, Bits(b));
    } else {
      ShortFeedInjective(r, Bits(b), Bits(c));
      BitsInjective(b, c);
    }
  }

  lemma BitsInjective(a: Byte, b: Byte)
    requires Bits(a) == Bits(b)
    ensures a == b
  {
    var s, t := Bits(a), Bits(b);
    assert s[0] == t[0] && s[1] == t[1] && s[2] == t[2] && s[3] == t[3];
    assert s[4] == t[4] && s[5] == t[5] && s[6] == t[6] && s[7] == t[7];
  }

  /** The messages differ, and only within a stretch of bits. */
  predicate DifferWithin(a: seq<bool>, b: seq<bool>, p: nat, w: nat)
    requires |a| == |b| && p + w <= |a|
  {
    a != b && a[..p] == b[..p] && a[p + w..] == b[p + w..]
  }

  /** Every burst of up to 16 bits changes the remainder. */
  lemma BurstDetected(a: seq<bool>, b: seq<bool>, p: nat, w: nat)
    requires |a| == |b| && p + w <= |a| && w <= 16 && DifferWithin(a, b, p, w)
    ensures Feed(0, a) != Feed(0, b)
  {
    hide Feed;
    hide StepBit;
    hide Diff;
    var x, y, tail := a[p..p + w], b[p..p + w], a[p + w..];
    var r := Feed(0, a[..p]);
    assert a == a[..p] + x + tail && b == a[..p] + y + tail;
    FeedSplit(0, a[..p] + x, tail);
    FeedSplit(0, a[..p], x);
    FeedSplit(0, a[..p] + y, tail);
    FeedSplit(0, a[..p], y);
    if Feed(0, a) == Feed(0, b) {
      FeedInjective(Feed(r, x), Feed(r, y), tail);
      ShortFeedInjective(r, x, y);
    }
  }
}
