/** Base64 decoding of signatures (RFC 4648, sections 4 and 5). */
module Base64 {
  import opened MachineInts

  type Byte = x: int | 0 <= x < 256
  type Sextet = x: int | 0 <= x < 64

  // ----- alphabets

  /** n consecutive characters from a given one. */
  function Range(first: char, n: nat): string
    requires first as int + n <= 0x80
  {
    seq(n, i requires 0 <= i < n => (first as int + i) as char)
  }

  const STANDARD: string := Range('A', 26) + Range('a', 26) + Range('0', 10) + "+/"
  const URL_SAFE: string := Range('A', 26) + Range('a', 26) + Range('0', 10) + "-_"

  /** The first place of a character in an alphabet. */
  function Position(alphabet: string, ch: char, from: nat := 0): Option<nat>
    requires from <= |alphabet|
    decreases |alphabet| - from
  {
    if from == |alphabet| then None
    else if alphabet[from] == ch then Some(from)
    else Position(alphabet, ch, from + 1)
  }

  /** A character's value, in the standard alphabet first, then in the URL-safe one. */
  function Value(ch: char): (v: Option<Sextet>)
  {
    if Position(STANDARD, ch).Some? then Some(InAlphabet(STANDARD, ch))
    else if Position(URL_SAFE, ch).Some? then Some(InAlphabet(URL_SAFE, ch))
    else None
  }

  function InAlphabet(alphabet: string, ch: char): Sextet
    requires |alphabet| == 64 && Position(alphabet, ch).Some?
  {
    PositionFound(alphabet, ch, 0);
    Position(alphabet, ch).value
  }

  lemma {:induction false} PositionFound(alphabet: string, ch: char, from: nat)
    requires from <= |alphabet|
    ensures Position(alphabet, ch, from).Some? <==> exists i :: from <= i < |alphabet| && alphabet[i] == ch
    ensures Position(alphabet, ch, from).Some? ==>
              var p := Position(alphabet, ch, from).value;
              from <= p < |alphabet| && alphabet[p] == ch && forall i :: from <= i < p ==> alphabet[i] != ch
    decreases |alphabet| - from
  {
    if from < |alphabet| && alphabet[from] != ch {
      PositionFound(alphabet, ch, from + 1);
    }
  }

  /** The character of a value in either alphabet. */
  function Symbol(urlSafe: bool, v: Sextet): char { if urlSafe then URL_SAFE[v] else STANDARD[v] }

  lemma AlphabetAt(v: Sextet, urlSafe: bool)
    ensures Symbol(urlSafe, v) as int ==
            if v < 26 then 65 + v
            else if v < 52 then 97 + v - 26
            else if v < 62 then 48 + v - 52
            else if v == 62 then (if urlSafe then 45 else 43)
            else if urlSafe then 95 else 47
  {
  }

  /** The alphabets differ only in their last two symbols, which do not clash. */
  lemma SymbolsDistinct(a: bool, i: Sextet, b: bool, j: Sextet)
    requires Symbol(a, i) == Symbol(b, j)
    ensures i == j
  {
    hide Symbol;
    AlphabetAt(i, a);
    AlphabetAt(j, b);
  }

  /** No symbol of either alphabet has two values. */
  lemma ValueOfSymbol(urlSafe: bool, v: Sextet)
    ensures Value(Symbol(urlSafe, v)) == Some(v)
  {
    hide Position;
    hide Symbol;
    var ch := Symbol(urlSafe, v);
    PositionFound(STANDARD, ch, 0);
    PositionFound(URL_SAFE, ch, 0);
    SymbolIsEntry(v);
    if Position(STANDARD, ch).Some? {
      var p := Position(STANDARD, ch).value;
      SymbolIsEntry(p);
      SymbolsDistinct(false, p, urlSafe, v);
    } else {
      var p := Position(URL_SAFE, ch).value;
      SymbolIsEntry(p);
      SymbolsDistinct(true, p, urlSafe, v);
    }
  }

  /** A character has a value exactly as a symbol of one of the alphabets. */
  lemma ValueExactly(ch: char, v: Sextet)
    ensures Value(ch) == Some(v) <==> Symbol(false, v) == ch || Symbol(true, v) == ch
  {
    if Symbol(false, v) == ch || Symbol(true, v) == ch {
      ValueOfSymbol(Symbol(true, v) == ch, v);
    } else if Value(ch) == Some(v) {
      PositionFound(STANDARD, ch, 0);
      PositionFound(URL_SAFE, ch, 0);
      SymbolIsEntry(v);
    }
    hide Symbol;
  }

  lemma SymbolIsEntry(i: Sextet)
    ensures STANDARD[i] == Symbol(false, i) && URL_SAFE[i] == Symbol(true, i)
  {
  }

  // ----- the decoder

  function Pow2(n: nat): (p: nat)
    ensures p > 0
  {
    if n == 0 then 1 else 2 * Pow2(n - 1)
  }

  datatype Reader = Reader(buffer: nat, bits: nat, output: seq<Byte>)

  const START := Reader(0, 0, [])

  /** One more symbol: six bits in, and a byte out when there are eight. */
  function Push(r: Reader, v: Sextet): Reader {
    var buffer, bits := r.buffer * 64 + v, r.bits + 6;
    if bits >= 8 then
      Reader(buffer % Pow2(bits - 8), bits - 8, r.output + [(buffer / Pow2(bits - 8)) % 256])
    else Reader(buffer, bits, r.output)
  }

  function Read(values: seq<Sextet>): Reader {
    if values == [] then START else Push(Read(values[..|values| - 1]), values[|values| - 1])
  }

  predicate Decodable(s: string) { forall i :: 0 <= i < |s| ==> Value(s[i]).Some? }

  function Values(s: string): (vs: seq<Sextet>)
    requires Decodable(s)
    ensures |vs| == |s|
  {
    seq(|s|, i requires 0 <= i < |s| => Value(s[i]).value)
  }

  /** The first character that no alphabet has. */
  function FirstBad(s: string): (ch: char)
    requires !Decodable(s)
  {
    if Value(s[0]).None? then s[0] else FirstBad(s[1..])
  }

  /** Unicode white space, as trimming removes it. */
  predicate IsSpace(c: char) {
    var x := c as int;
    9 <= x <= 13 || x == 0x20 || x == 0x85 || x == 0xA0 || x == 0x1680 || 0x2000 <= x <= 0x200A
    || x == 0x2028 || x == 0x2029 || x == 0x202F || x == 0x205F || x == 0x3000
  }

  function TrimStart(s: string): string { if s != [] && IsSpace(s[0]) then TrimStart(s[1..]) else s }

  function TrimEnd(s: string): string {
    if s != [] && IsSpace(s[|s| - 1]) then TrimEnd(s[..|s| - 1]) else s
  }

  function TrimPads(s: string): string { if s != [] && s[|s| - 1] == '=' then TrimPads(s[..|s| - 1]) else s }

  function Input(encoded: string): string { TrimPads(TrimEnd(TrimStart(encoded))) }

  function Decode(encoded: string): Outcome<seq<Byte>, char> {
    var s := Input(encoded);
    if Decodable(s) then Ok(Read(Values(s)).output) else Err(FirstBad(s))
  }

  /** The character at i is the first one without a value. */
  predicate BadAt(s: string, i: nat, ch: char) {
    i < |s| && s[i] == ch && Value(ch).None? && Decodable(s[..i])
  }

  method Base64Decode(encoded: string) returns (r: Outcome<seq<Byte>, char>)
    ensures r == Decode(encoded)
    ensures r.Err? ==> exists i :: BadAt(Input(encoded), i, r.error)
    ensures r.Ok? <==> Decodable(Input(encoded))
    ensures r.Ok? ==> Carries(Read(Values(Input(encoded))), Values(Input(encoded)))
  {
    hide Value;
    hide Values;
    hide Carries;
    var input := Input(encoded);
    var output: seq<Byte> := [];
    var buffer: U32, bitsInBuffer := 0, 0;
    assert input[..0] == [];
    for i := 0 to |input|
      invariant Decodable(input[..i])
      invariant Reader(buffer, bitsInBuffer, output) == Read(Values(input[..i]))
      invariant bitsInBuffer in {0, 2, 4, 6} && buffer < Pow2(bitsInBuffer)
    {
      var value := Value(input[i]);
      assert input[..i + 1][i] == input[i];
      if value.None? {
        FirstBadAt(input, i);
        assert BadAt(input, i, input[i]);
        return Err(input[i]);
      }
      ValuesSnoc(input[..i], input[i]);
      assert input[..i + 1] == input[..i] + [input[i]];
      ghost var before := Read(Values(input[..i]));
      ReaderBounded(before, value.value);
      buffer := buffer * 64 + value.value;
      bitsInBuffer := bitsInBuffer + 6;
      if bitsInBuffer >= 8 {
        bitsInBuffer := bitsInBuffer - 8;
        output := output + [(buffer / Pow2(bitsInBuffer)) % 256];
        buffer := buffer % Pow2(bitsInBuffer);
      }
    }
    assert input[..|input|] == input;
    ReadCarries(Values(input));
    r := Ok(output);
  }

  lemma ValuesSnoc(s: string, ch: char)
    requires Decodable(s) && Value(ch).Some?
    ensures Decodable(s + [ch]) && Values(s + [ch]) == Values(s) + [Value(ch).value]
    ensures Read(Values(s + [ch])) == Push(Read(Values(s)), Value(ch).value)
  {
    hide Value;
    assert Values(s + [ch]) == Values(s) + [Value(ch).value];
    assert Values(s + [ch])[..|s|] == Values(s);
  }

  lemma {:induction false} FirstBadAt(s: string, i: nat)
    requires i < |s| && Decodable(s[..i]) && Value(s[i]).None?
    ensures !Decodable(s) && FirstBad(s) == s[i]
  {
    hide Value;
    if i > 0 {
      assert s[..i][0] == s[0];
      forall k | 0 <= k < i - 1
        ensures Value(s[1..][k]).Some?
      {
        assert s[..i][k + 1] == s[1..][k];
      }
      assert s[1..][..i - 1] == s[..i][1..];
      FirstBadAt(s[1..], i - 1);
    }
  }

  // ----- what the decoder's state means

  /** Bytes as one number, base 256. */
  function Number256(bs: seq<Byte>): nat {
    if bs == [] then 0 else Number256(bs[..|bs| - 1]) * 256 + bs[|bs| - 1]
  }

  /** Six-bit values as one number, base 64. */
  function Number64(vs: seq<Sextet>): nat {
    if vs == [] then 0 else Number64(vs[..|vs| - 1]) * 64 + vs[|vs| - 1]
  }

  /** The output and the leftover bits are together exactly the bits of the symbols. */
  predicate Carries(r: Reader, vs: seq<Sextet>) {
    && r.bits in {0, 2, 4, 6} && r.buffer < Pow2(r.bits)
    && 8 * |r.output| + r.bits == 6 * |vs|
    && Number256(r.output) * Pow2(r.bits) + r.buffer == Number64(vs)
  }

  lemma Pow2Small()
    ensures Pow2(0) == 1 && Pow2(2) == 4 && Pow2(4) == 16 && Pow2(6) == 64
  {
    assert Pow2(2) == 4;
    assert Pow2(4) == 16;
  }

  /** The buffer stays below 2 to the number of bits in it, and one more symbol makes
      at most twelve bits. */
  lemma ReaderBounded(r: Reader, v: Sextet)
    requires r.bits in {0, 2, 4, 6} && r.buffer < Pow2(r.bits)
    ensures r.buffer * 64 + v < 0x1000
    ensures Push(r, v).bits in {0, 2, 4, 6} && Push(r, v).buffer < Pow2(Push(r, v).bits)
  {
    Pow2Small();
  }

  /** Six more bits on top of N's, in bytes and a buffer of 1, 2 or 4 fewer bits. */
  lemma PushNumber(N: nat, buffer: nat, v: Sextet, m: nat)
    requires m in {1, 4, 16} && buffer < 4 * m
    ensures (buffer * 64 + v) / m < 256
    ensures (N * 256 + (buffer * 64 + v) / m) * m + (buffer * 64 + v) % m == (N * (4 * m) + buffer) * 64 + v
  {
    if m == 1 {
    } else if m == 4 {
    } else {
    }
  }

  lemma PushCarries(r: Reader, vs: seq<Sextet>, v: Sextet)
    requires Carries(r, vs)
    ensures Carries(Push(r, v), vs + [v])
  {
    hide Number256;
    hide Number64;
    Pow2Small();
    hide Pow2;
    Number64Snoc(vs, v);
    ReaderBounded(r, v);
    if r.bits > 0 {
      PushNumber(Number256(r.output), r.buffer, v, Pow2(r.bits - 2));
      Number256Snoc(r.output, (r.buffer * 64 + v) / Pow2(r.bits - 2));
    }
  }

  lemma {:induction false} ReadCarries(vs: seq<Sextet>)
    ensures Carries(Read(vs), vs)
  {
    hide Push;
    hide Carries;
    if vs == [] {
      assert Carries(START, []) by { StartCarries(); }
    } else {
      var front := vs[..|vs| - 1];
      ReadCarries(front);
      PushCarries(Read(front), front, vs[|vs| - 1]);
      assert front + [vs[|vs| - 1]] == vs;
    }
  }

  lemma StartCarries()
    ensures Carries(START, [])
  {
  }

  lemma {:induction false} NumberInjective256(a: seq<Byte>, b: seq<Byte>)
    requires |a| == |b| && Number256(a) == Number256(b)
    ensures a == b
  {
    if a != [] {
      var n := |a| - 1;
      NumberInjective256(a[..n], b[..n]);
      assert a == a[..n] + [a[n]] && b == b[..n] + [b[n]];
    }
  }

  lemma {:induction false} NumberInjective64(a: seq<Sextet>, b: seq<Sextet>)
    requires |a| == |b| && Number64(a) == Number64(b)
    ensures a == b
  {
    if a != [] {
      var n := |a| - 1;
      NumberInjective64(a[..n], b[..n]);
      assert a == a[..n] + [a[n]] && b == b[..n] + [b[n]];
    }
  }

  // ----- the encoding of RFC 4648

  /** Three bytes make four symbols. */
  function Group3(a: Byte, b: Byte, c: Byte): seq<Sextet> {
    [a / 4, a % 4 * 16 + b / 16, b % 16 * 4 + c / 64, c % 64]
  }

  /** The symbols of the whole groups. */
  function WholeGroups(bs: seq<Byte>): seq<Sextet>
    requires |bs| % 3 == 0
  {
    if bs == [] then [] else
      var n := |bs| - 3;
      WholeGroups(bs[..n]) + Group3(bs[n], bs[n + 1], bs[n + 2])
  }

  /** The final one or two bytes, filled up with zero bits. */
  function LastGroup(bs: seq<Byte>): seq<Sextet>
    requires |bs| < 3
  {
    if |bs| == 0 then []
    else if |bs| == 1 then [bs[0] / 4, bs[0] % 4 * 16]
    else [bs[0] / 4, bs[0] % 4 * 16 + bs[1] / 16, bs[1] % 16 * 4]
  }

  function EncodeValues(bs: seq<Byte>): seq<Sextet> {
    var n := |bs| - |bs| % 3;
    WholeGroups(bs[..n]) + LastGroup(bs[n..])
  }

  function Symbols(vs: seq<Sextet>, urlSafe: bool): string {
    seq(|vs|, i requires 0 <= i < |vs| => Symbol(urlSafe, vs[i]))
  }

  function Encode(bs: seq<Byte>, urlSafe: bool, padded: bool): string {
    Symbols(EncodeValues(bs), urlSafe) + if padded then Pads((3 - |bs| % 3) % 3) else ""
  }

  function Pads(n: nat): string { seq(n, _ => '=') }

  lemma Number64Snoc(vs: seq<Sextet>, v: Sextet)
    ensures Number64(vs + [v]) == Number64(vs) * 64 + v
  {
    assert (vs + [v])[..|vs|] == vs;
  }

  lemma Number256Snoc(bs: seq<Byte>, b: Byte)
    ensures Number256(bs + [b]) == Number256(bs) * 256 + b
  {
    assert (bs + [b])[..|bs|] == bs;
  }

  lemma FourSymbols(bs: seq<Byte>, vs: seq<Sextet>, a: Byte, b: Byte, c: Byte)
    requires Number64(vs) == Number256(bs)
    ensures Number64(vs + Group3(a, b, c)) == Number256(bs + [a] + [b] + [c])
  {
    hide Number64;
    hide Number256;
    var g := Group3(a, b, c);
    assert vs + g == vs + [g[0]] + [g[1]] + [g[2]] + [g[3]];
    Number64Snoc(vs, g[0]);
    Number64Snoc(vs + [g[0]], g[1]);
    Number64Snoc(vs + [g[0]] + [g[1]], g[2]);
    Number64Snoc(vs + [g[0]] + [g[1]] + [g[2]], g[3]);
    Number256Snoc(bs, a);
    Number256Snoc(bs + [a], b);
    Number256Snoc(bs + [a] + [b], c);
  }

  lemma {:induction false} WholeGroupsNumber(bs: seq<Byte>)
    requires |bs| % 3 == 0
    ensures 6 * |WholeGroups(bs)| == 8 * |bs|
    ensures Number64(WholeGroups(bs)) == Number256(bs)
  {
    if bs == [] {
    } else {
      hide Number64;
      hide Number256;
      var n := |bs| - 3;
      WholeGroupsNumber(bs[..n]);
      FourSymbols(bs[..n], WholeGroups(bs[..n]), bs[n], bs[n + 1], bs[n + 2]);
      assert bs == bs[..n] + [bs[n]] + [bs[n + 1]] + [bs[n + 2]];
    }
  }

  /** The leftover bits of a byte count. */
  function Fill(n: nat): nat { if n % 3 == 0 then 0 else if n % 3 == 1 then 4 else 2 }

  /** The encoding's symbols are the bytes' bits and then zero bits. */
  lemma EncodeNumber(bs: seq<Byte>)
    ensures 6 * |EncodeValues(bs)| == 8 * |bs| + Fill(|bs|)
    ensures Number64(EncodeValues(bs)) == Number256(bs) * Pow2(Fill(|bs|))
  {
    hide Number64;
    hide Number256;
    hide WholeGroups;
    Pow2Small();
    hide Pow2;
    var n := |bs| - |bs| % 3;
    var vs, g := WholeGroups(bs[..n]), LastGroup(bs[n..]);
    WholeGroupsNumber(bs[..n]);
    if |bs| % 3 == 0 {
      assert bs[..n] == bs && vs + g == vs;
    } else if |bs| % 3 == 1 {
      TwoSymbols(bs[..n], vs, bs[n]);
      assert bs == bs[..n] + [bs[n]];
    } else {
      ThreeSymbols(bs[..n], vs, bs[n], bs[n + 1]);
      assert bs == bs[..n] + [bs[n]] + [bs[n + 1]];
    }
  }

  lemma TwoSymbols(bs: seq<Byte>, vs: seq<Sextet>, a: Byte)
    requires Number64(vs) == Number256(bs)
    ensures Number64(vs + LastGroup([a])) == Number256(bs + [a]) * 16
  {
    hide Number64;
    hide Number256;
    var g := LastGroup([a]);
    assert vs + g == vs + [g[0]] + [g[1]];
    Number64Snoc(vs, g[0]);
    Number64Snoc(vs + [g[0]], g[1]);
    Number256Snoc(bs, a);
  }

  lemma ThreeSymbols(bs: seq<Byte>, vs: seq<Sextet>, a: Byte, b: Byte)
    requires Number64(vs) == Number256(bs)
    ensures Number64(vs + LastGroup([a, b])) == Number256(bs + [a] + [b]) * 4
  {
    hide Number64;
    hide Number256;
    var g := LastGroup([a, b]);
    assert vs + g == vs + [g[0]] + [g[1]] + [g[2]];
    Number64Snoc(vs, g[0]);
    Number64Snoc(vs + [g[0]], g[1]);
    Number64Snoc(vs + [g[0]] + [g[1]], g[2]);
    Number256Snoc(bs, a);
    Number256Snoc(bs + [a], b);
  }

  /** Reading an encoding's symbols gives the bytes and leaves nothing over. */
  lemma ReadEncoded(bs: seq<Byte>)
    ensures Read(EncodeValues(bs)).output == bs
    ensures Read(EncodeValues(bs)).buffer == 0
  {
    hide EncodeValues;
    var vs := EncodeValues(bs);
    var r := Read(vs);
    EncodeNumber(bs);
    ReadCarries(vs);
    Pow2Small();
    assert r.bits == Fill(|bs|) && |r.output| == |bs|;
    SameQuotient(Number256(r.output), Number256(bs), r.buffer, 0, Pow2(r.bits));
    NumberInjective256(r.output, bs);
  }

  lemma SameQuotient(a: nat, b: nat, x: nat, y: nat, m: nat)
    requires m in {1, 4, 16, 64} && x < m && y < m && a * m + x == b * m + y
    ensures a == b && x == y
  {
    if m == 1 {
    } else if m == 4 {
    } else if m == 16 {
    } else {
    }
  }

  // ----- padding and white space

  lemma SymbolIsPlain(urlSafe: bool, v: Sextet)
    ensures !IsSpace(Symbol(urlSafe, v)) && Symbol(urlSafe, v) != '='
  {
    AlphabetAt(v, urlSafe);
  }

  predicate Plain(s: string) { forall i :: 0 <= i < |s| ==> !IsSpace(s[i]) && s[i] != '=' }

  predicate Blank(s: string) { forall i :: 0 <= i < |s| ==> IsSpace(s[i]) }

  lemma {:induction false} TrimStartBlank(blank: string, s: string)
    requires Blank(blank) && (s == [] || !IsSpace(s[0]))
    ensures TrimStart(blank + s) == s
  {
    hide IsSpace;
    if blank == [] {
      assert blank + s == s;
    } else {
      assert (blank + s)[1..] == blank[1..] + s;
      TrimStartBlank(blank[1..], s);
    }
  }

  lemma {:induction false} TrimEndBlank(s: string, blank: string)
    requires Blank(blank) && (s == [] || !IsSpace(s[|s| - 1]))
    ensures TrimEnd(s + blank) == s
  {
    hide IsSpace;
    if blank == [] {
      assert s + blank == s;
    } else {
      assert (s + blank)[..|s + blank| - 1] == s + blank[..|blank| - 1];
      TrimEndBlank(s, blank[..|blank| - 1]);
    }
  }

  lemma {:induction false} TrimPadsPlain(s: string, n: nat)
    requires Plain(s)
    ensures TrimPads(s + Pads(n)) == s
  {
    hide IsSpace;
    if n == 0 {
      assert s + Pads(0) == s;
    } else {
      assert (s + Pads(n))[..|s| + n - 1] == s + Pads(n - 1);
      TrimPadsPlain(s, n - 1);
    }
  }

  /** White space around the encoding and padding after it make no difference. */
  lemma InputOf(left: string, s: string, n: nat, right: string)
    requires Plain(s) && Blank(left) && Blank(right)
    ensures Input(left + s + Pads(n) + right) == s
  {
    var body := s + Pads(n);
    assert body == [] || (!IsSpace(body[0]) && !IsSpace(body[|body| - 1])) by {
      assert !IsSpace('=');
    }
    hide IsSpace;
    if body == [] {
      assert left + s + Pads(n) + right == (left + right) + [];
      TrimStartBlank(left + right, []);
      assert TrimEnd([]) == [];
    } else {
      assert left + s + Pads(n) + right == left + (body + right);
      TrimStartBlank(left, body + right);
      TrimEndBlank(body, right);
    }
    TrimPadsPlain(s, n);
  }

  lemma SymbolsRead(vs: seq<Sextet>, urlSafe: bool)
    ensures Plain(Symbols(vs, urlSafe))
    ensures Decodable(Symbols(vs, urlSafe)) && Values(Symbols(vs, urlSafe)) == vs
  {
    hide IsSpace;
    hide Symbol;
    hide Value;
    var s := Symbols(vs, urlSafe);
    forall i | 0 <= i < |s|
      ensures !IsSpace(s[i]) && s[i] != '=' && Value(s[i]) == Some(vs[i])
    {
      SymbolIsPlain(urlSafe, vs[i]);
      ValueOfSymbol(urlSafe, vs[i]);
    }
    assert Values(s) == vs;
  }

  /** Decoding undoes encoding, in either alphabet, padded or not, with any white space
      around it. */
  lemma RoundTrip(bs: seq<Byte>, urlSafe: bool, padded: bool, left: string, right: string)
    requires Blank(left) && Blank(right)
    ensures Decode(left + Encode(bs, urlSafe, padded) + right) == Ok(bs)
  {
    hide IsSpace;
    hide EncodeValues;
    hide Read;
    var s := Symbols(EncodeValues(bs), urlSafe);
    SymbolsRead(EncodeValues(bs), urlSafe);
    ReadEncoded(bs);
    var n := if padded then (3 - |bs| % 3) % 3 else 0;
    assert Pads(0) == "";
    assert Encode(bs, urlSafe, padded) == s + Pads(n);
    assert left + (s + Pads(n)) + right == left + s + Pads(n) + right;
    InputOf(left, s, n, right);
  }

  /** The symbols of a decodable string are those of its decoding's own encoding exactly
      when the string's length is one an encoding can have and its leftover bits are zero. */
  lemma CanonicalExactly(vs: seq<Sextet>)
    ensures EncodeValues(Read(vs).output) == vs <==> |vs| % 4 != 1 && Read(vs).buffer == 0
  {
    hide EncodeValues;
    hide Read;
    hide Number64;
    hide Number256;
    var r := Read(vs);
    ReadCarries(vs);
    EncodeNumber(r.output);
    Pow2Small();
    hide Pow2;
    LengthsFit(|vs|, |r.output|, r.bits);
    if |vs| % 4 != 1 && r.buffer == 0 {
      NumberInjective64(EncodeValues(r.output), vs);
    }
  }

  /** Encoding undoes decoding exactly on the strings an encoder can produce. */
  lemma EncodingsExactly(vs: seq<Sextet>, urlSafe: bool)
    ensures var s := Symbols(vs, urlSafe);
            && Decode(s) == Ok(Read(vs).output)
            && (Encode(Read(vs).output, urlSafe, false) == s <==> |s| % 4 != 1 && Read(vs).buffer == 0)
  {
    hide IsSpace;
    hide EncodeValues;
    hide Read;
    hide Symbol;
    var s := Symbols(vs, urlSafe);
    SymbolsRead(vs, urlSafe);
    assert Pads(0) == "" && "" + s + Pads(0) + "" == s;
    InputOf("", s, 0, "");
    CanonicalExactly(vs);
    var again := EncodeValues(Read(vs).output);
    SymbolsRead(again, urlSafe);
    assert Encode(Read(vs).output, urlSafe, false) == Symbols(again, urlSafe);
  }

  lemma LengthsFit(symbols: nat, bytes: nat, bits: nat)
    requires bits in {0, 2, 4, 6} && 8 * bytes + bits == 6 * symbols
    ensures symbols % 4 == 1 <==> bits == 6
    ensures bits != 6 ==> bits == Fill(bytes)
    ensures bits == 6 ==> Fill(bytes) == 0
  {
  }
}
