/** The DoubleSpace-style LZ bitstream decoder of src/w4.rs.

    The compressed input is read as a stream of bits, least significant bit
    of each byte first (Stream). The original threads one `&mut usize` bit
    cursor through every reader; here each reader takes the cursor `index`
    and returns the advanced cursor `next`, and carries the stream as a
    ghost parameter `bits` (StreamOf). Each reader is proved against a
    specification function over the bit stream and the cursor (LsbValue,
    CountFrom, TokenAt, DecodeFrom), and the token grammar is tied to an
    independent encoder by round-trip lemmas. */
module DoubleSpace {
  import opened Bytes
  import opened Results

  // ---------------------------------------------------------------------
  // Bits of a number and bits of the stream
  // ---------------------------------------------------------------------

  /** x shifted right by k bits. */
  function Shr(x: nat, k: nat): nat
  {
    if k == 0 then x else Shr(x / 2, k - 1)
  }

  /** Bit k of x (bit 0 is the least significant one): `x & (1 << k) != 0`. */
  predicate BitOf(x: nat, k: nat)
  {
    Shr(x, k) % 2 == 1
  }

  /** The n-bit encoding of v, least significant bit first. */
  function LsbBits(v: nat, n: nat): (bits: seq<bool>)
    ensures |bits| == n
  {
    if n == 0 then [] else [v % 2 == 1] + LsbBits(v / 2, n - 1)
  }

  /** The k-th bit of an encoding is bit k of the number. */
  lemma {:induction false} LsbBitsIndex(v: nat, n: nat, k: nat)
    requires k < n
    ensures LsbBits(v, n)[k] == BitOf(v, k)
  {
    if k > 0 {
      LsbBitsIndex(v / 2, n - 1, k - 1);
    }
  }

  /** The bit stream of the input: the bits of every byte in turn, each byte
      least significant bit first. */
  function Stream(input: seq<byte>): (bits: seq<bool>)
    ensures |bits| == 8 * |input|
  {
    if |input| == 0 then [] else LsbBits(input[0], 8) + Stream(input[1..])
  }

  /** Bit i of the stream is bit i % 8 of byte i / 8. */
  lemma {:induction false} StreamIndex(input: seq<byte>, i: nat)
    requires i < 8 * |input|
    ensures Stream(input)[i] == BitOf(input[i / 8], i % 8)
  {
    if i < 8 {
      LsbBitsIndex(input[0], 8, i);
    } else {
      StreamIndex(input[1..], i - 8);
      assert (i - 8) / 8 == i / 8 - 1 && (i - 8) % 8 == i % 8;
    }
  }

  /** The value of the n stream bits starting at pos, the first of them the
      least significant. */
  function LsbValue(bits: seq<bool>, pos: nat, n: nat): (r: nat)
    requires pos + n <= |bits|
    ensures r < Pow2(n)
    decreases n
  {
    if n == 0 then 0
    else (if bits[pos] then 1 else 0) + 2 * LsbValue(bits, pos + 1, n - 1)
  }

  /** Reading one more bit adds it at the next higher position: this is how
      the readers' `result |= bit << k` loops build LsbValue. */
  lemma {:induction false} LsbValueSnoc(bits: seq<bool>, pos: nat, n: nat)
    requires pos + n + 1 <= |bits|
    ensures LsbValue(bits, pos, n + 1)
            == LsbValue(bits, pos, n) + (if bits[pos + n] then Pow2(n) else 0)
    decreases n
  {
    if n > 0 {
      LsbValueSnoc(bits, pos + 1, n - 1);
    }
  }

  /** The stream holds `code` from pos on. */
  predicate BitsAt(bits: seq<bool>, pos: nat, code: seq<bool>)
  {
    pos + |code| <= |bits| && bits[pos..pos + |code|] == code
  }

  lemma BitsAtConcat(bits: seq<bool>, pos: nat, a: seq<bool>, b: seq<bool>)
    requires BitsAt(bits, pos, a + b)
    ensures BitsAt(bits, pos, a) && BitsAt(bits, pos + |a|, b)
  {
    assert bits[pos..pos + |a|] == (a + b)[..|a|];
    assert bits[pos + |a|..pos + |a| + |b|] == (a + b)[|a|..];
  }

  /** Reading the n-bit encoding of v gives v back. */
  lemma {:induction false} LsbValueOfBits(bits: seq<bool>, pos: nat, v: nat, n: nat)
    requires v < Pow2(n) && BitsAt(bits, pos, LsbBits(v, n))
    ensures LsbValue(bits, pos, n) == v
    decreases n
  {
    if n > 0 {
      assert bits[pos] == LsbBits(v, n)[0];
      BitsAtConcat(bits, pos, [v % 2 == 1], LsbBits(v / 2, n - 1));
      LsbValueOfBits(bits, pos + 1, v / 2, n - 1);
    }
  }

  /** Encoding the value of n stream bits gives those bits back. */
  lemma {:induction false} LsbBitsOfValue(bits: seq<bool>, pos: nat, n: nat)
    requires pos + n <= |bits|
    ensures LsbBits(LsbValue(bits, pos, n), n) == bits[pos..pos + n]
    decreases n
  {
    if n > 0 {
      var v := LsbValue(bits, pos, n);
      var rest := LsbValue(bits, pos + 1, n - 1);
      assert v % 2 == 1 <==> bits[pos];
      assert v / 2 == rest;
      LsbBitsOfValue(bits, pos + 1, n - 1);
      assert bits[pos..pos + n] == [bits[pos]] + bits[pos + 1..pos + n];
    }
  }

  /** The eight stream bits of byte j are the bits of that byte. */
  lemma {:induction false} StreamOfByte(input: seq<byte>, j: nat)
    requires j < |input|
    ensures BitsAt(Stream(input), 8 * j, LsbBits(input[j], 8))
  {
    var head, tail := LsbBits(input[0], 8), Stream(input[1..]);
    assert Stream(input) == head + tail;
    if j == 0 {
      assert (head + tail)[0..8] == head;
    } else {
      StreamOfByte(input[1..], j - 1);
      assert (head + tail)[8 * j..8 * j + 8] == tail[8 * (j - 1)..8 * (j - 1) + 8];
    }
  }

  /** The stream holds every byte of the input, least significant bit first:
      the eight stream bits of byte j, read as an LsbValue, give the byte
      back. */
  lemma ByteFromBits(input: seq<byte>, j: nat)
    requires j < |input|
    ensures LsbValue(Stream(input), 8 * j, 8) == input[j]
  {
    StreamOfByte(input, j);
    assert input[j] < 256 == Pow2(8);
    LsbValueOfBits(Stream(input), 8 * j, input[j], 8);
  }

  // ---------------------------------------------------------------------
  // The input as a bit stream
  // ---------------------------------------------------------------------

  /** Bit i of the input: `input[i / 8] & (1 << (i % 8)) != 0`. */
  predicate ByteBit(input: seq<byte>, i: nat)
    requires i < 8 * |input|
  {
    BitOf(input[i / 8], i % 8)
  }

  /** bits is the input read as a bit stream. The readers below take it as a
      ghost parameter and are specified over it; the quantifier only fires
      where a byte is actually inspected (read_vec_bit). */
  predicate StreamOf(input: seq<byte>, bits: seq<bool>)
  {
    && |bits| == 8 * |input|
    && forall i {:trigger ByteBit(input, i)} :: 0 <= i < |bits| ==> bits[i] == ByteBit(input, i)
  }

  /** Stream is the bit stream of its input, and the only one. */
  lemma StreamOfIsStream(input: seq<byte>, bits: seq<bool>)
    ensures StreamOf(input, Stream(input))
    ensures StreamOf(input, bits) ==> bits == Stream(input)
  {
    forall i | 0 <= i < 8 * |input|
      ensures Stream(input)[i] == ByteBit(input, i)
    {
      StreamIndex(input, i);
    }
    if StreamOf(input, bits) {
      forall i | 0 <= i < |bits|
        ensures bits[i] == Stream(input)[i]
      {
        assert bits[i] == ByteBit(input, i);
      }
    }
  }

  // ---------------------------------------------------------------------
  // Outcomes of the readers
  // ---------------------------------------------------------------------

  /** Why the decoder panics: it indexes past the end of the input, it meets
      a back-reference with count 0, or a back-reference reaches before the
      start of the output (`result.len() - depth` underflows). */
  datatype Panic = OutOfInput | ZeroCount | BackReferenceUnderflow

  // ---------------------------------------------------------------------
  // Fixed-width readers
  // ---------------------------------------------------------------------

  /** read_vec_bit. */
  method ReadVecBit(input: seq<byte>, ghost bits: seq<bool>, index: nat) returns (bit: bool, next: nat)
    requires StreamOf(input, bits) && index < |bits|
    ensures bit == bits[index]
    ensures next == index + 1
  {
    bit := Shr(input[index / 8], index % 8) % 2 == 1;
    assert bit == ByteBit(input, index);
    next := index + 1;
  }

  /** ds_raw_byte: bit 7 is `first`, bits 0 to 6 are the next seven stream
      bits. */
  method RawByte(input: seq<byte>, ghost bits: seq<bool>, index: nat, first: bool) returns (r: byte, next: nat)
    requires StreamOf(input, bits) && index + 7 <= |bits|
    ensures next == index + 7
    ensures r == (if first then 0x80 else 0) + LsbValue(bits, index, 7)
  {
    var result: nat := if first then 0x80 else 0;
    next := index;
    for bit := 0 to 7
      invariant next == index + bit
      invariant result == (if first then 0x80 else 0) + LsbValue(bits, index, bit)
    {
      var b;
      b, next := ReadVecBit(input, bits, next);
      LsbValueSnoc(bits, index, bit);
      // `result |= (b as u8) << bit`: bit `bit` of result is still clear
      result := result + (if b then Pow2(bit) else 0);
    }
    assert LsbValue(bits, index, 7) < Pow2(7) == 0x80;
    r := result;
  }

  /** ds_depth: `len` stream bits, least significant first, plus `base`. */
  method Depth(input: seq<byte>, ghost bits: seq<bool>, index: nat, base: nat, len: nat) returns (r: nat, next: nat)
    requires StreamOf(input, bits) && index + len <= |bits|
    ensures next == index + len
    ensures r == base + LsbValue(bits, index, len)
  {
    var result: nat := 0;
    next := index;
    for bit := 0 to len
      invariant next == index + bit
      invariant result == LsbValue(bits, index, bit)
    {
      var b;
      b, next := ReadVecBit(input, bits, next);
      LsbValueSnoc(bits, index, bit);
      result := result + (if b then Pow2(bit) else 0);
    }
    r := result + base;
  }

  /** ds_count1: the same reader as ds_depth, used for the count's tail. */
  method Count1(input: seq<byte>, ghost bits: seq<bool>, index: nat, base: nat, len: nat) returns (r: nat, next: nat)
    requires StreamOf(input, bits) && index + len <= |bits|
    ensures next == index + len
    ensures r == base + LsbValue(bits, index, len)
  {
    var result: nat := 0;
    next := index;
    for bit := 0 to len
      invariant next == index + bit
      invariant result == LsbValue(bits, index, bit)
    {
      var b;
      b, next := ReadVecBit(input, bits, next);
      LsbValueSnoc(bits, index, bit);
      result := result + (if b then Pow2(bit) else 0);
    }
    r := result + base;
  }

  // ---------------------------------------------------------------------
  // The count code
  // ---------------------------------------------------------------------

  /** The count bases selected by the length of the zero prefix. */
  const Bases: seq<nat> := [2, 3, 5, 9, 17, 33, 65, 129, 257]

  /** Bases[p] is 2^p + 1, so the ranges selected by p = 0 .. 8 tile 2 .. 512. */
  lemma BasesArePowers(p: nat)
    requires p <= 8
    ensures Bases[p] == Pow2(p) + 1 && Pow2(p) <= 256
  {
  }

  /** A count read from the stream with the advanced cursor, or why reading
      it panicked. */
  datatype CountRead = ReadCount(count: nat, next: nat) | CountPanicked(panic: Panic)

  /** What ds_count reads from pos once it has read p zero bits: a one bit
      selects 2^p + 1 (the p-th entry of the bases table) plus a p-bit value
      read after it; a ninth zero bit gives the illegal count 0. */
  function CountFrom(bits: seq<bool>, pos: nat, p: nat): (r: CountRead)
    requires p <= 9 && (p == 9 ==> pos <= |bits|)
    ensures r.ReadCount? ==> pos <= r.next <= |bits|
    decreases 9 - p
  {
    if p == 9 then ReadCount(0, pos)
    else if |bits| <= pos then CountPanicked(OutOfInput)
    else if bits[pos] then
      if |bits| < pos + 1 + p then CountPanicked(OutOfInput)
      else ReadCount(Pow2(p) + 1 + LsbValue(bits, pos + 1, p), pos + 1 + p)
    else CountFrom(bits, pos + 1, p + 1)
  }

  /** ds_count: the count code at index. */
  method Count(input: seq<byte>, ghost bits: seq<bool>, index: nat) returns (r: CountRead)
    requires StreamOf(input, bits)
    ensures r == CountFrom(bits, index, 0)
  {
    if 8 * |input| <= index {
      return CountPanicked(OutOfInput);
    }
    var first, next := ReadVecBit(input, bits, index);
    if first {
      return ReadCount(Bases[0], next);
    }
    var p := 1;
    while p < 9
      invariant 1 <= p <= 9
      invariant index < next <= |bits|
      invariant CountFrom(bits, next, p) == CountFrom(bits, index, 0)
    {
      if 8 * |input| <= next {
        return CountPanicked(OutOfInput);
      }
      CountStep(bits, next, p);
      var b;
      b, next := ReadVecBit(input, bits, next);
      if b {
        if 8 * |input| < next + p {
          return CountPanicked(OutOfInput);
        }
        BasesArePowers(p);
        var c;
        c, next := Count1(input, bits, next, Bases[p], p);
        return ReadCount(c, next);
      }
      p := p + 1;
    }
    return ReadCount(0, next);  // illegal encoding
  }

  /** One step of CountFrom, at a bit inside the stream. */
  lemma CountStep(bits: seq<bool>, pos: nat, p: nat)
    requires p < 9 && pos < |bits|
    ensures CountFrom(bits, pos, p)
            == if !bits[pos] then CountFrom(bits, pos + 1, p + 1)
               else if |bits| < pos + 1 + p then CountPanicked(OutOfInput)
               else ReadCount(Pow2(p) + 1 + LsbValue(bits, pos + 1, p), pos + 1 + p)
  {
  }

  /** A count read after p zero bits is 0 (the illegal code of nine zero
      bits) or lies in 2^p + 1 .. 512, and the whole code, those p bits
      included, takes at most 17 bits. */
  lemma {:induction false} CountRange(bits: seq<bool>, pos: nat, p: nat)
    requires p <= 9 && (p == 9 ==> pos <= |bits|) && CountFrom(bits, pos, p).ReadCount?
    ensures var r := CountFrom(bits, pos, p);
            (r.count == 0 || Pow2(p) + 1 <= r.count <= 512)
            && r.next <= pos + 17 - p
    decreases 9 - p
  {
    if p < 9 && pos < |bits| {
      if bits[pos] {
        BasesArePowers(p);
      } else {
        CountRange(bits, pos + 1, p + 1);
        assert Pow2(p + 1) == 2 * Pow2(p);
      }
    }
  }

  // ---------------------------------------------------------------------
  // Tokens
  // ---------------------------------------------------------------------

  /** DSToken. */
  datatype Token = Raw(b: byte) | DepthCount(depth: nat, count: nat) | SectorBreak | End

  /** A token read from the stream with the advanced cursor, or why reading
      it panicked. */
  datatype TokenRead = ReadToken(token: Token, next: nat) | TokenPanicked(panic: Panic)

  /** What ds_read_bits reads at pos: two unequal bits give a literal byte
      whose top bit is the first of them, two zero bits a short
      back-reference or the end, two one bits a long back-reference or a
      sector break. */
  function TokenAt(bits: seq<bool>, pos: nat): (r: TokenRead)
    ensures r.ReadToken? ==> pos + 2 <= r.next <= |bits|
    ensures r.ReadToken? && r.token.DepthCount? ==> r.token.depth >= 1
  {
    if |bits| < pos + 2 then TokenPanicked(OutOfInput)
    else
      var first, second := bits[pos], bits[pos + 1];
      if first != second then LiteralAt(bits, pos + 2, first)
      else if !first then ShortAt(bits, pos + 2)
      else LongAt(bits, pos + 2)
  }

  /** The literal byte whose seven low bits start at pos. */
  function LiteralAt(bits: seq<bool>, pos: nat, first: bool): (r: TokenRead)
    ensures r.ReadToken? ==> r.next == pos + 7 <= |bits|
  {
    if |bits| < pos + 7 then TokenPanicked(OutOfInput)
    else ReadToken(Raw((if first then 0x80 else 0) + LsbValue(bits, pos, 7)), pos + 7)
  }

  /** The end token (depth 0) or a back-reference with a 6-bit depth at pos. */
  function ShortAt(bits: seq<bool>, pos: nat): (r: TokenRead)
    ensures r.ReadToken? ==> pos + 6 <= r.next <= |bits|
  {
    if |bits| < pos + 6 then TokenPanicked(OutOfInput)
    else
      var depth := LsbValue(bits, pos, 6);
      if depth == 0 then ReadToken(End, pos + 6)
      else BackReference(bits, depth, pos + 6)
  }

  /** After a selector bit at pos, an 8-bit depth based at 64 or a 12-bit
      depth based at 320; depth 4415 is the sector break. */
  function LongAt(bits: seq<bool>, pos: nat): (r: TokenRead)
    ensures r.ReadToken? ==> pos + 9 <= r.next <= |bits|
  {
    if |bits| < pos + 1 then TokenPanicked(OutOfInput)
    else
      var wide := bits[pos];
      if |bits| < pos + 1 + LongWidth(wide) then TokenPanicked(OutOfInput)
      else
        var depth := LongBase(wide) + LsbValue(bits, pos + 1, LongWidth(wide));
        if depth == 4415 then ReadToken(SectorBreak, pos + 1 + LongWidth(wide))
        else BackReference(bits, depth, pos + 1 + LongWidth(wide))
  }

  /** LongAt once the depth field has been read. */
  lemma LongAtField(bits: seq<bool>, pos: nat, depth: nat, next: nat)
    requires pos < |bits| && next == pos + 1 + LongWidth(bits[pos]) <= |bits|
    requires depth == LongBase(bits[pos]) + LsbValue(bits, pos + 1, LongWidth(bits[pos]))
    ensures LongAt(bits, pos)
            == if depth == 4415 then ReadToken(SectorBreak, next) else BackReference(bits, depth, next)
  {
  }

  /** The width and the base of the depth field the selector bit picks. */
  function LongWidth(wide: bool): nat
  {
    if wide then 12 else 8
  }

  function LongBase(wide: bool): nat
  {
    if wide then 320 else 64
  }

  /** A back-reference of the given depth whose count code starts at pos; a
      count of 0 is a panic. */
  function BackReference(bits: seq<bool>, depth: nat, pos: nat): (r: TokenRead)
    ensures r.ReadToken? ==> pos < r.next <= |bits| && r.token.DepthCount? && r.token.depth == depth
  {
    match CountFrom(bits, pos, 0)
    case CountPanicked(e) => TokenPanicked(e)
    case ReadCount(count, next) =>
      if count == 0 then TokenPanicked(ZeroCount) else ReadToken(DepthCount(depth, count), next)
  }

  /** The token grammar: the first two bits select a literal (unequal bits),
      a short back-reference or the end (two zeros), or a long back-reference
      or a sector break (two ones); each token consumes exactly its bits, and
      every back-reference has a depth in the range its field selects and a
      count from 2 to 512. */
  lemma TokenGrammar(bits: seq<bool>, pos: nat)
    requires TokenAt(bits, pos).ReadToken?
    ensures var r := TokenAt(bits, pos);
            var first, second := bits[pos], bits[pos + 1];
            && (r.token.Raw? <==> first != second)
            && (r.token.Raw? ==>
                  r.next == pos + 9
                  && r.token.b == (if first then 0x80 else 0) + LsbValue(bits, pos + 2, 7))
            && (r.token.End? ==>
                  !first && !second && r.next == pos + 8 && LsbValue(bits, pos + 2, 6) == 0)
            && (r.token.SectorBreak? ==>
                  first && second && r.next == pos + 15
                  && bits[pos + 2] && LsbValue(bits, pos + 3, 12) == 4095)
            && (r.token.DepthCount? ==> 2 <= r.token.count <= 512)
            && (r.token.DepthCount? && !first ==> 1 <= r.token.depth <= 63)
            && (r.token.DepthCount? && first ==>
                  if bits[pos + 2] then 320 <= r.token.depth <= 4414
                  else 64 <= r.token.depth <= 319)
  {
    var r := TokenAt(bits, pos);
    var first, second := bits[pos], bits[pos + 1];
    assert Pow2(6) == 64 && Pow2(8) == 256 && Pow2(12) == 4096;
    if r.token.DepthCount? {
      var at := if !first then pos + 8 else if bits[pos + 2] then pos + 15 else pos + 11;
      CountRange(bits, at, 0);
    }
  }

  /** The tail both back-reference branches of ds_read_bits share: read the
      count and refuse the illegal count 0. */
  method ReadBackReference(input: seq<byte>, ghost bits: seq<bool>, depth: nat, index: nat) returns (r: TokenRead)
    requires StreamOf(input, bits)
    ensures r == BackReference(bits, depth, index)
  {
    var count := Count(input, bits, index);
    if count.CountPanicked? {
      return TokenPanicked(count.panic);
    }
    if count.count == 0 {
      return TokenPanicked(ZeroCount);
    }
    return ReadToken(DepthCount(depth, count.count), count.next);
  }

  /** ds_read_bits. */
  method ReadBits(input: seq<byte>, ghost bits: seq<bool>, index: nat) returns (r: TokenRead)
    requires StreamOf(input, bits)
    ensures r == TokenAt(bits, index)
  {
    if 8 * |input| < index + 2 {
      return TokenPanicked(OutOfInput);
    }
    var first, second, next;
    first, next := ReadVecBit(input, bits, index);
    second, next := ReadVecBit(input, bits, next);
    if first != second {
      if 8 * |input| < next + 7 {
        return TokenPanicked(OutOfInput);
      }
      var b;
      b, next := RawByte(input, bits, next, first);
      r := ReadToken(Raw(b), next);
    } else if !(first && second) {
      r := ReadShort(input, bits, next);
    } else {
      r := ReadLong(input, bits, next);
    }
  }

  /** The branch of ds_read_bits taken after two zero bits: a 6-bit depth,
      the end token when it is 0. */
  method ReadShort(input: seq<byte>, ghost bits: seq<bool>, index: nat) returns (r: TokenRead)
    requires StreamOf(input, bits)
    ensures r == ShortAt(bits, index)
  {
    if 8 * |input| < index + 6 {
      return TokenPanicked(OutOfInput);
    }
    var depth, next := Depth(input, bits, index, 0, 6);
    if depth == 0 {
      return ReadToken(End, next);
    }
    r := ReadBackReference(input, bits, depth, next);
  }

  /** The branch of ds_read_bits taken after two one bits: a selector bit,
      then an 8-bit depth based at 64 or a 12-bit depth based at 320; 4415
      is the sector break. */
  method ReadLong(input: seq<byte>, ghost bits: seq<bool>, index: nat) returns (r: TokenRead)
    requires StreamOf(input, bits)
    ensures r == LongAt(bits, index)
  {
    if 8 * |input| < index + 1 {
      return TokenPanicked(OutOfInput);
    }
    var third, next := ReadVecBit(input, bits, index);
    // `if !third { ds_depth(.., 64, 8) } else { ds_depth(.., 320, 12) }`
    if 8 * |input| < next + LongWidth(third) {
      return TokenPanicked(OutOfInput);
    }
    var depth;
    depth, next := Depth(input, bits, next, LongBase(third), LongWidth(third));
    LongAtField(bits, index, depth, next);
    if depth == 4415 {
      return ReadToken(SectorBreak, next);
    }
    r := ReadBackReference(input, bits, depth, next);
  }

  // ---------------------------------------------------------------------
  // Decoding a block
  // ---------------------------------------------------------------------

  /** The size of a block: no token is read once the output has this length. */
  const BlockSize: nat := 8192

  /** Appends c bytes, each a copy of the byte d positions before it in the
      growing output, so that a copy may overlap the bytes it produces. */
  function CopyBack(out: seq<byte>, d: nat, c: nat): (r: seq<byte>)
    requires 1 <= d <= |out|
    ensures |r| == |out| + c && r[..|out|] == out
    ensures forall k :: |out| <= k < |r| ==> r[k] == r[k - d]
  {
    if c == 0 then out
    else
      var s := CopyBack(out, d, c - 1);
      s + [s[|s| - d]]
  }

  /** An overlapping copy replicates the last d bytes of the output: the k-th
      copied byte is the (k mod d)-th of them. */
  lemma {:induction false} CopyBackRepeats(out: seq<byte>, d: nat, c: nat, k: nat)
    requires 1 <= d <= |out| && k < c
    ensures CopyBack(out, d, c)[|out| + k] == out[|out| - d + k % d]
  {
    var r := CopyBack(out, d, c);
    if k < d {
      ModUnique(k, d, 0, k);
      assert r[|out| + k] == r[|out| + k - d];
      assert r[..|out|][|out| + k - d] == out[|out| + k - d];
    } else {
      CopyBackRepeats(out, d, c, k - d);
      ModSub(k, d);
      assert r[|out| + k] == r[|out| + k - d];
    }
  }

  lemma {:induction false} MulAtLeast(d: int, x: int)
    requires d >= 1 && x >= 1
    ensures d * x >= d
    decreases x
  {
    if x > 1 {
      MulAtLeast(d, x - 1);
      assert d * x == d * (x - 1) + d;
    }
  }

  lemma ModUnique(a: int, d: int, q: int, m: int)
    requires d >= 1 && 0 <= m < d && a == d * q + m
    ensures a % d == m
  {
    var q', m' := a / d, a % d;
    assert a == d * q' + m';
    var e := q - q';
    assert d * e == m' - m;
    if e >= 1 {
      MulAtLeast(d, e);
    } else if e <= -1 {
      MulAtLeast(d, -e);
    }
  }

  lemma ModSub(k: nat, d: nat)
    requires 1 <= d <= k
    ensures (k - d) % d == k % d
  {
    var q, m := k / d, k % d;
    assert k == d * q + m;
    assert k - d == d * (q - 1) + m;
    ModUnique(k - d, d, q - 1, m);
  }

  /** The output decoded from cursor pos onwards, given the output so far. */
  function DecodeFrom(bits: seq<bool>, pos: nat, out: seq<byte>): Result<seq<byte>, Panic>
    decreases |bits| - pos
  {
    if |out| >= BlockSize then Ok(out)
    else
      match TokenAt(bits, pos)
      case TokenPanicked(e) => Err(e)
      case ReadToken(Raw(b), next) => DecodeFrom(bits, next, out + [b])
      case ReadToken(DepthCount(d, c), next) =>
        if |out| < d then Err(BackReferenceUnderflow)
        else DecodeFrom(bits, next, CopyBack(out, d, c))
      case ReadToken(SectorBreak, next) => DecodeFrom(bits, next, out)
      case ReadToken(End, _) => Ok(out)
  }

  /** The decoded block of a compressed input. */
  function Decode(input: seq<byte>): Result<seq<byte>, Panic>
  {
    DecodeFrom(Stream(input), 0, [])
  }

  /** ds_decode. */
  method DsDecode(input: seq<byte>) returns (r: Result<seq<byte>, Panic>)
    ensures r == Decode(input)
  {
    ghost var bits := Stream(input);
    StreamOfIsStream(input, bits);
    var result: seq<byte> := [];
    var index := 0;
    while true
      invariant DecodeFrom(bits, index, result) == Decode(input)
      decreases 8 * |input| - index
    {
      if |result| >= BlockSize {
        return Ok(result);
      }
      var token := ReadBits(input, bits, index);
      if token.TokenPanicked? {
        return Err(token.panic);
      }
      index := token.next;
      match token.token
      case Raw(b) =>
        result := result + [b];
      case DepthCount(depth, count) =>
        if |result| < depth {
          return Err(BackReferenceUnderflow);
        }
        result := CopyOut(result, depth, count);
      case SectorBreak =>
      case End =>
        break;
    }
    return Ok(result);
  }

  /** The copy loop of ds_decode: count times, push the byte depth
      positions before the end of the output. */
  method CopyOut(out: seq<byte>, depth: nat, count: nat) returns (r: seq<byte>)
    requires 1 <= depth <= |out|
    ensures r == CopyBack(out, depth, count)
  {
    r := out;
    for k := 0 to count
      invariant r == CopyBack(out, depth, k)
    {
      var b := r[|r| - depth];
      r := r + [b];
    }
  }

  /** Decoding only appends to the output: what was decoded stays a prefix,
      and no token is read once the block is full, so one block never
      exceeds 8191 bytes plus one maximal back-reference of 512 bytes. */
  lemma {:induction false} DecodeFromGrows(bits: seq<bool>, pos: nat, out: seq<byte>)
    requires DecodeFrom(bits, pos, out).Ok?
    ensures var r := DecodeFrom(bits, pos, out).value;
            out <= r && |r| <= if |out| >= BlockSize then |out| else BlockSize - 1 + 512
    decreases |bits| - pos
  {
    if |out| < BlockSize {
      match TokenAt(bits, pos)
      case ReadToken(Raw(b), next) =>
        DecodeFromGrows(bits, next, out + [b]);
      case ReadToken(DepthCount(d, c), next) =>
        TokenGrammar(bits, pos);
        DecodeFromGrows(bits, next, CopyBack(out, d, c));
      case ReadToken(SectorBreak, next) =>
        DecodeFromGrows(bits, next, out);
      case ReadToken(End, _) =>
    }
  }

  /** A decoded block holds at most 8191 + 512 bytes. */
  lemma DecodeLength(input: seq<byte>)
    requires Decode(input).Ok?
    ensures |Decode(input).value| <= BlockSize - 1 + 512
  {
    DecodeFromGrows(Stream(input), 0, []);
  }

  // ---------------------------------------------------------------------
  // The encoder the grammar inverts
  // ---------------------------------------------------------------------

  /** p zero bits. */
  function Zeros(p: nat): (bits: seq<bool>)
    ensures |bits| == p && forall k :: 0 <= k < p ==> !bits[k]
  {
    if p == 0 then [] else [false] + Zeros(p - 1)
  }

  /** The prefix length that encodes a count. */
  function CountClass(c: nat): (p: nat)
    requires 2 <= c <= 512
    ensures p <= 8 && Pow2(p) + 1 <= c <= 2 * Pow2(p)
  {
    if c <= 2 then 0 else if c <= 4 then 1 else if c <= 8 then 2
    else if c <= 16 then 3 else if c <= 32 then 4 else if c <= 64 then 5
    else if c <= 128 then 6 else if c <= 256 then 7 else 8
  }

  /** The count code of c: p zero bits, a one bit, and c - 2^p - 1 in p bits. */
  function EncodeCount(c: nat): seq<bool>
    requires 2 <= c <= 512
  {
    var p := CountClass(c);
    Zeros(p) + [true] + LsbBits(c - Pow2(p) - 1, p)
  }

  /** After q zero bits, reading the rest of the code of a count of class
      p (p - q more zero bits, a one bit and p value bits) gives that count. */
  lemma {:induction false} CountFromCode(bits: seq<bool>, pos: nat, q: nat, p: nat, v: nat)
    requires q <= p <= 8 && v < Pow2(p)
    requires BitsAt(bits, pos, Zeros(p - q) + [true] + LsbBits(v, p))
    ensures CountFrom(bits, pos, q) == ReadCount(Pow2(p) + 1 + v, pos + (p - q) + 1 + p)
    decreases p - q
  {
    var code := Zeros(p - q) + [true] + LsbBits(v, p);
    assert bits[pos] == code[0];
    BitsAtConcat(bits, pos, Zeros(p - q) + [true], LsbBits(v, p));
    if q == p {
      LsbValueOfBits(bits, pos + 1, v, p);
    } else {
      assert code == [false] + (Zeros(p - q - 1) + [true] + LsbBits(v, p));
      BitsAtConcat(bits, pos, [false], Zeros(p - q - 1) + [true] + LsbBits(v, p));
      CountFromCode(bits, pos + 1, q + 1, p, v);
    }
  }

  /** Reading the code of a count gives the count back and consumes exactly
      its bits. */
  lemma CountRoundTrip(bits: seq<bool>, pos: nat, c: nat)
    requires 2 <= c <= 512 && BitsAt(bits, pos, EncodeCount(c))
    ensures CountFrom(bits, pos, 0) == ReadCount(c, pos + |EncodeCount(c)|)
  {
    var p := CountClass(c);
    CountFromCode(bits, pos, 0, p, c - Pow2(p) - 1);
  }

  /** The tokens the encoder can write: every byte, the end and sector-break
      markers, and back-references with a depth from 1 to 4414 and a count
      from 2 to 512. */
  predicate Encodable(t: Token)
  {
    t.DepthCount? ==> 1 <= t.depth <= 4414 && 2 <= t.count <= 512
  }

  /** The code of a back-reference depth: a prefix selecting the field
      (two zero bits; two one bits and a zero; three one bits), then the depth
      less the field's base in the field's width (6 bits based at 0, 8 bits
      based at 64, 12 bits based at 320). */
  function EncodeDepth(d: nat): seq<bool>
    requires 1 <= d <= 4414
  {
    DepthPrefix(d) + LsbBits(d - DepthBase(d), DepthWidth(d))
  }

  function DepthPrefix(d: nat): seq<bool>
  {
    if d < 64 then [false, false] else if d < 320 then [true, true, false] else [true, true, true]
  }

  function DepthBase(d: nat): nat
  {
    if d < 64 then 0 else if d < 320 then 64 else 320
  }

  function DepthWidth(d: nat): nat
  {
    if d < 64 then 6 else if d < 320 then 8 else 12
  }

  /** The code of a literal byte: its top bit, the negation of that bit,
      then its seven low bits. */
  function EncodeLiteral(b: byte): seq<bool>
  {
    [b >= 0x80, b < 0x80] + LsbBits(b % 0x80, 7)
  }

  /** The code of the end marker (a short depth of 0) and of the sector break
      (a long depth of 4415). */
  function EncodeMarker(sectorBreak: bool): seq<bool>
  {
    if sectorBreak then [true, true, true] + LsbBits(4095, 12)
    else [false, false] + LsbBits(0, 6)
  }

  /** The bits of a token, as the compressor writes them. */
  function EncodeToken(t: Token): seq<bool>
    requires Encodable(t)
  {
    match t
    case Raw(b) => EncodeLiteral(b)
    case End => EncodeMarker(false)
    case SectorBreak => EncodeMarker(true)
    case DepthCount(d, c) => EncodeDepth(d) + EncodeCount(c)
  }

  lemma LiteralRoundTrip(bits: seq<bool>, pos: nat, b: byte)
    requires BitsAt(bits, pos, EncodeLiteral(b))
    ensures TokenAt(bits, pos) == ReadToken(Raw(b), pos + 9)
  {
    LiteralCodeBits(bits, pos, b);
    LiteralOfBits(bits, pos, b);
  }

  lemma LiteralOfBits(bits: seq<bool>, pos: nat, b: byte)
    requires pos + 9 <= |bits| && bits[pos] == (b >= 0x80) && bits[pos + 1] == (b < 0x80)
    requires LsbValue(bits, pos + 2, 7) == b % 0x80
    ensures TokenAt(bits, pos) == ReadToken(Raw(b), pos + 9)
  {
    assert TokenAt(bits, pos) == LiteralAt(bits, pos + 2, bits[pos]);
  }

  /** What the stream holds where a literal's code is written. */
  lemma LiteralCodeBits(bits: seq<bool>, pos: nat, b: byte)
    requires BitsAt(bits, pos, EncodeLiteral(b))
    ensures pos + 9 <= |bits| && bits[pos] == (b >= 0x80) && bits[pos + 1] == (b < 0x80)
    ensures LsbValue(bits, pos + 2, 7) == b % 0x80
  {
    var code := EncodeLiteral(b);
    assert bits[pos] == code[0] && bits[pos + 1] == code[1];
    BitsAtConcat(bits, pos, [b >= 0x80, b < 0x80], LsbBits(b % 0x80, 7));
    LsbValueOfBits(bits, pos + 2, b % 0x80, 7);
  }

  lemma MarkerRoundTrip(bits: seq<bool>, pos: nat, sectorBreak: bool)
    requires BitsAt(bits, pos, EncodeMarker(sectorBreak))
    ensures TokenAt(bits, pos)
            == if sectorBreak then ReadToken(SectorBreak, pos + 15) else ReadToken(End, pos + 8)
  {
    if sectorBreak {
      SectorBreakFields(bits, pos);
      assert TokenAt(bits, pos) == LongAt(bits, pos + 2);
    } else {
      EndFields(bits, pos);
      assert TokenAt(bits, pos) == ShortAt(bits, pos + 2);
    }
  }

  /** What the stream holds where the end marker is written. */
  lemma EndFields(bits: seq<bool>, pos: nat)
    requires BitsAt(bits, pos, EncodeMarker(false))
    ensures pos + 8 <= |bits| && !bits[pos] && !bits[pos + 1] && LsbValue(bits, pos + 2, 6) == 0
  {
    FieldBits(bits, pos, [false, false], 0, 6);
    assert bits[pos] == bits[pos..pos + 2][0] && bits[pos + 1] == bits[pos..pos + 2][1];
  }

  /** What the stream holds where the sector-break marker is written. */
  lemma SectorBreakFields(bits: seq<bool>, pos: nat)
    requires BitsAt(bits, pos, EncodeMarker(true))
    ensures pos + 15 <= |bits| && bits[pos] && bits[pos + 1] && bits[pos + 2]
    ensures LsbValue(bits, pos + 3, 12) == 4095
  {
    assert Pow2(12) == 4096;
    FieldBits(bits, pos, [true, true, true], 4095, 12);
    var prefix := bits[pos..pos + 3];
    assert bits[pos] == prefix[0] && bits[pos + 1] == prefix[1] && bits[pos + 2] == prefix[2];
  }

  lemma BackReferenceRoundTrip(bits: seq<bool>, pos: nat, d: nat, c: nat)
    requires 1 <= d <= 4414 && 2 <= c <= 512
    requires BitsAt(bits, pos, EncodeDepth(d) + EncodeCount(c))
    ensures TokenAt(bits, pos) == ReadToken(DepthCount(d, c), pos + |EncodeDepth(d)| + |EncodeCount(c)|)
  {
    var next := pos + |EncodeDepth(d)| + |EncodeCount(c)|;
    BitsAtConcat(bits, pos, EncodeDepth(d), EncodeCount(c));
    CountRoundTrip(bits, pos + |EncodeDepth(d)|, c);
    if d < 64 {
      ShortFields(bits, pos, d);
      ShortBackReference(bits, pos, d, c, next);
    } else {
      LongFields(bits, pos, d);
      LongBackReference(bits, pos, d, c, next);
    }
  }

  /** What the stream holds where the code of a depth below 64 is written. */
  lemma ShortFields(bits: seq<bool>, pos: nat, d: nat)
    requires 1 <= d < 64 && BitsAt(bits, pos, EncodeDepth(d))
    ensures pos + 8 == pos + |EncodeDepth(d)| <= |bits|
    ensures !bits[pos] && !bits[pos + 1] && LsbValue(bits, pos + 2, 6) == d
  {
    assert Pow2(6) == 64;
    FieldBits(bits, pos, [false, false], d, 6);
    assert bits[pos] == bits[pos..pos + 2][0] && bits[pos + 1] == bits[pos..pos + 2][1];
  }

  /** What the stream holds where the code of a depth from 64 on is written:
      the selector bit says whether the depth field is the wide one. */
  lemma LongFields(bits: seq<bool>, pos: nat, d: nat)
    requires 64 <= d <= 4414 && BitsAt(bits, pos, EncodeDepth(d))
    ensures pos + 3 + LongWidth(d >= 320) == pos + |EncodeDepth(d)| <= |bits|
    ensures bits[pos] && bits[pos + 1] && bits[pos + 2] == (d >= 320)
    ensures LsbValue(bits, pos + 3, LongWidth(d >= 320)) == d - LongBase(d >= 320)
  {
    var wide := d >= 320;
    assert Pow2(8) == 256 && Pow2(12) == 4096;
    FieldBits(bits, pos, [true, true, wide], d - LongBase(wide), LongWidth(wide));
    var prefix := bits[pos..pos + 3];
    assert bits[pos] == prefix[0] && bits[pos + 1] == prefix[1] && bits[pos + 2] == prefix[2];
  }

  lemma ShortBackReference(bits: seq<bool>, pos: nat, d: nat, c: nat, next: nat)
    requires 1 <= d < 64 && 2 <= c && pos + 8 <= |bits|
    requires !bits[pos] && !bits[pos + 1] && LsbValue(bits, pos + 2, 6) == d
    requires CountFrom(bits, pos + 8, 0) == ReadCount(c, next)
    ensures TokenAt(bits, pos) == ReadToken(DepthCount(d, c), next)
  {
    assert TokenAt(bits, pos) == ShortAt(bits, pos + 2);
  }

  lemma LongBackReference(bits: seq<bool>, pos: nat, d: nat, c: nat, next: nat)
    requires 64 <= d < 4415 && 2 <= c
    requires pos + 3 + LongWidth(d >= 320) <= |bits|
    requires bits[pos] && bits[pos + 1] && bits[pos + 2] == (d >= 320)
    requires LsbValue(bits, pos + 3, LongWidth(d >= 320)) == d - LongBase(d >= 320)
    requires CountFrom(bits, pos + 3 + LongWidth(d >= 320), 0) == ReadCount(c, next)
    ensures TokenAt(bits, pos) == ReadToken(DepthCount(d, c), next)
  {
    assert TokenAt(bits, pos) == LongAt(bits, pos + 2);
  }

  /** Where a fixed prefix and an n-bit field holding v are written, the
      stream holds the prefix and reading the field gives v. */
  lemma FieldBits(bits: seq<bool>, pos: nat, prefix: seq<bool>, v: nat, n: nat)
    requires v < Pow2(n) && BitsAt(bits, pos, prefix + LsbBits(v, n))
    ensures pos + |prefix| + n <= |bits|
    ensures BitsAt(bits, pos, prefix)
    ensures LsbValue(bits, pos + |prefix|, n) == v
  {
    BitsAtConcat(bits, pos, prefix, LsbBits(v, n));
    LsbValueOfBits(bits, pos + |prefix|, v, n);
  }

  /** The token grammar inverts the encoder: reading the bits of a token gives
      the token back and moves the cursor past exactly those bits. */
  lemma TokenRoundTrip(bits: seq<bool>, pos: nat, t: Token)
    requires Encodable(t) && BitsAt(bits, pos, EncodeToken(t))
    ensures TokenAt(bits, pos) == ReadToken(t, pos + |EncodeToken(t)|)
  {
    match t
    case Raw(b) => LiteralRoundTrip(bits, pos, b);
    case End => MarkerRoundTrip(bits, pos, false);
    case SectorBreak => MarkerRoundTrip(bits, pos, true);
    case DepthCount(d, c) => BackReferenceRoundTrip(bits, pos, d, c);
  }

  // ---------------------------------------------------------------------
  // Whole blocks
  // ---------------------------------------------------------------------

  /** The output after one token: a literal appends its byte, a
      back-reference copies count bytes from depth back, and the markers
      leave the output as it is. */
  function Step(out: seq<byte>, t: Token): seq<byte>
    requires t.DepthCount? ==> 1 <= t.depth <= |out|
  {
    match t
    case Raw(b) => out + [b]
    case DepthCount(d, c) => CopyBack(out, d, c)
    case SectorBreak => out
    case End => out
  }

  /** ts can follow out in a block: no token is the end marker, each
      back-reference reaches no further back than the output before it, and
      the output is still shorter than a block before each token. */
  predicate Expandable(out: seq<byte>, ts: seq<Token>)
    decreases |ts|
  {
    || |ts| == 0
    || (&& |out| < BlockSize && !ts[0].End?
        && (ts[0].DepthCount? ==> 1 <= ts[0].depth <= |out|)
        && Expandable(Step(out, ts[0]), ts[1..]))
  }

  /** The reference expansion: out followed by what ts produce, token by
      token. */
  function Expand(out: seq<byte>, ts: seq<Token>): seq<byte>
    requires Expandable(out, ts)
    decreases |ts|
  {
    if |ts| == 0 then out else Expand(Step(out, ts[0]), ts[1..])
  }

  /** Every token of ts can be written. */
  predicate AllEncodable(ts: seq<Token>)
  {
    forall i :: 0 <= i < |ts| ==> Encodable(ts[i])
  }

  /** The bits of a token sequence, as the compressor writes them. */
  function EncodeAll(ts: seq<Token>): seq<bool>
    requires AllEncodable(ts)
    decreases |ts|
  {
    if |ts| == 0 then [] else EncodeToken(ts[0]) + EncodeAll(ts[1..])
  }

  /** ds_decode inverts the compressor on a whole block: decoding the code
      of ts followed by the end marker, after out, gives the reference
      expansion of ts. */
  lemma {:induction false} DecodeRoundTrip(bits: seq<bool>, pos: nat, out: seq<byte>, ts: seq<Token>)
    requires AllEncodable(ts) && Expandable(out, ts)
    requires BitsAt(bits, pos, EncodeAll(ts) + EncodeToken(End))
    ensures DecodeFrom(bits, pos, out) == Ok(Expand(out, ts))
    decreases |ts|
  {
    if |ts| == 0 {
      assert EncodeAll(ts) + EncodeToken(End) == EncodeToken(End);
      if |out| < BlockSize {
        TokenRoundTrip(bits, pos, End);
      }
    } else {
      var next := FirstToken(bits, pos, out, ts);
      DecodeRoundTrip(bits, next, Step(out, ts[0]), ts[1..]);
    }
  }

  /** Decoding the first token of an encoded sequence: decoding goes on
      right after its code, with the rest of the sequence to come. */
  lemma FirstToken(bits: seq<bool>, pos: nat, out: seq<byte>, ts: seq<Token>) returns (next: nat)
    requires |ts| > 0 && AllEncodable(ts) && Expandable(out, ts)
    requires BitsAt(bits, pos, EncodeAll(ts) + EncodeToken(End))
    ensures AllEncodable(ts[1..]) && Expandable(Step(out, ts[0]), ts[1..])
    ensures BitsAt(bits, next, EncodeAll(ts[1..]) + EncodeToken(End))
    ensures DecodeFrom(bits, pos, out) == DecodeFrom(bits, next, Step(out, ts[0]))
  {
    next := SplitCode(bits, pos, ts);
    DecodeStep(bits, pos, out, ts[0], next);
  }

  /** The code of a token sequence and the end marker is the code of its
      first token, read back by the token grammar, then the code of the
      rest and the end marker. */
  lemma SplitCode(bits: seq<bool>, pos: nat, ts: seq<Token>) returns (next: nat)
    requires |ts| > 0 && AllEncodable(ts)
    requires BitsAt(bits, pos, EncodeAll(ts) + EncodeToken(End))
    ensures AllEncodable(ts[1..]) && pos < next
    ensures TokenAt(bits, pos) == ReadToken(ts[0], next)
    ensures BitsAt(bits, next, EncodeAll(ts[1..]) + EncodeToken(End))
  {
    var t := ts[0];
    CodeHead(ts);
    BitsAtConcat(bits, pos, EncodeToken(t), EncodeAll(ts[1..]) + EncodeToken(End));
    TokenRoundTrip(bits, pos, t);
    next := pos + |EncodeToken(t)|;
  }

  /** The code of a non-empty token sequence and the end marker is the
      code of its first token followed by that of the rest and the end
      marker. */
  lemma CodeHead(ts: seq<Token>)
    requires |ts| > 0 && AllEncodable(ts)
    ensures Encodable(ts[0]) && AllEncodable(ts[1..])
    ensures EncodeAll(ts) + EncodeToken(End) == EncodeToken(ts[0]) + (EncodeAll(ts[1..]) + EncodeToken(End))
  {
    assert Encodable(ts[0]);
    assert AllEncodable(ts[1..]) by {
      forall i | 0 <= i < |ts| - 1
        ensures Encodable(ts[1..][i])
      {
        assert ts[1..][i] == ts[i + 1];
      }
    }
  }

  /** One round of ds_decode's loop on a token that is not the end marker:
      decoding goes on after the token with the output Step gives. */
  lemma DecodeStep(bits: seq<bool>, pos: nat, out: seq<byte>, t: Token, next: nat)
    requires |out| < BlockSize && !t.End? && (t.DepthCount? ==> 1 <= t.depth <= |out|)
    requires TokenAt(bits, pos) == ReadToken(t, next) && pos < next
    ensures DecodeFrom(bits, pos, out) == DecodeFrom(bits, next, Step(out, t))
  {
  }

  /** Decode of an input whose bit stream starts with the code of ts and
      the end marker is the expansion of ts. */
  lemma DecodeEncoded(input: seq<byte>, ts: seq<Token>)
    requires AllEncodable(ts) && Expandable([], ts)
    requires BitsAt(Stream(input), 0, EncodeAll(ts) + EncodeToken(End))
    ensures Decode(input) == Ok(Expand([], ts))
  {
    DecodeRoundTrip(Stream(input), 0, [], ts);
  }
}
