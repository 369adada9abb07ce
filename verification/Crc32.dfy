/**
  The CRC-32 of genimage's crc32.c: the bit-by-bit definition of section 8 of RFC 1952, and what a
  table has to hold so that a byte can be taken at a time.  A register is its 32 bits, lowest first.
 */
module Crc32 {
  import opened GenimageFile

  type Word = w: seq<bool> | |w| == 32 witness seq(32, _ => false)

  function Zero(): Word {
    seq(32, _ => false)
  }

  function Mask(i: nat): bv32 {
    if i == 0 then 1 else Mask(i - 1) << 1
  }

  predicate Test(x: bv32, i: nat) {
    x & Mask(i) != 0
  }

  /** The bits of a machine word. */
  function BitsOf(x: bv32): Word {
    seq(32, i requires 0 <= i => Test(x, i))
  }

  /** The reflected generator polynomial. */
  const POLY: Word := BitsOf(0xEDB88320)

  function Xor(a: Word, b: Word): Word {
    seq(32, i requires 0 <= i < 32 => a[i] != b[i])
  }

  function Not(a: Word): Word {
    seq(32, i requires 0 <= i < 32 => !a[i])
  }

  /** a >> n. */
  function Shr(a: Word, n: nat): Word
    requires n <= 32
  {
    seq(32, i requires 0 <= i < 32 => i + n < 32 && a[i + n])
  }

  /** a & 0xff. */
  function Low8(a: Word): Word {
    seq(32, i requires 0 <= i < 32 => i < 8 && a[i])
  }

  /** The number whose bits are given, and the bits of a byte. */
  function ToNat(bits: seq<bool>): (n: nat)
    ensures n < Pow2(|bits|)
  {
    if bits == [] then 0 else (if bits[0] then 1 else 0) + 2 * ToNat(bits[1..])
  }

  function Pow2(n: nat): (r: nat)
    ensures r > 0
  {
    if n == 0 then 1 else 2 * Pow2(n - 1)
  }

  predicate BinaryDigit(n: nat, i: nat)
    decreases i
  {
    if i == 0 then n % 2 == 1 else BinaryDigit(n / 2, i - 1)
  }

  function FromNat(n: nat, k: nat): (bits: seq<bool>)
    ensures |bits| == k
  {
    seq(k, i requires 0 <= i => BinaryDigit(n, i))
  }

  lemma {:induction false} FromToNat(bits: seq<bool>)
    ensures FromNat(ToNat(bits), |bits|) == bits
  {
    if bits != [] {
      FromToNat(bits[1..]);
      var n := ToNat(bits);
      assert n % 2 == 1 <==> bits[0];
      assert n / 2 == ToNat(bits[1..]);
      forall i | 0 <= i < |bits|
        ensures BinaryDigit(n, i) == bits[i]
      {
        assert i > 0 ==> BinaryDigit(n, i) == FromNat(n / 2, |bits| - 1)[i - 1];
      }
    }
  }

  /** A byte in the low bits of a register. */
  function ByteWord(b: nat): Word {
    FromNat(b, 8) + seq(24, _ => false)
  }

  /** A step of the register on its own, as section 8 of RFC 1952 computes its table. */
  function Bit(c: Word): Word {
    if c[0] then Xor(Shr(c, 1), POLY) else Shr(c, 1)
  }

  function Bits(n: nat, c: Word): Word {
    if n == 0 then c else Bits(n - 1, Bit(c))
  }

  /** One bit of the message enters the register. */
  function FeedOne(c: Word, b: bool): Word {
    if c[0] != b then Xor(Shr(c, 1), POLY) else Shr(c, 1)
  }

  function Feed(bits: seq<bool>, c: Word): Word {
    if bits == [] then c else Feed(bits[1..], FeedOne(c, bits[0]))
  }

  /** The register after the bytes of data, each entering lowest bit first. */
  function Register(data: seq<Byte>, c: Word): Word {
    if data == [] then c else Register(data[1..], Feed(FromNat(data[0], 8), c))
  }

  /** crc32_next by definition: the CRC of data continuing from the CRC `last` of what came before. */
  function Crc(data: seq<Byte>, last: Word): Word {
    Not(Register(data, Not(last)))
  }

  /** What crc32_tab has to hold: entry i is what eight bit steps make of i. */
  ghost predicate TableOk(tab: seq<Word>) {
    |tab| == 256 && forall i :: 0 <= i < 256 ==> tab[i] == Bits(8, ByteWord(i))
  }

  // ---------------------------------------------------------------- eight bits at a time

  /** A part of the register without a low bit is only shifted. */
  lemma BitSplit(a: Word, h: Word)
    requires !h[0]
    ensures Bit(Xor(a, h)) == Xor(Bit(a), Shr(h, 1))
  {
    var l, r := Bit(Xor(a, h)), Xor(Bit(a), Shr(h, 1));
    assert Xor(a, h)[0] == a[0];
    forall i | 0 <= i < 32
      ensures l[i] == r[i]
    {
      assert Shr(Xor(a, h), 1)[i] == (Shr(a, 1)[i] != Shr(h, 1)[i]);
    }
  }

  lemma {:induction false} BitsSplit(n: nat, a: Word, h: Word)
    requires n <= 32 && forall i :: 0 <= i < n ==> !h[i]
    ensures Bits(n, Xor(a, h)) == Xor(Bits(n, a), Shr(h, n))
  {
    if n == 0 {
      assert Shr(h, 0) == h;
    } else {
      BitSplit(a, h);
      var g := Shr(h, 1);
      assert forall i :: 0 <= i < n - 1 ==> g[i] == h[i + 1];
      BitsSplit(n - 1, Bit(a), g);
      assert Shr(g, n - 1) == Shr(h, n);
    }
  }

  /** Bits in the low end of a register. */
  function Widen(bits: seq<bool>): Word
    requires |bits| <= 32
  {
    bits + seq(32 - |bits|, _ => false)
  }

  lemma FeedBit(c: Word, bits: seq<bool>)
    requires 0 < |bits| <= 32
    ensures Bit(Xor(c, Widen(bits))) == Xor(FeedOne(c, bits[0]), Widen(bits[1..]))
  {
    var x := Xor(c, Widen(bits));
    assert x[0] == (c[0] != bits[0]);
    assert Shr(x, 1) == Xor(Shr(c, 1), Widen(bits[1..]));
    assert Xor(Shr(x, 1), POLY) == Xor(Xor(Shr(c, 1), POLY), Widen(bits[1..]));
  }

  /** Bits entering one by one, or all at once before as many steps. */
  lemma {:induction false} FeedBits(c: Word, bits: seq<bool>)
    requires |bits| <= 32
    ensures Feed(bits, c) == Bits(|bits|, Xor(c, Widen(bits)))
    decreases bits
  {
    if bits == [] {
      assert Xor(c, Widen(bits)) == c;
    } else {
      FeedBit(c, bits);
      FeedBits(FeedOne(c, bits[0]), bits[1..]);
    }
  }

  lemma ByteWordLow(x: Word)
    ensures ByteWord(ToNat(x[..8])) == Low8(x)
  {
    FromToNat(x[..8]);
  }

  /** One table step does the work of eight bit steps. */
  lemma TableStep(tab: seq<Word>, c: Word, b: Byte)
    requires TableOk(tab)
    ensures var x := Xor(c, ByteWord(b));
            ToNat(x[..8]) < 256 && Xor(tab[ToNat(x[..8])], Shr(c, 8)) == Feed(FromNat(b, 8), c)
  {
    var x := Xor(c, ByteWord(b));
    var h := Xor(x, Low8(x));
    assert Pow2(8) == 256;
    assert x == Xor(Low8(x), h);
    assert Shr(h, 8) == Shr(c, 8);
    BitsSplit(8, Low8(x), h);
    FeedBits(c, FromNat(b, 8));
    assert Widen(FromNat(b, 8)) == ByteWord(b);
    ByteWordLow(x);
  }

  // ---------------------------------------------------------------- crc32_next

  lemma {:induction false} RegisterAppend(a: seq<Byte>, b: seq<Byte>, c: Word)
    ensures Register(a + b, c) == Register(b, Register(a, c))
  {
    if a == [] {
      assert a + b == b;
    } else {
      assert (a + b)[1..] == a[1..] + b;
      RegisterAppend(a[1..], b, Feed(FromNat(a[0], 8), c));
    }
  }

  /** crc32_next over a then b is crc32_next over their concatenation. */
  lemma CrcAppend(a: seq<Byte>, b: seq<Byte>, last: Word)
    ensures Crc(b, Crc(a, last)) == Crc(a + b, last)
  {
    RegisterAppend(a, b, Not(last));
    assert Not(Not(Register(a, Not(last)))) == Register(a, Not(last));
  }

  /** Continuing from sum is continuing after data, which itself continued from start. */
  ghost predicate Continues(sum: Word, data: seq<Byte>, start: Word) {
    forall tail: seq<Byte> :: Crc(tail, sum) == Crc(data + tail, start)
  }

  lemma CrcOfNone(start: Word)
    ensures Continues(start, [], start)
  {
    forall tail: seq<Byte>
      ensures Crc(tail, start) == Crc([] + tail, start)
    {
      assert [] + tail == tail;
    }
  }

  lemma CrcOfMore(sum: Word, data: seq<Byte>, more: seq<Byte>, start: Word)
    requires Continues(sum, data, start)
    ensures Continues(Crc(more, sum), data + more, start)
  {
    forall tail: seq<Byte>
      ensures Crc(tail, Crc(more, sum)) == Crc(data + more + tail, start)
    {
      CrcAppend(more, tail, sum);
      assert data + more + tail == data + (more + tail);
      assert Crc(more + tail, sum) == Crc(data + (more + tail), start);
    }
  }

  /** A sum to continue from is the CRC of what came before. */
  lemma ContinuesIsCrc(sum: Word, data: seq<Byte>, start: Word)
    requires Continues(sum, data, start)
    ensures sum == Crc(data, start)
  {
    assert Crc([], sum) == sum by {
      assert Not(Not(sum)) == sum;
    }
    assert data + [] == data;
  }
}
