/**
 * CRC-16 with the generator x^16 + x^12 + x^5 + 1 of ITU-T V.41 section 2 and a register that
 * starts at 0xFFFF, as the firmware and the host tool both compute it, and the errors it detects.
 */
module Crc16 {

  newtype Byte = x: int | 0 <= x < 256

  /** The bits of a byte. */
  type Octet = bv8

  function Bits(b: Byte): Octet { (b as int) as Octet }

  const CRC_INIT: bv16 := 0xFFFF
  const BITS: nat := 8

  function Xor(a: bv16, b: bv16): bv16 { a ^ b }

  function High(b: Octet): bv16 { (b as bv16) << 8 }

  /** One bit of the division. */
  function Shift(crc: bv16): bv16 {
    if crc & 0x8000 != 0 then (crc << 1) ^ 0x1021 else crc << 1
  }

  function Iterate<T>(f: T -> T, x: T, n: nat): T {
    if n == 0 then x else f(Iterate(f, x, n - 1))
  }

  /** The register after one more byte. */
  function Update(crc: bv16, b: Octet): bv16 {
    Iterate(Shift, Xor(crc, High(b)), BITS)
  }

  /** The register after the bytes of `data`, in order. */
  function Crc(crc: bv16, data: seq<Byte>): bv16 {
    if data == [] then crc else Update(Crc(crc, data[..|data| - 1]), Bits(data[|data| - 1]))
  }

  method ShiftRegister(c: bv16) returns (crc: bv16)
    ensures crc == Shift(c)
  {
    crc := if c & 0x8000 != 0 then (c << 1) ^ 0x1021 else c << 1;
  }

  /** crc16_update of the firmware, updateCRC of the host tool. */
  method UpdateByte(crc0: bv16, b: Byte) returns (crc: bv16)
    ensures crc == Update(crc0, Bits(b))
  {
    crc := crc0 ^ High(Bits(b));
    ghost var start := crc;
    for i := 0 to BITS
      invariant crc == Iterate(Shift, start, i)
    {
      crc := ShiftRegister(crc);
    }
  }

  /** crc16 of the host tool, and the checksum loop of the firmware's builders. */
  method ComputeCrc(data: seq<Byte>) returns (crc: bv16)
    ensures crc == Crc(CRC_INIT, data)
  {
    crc := CRC_INIT;
    for k := 0 to |data|
      invariant crc == Crc(CRC_INIT, data[..k])
    {
      assert data[..k + 1][..k] == data[..k];
      crc := UpdateByte(crc, data[k]);
    }
    assert data[..|data|] == data;
  }

  lemma {:induction false} CrcAppend(crc: bv16, s: seq<Byte>, t: seq<Byte>)
    ensures Crc(crc, s + t) == Crc(Crc(crc, s), t)
  {
    if t == [] {
      assert s + t == s;
    } else {
      assert (s + t)[..|s + t| - 1] == s + t[..|t| - 1];
      CrcAppend(crc, s, t[..|t| - 1]);
    }
  }

  // ---- the register is linear over exclusive or ----

  lemma XorSwap(a: bv16, b: bv16, c: bv16)
    ensures Xor(a, Xor(b, c)) == Xor(b, Xor(a, c))
  {
  }

  lemma XorAssociative(a: bv16, b: bv16, c: bv16)
    ensures Xor(Xor(a, b), c) == Xor(a, Xor(b, c))
  {
  }

  lemma XorInterchange(a: bv16, b: bv16, c: bv16, d: bv16)
    ensures Xor(Xor(a, b), Xor(c, d)) == Xor(Xor(a, c), Xor(b, d))
  {
    XorAssociative(a, b, Xor(c, d));
    XorSwap(b, c, d);
    XorAssociative(a, c, Xor(b, d));
  }

  lemma XorBits(a: bv16, b: bv16)
    ensures a ^ b == 0 <==> a == b
    ensures a ^ 0 == a
  {
  }

  lemma XorZero(a: bv16, b: bv16)
    ensures Xor(a, b) == 0 <==> a == b
    ensures Xor(a, 0) == a
  {
    XorBits(a, b);
  }

  lemma XorShift(a: bv16, b: bv16)
    ensures (a ^ b) << 1 == (a << 1) ^ (b << 1)
    ensures (a ^ b) & 0x8000 == (a & 0x8000) ^ (b & 0x8000)
    ensures a & 0x8000 == 0 || a & 0x8000 == 0x8000
    ensures b & 0x8000 == 0 || b & 0x8000 == 0x8000
  {
  }

  lemma XorFeedback(a: bv16, b: bv16, c: bv16)
    ensures (a ^ c) ^ b == (a ^ b) ^ c && a ^ (b ^ c) == (a ^ b) ^ c && (a ^ c) ^ (b ^ c) == a ^ b
  {
  }

  lemma ShiftLinear(a: bv16, b: bv16)
    ensures Shift(Xor(a, b)) == Xor(Shift(a), Shift(b))
  {
    XorShift(a, b);
    XorFeedback(a << 1, b << 1, 0x1021);
  }

  lemma {:induction false} IterateLinear<T(!new)>(f: T -> T, op: (T, T) -> T, a: T, b: T, n: nat)
    requires forall x, y :: f(op(x, y)) == op(f(x), f(y))
    ensures Iterate(f, op(a, b), n) == op(Iterate(f, a, n), Iterate(f, b, n))
  {
    if n > 0 { IterateLinear(f, op, a, b, n - 1); }
  }

  lemma ShiftsLinear(n: nat, u: bv16, v: bv16)
    ensures Iterate(Shift, Xor(u, v), n) == Xor(Iterate(Shift, u, n), Iterate(Shift, v, n))
  {
    forall x: bv16, y: bv16 ensures Shift(Xor(x, y)) == Xor(Shift(x), Shift(y)) { ShiftLinear(x, y); }
    IterateLinear(Shift, Xor, u, v, n);
  }

  lemma HighLinear(x: Octet, y: Octet)
    ensures High(x ^ y) == Xor(High(x), High(y))
  {
  }

  /** The difference of two registers after a byte depends only on their difference and the bytes'. */
  lemma UpdateLinear(a: bv16, b: bv16, x: Octet, y: Octet)
    ensures Xor(Update(a, x), Update(b, y)) == Update(Xor(a, b), x ^ y)
  {
    HighLinear(x, y);
    XorInterchange(a, High(x), b, High(y));
    ShiftsLinear(BITS, Xor(a, High(x)), Xor(b, High(y)));
  }

  // ---- the register is a bijection for every byte ----

  lemma ShiftKeepsNonzero(a: bv16)
    ensures Shift(a) == 0 <==> a == 0
  {
    assert (a << 1) ^ 0x1021 != 0;
    assert a & 0x8000 == 0 && a << 1 == 0 ==> a == 0;
  }

  lemma ShiftInjective(a: bv16, b: bv16)
    ensures Shift(a) == Shift(b) ==> a == b
  {
    ShiftLinear(a, b);
    ShiftKeepsNonzero(Xor(a, b));
    XorZero(Shift(a), Shift(b));
    XorZero(a, b);
  }

  lemma {:induction false} IterateInjective<T(!new)>(f: T -> T, a: T, b: T, n: nat)
    requires forall x, y :: f(x) == f(y) ==> x == y
    ensures Iterate(f, a, n) == Iterate(f, b, n) ==> a == b
  {
    if n > 0 { IterateInjective(f, a, b, n - 1); }
  }

  lemma XorCancel(a: bv16, b: bv16, c: bv16)
    ensures Xor(a, c) == Xor(b, c) ==> a == b
  {
  }

  lemma UpdateInjective(a: bv16, b: bv16, x: Octet)
    ensures Update(a, x) == Update(b, x) ==> a == b
  {
    forall p: bv16, q: bv16 ensures Shift(p) == Shift(q) ==> p == q { ShiftInjective(p, q); }
    IterateInjective(Shift, Xor(a, High(x)), Xor(b, High(x)), BITS);
    XorCancel(a, b, High(x));
  }

  /** One bit of the division, backwards: the generator ends in 1, so the bit that fell out is told by the last. */
  function Unshift(crc: bv16): bv16 {
    if crc & 1 != 0 then ((crc ^ 0x1021) >> 1) | 0x8000 else crc >> 1
  }

  lemma UnshiftUndoes(crc: bv16)
    ensures Shift(Unshift(crc)) == crc
  {
  }

  lemma {:induction false} IterateOnto<T(!new)>(f: T -> T, g: T -> T, y: T, n: nat) returns (x: T)
    requires forall z :: f(g(z)) == z
    ensures Iterate(f, x, n) == y
  {
    if n == 0 { x := y; } else { x := IterateOnto(f, g, g(y), n - 1); }
  }

  /** With UpdateInjective: for every byte the step is a bijection of the register. */
  lemma UpdateSurjective(c: bv16, x: Octet) returns (a: bv16)
    ensures Update(a, x) == c
  {
    forall z: bv16 ensures Shift(Unshift(z)) == z { UnshiftUndoes(z); }
    var b := IterateOnto(Shift, Unshift, c, BITS);
    a := Xor(b, High(x));
    XorUndoes(b, High(x));
  }

  lemma XorUndoes(a: bv16, b: bv16)
    ensures Xor(Xor(a, b), b) == a
  {
  }

  /** Once two registers differ, no common continuation makes them equal again. */
  lemma {:induction false} CrcInjective(a: bv16, b: bv16, data: seq<Byte>)
    ensures Crc(a, data) == Crc(b, data) ==> a == b
  {
    if data != [] {
      var k := |data| - 1;
      UpdateInjective(Crc(a, data[..k]), Crc(b, data[..k]), Bits(data[k]));
      CrcInjective(a, b, data[..k]);
    }
  }

  // ---- eight shifts at once, for facts about a few bytes ----

  function Shift8(v: bv16): bv16 {
    Shift(Shift(Shift(Shift(Shift(Shift(Shift(Shift(v))))))))
  }

  lemma IterateEight<T>(f: T -> T, x: T)
    ensures Iterate(f, x, BITS) == f(f(f(f(f(f(f(f(x))))))))
  {
    assert Iterate(f, x, 1) == f(x);
    assert Iterate(f, x, 2) == f(f(x));
    assert Iterate(f, x, 3) == f(f(f(x)));
    assert Iterate(f, x, 4) == f(f(f(f(x))));
    assert Iterate(f, x, 5) == f(f(f(f(f(x)))));
    assert Iterate(f, x, 6) == f(f(f(f(f(f(x))))));
    assert Iterate(f, x, 7) == f(f(f(f(f(f(f(x)))))));
  }

  lemma UpdateIsShift8(crc: bv16, b: Octet)
    ensures Update(crc, b) == Shift8(Xor(crc, High(b)))
  {
    IterateEight(Shift, Xor(crc, High(b)));
  }

  // ---- the checksum field ----

  /** The checksum as the two bytes sent after the data, high byte first. */
  function CrcBytes(crc: bv16): (bytes: seq<Byte>)
    ensures |bytes| == 2
  {
    seq(2, k requires 0 <= k < 2 => CrcByte(crc, k))
  }

  function CrcByte(crc: bv16, k: nat): Byte {
    if k == 0 then ((crc >> 8) as Octet) as Byte else ((crc & 0xFF) as Octet) as Byte
  }

  function Glue(h: Octet, l: Octet): bv16 {
    ((h as bv16) << 8) | (l as bv16)
  }

  /** The receiver's `crc_hi << 8 | b`. */
  function CrcWord(h: Byte, l: Byte): bv16 {
    Glue(Bits(h), Bits(l))
  }

  lemma GlueBits(crc: bv16, h: Octet, l: Octet)
    ensures Glue((crc >> 8) as Octet, (crc & 0xFF) as Octet) == crc
    ensures (Glue(h, l) >> 8) as Octet == h && (Glue(h, l) & 0xFF) as Octet == l
  {
  }

  lemma IntThroughOctet(x: int)
    requires 0 <= x < 256
    ensures (x as Octet) as int == x
  {
  }

  lemma BitsOfByte(b: Byte)
    ensures Bits(b) as Byte == b
  {
    IntThroughOctet(b as int);
  }

  lemma ByteOfBits(o: Octet)
    ensures Bits(o as Byte) == o
  {
  }

  lemma CrcWordBytes(crc: bv16)
    ensures CrcWord(CrcBytes(crc)[0], CrcBytes(crc)[1]) == crc
  {
    ByteOfBits((crc >> 8) as Octet);
    ByteOfBits((crc & 0xFF) as Octet);
    GlueBits(crc, 0, 0);
  }

  lemma CrcBytesWord(h: Byte, l: Byte)
    ensures CrcBytes(CrcWord(h, l)) == [h, l]
  {
    BitsOfByte(h);
    BitsOfByte(l);
    GlueBits(0, Bits(h), Bits(l));
  }

  lemma ShiftsCancel(h: Octet, l: Octet)
    ensures Shift8(Xor(Glue(h, l), High(h))) == High(l)
    ensures Shift8(Xor(High(l), High(l))) == 0
  {
  }

  lemma ZeroStaysZero()
    ensures Update(0, 0) == 0
  {
    UpdateIsShift8(0, 0);
  }

  /** A register fed its own two bytes becomes zero, and fed any other two bytes does not. */
  lemma CheckedByZero(crc: bv16, h: Octet, l: Octet)
    ensures Update(Update(crc, h), l) == 0 <==> crc == Glue(h, l)
  {
    var w := Glue(h, l);
    UpdateIsShift8(w, h);
    UpdateIsShift8(High(l), l);
    ShiftsCancel(h, l);
    UpdateLinear(crc, w, h, h);
    UpdateLinear(Update(crc, h), Update(w, h), l, l);
    XorZero(Update(Update(crc, h), l), 0);
    XorZero(crc, w);
    ZeroStaysZero();
    UpdateInjective(Xor(crc, w), 0, 0);
    UpdateInjective(Update(Xor(crc, w), 0), 0, 0);
  }

  // ---- error bursts ----

  /** The bit sent `j`-th in a byte, most significant first. */
  function Bit(b: Octet, j: nat): bool
    requires j < 8
  {
    b & (if j == 0 then 0x80 else if j == 1 then 0x40 else if j == 2 then 0x20 else if j == 3 then 0x10
         else if j == 4 then 0x08 else if j == 5 then 0x04 else if j == 6 then 0x02 else 0x01) != 0
  }

  predicate BitDiffers(d: seq<Byte>, e: seq<Byte>, i: nat)
    requires |d| == |e| && i < 8 * |d|
  {
    Bit(Bits(d[i / 8]), i % 8) != Bit(Bits(e[i / 8]), i % 8)
  }

  /** `e` is `d` with a nonzero error confined to the 16 consecutive bits from bit `p`. */
  ghost predicate IsBurst(d: seq<Byte>, e: seq<Byte>, p: nat) {
    && |d| == |e|
    && d != e
    && (forall i :: 0 <= i < 8 * |d| && BitDiffers(d, e, i) ==> p <= i < p + 16)
  }

  /** The first `k` bits of a byte. */
  function TopBits(k: nat): Octet
    requires k < 8
  {
    if k == 0 then 0x00 else if k == 1 then 0x80 else if k == 2 then 0xC0 else if k == 3 then 0xE0
    else if k == 4 then 0xF0 else if k == 5 then 0xF8 else if k == 6 then 0xFC else 0xFE
  }

  lemma SameBits(a: Octet, b: Octet)
    requires forall j :: 0 <= j < 8 ==> Bit(a, j) == Bit(b, j)
    ensures a == b
  {
    assert Bit(a, 0) == Bit(b, 0) && Bit(a, 1) == Bit(b, 1) && Bit(a, 2) == Bit(b, 2) && Bit(a, 3) == Bit(b, 3);
    assert Bit(a, 4) == Bit(b, 4) && Bit(a, 5) == Bit(b, 5) && Bit(a, 6) == Bit(b, 6) && Bit(a, 7) == Bit(b, 7);
  }

  lemma SameTop(a: Octet, b: Octet, k: nat)
    requires k < 8
    requires forall j :: 0 <= j < k ==> Bit(a, j) == Bit(b, j)
    ensures (a ^ b) & TopBits(k) == 0
  {
    if k > 0 { assert Bit(a, 0) == Bit(b, 0); }
    if k > 1 { assert Bit(a, 1) == Bit(b, 1); }
    if k > 2 { assert Bit(a, 2) == Bit(b, 2); }
    if k > 3 { assert Bit(a, 3) == Bit(b, 3); }
    if k > 4 { assert Bit(a, 4) == Bit(b, 4); }
    if k > 5 { assert Bit(a, 5) == Bit(b, 5); }
    if k > 6 { assert Bit(a, 6) == Bit(b, 6); }
  }

  lemma SameBottom(a: Octet, b: Octet, k: nat)
    requires k < 8
    requires forall j :: k <= j < 8 ==> Bit(a, j) == Bit(b, j)
    ensures (a ^ b) & TopBits(k) == a ^ b
  {
    if k < 1 { assert Bit(a, 0) == Bit(b, 0); }
    if k < 2 { assert Bit(a, 1) == Bit(b, 1); }
    if k < 3 { assert Bit(a, 2) == Bit(b, 2); }
    if k < 4 { assert Bit(a, 3) == Bit(b, 3); }
    if k < 5 { assert Bit(a, 4) == Bit(b, 4); }
    if k < 6 { assert Bit(a, 5) == Bit(b, 5); }
    if k < 7 { assert Bit(a, 6) == Bit(b, 6); }
    assert Bit(a, 7) == Bit(b, 7);
  }

  /** Sixteen consecutive bits, lying across three bytes, leave a mark on a zero register. */
  lemma ThreeBytesMasked(x: Octet, y: Octet, z: Octet, m: Octet)
    requires m == 0x00 || m == 0x80 || m == 0xC0 || m == 0xE0 || m == 0xF0 || m == 0xF8 || m == 0xFC || m == 0xFE
    requires x & m == 0 && z & m == z
    requires x != 0 || y != 0 || z != 0
    ensures Shift8(Xor(Shift8(Xor(Shift8(Xor(0, High(x))), High(y))), High(z))) != 0
  {
  }

  lemma ThreeBytes(x: Octet, y: Octet, z: Octet, k: nat)
    requires k < 8
    requires x & TopBits(k) == 0 && z & TopBits(k) == z
    requires x != 0 || y != 0 || z != 0
    ensures Update(Update(Update(0, x), y), z) != 0
  {
    ThreeBytesMasked(x, y, z, TopBits(k));
    UpdateIsShift8(0, x);
    UpdateIsShift8(Update(0, x), y);
    UpdateIsShift8(Update(Update(0, x), y), z);
  }

  function Update3(r: bv16, x: Octet, y: Octet, z: Octet): bv16 {
    Update(Update(Update(r, x), y), z)
  }

  lemma Update3Linear(r: bv16, x: Octet, y: Octet, z: Octet, x': Octet, y': Octet, z': Octet)
    ensures Xor(Update3(r, x, y, z), Update3(r, x', y', z')) == Update3(0, x ^ x', y ^ y', z ^ z')
  {
    XorZero(r, r);
    UpdateLinear(r, r, x, x');
    UpdateLinear(Update(r, x), Update(r, x'), y, y');
    UpdateLinear(Update(Update(r, x), y), Update(Update(r, x'), y'), z, z');
  }

  lemma Update3Marks(r: bv16, x: Octet, y: Octet, z: Octet, x': Octet, y': Octet, z': Octet)
    requires Update3(0, x ^ x', y ^ y', z ^ z') != 0
    ensures Update3(r, x, y, z) != Update3(r, x', y', z')
  {
    Update3Linear(r, x, y, z, x', y', z');
    XorZero(Update3(r, x, y, z), Update3(r, x', y', z'));
  }

  /** The outer bytes of `d` and `e` agree outside of a window of 16 bits that starts at bit `k`. */
  predicate InWindow(d: seq<Byte>, e: seq<Byte>, k: nat) {
    |d| == 3 == |e| && d != e && k < 8
    && SameFirst(d[0], e[0], k) && SameLast(d[2], e[2], k)
  }

  /** Two bytes agree on their first `k` bits. */
  predicate SameFirst(a: Byte, b: Byte, k: nat)
    requires k < 8
  {
    (Bits(a) ^ Bits(b)) & TopBits(k) == 0
  }

  /** Two bytes agree on all but their first `k` bits. */
  predicate SameLast(a: Byte, b: Byte, k: nat)
    requires k < 8
  {
    (Bits(a) ^ Bits(b)) & TopBits(k) == Bits(a) ^ Bits(b)
  }

  lemma WindowMarks(r: bv16, d: seq<Byte>, e: seq<Byte>, k: nat)
    requires InWindow(d, e, k)
    ensures Update3(r, Bits(d[0]), Bits(d[1]), Bits(d[2])) != Update3(r, Bits(e[0]), Bits(e[1]), Bits(e[2]))
  {
    assert Update3(0, Bits(d[0]) ^ Bits(e[0]), Bits(d[1]) ^ Bits(e[1]), Bits(d[2]) ^ Bits(e[2])) != 0 by {
      SomeByteDiffers(d, e);
      ThreeBytes(Bits(d[0]) ^ Bits(e[0]), Bits(d[1]) ^ Bits(e[1]), Bits(d[2]) ^ Bits(e[2]), k);
    }
    Update3Marks(r, Bits(d[0]), Bits(d[1]), Bits(d[2]), Bits(e[0]), Bits(e[1]), Bits(e[2]));
  }

  lemma WindowDetected(c: bv16, pre: seq<Byte>, d: seq<Byte>, e: seq<Byte>, post: seq<Byte>, k: nat)
    requires InWindow(d, e, k)
    ensures Crc(c, pre + d + post) != Crc(c, pre + e + post)
  {
    var r := Crc(c, pre);
    CrcAppend(c, pre + d, post);
    CrcAppend(c, pre, d);
    CrcAppend(c, pre + e, post);
    CrcAppend(c, pre, e);
    CrcInjective(Crc(r, d), Crc(r, e), post);
    CrcOfThree(r, d);
    CrcOfThree(r, e);
    WindowMarks(r, d, e, k);
  }

  lemma CrcOfThree(r: bv16, d: seq<Byte>)
    requires |d| == 3
    ensures Crc(r, d) == Update3(r, Bits(d[0]), Bits(d[1]), Bits(d[2]))
  {
    assert d[..2][..1] == d[..1] && d[..1][..0] == [];
    assert Crc(r, d[..1]) == Update(r, Bits(d[0]));
    assert Crc(r, d[..2]) == Update(Crc(r, d[..1]), Bits(d[1]));
  }

  lemma ByteDiffers(a: Byte, b: Byte)
    ensures Bits(a) ^ Bits(b) == 0 <==> a == b
  {
    BitsOfByte(a);
    BitsOfByte(b);
    OctetDiffers(Bits(a), Bits(b));
  }

  lemma OctetDiffers(a: Octet, b: Octet)
    ensures a ^ b == 0 <==> a == b
  {
  }

  lemma SomeByteDiffers(d: seq<Byte>, e: seq<Byte>)
    requires |d| == 3 == |e| && d != e
    ensures Bits(d[0]) ^ Bits(e[0]) != 0 || Bits(d[1]) ^ Bits(e[1]) != 0 || Bits(d[2]) ^ Bits(e[2]) != 0
  {
    assert d[0] != e[0] || d[1] != e[1] || d[2] != e[2];
    ByteDiffers(d[0], e[0]);
    ByteDiffers(d[1], e[1]);
    ByteDiffers(d[2], e[2]);
  }

  lemma BitOfByte(d: seq<Byte>, e: seq<Byte>, p: nat, i: nat, j: nat)
    requires IsBurst(d, e, p) && i < |d| && j < 8 && !(p <= 8 * i + j < p + 16)
    ensures Bit(Bits(d[i]), j) == Bit(Bits(e[i]), j)
  {
    var b := 8 * i + j;
    assert b / 8 == i && b % 8 == j;
    assert !BitDiffers(d, e, b);
  }

  /** A burst of at most 16 bits lies in three bytes, with the unused bits of the outer two intact. */
  lemma BurstBytes(d: seq<Byte>, e: seq<Byte>, p: nat, i: nat)
    requires IsBurst(d, e, p) && i < |d|
    ensures i < p / 8 || i > p / 8 + 2 ==> d[i] == e[i]
    ensures i == p / 8 ==> SameFirst(d[i], e[i], p % 8)
    ensures i == p / 8 + 2 ==> SameLast(d[i], e[i], p % 8)
  {
    var q, k := p / 8, p % 8;
    if i < q || i > q + 2 {
      forall j | 0 <= j < 8 ensures Bit(Bits(d[i]), j) == Bit(Bits(e[i]), j) { BitOfByte(d, e, p, i, j); }
      SameBits(Bits(d[i]), Bits(e[i]));
      BitsOfByte(d[i]);
      BitsOfByte(e[i]);
    } else if i == q {
      forall j | 0 <= j < k ensures Bit(Bits(d[i]), j) == Bit(Bits(e[i]), j) { BitOfByte(d, e, p, i, j); }
      SameTop(Bits(d[i]), Bits(e[i]), k);
    } else if i == q + 2 {
      forall j | k <= j < 8 ensures Bit(Bits(d[i]), j) == Bit(Bits(e[i]), j) { BitOfByte(d, e, p, i, j); }
      SameBottom(Bits(d[i]), Bits(e[i]), k);
    }
  }

  lemma BurstWindow(d: seq<Byte>, e: seq<Byte>, p: nat)
    requires IsBurst(d, e, p)
    ensures p / 8 < |d|
    ensures InWindow((d + [0, 0])[p / 8..p / 8 + 3], (e + [0, 0])[p / 8..p / 8 + 3], p % 8)
    ensures d[..p / 8] == e[..p / 8]
    ensures (d + [0, 0])[p / 8 + 3..] == (e + [0, 0])[p / 8 + 3..]
  {
    var q := p / 8;
    var i :| 0 <= i < |d| && d[i] != e[i];
    forall j | 0 <= j < |d| && !(q <= j <= q + 2) ensures d[j] == e[j] { BurstBytes(d, e, p, j); }
    var w, v := (d + [0, 0])[q..q + 3], (e + [0, 0])[q..q + 3];
    assert w[i - q] != v[i - q];
    BurstBytes(d, e, p, q);
    if q + 2 < |d| {
      BurstBytes(d, e, p, q + 2);
    } else {
      assert w[2] == v[2];
      SameLastReflexive(w[2], p % 8);
    }
  }

  lemma SameLastReflexive(b: Byte, k: nat)
    requires k < 8
    ensures SameLast(b, b, k)
  {
  }

  lemma ThreeParts<T>(s: seq<T>, i: nat, j: nat)
    requires i <= j <= |s|
    ensures s == s[..i] + s[i..j] + s[j..]
  {
  }

  /** Every error burst of at most 16 bits changes the checksum. */
  lemma BurstDetected(c: bv16, d: seq<Byte>, e: seq<Byte>, p: nat)
    requires IsBurst(d, e, p)
    ensures Crc(c, d) != Crc(c, e)
  {
    var q := p / 8;
    var d', e' := d + [0, 0], e + [0, 0];
    BurstWindow(d, e, p);
    ThreeParts(d', q, q + 3);
    ThreeParts(e', q, q + 3);
    assert d'[..q] == d[..q] && e'[..q] == e[..q];
    WindowDetected(c, d'[..q], d'[q..q + 3], e'[q..q + 3], d'[q + 3..], p % 8);
    CrcAppend(c, d, [0, 0]);
    CrcAppend(c, e, [0, 0]);
  }
}
