// Byte strings and little-endian fields, with the source's integer widths
// written out: encoding keeps the low bits of a value, as an `as u16` or
// `as u32` cast followed by `to_le_bytes` does.
module Bytes {

  type byte = b: int | 0 <= b < 256

  const U16: nat := 0x1_0000
  const U32: nat := 0x1_0000_0000
  const U64: nat := 0x1_0000_0000_0000_0000
  const ALL_ONES: nat := 0xFFFF_FFFF

  type Buffer = seq<byte>

  // Record signatures.
  const FILE: Buffer := [0x46, 0x49, 0x4C, 0x45]
  const BAAD: Buffer := [0x42, 0x41, 0x41, 0x44]

  function Le16(v: nat): (r: Buffer)
    ensures |r| == 2
  {
    [v % 0x100, v / 0x100 % 0x100]
  }

  function Le32(v: nat): (r: Buffer)
    ensures |r| == 4
  {
    Le16(v % 0x1_0000) + Le16(v / 0x1_0000)
  }

  function Le64(v: nat): (r: Buffer)
    ensures |r| == 8
  {
    Le32(v % 0x1_0000_0000) + Le32(v / 0x1_0000_0000)
  }

  function U16At(s: Buffer, off: nat): (v: nat)
    requires off + 2 <= |s|
    ensures v < U16
  {
    s[off] as int + 0x100 * (s[off + 1] as int)
  }

  function U32At(s: Buffer, off: nat): (v: nat)
    requires off + 4 <= |s|
    ensures v < U32
  {
    U16At(s, off) + 0x1_0000 * U16At(s, off + 2)
  }

  function U64At(s: Buffer, off: nat): (v: nat)
    requires off + 8 <= |s|
    ensures v < U64
  {
    U32At(s, off) + 0x1_0000_0000 * U32At(s, off + 4)
  }

  // The least significant byte comes first.
  lemma LittleEndian(s: Buffer, off: nat)
    requires off + 8 <= |s|
    ensures U16At(s, off) == s[off] as nat + 0x100 * (s[off + 1] as nat)
    ensures U32At(s, off)
            == s[off] as nat + 0x100 * (s[off + 1] as nat) + 0x1_0000 * (s[off + 2] as nat)
               + 0x100_0000 * (s[off + 3] as nat)
    ensures U64At(s, off) == U32At(s, off) + 0x1_0000_0000 * U32At(s, off + 4)
  {
  }

  predicate Zeros(s: Buffer) {
    forall i :: 0 <= i < |s| ==> s[i] == 0
  }

  /** `s` with `part` written over it at `off` (`copy_from_slice`). */
  function Splice(s: Buffer, off: nat, part: Buffer): (r: Buffer)
    requires off + |part| <= |s|
    ensures |r| == |s|
  {
    s[..off] + part + s[off + |part|..]
  }

  lemma SpliceAt(s: Buffer, off: nat, part: Buffer)
    requires off + |part| <= |s|
    ensures forall i :: 0 <= i < |s| ==>
              Splice(s, off, part)[i] == if off <= i < off + |part| then part[i - off] else s[i]
  {
  }

  /** The part of `s` at `off` is `part`. */
  predicate Holds(s: Buffer, off: nat, part: Buffer) {
    off + |part| <= |s| && s[off..off + |part|] == part
  }

  // Reading a field back gives the value's low bits.
  lemma Read16(s: Buffer, off: nat, v: nat)
    requires Holds(s, off, Le16(v))
    ensures U16At(s, off) == v % 0x1_0000 && (v < 0x1_0000 ==> U16At(s, off) == v)
  {
    assert s[off] == s[off..off + 2][0] && s[off + 1] == s[off..off + 2][1];
    Halves16(v);
  }

  lemma HoldsSplit(s: Buffer, off: nat, a: Buffer, b: Buffer)
    requires Holds(s, off, a + b)
    ensures Holds(s, off, a) && Holds(s, off + |a|, b)
  {
    var field := s[off..off + |a| + |b|];
    assert field == a + b;
    assert s[off..off + |a|] == field[..|a|];
    assert s[off + |a|..off + |a| + |b|] == field[|a|..];
  }

  lemma HoldsJoin(s: Buffer, off: nat, a: Buffer, b: Buffer)
    requires Holds(s, off, a) && Holds(s, off + |a|, b)
    ensures Holds(s, off, a + b)
  {
    assert s[off..off + |a| + |b|] == s[off..off + |a|] + s[off + |a|..off + |a| + |b|];
  }

  lemma MulGap(d: int, m: int)
    requires d != 0 && 0 <= m
    ensures m <= d * m || d * m <= -m
  {
    if 0 < d {
      assert 0 <= (d - 1) * m;
    } else {
      assert 0 <= (-d - 1) * m;
    }
  }

  lemma ModIs(v: nat, k: nat, r: nat, m: nat)
    requires r < m && v == k * m + r
    ensures v % m == r && v / m == k
  {
    var d := v / m - k;
    assert d * m == r - v % m;
    if d != 0 {
      MulGap(d, m);
    }
  }

  lemma Halves16(v: nat)
    ensures v % 0x1_0000 == v % 0x100 + 0x100 * (v / 0x100 % 0x100)
  {
    var high := v / 0x100;
    ModIs(v, high / 0x100, v % 0x100 + 0x100 * (high % 0x100), 0x1_0000);
  }

  lemma Halves32(v: nat)
    ensures v % 0x1_0000_0000 == v % 0x1_0000 + 0x1_0000 * (v / 0x1_0000 % 0x1_0000)
  {
    var high := v / 0x1_0000;
    ModIs(v, high / 0x1_0000, v % 0x1_0000 + 0x1_0000 * (high % 0x1_0000), 0x1_0000_0000);
  }

  lemma Halves64(v: nat)
    ensures v % 0x1_0000_0000_0000_0000
            == v % 0x1_0000_0000 + 0x1_0000_0000 * (v / 0x1_0000_0000 % 0x1_0000_0000)
  {
    var high := v / 0x1_0000_0000;
    ModIs(v, high / 0x1_0000_0000, v % 0x1_0000_0000 + 0x1_0000_0000 * (high % 0x1_0000_0000),
          0x1_0000_0000_0000_0000);
  }

  lemma Read32(s: Buffer, off: nat, v: nat)
    requires Holds(s, off, Le32(v))
    ensures U32At(s, off) == v % 0x1_0000_0000 && (v < 0x1_0000_0000 ==> U32At(s, off) == v)
  {
    HoldsSplit(s, off, Le16(v % 0x1_0000), Le16(v / 0x1_0000));
    Read16(s, off, v % 0x1_0000);
    Read16(s, off + 2, v / 0x1_0000);
    Halves32(v);
  }

  lemma Read64(s: Buffer, off: nat, v: nat)
    requires Holds(s, off, Le64(v))
    ensures U64At(s, off) == v % 0x1_0000_0000_0000_0000 && (v < 0x1_0000_0000_0000_0000 ==> U64At(s, off) == v)
  {
    HoldsSplit(s, off, Le32(v % 0x1_0000_0000), Le32(v / 0x1_0000_0000));
    Read32(s, off, v % 0x1_0000_0000);
    Read32(s, off + 4, v / 0x1_0000_0000);
    Halves64(v);
  }

  /** How many whole strides fit in a length. */
  function Quotient(len: nat, stride: nat): (q: nat)
    requires 0 < stride
    ensures q * stride <= len < q * stride + stride
  {
    len / stride
  }
}
