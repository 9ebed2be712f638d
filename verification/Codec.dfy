/** The bit-field accessors of ifcutil.h, on big-endian byte buffers.

    A field is a range of bits counted from the most significant bit of byte 0.
    GetField and SetField compute as the macros do: they read a big-endian dword,
    shift, mask and write it back. ReadBits and WriteBits say, bit by bit and
    without any dword, what reading and writing a range of bits means. */
module Codec {
  import opened Bits

  newtype byte = x: int | 0 <= x < 256

  type Buffer = seq<byte>

  datatype Field = Field(off: nat, width: nat) {
    // First byte of the dword that holds the field.
    function Dword(): nat { off / 32 * 4 }

    // Distance of the field's last bit from the dword's last bit.
    function Shift(): nat
      requires off % 32 + width <= 32
    {
      32 - width - off % 32
    }

    // The field lies inside one dword of an n-byte buffer.
    predicate Fits(n: nat) {
      1 <= width && off % 32 + width <= 32 && Dword() + 4 <= n
    }

    // First byte of the quadword that holds the field.
    function Quad(): nat { off / 64 * 8 }

    predicate Covers(i: nat) { off <= i < off + width }

    // The same field of a structure that starts at byte b of the buffer.
    function At(b: nat): Field { Field(8 * b + off, width) }
  }

  predicate Disjoint(f: Field, g: Field) {
    f.off + f.width <= g.off || g.off + g.width <= f.off
  }

  // Bit i of a buffer, counted from the most significant bit of byte 0.
  predicate BufferBit(s: Buffer, i: nat)
    requires i < 8 * |s|
  {
    Bit(s[i / 8] as nat, 7 - i % 8)
  }

  /* ---- big-endian words ---- */

  function BigEndian(s: Buffer): nat {
    if s == [] then 0 else 256 * BigEndian(s[..|s| - 1]) + s[|s| - 1] as nat
  }

  function Bytes(v: nat, n: nat): (r: Buffer)
    ensures |r| == n
    decreases n
  {
    if n == 0 then [] else Bytes(v / 256, n - 1) + [(v % 256) as byte]
  }

  function Splice(s: Buffer, p: nat, t: Buffer): (r: Buffer)
    requires p + |t| <= |s|
    ensures |r| == |s|
    ensures forall k :: 0 <= k < |s| ==> r[k] == if p <= k < p + |t| then t[k - p] else s[k]
  {
    s[..p] + t + s[p + |t|..]
  }

  function ToU32(v: int): nat { v % 0x1_0000_0000 }
  function ToU64(v: int): nat { v % 0x1_0000_0000_0000_0000 }

  /* ---- the accessor macros ---- */

  function GetField(s: Buffer, f: Field): nat
    requires f.Fits(|s|)
  {
    And(ShiftRight(BigEndian(s[f.Dword()..f.Dword() + 4]), f.Shift()), Mask(f.width))
  }

  // The dword that MLX5_SET stores, from the dword it found.
  function Merge(word: nat, f: Field, v: nat): nat
    requires f.Fits(f.Dword() + 4)
  {
    var dwMask := Low(ShiftLeft(Mask(f.width), f.Shift()), 32);
    Or(And(word, Not(32, dwMask)), Low(ShiftLeft(And(v, Mask(f.width)), f.Shift()), 32))
  }

  function SetField(s: Buffer, f: Field, v: int): (r: Buffer)
    requires f.Fits(|s|)
    ensures |r| == |s|
  {
    var d := f.Dword();
    Splice(s, d, Bytes(Merge(BigEndian(s[d..d + 4]), f, ToU32(v)), 4))
  }

  // A 64-bit field takes its whole quadword.
  predicate Fits64(f: Field, n: nat) {
    f.width == 64 && f.off % 64 == 0 && f.Quad() + 8 <= n
  }

  function GetField64(s: Buffer, f: Field): nat
    requires Fits64(f, |s|)
  {
    BigEndian(s[f.Quad()..f.Quad() + 8])
  }

  function SetField64(s: Buffer, f: Field, v: int): (r: Buffer)
    requires Fits64(f, |s|)
    ensures |r| == |s|
  {
    Splice(s, f.Quad(), Bytes(ToU64(v), 8))
  }

  // The macros on a buffer in memory.
  method Set(a: array<byte>, f: Field, v: int)
    requires f.Fits(a.Length)
    modifies a
    ensures a[..] == SetField(old(a[..]), f, v)
  {
    var d := f.Dword();
    var w := Bytes(Merge(BigEndian(a[d..d + 4]), f, ToU32(v)), 4);
    Store(a, d, w);
    assert old(a[d..d + 4]) == old(a[..])[d..d + 4];
  }

  method Set64(a: array<byte>, f: Field, v: int)
    requires Fits64(f, a.Length)
    modifies a
    ensures a[..] == SetField64(old(a[..]), f, v)
  {
    Store(a, f.Quad(), Bytes(ToU64(v), 8));
  }

  // memcpy(a + p, w, |w|)
  method Store(a: array<byte>, p: nat, w: Buffer)
    requires p + |w| <= a.Length
    modifies a
    ensures a[..] == Splice(old(a[..]), p, w)
  {
    forall k | 0 <= k < |w| {
      a[p + k] := w[k];
    }
  }

  /* ---- what they mean, bit by bit ---- */

  // The number formed by w bits of the buffer, most significant first.
  function ReadBits(s: Buffer, off: nat, w: nat): (r: nat)
    requires off + w <= 8 * |s|
    decreases w
  {
    if w == 0 then 0
    else 2 * ReadBits(s, off, w - 1) + (if BufferBit(s, off + w - 1) then 1 else 0)
  }

  // x, of n bits, with bit j set to b
  function WithBit(x: nat, j: nat, b: bool, n: nat): (r: nat)
    requires j < n && x < Pow2(n)
    ensures r < Pow2(n)
    decreases n
  {
    if j == 0 then x / 2 * 2 + (if b then 1 else 0)
    else 2 * WithBit(x / 2, j - 1, b, n - 1) + x % 2
  }

  function SetBit(s: Buffer, i: nat, b: bool): (r: Buffer)
    requires i < 8 * |s|
    ensures |r| == |s|
  {
    assert Pow2(8) == 256;
    s[i / 8 := WithBit(s[i / 8] as nat, 7 - i % 8, b, 8) as byte]
  }

  // s with its w bits from off on replaced by the w low bits of v.
  function WriteBits(s: Buffer, off: nat, w: nat, v: nat): (r: Buffer)
    requires off + w <= 8 * |s|
    ensures |r| == |s|
    decreases w
  {
    if w == 0 then s
    else WriteBits(SetBit(s, off + w - 1, v % 2 == 1), off, w - 1, v / 2)
  }

  // t is s with those bits replaced, and no other.
  ghost predicate IsBitUpdate(s: Buffer, t: Buffer, off: nat, w: nat, v: nat) {
    && |t| == |s|
    && forall i: nat :: i < 8 * |s| ==>
         (BufferBit(t, i) <==>
          if off <= i < off + w then Bit(v, off + w - 1 - i) else BufferBit(s, i))
  }

  lemma {:induction false} WithBitBit(x: nat, j: nat, b: bool, n: nat, i: nat)
    requires j < n && x < Pow2(n)
    ensures Bit(WithBit(x, j, b, n), i) <==> if i == j then b else Bit(x, i)
    decreases n
  {
    if j == 0 {
      assert WithBit(x, j, b, n) / 2 == x / 2;
    } else {
      assert WithBit(x, j, b, n) / 2 == WithBit(x / 2, j - 1, b, n - 1);
      if i > 0 { WithBitBit(x / 2, j - 1, b, n - 1, i - 1); }
    }
  }

  lemma SetBitBit(s: Buffer, j: nat, b: bool, i: nat)
    requires i < 8 * |s| && j < 8 * |s|
    ensures BufferBit(SetBit(s, j, b), i) <==> if i == j then b else BufferBit(s, i)
  {
    assert Pow2(8) == 256;
    hide Bit, WithBit, Pow2;
    if i / 8 == j / 8 {
      WithBitBit(s[j / 8] as nat, 7 - j % 8, b, 8, 7 - i % 8);
    }
  }

  lemma {:induction false} WriteBitsBit(s: Buffer, off: nat, w: nat, v: nat, i: nat)
    requires off + w <= 8 * |s| && i < 8 * |s|
    ensures BufferBit(WriteBits(s, off, w, v), i) <==>
            if off <= i < off + w then Bit(v, off + w - 1 - i) else BufferBit(s, i)
    decreases w
  {
    hide BufferBit, SetBit;
    if w > 0 {
      var t := SetBit(s, off + w - 1, v % 2 == 1);
      WriteBitsBit(t, off, w - 1, v / 2, i);
      SetBitBit(s, off + w - 1, v % 2 == 1, i);
    }
  }

  lemma WriteBitsUpdates(s: Buffer, off: nat, w: nat, v: nat)
    requires off + w <= 8 * |s|
    ensures IsBitUpdate(s, WriteBits(s, off, w, v), off, w, v)
  {
    hide Bit, BufferBit, WriteBits;
    forall i: nat | i < 8 * |s|
      ensures BufferBit(WriteBits(s, off, w, v), i) <==>
              if off <= i < off + w then Bit(v, off + w - 1 - i) else BufferBit(s, i)
    {
      WriteBitsBit(s, off, w, v, i);
    }
  }

  // Nothing else is a buffer with those bits replaced.
  lemma UpdateUnique(s: Buffer, t: Buffer, off: nat, w: nat, v: nat)
    requires off + w <= 8 * |s| && IsBitUpdate(s, t, off, w, v)
    ensures t == WriteBits(s, off, w, v)
  {
    hide Bit, BufferBit, WriteBits;
    WriteBitsUpdates(s, off, w, v);
    SameBufferBits(t, WriteBits(s, off, w, v));
  }

  lemma {:induction false} ReadBitsBit(s: Buffer, off: nat, w: nat, i: nat)
    requires off + w <= 8 * |s|
    ensures ReadBits(s, off, w) < Pow2(w)
    ensures Bit(ReadBits(s, off, w), i) <==> i < w && BufferBit(s, off + w - 1 - i)
    decreases w
  {
    if w == 0 {
      ZeroBits(i);
    } else {
      ReadBitsBit(s, off, w - 1, if i == 0 then 0 else i - 1);
      assert ReadBits(s, off, w) / 2 == ReadBits(s, off, w - 1);
    }
  }

  lemma {:induction false} BigEndianBit(s: Buffer, i: nat)
    requires i < 8 * |s|
    ensures Bit(BigEndian(s), 8 * |s| - 1 - i) <==> BufferBit(s, i)
  {
    var n := |s| - 1;
    var x, b := BigEndian(s[..n]), s[n] as nat;
    if i < 8 * n {
      BigEndianBit(s[..n], i);
      PushByte(x, b, 8 * n - 1 - i);
    } else {
      PushByteLow(x, b, 7 - i % 8);
    }
  }

  lemma {:induction false} PushByte(x: nat, b: nat, i: nat)
    requires b < 256
    ensures Bit(256 * x + b, i + 8) <==> Bit(x, i)
  {
    assert (256 * x + b) / 256 == x;
    BitOfQuotient(256 * x + b, i);
  }

  lemma BitOfQuotient(y: nat, i: nat)
    ensures Bit(y, i + 8) <==> Bit(y / 256, i)
  {
    assert y / 2 / 2 / 2 / 2 / 2 / 2 / 2 / 2 == y / 256;
    assert Bit(y, i + 8) <==> Bit(y / 2 / 2, i + 6);
    assert Bit(y / 2 / 2, i + 6) <==> Bit(y / 2 / 2 / 2 / 2, i + 4);
    assert Bit(y / 2 / 2 / 2 / 2, i + 4) <==> Bit(y / 2 / 2 / 2 / 2 / 2 / 2, i + 2);
  }

  lemma PushByteLow(x: nat, b: nat, i: nat)
    requires i < 8
    ensures Bit(256 * x + b, i) <==> Bit(b, i)
  {
    assert Pow2(8) == 256;
    AddMultiple(x * 256, x, b, 8, i);
  }

  // Adding a multiple of 2^k leaves the k low bits alone.
  lemma {:induction false} AddMultiple(y: nat, x: nat, b: nat, k: nat, i: nat)
    requires y == x * Pow2(k) && i < k
    ensures Bit(y + b, i) <==> Bit(b, i)
    decreases k
  {
    var z := x * Pow2(k - 1);
    assert y == 2 * z by { assert x * Pow2(k) == x * (2 * Pow2(k - 1)); }
    if i > 0 {
      AddMultiple(z, x, b / 2, k - 1, i - 1);
      assert (y + b) / 2 == z + b / 2;
    }
  }

  lemma {:induction false} BytesBit(v: nat, n: nat, i: nat)
    requires i < 8 * n
    ensures BufferBit(Bytes(v, n), i) <==> Bit(v, 8 * n - 1 - i)
    decreases n
  {
    var h, b := v / 256, v % 256;
    if i < 8 * (n - 1) {
      BytesBit(h, n - 1, i);
      BitOfQuotient(v, 8 * (n - 1) - 1 - i);
      assert Bytes(v, n)[i / 8] == Bytes(h, n - 1)[i / 8];
    } else {
      PushByteLow(h, b, 7 - i % 8);
    }
  }

  lemma {:induction false} BigEndianBound(s: Buffer)
    ensures BigEndian(s) < Pow2(8 * |s|)
  {
    if s != [] {
      BigEndianBound(s[..|s| - 1]);
      var n := 8 * |s|;
      assert Pow2(n) == 2 * Pow2(n - 1) && Pow2(n - 1) == 2 * Pow2(n - 2);
      assert Pow2(n - 2) == 2 * Pow2(n - 3) && Pow2(n - 3) == 2 * Pow2(n - 4);
      assert Pow2(n - 4) == 2 * Pow2(n - 5) && Pow2(n - 5) == 2 * Pow2(n - 6);
      assert Pow2(n - 6) == 2 * Pow2(n - 7) && Pow2(n - 7) == 2 * Pow2(n - 8);
    }
  }

  // Buffers of one length are equal as soon as their bits are.
  lemma SameBufferBits(s: Buffer, t: Buffer)
    requires |s| == |t|
    requires forall i: nat :: i < 8 * |s| ==> (BufferBit(s, i) <==> BufferBit(t, i))
    ensures s == t
  {
    forall k | 0 <= k < |s|
      ensures s[k] == t[k]
    {
      var x, y := s[k] as nat, t[k] as nat;
      forall i: nat | i < 8
        ensures Bit(x, i) <==> Bit(y, i)
      {
        var j := 8 * k + (7 - i);
        assert j / 8 == k && j % 8 == 7 - i;
        assert BufferBit(s, j) <==> BufferBit(t, j);
      }
      assert Pow2(8) == 256;
      SameBits(x, y, 8);
    }
  }
}
