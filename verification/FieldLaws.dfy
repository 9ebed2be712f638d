/** What the field accessors do, and the laws everything else rests on. Get and
    Put are defined on the bits of the field; the macros, on dwords or quadwords,
    are shown to compute them. */
module FieldLaws {
  import opened Bits
  import opened Codec

  // The field lies inside an n-byte buffer.
  predicate Valid(f: Field, n: nat) {
    f.off + f.width <= 8 * n
  }

  function Get(s: Buffer, f: Field): nat
    requires Valid(f, |s|)
  {
    ReadBits(s, f.off, f.width)
  }

  // An int is converted to the field's width, modulo 2^width.
  function Put(s: Buffer, f: Field, v: int): (r: Buffer)
    requires Valid(f, |s|)
    ensures |r| == |s|
  {
    WriteBits(s, f.off, f.width, v % Pow2(f.width))
  }

  // A macro can reach the field: by its quadword, or inside one dword.
  predicate Accessible(f: Field, n: nat) {
    if f.width == 64 then Fits64(f, n) else f.Fits(n)
  }

  // MLX5_GET or MLX5_GET64, as the field's width asks for.
  function Load(s: Buffer, f: Field): (v: nat)
    requires Accessible(f, |s|)
    ensures Valid(f, |s|) && v == Get(s, f)
  {
    hide GetField, GetField64, ReadBits;
    if f.width == 64 then
      GetField64IsReadBits(s, f);
      GetField64(s, f)
    else
      GetFieldIsReadBits(s, f);
      GetField(s, f)
  }

  // MLX5_SET or MLX5_SET64 on a buffer in memory.
  method Write(a: array<byte>, f: Field, v: int)
    requires Accessible(f, a.Length)
    modifies a
    ensures Valid(f, a.Length) && a[..] == Put(old(a[..]), f, v)
  {
    hide SetField, SetField64, Put;
    if f.width == 64 {
      SetField64IsPut(a[..], f, v);
      Set64(a, f, v);
    } else {
      SetFieldIsPut(a[..], f, v);
      Set(a, f, v);
    }
  }

  /* ---- the macros against the bits ---- */

  lemma WindowBit(s: Buffer, d: nat, n: nat, i: nat)
    requires d + n <= |s| && i < 8 * n
    ensures BufferBit(s[d..d + n], i) <==> BufferBit(s, 8 * d + i)
  {
    assert (8 * d + i) / 8 == d + i / 8 && (8 * d + i) % 8 == i % 8;
  }

  lemma GetFieldBit(s: Buffer, f: Field, i: nat)
    requires f.Fits(|s|) && i < f.width
    ensures Bit(GetField(s, f), i) <==> BufferBit(s, f.off + f.width - 1 - i)
  {
    hide Bit, BufferBit, BigEndian, ShiftRight, Low, And, Mask;
    var d, k := f.Dword(), f.Shift();
    var word := BigEndian(s[d..d + 4]);
    AndMaskIsLow(ShiftRight(word, k), f.width);
    LowBit(ShiftRight(word, k), f.width, i);
    ShiftRightBit(word, k, i);
    BigEndianBit(s[d..d + 4], 31 - (i + k));
    WindowBit(s, d, 4, 31 - (i + k));
  }

  lemma GetFieldBound(s: Buffer, f: Field)
    requires f.Fits(|s|)
    ensures GetField(s, f) < Pow2(f.width)
  {
    hide BigEndian, ShiftRight, Mask, And, Low, Pow2;
    AndMaskIsLow(ShiftRight(BigEndian(s[f.Dword()..f.Dword() + 4]), f.Shift()), f.width);
  }

  // The only w-bit number with the field's bits is the one ReadBits forms.
  lemma ReadBitsUnique(x: nat, s: Buffer, off: nat, w: nat)
    requires off + w <= 8 * |s| && x < Pow2(w)
    requires forall i: nat :: i < w ==> (Bit(x, i) <==> BufferBit(s, off + w - 1 - i))
    ensures x == ReadBits(s, off, w)
  {
    hide *;
    ReadBitsBit(s, off, w, 0);
    forall i: nat | i < w
      ensures Bit(x, i) <==> Bit(ReadBits(s, off, w), i)
    {
      ReadBitsBit(s, off, w, i);
    }
    SameBits(x, ReadBits(s, off, w), w);
  }

  lemma GetFieldBits(s: Buffer, f: Field)
    requires f.Fits(|s|)
    ensures forall i: nat :: i < f.width ==>
              (Bit(GetField(s, f), i) <==> BufferBit(s, f.off + f.width - 1 - i))
  {
    hide GetField, Bit, BufferBit;
    forall i: nat | i < f.width
      ensures Bit(GetField(s, f), i) <==> BufferBit(s, f.off + f.width - 1 - i)
    {
      GetFieldBit(s, f, i);
    }
  }

  lemma GetFieldIsReadBits(s: Buffer, f: Field)
    requires f.Fits(|s|)
    ensures GetField(s, f) == ReadBits(s, f.off, f.width)
  {
    hide GetField, Bit, BufferBit, ReadBits, Pow2;
    GetFieldBound(s, f);
    GetFieldBits(s, f);
    ReadBitsUnique(GetField(s, f), s, f.off, f.width);
  }

  lemma MergeBit(word: nat, f: Field, v: nat, i: nat)
    requires f.Fits(f.Dword() + 4) && i < 32
    ensures Bit(Merge(word, f, v), i) <==>
            if f.Shift() <= i < f.Shift() + f.width then Bit(v, i - f.Shift()) else Bit(word, i)
  {
    hide Bit, Low, ShiftLeft, Mask, And, Or, Pow2;
    var k, w := f.Shift(), f.width;
    var dwMask := Low(ShiftLeft(Mask(w), k), 32);
    var ins := ShiftLeft(And(v, Mask(w)), k);
    OrBit(And(word, Not(32, dwMask)), Low(ins, 32), i);
    AndBit(word, Not(32, dwMask), i);
    NotBit(32, dwMask, i);
    LowBit(ShiftLeft(Mask(w), k), 32, i);
    ShiftLeftBit(Mask(w), k, i);
    LowBit(ins, 32, i);
    ShiftLeftBit(And(v, Mask(w)), k, i);
    if i >= k {
      MaskBit(w, i - k);
      AndBit(v, Mask(w), i - k);
    }
  }

  // Splicing a big-endian word of n bytes into s replaces just its bits.
  lemma SpliceBit(s: Buffer, p: nat, v: nat, n: nat, i: nat)
    requires p + n <= |s| && i < 8 * |s|
    ensures BufferBit(Splice(s, p, Bytes(v, n)), i) <==>
            if 8 * p <= i < 8 * (p + n) then Bit(v, 8 * (p + n) - 1 - i) else BufferBit(s, i)
  {
    if 8 * p <= i < 8 * (p + n) {
      BytesBit(v, n, i - 8 * p);
      assert (i - 8 * p) / 8 == i / 8 - p && (i - 8 * p) % 8 == i % 8;
    }
  }

  lemma SetFieldBit(s: Buffer, f: Field, v: int, i: nat)
    requires f.Fits(|s|) && i < 8 * |s|
    ensures BufferBit(SetField(s, f, v), i) <==>
            if f.Covers(i) then Bit(ToU32(v), f.off + f.width - 1 - i) else BufferBit(s, i)
  {
    hide Bit, BufferBit, Merge, BigEndian, Bytes, Splice;
    var d := f.Dword();
    var word := BigEndian(s[d..d + 4]);
    SpliceBit(s, d, Merge(word, f, ToU32(v)), 4, i);
    if 8 * d <= i < 8 * d + 32 {
      MergeBit(word, f, ToU32(v), 8 * d + 31 - i);
      BigEndianBit(s[d..d + 4], i - 8 * d);
      WindowBit(s, d, 4, i - 8 * d);
    }
  }

  lemma SetFieldIsBitUpdate(s: Buffer, f: Field, v: int)
    requires f.Fits(|s|)
    ensures IsBitUpdate(s, SetField(s, f, v), f.off, f.width, ToU32(v))
  {
    hide Bit, BufferBit, SetField;
    forall i: nat | i < 8 * |s|
      ensures BufferBit(SetField(s, f, v), i) <==>
              if f.Covers(i) then Bit(ToU32(v), f.off + f.width - 1 - i) else BufferBit(s, i)
    {
      SetFieldBit(s, f, v, i);
    }
  }

  lemma GetField64Bit(s: Buffer, f: Field, i: nat)
    requires Fits64(f, |s|) && i < f.width
    ensures Bit(GetField64(s, f), i) <==> BufferBit(s, f.off + f.width - 1 - i)
  {
    hide Bit, BufferBit, BigEndian;
    var d := f.Quad();
    BigEndianBit(s[d..d + 8], 63 - i);
    WindowBit(s, d, 8, 63 - i);
  }

  lemma GetField64Bound(s: Buffer, f: Field)
    requires Fits64(f, |s|)
    ensures GetField64(s, f) < Pow2(f.width)
  {
    hide BigEndian, Pow2;
    BigEndianBound(s[f.Quad()..f.Quad() + 8]);
  }

  lemma GetField64Bits(s: Buffer, f: Field)
    requires Fits64(f, |s|)
    ensures forall i: nat :: i < f.width ==>
              (Bit(GetField64(s, f), i) <==> BufferBit(s, f.off + f.width - 1 - i))
  {
    hide GetField64, Bit, BufferBit;
    forall i: nat | i < f.width
      ensures Bit(GetField64(s, f), i) <==> BufferBit(s, f.off + f.width - 1 - i)
    {
      GetField64Bit(s, f, i);
    }
  }

  lemma GetField64IsReadBits(s: Buffer, f: Field)
    requires Fits64(f, |s|)
    ensures GetField64(s, f) == ReadBits(s, f.off, f.width)
  {
    hide GetField64, Bit, BufferBit, ReadBits, Pow2;
    GetField64Bound(s, f);
    GetField64Bits(s, f);
    ReadBitsUnique(GetField64(s, f), s, f.off, f.width);
  }

  lemma SetField64IsBitUpdate(s: Buffer, f: Field, v: int)
    requires Fits64(f, |s|)
    ensures IsBitUpdate(s, SetField64(s, f, v), f.off, 64, ToU64(v))
  {
    hide Bit, BufferBit, Bytes, Splice;
    forall i: nat | i < 8 * |s|
      ensures BufferBit(SetField64(s, f, v), i) <==>
              if f.off <= i < f.off + 64 then Bit(ToU64(v), f.off + 63 - i) else BufferBit(s, i)
    {
      SpliceBit(s, f.Quad(), ToU64(v), 8, i);
    }
  }

  // The bits of an unsigned word are those of the value it was cut from.
  lemma LowBitsUpdate(s: Buffer, t: Buffer, f: Field, u: nat)
    requires Valid(f, |s|) && IsBitUpdate(s, t, f.off, f.width, u)
    ensures IsBitUpdate(s, t, f.off, f.width, u % Pow2(f.width))
  {
    hide Bit, BufferBit, Pow2, Low;
    forall i: nat | i < 8 * |s|
      ensures BufferBit(t, i) <==>
              if f.Covers(i) then Bit(u % Pow2(f.width), f.off + f.width - 1 - i) else BufferBit(s, i)
    {
      if f.Covers(i) {
        LowIsMod(u, f.width);
        LowBit(u, f.width, f.off + f.width - 1 - i);
      }
    }
  }

  // For any int, also a negative one, SET writes the value modulo 2^width.
  lemma SetFieldIsPut(s: Buffer, f: Field, v: int)
    requires f.Fits(|s|)
    ensures Valid(f, |s|) && SetField(s, f, v) == Put(s, f, v)
  {
    hide Bit, BufferBit, SetField, Pow2, Low, IsBitUpdate, WriteBits;
    SetFieldIsBitUpdate(s, f, v);
    PowersOfTwo();
    ModOfMod(v, 32, f.width);
    LowBitsUpdate(s, SetField(s, f, v), f, ToU32(v));
    UpdateUnique(s, SetField(s, f, v), f.off, f.width, v % Pow2(f.width));
  }

  lemma SetField64IsPut(s: Buffer, f: Field, v: int)
    requires Fits64(f, |s|)
    ensures Valid(f, |s|) && SetField64(s, f, v) == Put(s, f, v)
  {
    hide Bit, BufferBit, SetField64, Pow2, Low, IsBitUpdate, WriteBits;
    SetField64IsBitUpdate(s, f, v);
    PowersOfTwo();
    UpdateUnique(s, SetField64(s, f, v), f.off, f.width, ToU64(v));
  }

  lemma GetBound(s: Buffer, f: Field)
    requires Valid(f, |s|)
    ensures Get(s, f) < Pow2(f.width)
  {
    hide ReadBits, Pow2;
    ReadBitsBit(s, f.off, f.width, 0);
  }

  lemma PutIsBitUpdate(s: Buffer, f: Field, v: int)
    requires Valid(f, |s|)
    ensures IsBitUpdate(s, Put(s, f, v), f.off, f.width, v % Pow2(f.width))
  {
    hide IsBitUpdate, WriteBits, Pow2;
    WriteBitsUpdates(s, f.off, f.width, v % Pow2(f.width));
  }

  lemma PutSmallIsBitUpdate(s: Buffer, f: Field, v: nat)
    requires Valid(f, |s|) && v < Pow2(f.width)
    ensures IsBitUpdate(s, Put(s, f, v), f.off, f.width, v)
  {
    hide *;
    assert v % Pow2(f.width) == v;
    PutIsBitUpdate(s, f, v);
  }

  /* ---- read-back, frame, commutation ---- */

  lemma ReadUpdated(s: Buffer, t: Buffer, off: nat, w: nat, v: nat)
    requires off + w <= 8 * |s| && v < Pow2(w)
    requires IsBitUpdate(s, t, off, w, v)
    ensures ReadBits(t, off, w) == v
  {
    hide Bit, BufferBit, ReadBits, Pow2;
    ReadBitsUnique(v, t, off, w);
  }

  lemma ReadElsewhere(s: Buffer, t: Buffer, off: nat, w: nat, v: nat, off': nat, w': nat)
    requires off + w <= 8 * |s| && off' + w' <= 8 * |s|
    requires off + w <= off' || off' + w' <= off
    requires IsBitUpdate(s, t, off, w, v)
    ensures ReadBits(t, off', w') == ReadBits(s, off', w')
  {
    ReadBitsBit(t, off', w', 0);
    ReadBitsBit(s, off', w', 0);
    forall i: nat | i < w'
      ensures Bit(ReadBits(t, off', w'), i) <==> Bit(ReadBits(s, off', w'), i)
    {
      ReadBitsBit(t, off', w', i);
      ReadBitsBit(s, off', w', i);
    }
    SameBits(ReadBits(t, off', w'), ReadBits(s, off', w'), w');
  }

  lemma GetPut(s: Buffer, f: Field, v: int)
    requires Valid(f, |s|)
    ensures Get(Put(s, f, v), f) == v % Pow2(f.width)
  {
    PutIsBitUpdate(s, f, v);
    hide Put, IsBitUpdate, ReadBits, Pow2;
    ReadUpdated(s, Put(s, f, v), f.off, f.width, v % Pow2(f.width));
  }

  lemma GetPutElsewhere(s: Buffer, f: Field, v: int, g: Field)
    requires Valid(f, |s|) && Valid(g, |s|) && Disjoint(f, g)
    ensures Get(Put(s, f, v), g) == Get(s, g)
  {
    PutIsBitUpdate(s, f, v);
    hide Put, IsBitUpdate, ReadBits, Pow2;
    ReadElsewhere(s, Put(s, f, v), f.off, f.width, v % Pow2(f.width), g.off, g.width);
  }

  // Read-back and frame of one write, for all fields at once.
  lemma PutFacts(s: Buffer, f: Field, v: int)
    requires Valid(f, |s|)
    ensures Get(Put(s, f, v), f) == v % Pow2(f.width)
    ensures forall g {:trigger Get(Put(s, f, v), g)} ::
              Valid(g, |s|) && Disjoint(f, g) ==> Get(Put(s, f, v), g) == Get(s, g)
  {
    hide Get, Put;
    GetPut(s, f, v);
    forall g | Valid(g, |s|) && Disjoint(f, g)
      ensures Get(Put(s, f, v), g) == Get(s, g)
    {
      GetPutElsewhere(s, f, v, g);
    }
  }

  lemma PutsCommute(s: Buffer, f: Field, v: int, g: Field, w: int)
    requires Valid(f, |s|) && Valid(g, |s|) && Disjoint(f, g)
    ensures Put(Put(s, f, v), g, w) == Put(Put(s, g, w), f, v)
  {
    hide Get, Put, Bit, BufferBit, ReadBits, Pow2;
    PutIsBitUpdate(s, f, v);
    PutIsBitUpdate(s, g, w);
    PutIsBitUpdate(Put(s, f, v), g, w);
    PutIsBitUpdate(Put(s, g, w), f, v);
    SameBufferBits(Put(Put(s, f, v), g, w), Put(Put(s, g, w), f, v));
  }

  // Only the last write to a field is seen.
  lemma PutPut(s: Buffer, f: Field, v: int, w: int)
    requires Valid(f, |s|)
    ensures Put(Put(s, f, v), f, w) == Put(s, f, w)
  {
    hide Get, Put, Bit, BufferBit, ReadBits, Pow2;
    PutIsBitUpdate(s, f, v);
    PutIsBitUpdate(s, f, w);
    PutIsBitUpdate(Put(s, f, v), f, w);
    SameBufferBits(Put(Put(s, f, v), f, w), Put(s, f, w));
  }

  // Writing back what was read changes nothing.
  lemma PutGet(s: Buffer, f: Field)
    requires Valid(f, |s|)
    ensures Put(s, f, Get(s, f)) == s
  {
    GetBound(s, f);
    PutSmallIsBitUpdate(s, f, Get(s, f));
    ReadIsUpdate(s, f);
    hide Put, Bit, BufferBit, Pow2, ReadBits;
    SameBufferBits(Put(s, f, Get(s, f)), s);
  }

  lemma ReadIsUpdate(s: Buffer, f: Field)
    requires Valid(f, |s|)
    ensures IsBitUpdate(s, s, f.off, f.width, Get(s, f))
  {
    hide Bit, BufferBit, ReadBits;
    forall i: nat | i < 8 * |s| && f.Covers(i)
      ensures Bit(Get(s, f), f.off + f.width - 1 - i) <==> BufferBit(s, i)
    {
      ReadBitsBit(s, f.off, f.width, f.off + f.width - 1 - i);
    }
  }

  // A field of a structure that starts at byte b is the field of the sub-buffer.
  lemma GetAt(s: Buffer, b: nat, n: nat, f: Field)
    requires b + n <= |s| && Valid(f, n)
    ensures Valid(f.At(b), |s|) && Get(s, f.At(b)) == Get(s[b..b + n], f)
  {
    hide ReadBits;
    ReadShifted(s, b, n, f.off, f.width);
  }

  lemma {:induction false} ReadShifted(s: Buffer, b: nat, n: nat, off: nat, w: nat)
    requires b + n <= |s| && off + w <= 8 * n
    ensures ReadBits(s, 8 * b + off, w) == ReadBits(s[b..b + n], off, w)
    decreases w
  {
    hide Bit, BufferBit;
    if w > 0 {
      ReadShifted(s, b, n, off, w - 1);
      WindowBit(s, b, n, off + w - 1);
    }
  }

  lemma {:induction false} ReadSame(s: Buffer, t: Buffer, off: nat, w: nat)
    requires off + w <= 8 * |s| && off + w <= 8 * |t|
    requires forall i: nat :: off <= i < off + w ==> (BufferBit(s, i) <==> BufferBit(t, i))
    ensures ReadBits(s, off, w) == ReadBits(t, off, w)
    decreases w
  {
    hide BufferBit;
    if w > 0 { ReadSame(s, t, off, w - 1); }
  }

  // Reading depends on the bytes that the field touches only.
  lemma GetLocal(s: Buffer, t: Buffer, f: Field)
    requires Valid(f, |s|) && Valid(f, |t|)
    requires forall k :: 8 * k > f.off - 8 && 8 * k < f.off + f.width && 0 <= k < |s| && k < |t| ==> s[k] == t[k]
    ensures Get(s, f) == Get(t, f)
  {
    hide Bit, ReadBits;
    ReadSame(s, t, f.off, f.width);
  }

  lemma {:induction false} WriteBitsLocal(s: Buffer, off: nat, w: nat, v: nat, k: nat)
    requires off + w <= 8 * |s| && k < |s| && (8 * k + 8 <= off || off + w <= 8 * k)
    ensures WriteBits(s, off, w, v)[k] == s[k]
    decreases w
  {
    if w > 0 { WriteBitsLocal(SetBit(s, off + w - 1, v % 2 == 1), off, w - 1, v / 2, k); }
  }

  // A write leaves every byte from n on alone when the field ends before.
  lemma PutTail(s: Buffer, f: Field, v: int, n: nat)
    requires n <= |s| && Valid(f, n)
    ensures Put(s, f, v)[n..] == s[n..]
  {
    hide WriteBits, Pow2;
    forall k: nat | n <= k < |s| ensures Put(s, f, v)[k] == s[k] {
      WriteBitsLocal(s, f.off, f.width, v % Pow2(f.width), k);
    }
  }

  // Every field of an all-zero buffer is 0.
  lemma ZeroField(s: Buffer, f: Field)
    requires Valid(f, |s|) && forall k :: 0 <= k < |s| ==> s[k] == 0
    ensures Get(s, f) == 0
  {
    hide ReadBits;
    ZeroReads(s, f.off, f.width);
  }

  lemma {:induction false} ZeroReads(s: Buffer, off: nat, w: nat)
    requires off + w <= 8 * |s| && forall k :: 0 <= k < |s| ==> s[k] == 0
    ensures ReadBits(s, off, w) == 0
    decreases w
  {
    if w > 0 {
      ZeroReads(s, off, w - 1);
      ZeroBits(7 - (off + w - 1) % 8);
    }
  }
}
