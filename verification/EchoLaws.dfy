/** What echoing the cursor does to a request, bit for bit. */
module EchoLaws {
  import opened Bits
  import opened Codec
  import opened FieldLaws
  import opened Layouts
  import opened ResourceDump

  // The bits of the seven echoed fields.
  predicate Echoed(i: nat) {
    i == 0 || 12 <= i < 16 || 64 <= i < 160 || 192 <= i < 256
  }

  lemma CopyFieldBit(request: Buffer, reply: Buffer, f: Field, i: nat)
    requires |request| == |reply| && Valid(f, |request|) && i < 8 * |request|
    ensures BufferBit(CopyField(request, reply, f), i) <==>
            if f.Covers(i) then BufferBit(reply, i) else BufferBit(request, i)
  {
    hide Put, Bit, BufferBit, ReadBits, Pow2;
    var v := Get(reply, f);
    GetBound(reply, f);
    PutSmallIsBitUpdate(request, f, v);
    if f.Covers(i) {
      ReadBitsBit(reply, f.off, f.width, f.off + f.width - 1 - i);
    }
  }

  lemma EchoBit(request: Buffer, reply: Buffer, i: nat)
    requires |request| == |reply| == DUMP_BYTES && i < 8 * DUMP_BYTES
    ensures BufferBit(Echo(request, reply), i) <==>
            if Echoed(i) then BufferBit(reply, i) else BufferBit(request, i)
  {
    hide CopyField, BufferBit;
    var r1 := CopyField(request, reply, SEQ_NUM);
    var r2 := CopyField(r1, reply, INDEX1);
    var r3 := CopyField(r2, reply, INDEX2);
    var r4 := CopyField(r3, reply, NUM_OF_OBJ1);
    var r5 := CopyField(r4, reply, NUM_OF_OBJ2);
    var r6 := CopyField(r5, reply, MORE_DUMP);
    CopyFieldBit(request, reply, SEQ_NUM, i);
    CopyFieldBit(r1, reply, INDEX1, i);
    CopyFieldBit(r2, reply, INDEX2, i);
    CopyFieldBit(r3, reply, NUM_OF_OBJ1, i);
    CopyFieldBit(r4, reply, NUM_OF_OBJ2, i);
    CopyFieldBit(r5, reply, MORE_DUMP, i);
    CopyFieldBit(r6, reply, DEVICE_OPAQUE, i);
  }

  // Only the last reply matters: earlier cursors leave no trace.
  lemma EchoForgets(request: Buffer, reply: Buffer, reply': Buffer)
    requires |request| == |reply| == |reply'| == DUMP_BYTES
    ensures Echo(Echo(request, reply), reply') == Echo(request, reply')
  {
    hide Echo, BufferBit;
    forall i: nat | i < 8 * DUMP_BYTES
      ensures BufferBit(Echo(Echo(request, reply), reply'), i) <==> BufferBit(Echo(request, reply'), i)
    {
      EchoBit(request, reply, i);
      EchoBit(Echo(request, reply), reply', i);
      EchoBit(request, reply', i);
    }
    SameBufferBits(Echo(Echo(request, reply), reply'), Echo(request, reply'));
  }

  predicate Agree(s: Buffer, t: Buffer, f: Field)
    requires Valid(f, |s|) && |s| == |t|
  {
    hide Get;
    Get(s, f) == Get(t, f)
  }

  // The cursor: the fields a device may use to find its place again.
  ghost predicate SameCursor(s: Buffer, t: Buffer)
    requires |s| == |t| == DUMP_BYTES
  {
    hide Agree;
    && Agree(s, t, SEQ_NUM) && Agree(s, t, INDEX1) && Agree(s, t, INDEX2)
    && Agree(s, t, NUM_OF_OBJ1) && Agree(s, t, NUM_OF_OBJ2)
    && Agree(s, t, MORE_DUMP) && Agree(s, t, DEVICE_OPAQUE)
  }

  // What the caller asked for.
  predicate SameQuery(s: Buffer, t: Buffer)
    requires |s| == |t| == DUMP_BYTES
  {
    hide Agree;
    && Agree(s, t, SEGMENT_TYPE) && Agree(s, t, VHCA_ID) && Agree(s, t, INLINE_DUMP)
    && Agree(s, t, MKEY) && Agree(s, t, ADDRESS) && Agree(s, t, SIZE)
  }

  lemma EchoedField(request: Buffer, reply: Buffer, f: Field)
    requires |request| == |reply| == DUMP_BYTES && Valid(f, DUMP_BYTES)
    requires forall i: nat :: f.Covers(i) ==> Echoed(i)
    ensures Agree(Echo(request, reply), reply, f)
  {
    hide Echo, BufferBit, ReadBits;
    var r := Echo(request, reply);
    forall i: nat | f.Covers(i) ensures BufferBit(r, i) <==> BufferBit(reply, i)
    {
      EchoBit(request, reply, i);
    }
    ReadSame(r, reply, f.off, f.width);
  }

  lemma KeptField(request: Buffer, reply: Buffer, f: Field)
    requires |request| == |reply| == DUMP_BYTES && Valid(f, DUMP_BYTES)
    requires forall i: nat :: f.Covers(i) ==> !Echoed(i)
    ensures Agree(Echo(request, reply), request, f)
  {
    hide Echo, BufferBit, ReadBits;
    var r := Echo(request, reply);
    forall i: nat | f.Covers(i) ensures BufferBit(r, i) <==> BufferBit(request, i)
    {
      EchoBit(request, reply, i);
    }
    ReadSame(r, request, f.off, f.width);
  }

  // The protocol's rule: cursor from the reply, query from the request.
  lemma EchoRule(request: Buffer, reply: Buffer)
    requires |request| == |reply| == DUMP_BYTES
    ensures SameCursor(Echo(request, reply), reply)
    ensures SameQuery(Echo(request, reply), request)
  {
    hide Echo, Agree;
    EchoedField(request, reply, SEQ_NUM);
    EchoedField(request, reply, INDEX1);
    EchoedField(request, reply, INDEX2);
    EchoedField(request, reply, NUM_OF_OBJ1);
    EchoedField(request, reply, NUM_OF_OBJ2);
    EchoedField(request, reply, MORE_DUMP);
    EchoedField(request, reply, DEVICE_OPAQUE);
    KeptField(request, reply, SEGMENT_TYPE);
    KeptField(request, reply, VHCA_ID);
    KeptField(request, reply, INLINE_DUMP);
    KeptField(request, reply, MKEY);
    KeptField(request, reply, ADDRESS);
    KeptField(request, reply, SIZE);
  }
}
