/** The resource-dump protocol of rscdump.c: one request/reply round, and the two
    collectors built on it. Each collector is a method on buffers in memory,
    proved to run the step function of a state machine until it stops. */
module ResourceDump {
  import opened Codec
  import opened FieldLaws
  import opened Layouts
  import opened Machine
  import opened Register

  const REG_RESOURCE_DUMP := 0xC000
  const REPLY_BYTES: nat := REG_HEAD_BYTES + DUMP_BYTES
  const FIRST_CAPACITY := 4069
  const TEMP_BYTES: nat := 1024 * 1024

  /* ---- one round: mlx5_rsc_dump_iter ---- */

  // cpy_out2in(fld)
  function CopyField(request: Buffer, reply: Buffer, f: Field): (r: Buffer)
    requires |request| == |reply| && Valid(f, |request|)
    ensures |r| == |request|
  {
    hide Get, Put;
    Put(request, f, Get(reply, f))
  }

  // The next request: this one, with the cursor fields of the reply.
  function Echo(request: Buffer, reply: Buffer): (r: Buffer)
    requires |request| == |reply| == DUMP_BYTES
    ensures |r| == DUMP_BYTES
  {
    hide CopyField;
    var r1 := CopyField(request, reply, SEQ_NUM);
    var r2 := CopyField(r1, reply, INDEX1);
    var r3 := CopyField(r2, reply, INDEX2);
    var r4 := CopyField(r3, reply, NUM_OF_OBJ1);
    var r5 := CopyField(r4, reply, NUM_OF_OBJ2);
    var r6 := CopyField(r5, reply, MORE_DUMP);
    CopyField(r6, reply, DEVICE_OPAQUE)
  }

  predicate HasMore(reply: Buffer)
    requires |reply| == DUMP_BYTES
  {
    hide Get;
    Get(reply, MORE_DUMP) != 0
  }

  // A reply starts a new count, or continues the one of the request.
  predicate InSequence(request: Buffer, reply: Buffer)
    requires |request| == |reply| == DUMP_BYTES
  {
    hide Get;
    Get(reply, SEQ_NUM) == 0 || Get(reply, SEQ_NUM) == Get(request, SEQ_NUM) + 1
  }

  datatype Round = Round(w: World, code: int, request: Buffer, reply: Buffer, dma: Buffer)

  function Iterate(env: Env, w: World, request: Buffer, reply: Buffer): (r: Round)
    requires |request| == |reply| == DUMP_BYTES
    ensures |r.request| == |r.reply| == DUMP_BYTES
  {
    hide AccessReg, Echo, HasMore, InSequence;
    var a := AccessReg(env, w, request, reply, REG_RESOURCE_DUMP, 0, 0);
    if a.err != 0 then Round(a.w, -EIO, request, a.data, a.dma)
    else if !InSequence(request, a.data) then Round(a.w, -EREMOTEIO, request, a.data, a.dma)
    else if HasMore(a.data) then Round(a.w, 1, Echo(request, a.data), a.data, a.dma)
    else Round(a.w, 0, request, a.data, a.dma)
  }

  function Question(request: Buffer): Event {
    Command(Frame(request, REG_RESOURCE_DUMP, 0, 0))
  }

  // What a round does: the device is asked at most once, and is asked exactly
  // the request; the reply is accepted if and only if it is in sequence; only
  // an accepted reply with more to come changes the request.
  ghost predicate RoundMeaning(env: Env, w: World, request: Buffer, reply: Buffer, r: Round)
    requires |request| == |r.request| == |r.reply| == DUMP_BYTES
  {
    hide Question, Raw, Overlay, Echo, InSequence, HasMore, Answered;
    var log := w.dev.log + [Question(request)];
    && r.w.dev in {w.dev, w.dev.(log := log)}
    && Settled(w.heap, r.w.heap) && r.w.allocs == w.allocs + 2
    && r.code in {-5, -121, 0, 1}
    && (r.code == -5 ==> r.reply == reply)
    && (r.code != -5 <==>
          && env.grant(w.allocs) != 0 && env.grant(w.allocs + 1) != 0
          && Answered(env, log, REG_HEAD_BYTES + DUMP_BYTES))
    && (r.code != -5 ==>
          && r.w.dev.log == log && |log| <= env.lifetime
          && r.reply == Overlay(Zeros(REG_HEAD_BYTES + DUMP_BYTES), Raw(env, log).out)[REG_HEAD_BYTES..]
          && r.dma == Raw(env, log).dma
          && (r.code >= 0 <==> InSequence(request, r.reply)))
    && (r.code >= 0 ==> (r.code == 1 <==> HasMore(r.reply)))
    && r.request == if r.code == 1 then Echo(request, r.reply) else request
  }

  lemma IterateMeaning(env: Env, w: World, request: Buffer, reply: Buffer)
    requires |request| == |reply| == DUMP_BYTES
    ensures RoundMeaning(env, w, request, reply, Iterate(env, w, request, reply))
  {
    hide AccessReg, Echo, HasMore, InSequence, Frame, Raw, Overlay, IsRequest, Answered;
    AccessRegMeaning(env, w, request, reply, REG_RESOURCE_DUMP, 0, 0);
  }

  lemma RoundIsAsked(env: Env, w: World, request: Buffer, reply: Buffer)
    requires |request| == |reply| == DUMP_BYTES
    ensures var r := Iterate(env, w, request, reply);
            r.code >= 0 ==> |r.w.dev.log| == |w.dev.log| + 1 <= env.lifetime
  {
    hide Iterate, Question, Raw, Overlay, Echo, InSequence, HasMore, Answered;
    IterateMeaning(env, w, request, reply);
  }

  method DumpIter(host: Host, input: array<byte>, output: array<byte>) returns (code: int)
    requires input != output && input.Length == output.Length == DUMP_BYTES
    requires host.window != input && host.window != output
    modifies host`world, input, output, host.window
    ensures var r := Iterate(host.env, old(host.world), old(input[..]), old(output[..]));
            && host.world == r.w
            && code == r.code
            && input[..] == r.request
            && output[..] == r.reply
            && (host.window != null ==> host.window[..] == Overlay(old(host.window[..]), r.dma))
  {
    hide AccessReg, Get, Put, Overlay;
    var err := AccessRegister(host, input, output, REG_RESOURCE_DUMP, 0, 0);
    if err != 0 { return -EIO; }
    var inSeq, outSeq := Load(input[..], SEQ_NUM), Load(output[..], SEQ_NUM);
    if outSeq != 0 && inSeq + 1 != outSeq { return -EREMOTEIO; }
    if Load(output[..], MORE_DUMP) != 0 {
      EchoInPlace(input, output);
      return 1;
    }
    return 0;
  }

  method CopyOutToIn(input: array<byte>, output: array<byte>, f: Field)
    requires input != output && input.Length == output.Length && Accessible(f, input.Length)
    modifies input
    ensures Valid(f, input.Length) && input[..] == CopyField(old(input[..]), output[..], f)
  {
    hide Get, Put;
    Write(input, f, Load(output[..], f));
  }

  method EchoInPlace(input: array<byte>, output: array<byte>)
    requires input != output && input.Length == output.Length == DUMP_BYTES
    modifies input
    ensures input[..] == Echo(old(input[..]), output[..])
  {
    hide CopyField;
    CopyOutToIn(input, output, SEQ_NUM);
    CopyOutToIn(input, output, INDEX1);
    CopyOutToIn(input, output, INDEX2);
    CopyOutToIn(input, output, NUM_OF_OBJ1);
    CopyOutToIn(input, output, NUM_OF_OBJ2);
    CopyOutToIn(input, output, MORE_DUMP);
    CopyOutToIn(input, output, DEVICE_OPAQUE);
  }

  /* ---- the initial requests ---- */

  datatype Args = Args(ty: int, index1: int, index2: int, vhca: int)

  function CommonRequest(args: Args): (r: Buffer)
    ensures |r| == DUMP_BYTES
  {
    hide Put;
    var r0 := Zeros(DUMP_BYTES);
    var r1 := Put(r0, SEGMENT_TYPE, args.ty);
    var r2 := Put(r1, INDEX1, args.index1);
    var r3 := Put(r2, INDEX2, args.index2);
    Put(r3, VHCA_ID, args.vhca)
  }

  function InlineRequest(args: Args): (r: Buffer)
    ensures |r| == DUMP_BYTES
  {
    hide Put, CommonRequest;
    Put(CommonRequest(args), INLINE_DUMP, 1)
  }

  function UmemRequest(args: Args, mkey: nat, addr: nat, size: int): (r: Buffer)
    ensures |r| == DUMP_BYTES
  {
    hide Put, CommonRequest;
    var r1 := Put(CommonRequest(args), INLINE_DUMP, 0);
    var r2 := Put(r1, MKEY, mkey);
    var r3 := Put(r2, ADDRESS, addr);
    Put(r3, SIZE, size)
  }

  method FillCommon(input: array<byte>, args: Args)
    requires input[..] == Zeros(DUMP_BYTES)
    modifies input
    ensures input[..] == CommonRequest(args)
  {
    hide Put;
    Write(input, SEGMENT_TYPE, args.ty);
    Write(input, INDEX1, args.index1);
    Write(input, INDEX2, args.index2);
    Write(input, VHCA_ID, args.vhca);
  }

  /* ---- the state of a collector ---- */

  // Undefined: the C code would overflow an int or copy past a buffer.
  datatype Status = Running | Done | Full | DeviceError | NoMemory | Undefined

  // One accepted round whose bytes were kept.
  datatype Exchange = Exchange(request: Buffer, reply: Buffer, chunk: Buffer)

  // block is the address of the collector's memory, cap the inline buffer's size,
  // remain the umem collector's counter.
  datatype Run = Run(w: World, request: Buffer, reply: Buffer, window: Buffer, data: Buffer,
                     trace: seq<Exchange>, block: nat, cap: nat, remain: int, status: Status)
  {
    predicate Valid() { |request| == |reply| == DUMP_BYTES }

    function Received(r: Round): Run {
      this.(w := r.w, request := r.request, reply := r.reply, window := Overlay(window, r.dma))
    }

    function Kept(sent: Buffer, chunk: Buffer, more: bool): Run {
      this.(data := data + chunk, trace := trace + [Exchange(sent, reply, chunk)],
            status := if more then Running else Done)
    }

    // How many more questions the device will answer, and one.
    function Rounds(env: Env): nat {
      if status != Running then 0
      else if |w.dev.log| < env.lifetime then env.lifetime - |w.dev.log| + 1
      else 1
    }
  }

  function ReportedSize(reply: Buffer): (n: int)
    requires |reply| == DUMP_BYTES
    ensures n <= INT_MAX
  {
    hide Get, Bits.Pow2;
    GetBound(reply, SIZE);
    Bits.PowersOfTwo();
    ToInt32(Get(reply, SIZE))
  }

  /** What the client reads of a reply, field by field: the size is the 32-bit field as
      a signed int, the reply has more to come if its first bit is set, and it is in
      sequence if its number is 0 or the request's and one. */
  lemma ReplyRead(request: Buffer, reply: Buffer)
    requires |request| == |reply| == DUMP_BYTES
    ensures var size := Get(reply, Field(288, 32));
            size < 0x1_0000_0000 && ReportedSize(reply) == if size < 0x8000_0000 then size else size - 0x1_0000_0000
    ensures HasMore(reply) <==> Get(reply, Field(0, 1)) == 1
    ensures InSequence(request, reply) <==>
              Get(reply, Field(12, 4)) == 0 || Get(reply, Field(12, 4)) == Get(request, Field(12, 4)) + 1
  {
    hide Get, Bits.Pow2;
    GetBound(reply, MORE_DUMP);
    GetBound(reply, SIZE);
    Bits.PowersOfTwo();
  }

  /* ---- inline collector ---- */

  // Room for n more bytes: realloc to twice the size when they do not fit.
  // n was read as an int, so it may also be negative.
  function MakeRoom(env: Env, s: Run, n: int): (t: Run)
    ensures t == s.(w := s.w.(allocs := t.w.allocs, heap := t.w.heap), block := t.block, cap := t.cap,
                    status := t.status)
    ensures t.status in {s.status, NoMemory, Undefined}
    ensures t.status == Running ==> 0 <= n <= INLINE_MAX && |s.data| + n <= t.cap
  {
    if |s.data| + n > INT_MAX then s.(status := Undefined)
    else
      var grow := |s.data| + n > s.cap;
      if grow && 2 * s.cap > INT_MAX then s.(status := Undefined)
      else
        var w := if grow then Reallocated(env, s.w, s.block) else s.w;
        if grow && env.grant(s.w.allocs) == 0 then s.(w := w, status := NoMemory)
        else
          var cap := if grow then 2 * s.cap else s.cap;
          s.(w := w, cap := cap, block := if grow then env.grant(s.w.allocs) else s.block,
             status := if 0 <= n <= INLINE_MAX && |s.data| + n <= cap then s.status else Undefined)
  }

  function InlineStep(env: Env, s: Run): (t: Run)
    requires s.Valid() && s.status == Running
    ensures t.Valid()
  {
    hide Iterate, ReportedSize, MakeRoom;
    var r := Iterate(env, s.w, s.request, s.reply);
    var s1 := s.Received(r);
    if r.code < 0 then s1.(status := DeviceError)
    else
      var n := ReportedSize(r.reply);
      var s2 := MakeRoom(env, s1, n);
      if s2.status != Running then s2
      else s2.Kept(s.request, r.reply[INLINE_OFF..INLINE_OFF + n], r.code > 0)
  }

  lemma StepProgress(env: Env, s: Run)
    requires s.Valid() && s.status == Running
    ensures InlineStep(env, s).Rounds(env) < s.Rounds(env)
    ensures UmemStep(env, s).Rounds(env) < s.Rounds(env)
  {
    hide ReportedSize, Iterate, RoundMeaning;
    IterateMeaning(env, s.w, s.request, s.reply);
    RoundIsAsked(env, s.w, s.request, s.reply);
  }

  function Inline(env: Env, s: Run): (t: Run)
    requires s.Valid()
    ensures t.Valid() && t.status != Running
    decreases s.Rounds(env)
  {
    hide InlineStep;
    if s.status != Running then s
    else
      StepProgress(env, s);
      Inline(env, InlineStep(env, s))
  }

  lemma InlineUnfolds(env: Env, s: Run)
    requires s.Valid() && s.status == Running
    ensures Inline(env, s) == Inline(env, InlineStep(env, s))
  {
    hide InlineStep;
  }

  lemma InlineStops(env: Env, s: Run)
    requires s.Valid() && s.status != Running
    ensures Inline(env, s) == s
  {
  }

  function InlineStart(env: Env, w: World, args: Args, junk: Buffer, window: Buffer): (s: Run)
    ensures s.Valid()
  {
    Run(Allocated(env, w), InlineRequest(args), Zeros(DUMP_BYTES), window, junk, [], env.grant(w.allocs),
        if junk == [] then FIRST_CAPACITY else |junk|, 0, Running)
  }

  /* ---- umem collector ---- */

  function UmemStep(env: Env, s: Run): (t: Run)
    requires s.Valid() && s.status == Running
    ensures t.Valid()
  {
    hide Iterate, ReportedSize;
    var r := Iterate(env, s.w, s.request, s.reply);
    var s1 := s.Received(r);
    if r.code < 0 then s1.(status := DeviceError)
    else
      var n := ReportedSize(r.reply);
      var s2 := if n < s.remain then s1.(remain := s.remain - n) else s1;
      if !(0 <= n <= |s1.window| && |s.data| + n <= TEMP_BYTES) then s2.(status := Undefined)
      else
        var s3 := s2.Kept(s.request, s1.window[..n], r.code > 0);
        if s3.remain == 0 then s3.(status := Full) else s3
  }

  function Umem(env: Env, s: Run): (t: Run)
    requires s.Valid()
    ensures t.Valid() && t.status != Running
    decreases s.Rounds(env)
  {
    hide UmemStep;
    if s.status != Running then s
    else
      StepProgress(env, s);
      Umem(env, UmemStep(env, s))
  }

  function UmemStart(env: Env, w: World, args: Args, mkey: nat, addr: nat, size: nat, window: Buffer): (s: Run)
    ensures s.Valid()
  {
    var remain := ToInt32(ToU32(size));
    Run(Allocated(env, w), UmemRequest(args, mkey, addr, remain), Zeros(DUMP_BYTES), window, [], [],
        env.grant(w.allocs), 0, remain, Running)
  }
}
