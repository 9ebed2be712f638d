/** The two collectors of rscdump.c, on buffers in memory. Each runs its state
    machine of module ResourceDump to the end: the request and reply registers,
    the collected bytes, the buffer's size and the device agree with the machine
    at every step. */
module Collectors {
  import opened Codec
  import opened FieldLaws
  import opened Layouts
  import opened Machine
  import opened ResourceDump
  import opened Mlx5Lib

  function Contents(a: array?<byte>): (s: Buffer)
    reads a
  {
    if a == null then [] else a[..]
  }

  method FillInline(input: array<byte>, args: Args)
    requires input[..] == Zeros(DUMP_BYTES)
    modifies input
    ensures input[..] == InlineRequest(args)
  {
    hide Put, CommonRequest;
    FillCommon(input, args);
    Write(input, INLINE_DUMP, 1);
  }

  method FillUmem(input: array<byte>, args: Args, mkey: nat, addr: nat, size: int)
    requires input[..] == Zeros(DUMP_BYTES)
    modifies input
    ensures input[..] == UmemRequest(args, mkey, addr, size)
  {
    hide Put, CommonRequest;
    FillCommon(input, args);
    Write(input, INLINE_DUMP, 0);
    Write(input, MKEY, mkey);
    Write(input, ADDRESS, addr);
    Write(input, SIZE, size);
  }

  // realloc: a larger block with the old contents in front
  method Grow(data: array<byte>, size: nat) returns (bigger: array<byte>)
    requires data.Length <= size
    ensures fresh(bigger) && bigger.Length == size
    ensures bigger[..data.Length] == data[..]
  {
    bigger := new byte[size];
    Store(bigger, 0, data[..]);
  }

  // memcpy(data + total, chunk, |chunk|)
  method Append(data: array<byte>, total: nat, chunk: Buffer)
    requires total + |chunk| <= data.Length
    modifies data
    ensures data[..total + |chunk|] == old(data[..total]) + chunk
  {
    Store(data, total, chunk);
  }

  // The buffers hold what the state of the machine says.
  ghost predicate InStep(s: Run, host: Host, input: array<byte>, output: array<byte>,
                         data: array<byte>, total: nat)
    reads host, input, output, data, host.window
  {
    && s.Valid()
    && host.world == s.w
    && input[..] == s.request && output[..] == s.reply
    && Contents(host.window) == s.window
    && total == |s.data| <= data.Length && data[..total] == s.data
  }

  // rscdump_collect. junk stands for what malloc left in the first total0 bytes; p is
  // the address of data.
  method CollectInline(host: Host, args: Args, total0: nat)
    returns (data: array?<byte>, p: nat, total: nat, status: Status, ghost junk: Buffer, ghost end: Run)
    requires host.window == null && total0 <= INT_MAX
    modifies host`world
    ensures |junk| == total0
    ensures host.env.grant(old(host.world.allocs)) == 0 ==>
              data == null && total == total0 && host.world == Allocated(host.env, old(host.world))
              && status == NoMemory
    ensures host.env.grant(old(host.world.allocs)) != 0 ==>
              && end == Inline(host.env, InlineStart(host.env, old(host.world), args, junk, []))
              && host.world == end.w && status == end.status && total == |end.data| && p == end.block
              && (data == null <==> status == DeviceError && total == 0)
              && (data != null ==> fresh(data) && data.Length == end.cap && total <= data.Length
                                   && data[..total] == end.data)
  {
    hide InlineStep, Inline, InlineRequest, Overlay, ReportedSize;
    var size := if total0 != 0 then total0 else FIRST_CAPACITY;
    total := total0;
    junk := Zeros(total0);
    status := NoMemory;
    ghost var w0 := host.world;
    end := InlineStart(host.env, w0, args, junk, []);
    p := host.Malloc();
    if p == 0 { return null, p, total, status, junk, end; }
    var block := new byte[size];
    junk := block[..total0];
    var input := new byte[DUMP_BYTES](_ => 0);
    var output := new byte[DUMP_BYTES](_ => 0);
    assert input[..] == Zeros(DUMP_BYTES) && output[..] == Zeros(DUMP_BYTES);
    FillInline(input, args);
    status := Running;
    ghost var start := InlineStart(host.env, w0, args, junk, []);
    ghost var s := start;
    while status == Running
      invariant fresh(block) && fresh(input) && fresh(output) && input != output
      invariant block != input && block != output
      invariant InStep(s, host, input, output, block, total)
      invariant block.Length == s.cap && p == s.block && status == s.status
      invariant Inline(host.env, start) == Inline(host.env, s)
      decreases s.Rounds(host.env)
    {
      StepProgress(host.env, s);
      block, p, total, status := InlineRound(host, input, output, block, p, total, s);
      InlineUnfolds(host.env, s);
      s := InlineStep(host.env, s);
    }
    InlineStops(host.env, s);
    end := s;
    data := if status == DeviceError && total == 0 then null else block;
  }

  // One pass through the loop body of rscdump_collect.
  method InlineRound(host: Host, input: array<byte>, output: array<byte>, data: array<byte>, p: nat, total: nat,
                     ghost s: Run)
    returns (data': array<byte>, p': nat, total': nat, status: Status)
    requires input != output && data != input && data != output && host.window == null
    requires InStep(s, host, input, output, data, total)
    requires data.Length == s.cap && p == s.block && s.status == Running
    modifies host`world, input, output, data
    ensures data' == data || fresh(data')
    ensures data' != input && data' != output
    ensures var t := InlineStep(host.env, s);
            && InStep(t, host, input, output, data', total')
            && data'.Length == t.cap && p' == t.block && status == t.status
  {
    hide Iterate, ReportedSize, Overlay, MakeRoom;
    data', p', total', status := data, p, total, Running;
    var code := DumpIter(host, input, output);
    if code < 0 { return data', p', total', DeviceError; }
    var n := ReportedSize(output[..]);
    ghost var s1 := s.Received(Iterate(host.env, s.w, s.request, s.reply));
    data', p', status := ReserveInline(host, data, p, total, n, s1);
    if status != Running { return data', p', total', status; }
    Append(data', total, output[INLINE_OFF..INLINE_OFF + n]);
    total' := total + n;
    status := if code > 0 then Running else Done;
  }

  method ReserveInline(host: Host, data: array<byte>, p: nat, total: nat, n: int, ghost s: Run)
    returns (data': array<byte>, p': nat, status: Status)
    requires host.world == s.w && data.Length == s.cap && p == s.block && s.status == Running
    requires total == |s.data| <= data.Length && data[..total] == s.data
    modifies host`world
    ensures data' == data || fresh(data')
    ensures var t := MakeRoom(host.env, s, n);
            && host.world == t.w && data'.Length == t.cap && p' == t.block && status == t.status
            && total <= data'.Length && data'[..total] == s.data && t.data == s.data
            && (status == Running ==> 0 <= n <= INLINE_MAX && total + n <= data'.Length)
  {
    data', p' := data, p;
    if total + n > INT_MAX { return data', p', Undefined; }
    if total + n > data.Length {
      if 2 * data.Length > INT_MAX { return data', p', Undefined; }
      var bigger := host.Realloc(p);
      if bigger == 0 { return data', p', NoMemory; }
      p' := bigger;
      data' := Grow(data, 2 * data.Length);
      assert data'[..total] == data'[..data.Length][..total];
    }
    status := if 0 <= n <= INLINE_MAX && total + n <= data'.Length then Running else Undefined;
  }

  // rscdump_collect_umem. The temporary buffer starts with unknown contents.
  method CollectUmem(host: Host, args: Args, ub: UmemBuff)
    returns (data: array?<byte>, status: Status, ghost end: Run)
    requires host.window == ub.buff
    modifies host`world, ub.buff
    ensures host.window == ub.buff
    ensures host.env.grant(old(host.world.allocs)) == 0 ==>
              data == null && host.world == Allocated(host.env, old(host.world)) && status == NoMemory
    ensures host.env.grant(old(host.world.allocs)) != 0 ==>
              && end == Umem(host.env, UmemStart(host.env, old(host.world), args, ub.mkey, ub.addr, ub.size,
                                                 old(ub.buff[..])))
              && host.world == end.w && status == end.status && |end.data| <= TEMP_BYTES
              && (data == null <==> status == DeviceError && end.data == [])
              && (data != null ==> fresh(data) && data.Length == TEMP_BYTES
                                   && data[..|end.data|] == end.data)
  {
    hide UmemStep, Umem, UmemRequest, Overlay, ReportedSize;
    ghost var w0 := host.world;
    ghost var start := UmemStart(host.env, w0, args, ub.mkey, ub.addr, ub.size, ub.buff[..]);
    end := start;
    var remain := ToInt32(ToU32(ub.size));
    var p := host.Malloc();
    if p == 0 { return null, NoMemory, end; }
    var block := new byte[TEMP_BYTES];
    var input := new byte[DUMP_BYTES](_ => 0);
    var output := new byte[DUMP_BYTES](_ => 0);
    assert input[..] == Zeros(DUMP_BYTES) && output[..] == Zeros(DUMP_BYTES);
    FillUmem(input, args, ub.mkey, ub.addr, remain);
    var total := 0;
    status := Running;
    ghost var s := start;
    while status == Running
      invariant fresh(block) && fresh(input) && fresh(output) && input != output
      invariant block != input && block != output && host.window == ub.buff == old(ub.buff)
      invariant InStep(s, host, input, output, block, total)
      invariant block.Length == TEMP_BYTES && remain == s.remain && status == s.status
      invariant Umem(host.env, start) == Umem(host.env, s)
      decreases s.Rounds(host.env)
    {
      StepProgress(host.env, s);
      total, remain, status := UmemRound(host, input, output, block, total, remain, ub.buff, s);
      UmemUnfolds(host.env, s);
      s := UmemStep(host.env, s);
    }
    UmemStops(host.env, s);
    end := s;
    data := if status == DeviceError && total == 0 then null else block;
  }

  lemma UmemUnfolds(env: Env, s: Run)
    requires s.Valid() && s.status == Running
    ensures Umem(env, s) == Umem(env, UmemStep(env, s))
  {
    hide UmemStep;
  }

  lemma UmemStops(env: Env, s: Run)
    requires s.Valid() && s.status != Running
    ensures Umem(env, s) == s
  {
  }

  // One pass through the loop body of rscdump_collect_umem.
  method UmemRound(host: Host, input: array<byte>, output: array<byte>, data: array<byte>, total: nat,
                   remain: int, window: array<byte>, ghost s: Run)
    returns (total': nat, remain': int, status: Status)
    requires input != output && data != input && data != output
    requires host.window == window && window != data && window != input && window != output
    requires InStep(s, host, input, output, data, total)
    requires data.Length == TEMP_BYTES && s.status == Running && remain == s.remain
    modifies host`world, input, output, data, window
    ensures var t := UmemStep(host.env, s);
            && InStep(t, host, input, output, data, total')
            && remain' == t.remain && status == t.status
  {
    hide Iterate, ReportedSize, Overlay;
    total', remain', status := total, remain, Running;
    var code := DumpIter(host, input, output);
    if code < 0 { return total', remain', DeviceError; }
    var n := ReportedSize(output[..]);
    if n < remain' { remain' := remain' - n; }
    if !(0 <= n <= window.Length && total + n <= TEMP_BYTES) { return total', remain', Undefined; }
    Append(data, total, window[..n]);
    total' := total + n;
    status := if remain' == 0 then Full else if code > 0 then Running else Done;
  }
}
