/** Diagnostic parameters (diag_cnt.c): a frame of variable length, written over
    whatever malloc left, and read back by the query. */
module DiagCnt {
  import opened Bits
  import opened Codec
  import opened FieldLaws
  import opened Layouts
  import opened Machine

  const HEAD_BYTES := DIAG_CONTEXT_OFF + DIAG_CONTEXT_BYTES
  const OP_QUERY_DIAGNOSTIC_PARAMS := 0x819

  // struct set_diag_params; num_of_counters is the length of counters.
  datatype Params = Params(logNumOfSamples: int, single: nat, repetitive: nat, sync: nat, clear: nat,
                           onDemand: nat, enable: nat, logSamplePeriod: int, counters: seq<nat>)

  function Context(f: Field): Field { f.At(DIAG_CONTEXT_OFF) }

  // Counter i is at byte 32 + 4i of the frame.
  function CounterField(i: nat): Field { COUNTER_ID.At(HEAD_BYTES + COUNTER_BYTES * i) }

  /* ---- the frame ---- */

  function PutModes(f: Buffer, p: Params): (r: Buffer)
    requires |f| >= HEAD_BYTES
    ensures |r| == |f|
  {
    hide Put;
    var f1 := Put(f, Context(DIAG_LOG_NUM_OF_SAMPLES), p.logNumOfSamples);
    var f2 := Put(f1, Context(DIAG_SINGLE), p.single);
    var f3 := Put(f2, Context(DIAG_REPETITIVE), p.repetitive);
    var f4 := Put(f3, Context(DIAG_SYNC), p.sync);
    Put(f4, Context(DIAG_CLEAR), p.clear)
  }

  function PutRates(f: Buffer, p: Params): (r: Buffer)
    requires |f| >= HEAD_BYTES
    ensures |r| == |f|
  {
    hide Put;
    var f1 := Put(f, Context(DIAG_ON_DEMAND), p.onDemand);
    var f2 := Put(f1, Context(DIAG_ENABLE), p.enable);
    var f3 := Put(f2, Context(DIAG_LOG_SAMPLE_PERIOD), p.logSamplePeriod);
    Put(f3, Context(DIAG_NUM_OF_COUNTERS), |p.counters|)
  }

  function PutCounter(f: Buffer, counters: seq<nat>, i: nat): (r: Buffer)
    requires i < |counters| && |f| == HEAD_BYTES + COUNTER_BYTES * |counters|
    ensures |r| == |f|
  {
    hide Put;
    Put(f, CounterField(i), counters[i])
  }

  function PutCounters(f: Buffer, counters: seq<nat>, n: nat): (r: Buffer)
    requires n <= |counters| && |f| == HEAD_BYTES + COUNTER_BYTES * |counters|
    ensures |r| == |f|
  {
    hide PutCounter;
    if n == 0 then f else PutCounter(PutCounters(f, counters, n - 1), counters, n - 1)
  }

  // The set frame, over the block malloc returned.
  function SetFrame(block: Buffer, p: Params): (r: Buffer)
    requires |block| == HEAD_BYTES + COUNTER_BYTES * |p.counters|
    ensures |r| == |block|
  {
    hide Put, PutModes, PutRates, PutCounters;
    PutCounters(PutRates(PutModes(Put(block, OPCODE, OP_SET_DIAGNOSTIC_PARAMS), p), p), p.counters, |p.counters|)
  }

  method SetParam(host: Host, p: Params) returns (err: int, ghost block: Buffer)
    modifies host`world, host.window
    ensures host.env.grant(old(host.world.allocs)) == 0 ==>
              err == 12 && host.world == Allocated(host.env, old(host.world))
    ensures host.env.grant(old(host.world.allocs)) != 0 ==>
              && |block| == HEAD_BYTES + COUNTER_BYTES * |p.counters|
              && var x := Perform(host.env, old(host.world.dev), Machine.Command(SetFrame(block, p)), Zeros(16));
                 err == x.err && host.world.dev == x.dev
    ensures Settled(old(host.world.heap), host.world.heap)
  {
    hide Put, Perform, PutModes, PutRates, Settled;
    var size := HEAD_BYTES + COUNTER_BYTES * |p.counters|;
    block := Zeros(size);
    var ptr := host.Malloc();
    TakeDrop(old(host.world.heap), ptr);
    if ptr == 0 { return ENOMEM, block; }
    var frame := new byte[size];
    block := frame[..];
    Write(frame, OPCODE, OP_SET_DIAGNOSTIC_PARAMS);
    FillContext(frame, p);
    ghost var head, w1 := frame[..], host.world;
    for i := 0 to |p.counters|
      invariant host.world == w1
      invariant frame[..] == PutCounters(head, p.counters, i)
    {
      Write(frame, CounterField(i), p.counters[i]);
    }
    var out := new byte[16](_ => 0);
    assert out[..] == Zeros(16);
    err := host.Cmd(frame, out);
    host.Free(ptr);
  }

  method FillContext(frame: array<byte>, p: Params)
    requires frame.Length >= HEAD_BYTES
    modifies frame
    ensures frame[..] == PutRates(PutModes(old(frame[..]), p), p)
  {
    hide Put;
    Write(frame, Context(DIAG_LOG_NUM_OF_SAMPLES), p.logNumOfSamples);
    Write(frame, Context(DIAG_SINGLE), p.single);
    Write(frame, Context(DIAG_REPETITIVE), p.repetitive);
    Write(frame, Context(DIAG_SYNC), p.sync);
    Write(frame, Context(DIAG_CLEAR), p.clear);
    Write(frame, Context(DIAG_ON_DEMAND), p.onDemand);
    Write(frame, Context(DIAG_ENABLE), p.enable);
    Write(frame, Context(DIAG_LOG_SAMPLE_PERIOD), p.logSamplePeriod);
    Write(frame, Context(DIAG_NUM_OF_COUNTERS), |p.counters|);
  }

  /* ---- what the query reads ---- */

  datatype View = View(sync: nat, clear: nat, enable: nat, single: nat, repetitive: nat, onDemand: nat,
                       logNumOfSamples: nat, logSamplePeriod: nat, counters: seq<nat>)

  function CountersOf(f: Buffer, n: nat): (r: seq<nat>)
    requires n > 0 ==> HEAD_BYTES + COUNTER_BYTES * n <= |f|
    ensures |r| == n
  {
    hide Get;
    if n == 0 then [] else CountersOf(f, n - 1) + [Get(f, CounterField(n - 1))]
  }

  // The parameters lie in the first 16 bytes, up to byte 8 of the context.
  const PARAMS_END := 16

  function ViewOf(f: Buffer, n: nat): View
    requires PARAMS_END <= |f| && (n > 0 ==> HEAD_BYTES + COUNTER_BYTES * n <= |f|)
  {
    hide Get, CountersOf;
    View(Get(f, Context(DIAG_SYNC)), Get(f, Context(DIAG_CLEAR)), Get(f, Context(DIAG_ENABLE)),
         Get(f, Context(DIAG_SINGLE)), Get(f, Context(DIAG_REPETITIVE)), Get(f, Context(DIAG_ON_DEMAND)),
         Get(f, Context(DIAG_LOG_NUM_OF_SAMPLES)), Get(f, Context(DIAG_LOG_SAMPLE_PERIOD)), CountersOf(f, n))
  }

  function QueryFrame(): (f: Buffer)
    ensures |f| == 16
  {
    hide Put;
    Put(Zeros(16), OPCODE, OP_QUERY_DIAGNOSTIC_PARAMS)
  }

  // The reply buffer's size is computed in 16 bits; num_cnt may be negative.
  function QuerySize(n: int): nat { (HEAD_BYTES + COUNTER_BYTES * n) % 0x1_0000 }

  // The loop runs over the counters asked for, not at all if they are negative.
  function Asked(n: int): nat { if n < 0 then 0 else n }

  // The parameters and the counters are read inside the reply.
  predicate ReadsFit(n: int) {
    PARAMS_END <= QuerySize(n) && (n > 0 ==> HEAD_BYTES + COUNTER_BYTES * n <= QuerySize(n))
  }

  /** They are exactly up to 16375 counters; a negative number, for which no counter is
      read, only fails where the 16-bit size comes to less than 16. */
  lemma ReadsFitIff(n: int)
    ensures ReadsFit(n) <==> if n >= 0 then n <= 16375 else n % 0x4000 !in {16376, 16377, 16378, 16379}
    ensures 0 <= n <= 16375 ==> QuerySize(n) == HEAD_BYTES + COUNTER_BYTES * n
  {
    assert QuerySize(n) == COUNTER_BYTES * ((n + 8) % 0x4000) by {
      var q := (n + 8) / 0x4000;
      DivModUnique(HEAD_BYTES + COUNTER_BYTES * n, 0x1_0000, q, COUNTER_BYTES * ((n + 8) % 0x4000));
    }
  }

  // MLX5_GET of a field of the reply: ok is false when its dword is not inside.
  method ReadField(out: array<byte>, f: Field, before: bool) returns (ok: bool, v: nat)
    requires 1 <= f.width < 64 && f.off % 32 + f.width <= 32
    ensures ok <==> before && f.Dword() + 4 <= out.Length
    ensures ok ==> Valid(f, out.Length) && v == Get(out[..], f)
  {
    hide Get;
    ok, v := before && f.Dword() + 4 <= out.Length, 0;
    if ok { v := Load(out[..], f); }
  }

  // ok is false when a read would leave the reply buffer; block is what malloc left.
  method QueryParam(host: Host, n: int) returns (err: int, ok: bool, view: View, ghost block: Buffer)
    modifies host`world, host.window
    ensures host.env.grant(old(host.world.allocs)) == 0 ==>
              err == 12 && host.world == Allocated(host.env, old(host.world))
    ensures host.env.grant(old(host.world.allocs)) != 0 ==>
              && |block| == QuerySize(n)
              && var x := Perform(host.env, old(host.world.dev), Machine.Command(QueryFrame()), block);
                 && err == x.err && host.world.dev == x.dev
                 && (err == 0 ==> (ok <==> ReadsFit(n)) && (ok ==> view == ViewOf(x.out, Asked(n))))
    ensures if err == 0 then host.world.heap == Allocated(host.env, old(host.world)).heap
            else Settled(old(host.world.heap), host.world.heap)
  {
    hide Get, Put, Perform, ViewOf, Settled;
    view := View(0, 0, 0, 0, 0, 0, 0, 0, []);
    ok := true;
    block := [];
    var ptr := host.Malloc();
    TakeDrop(old(host.world.heap), ptr);
    if ptr == 0 { return ENOMEM, ok, view, block; }
    var input := new byte[16](_ => 0);
    assert input[..] == Zeros(16);
    var out := new byte[QuerySize(n)];
    block := out[..];
    Write(input, OPCODE, OP_QUERY_DIAGNOSTIC_PARAMS);
    err := host.Cmd(input, out);
    if err != 0 {
      host.Free(ptr);
      return err, ok, view, block;
    }
    ok, view := ReadView(out, n);
  }

  method ReadView(out: array<byte>, n: int) returns (ok: bool, view: View)
    ensures ok <==> PARAMS_END <= out.Length && (n > 0 ==> HEAD_BYTES + COUNTER_BYTES * n <= out.Length)
    ensures ok ==> view == ViewOf(out[..], Asked(n))
  {
    hide Get, CountersOf;
    var sync, clear, enable, single, repetitive, onDemand, samples, period;
    ok, sync := ReadField(out, Context(DIAG_SYNC), true);
    ok, clear := ReadField(out, Context(DIAG_CLEAR), ok);
    ok, enable := ReadField(out, Context(DIAG_ENABLE), ok);
    ok, single := ReadField(out, Context(DIAG_SINGLE), ok);
    ok, repetitive := ReadField(out, Context(DIAG_REPETITIVE), ok);
    ok, onDemand := ReadField(out, Context(DIAG_ON_DEMAND), ok);
    ok, samples := ReadField(out, Context(DIAG_LOG_NUM_OF_SAMPLES), ok);
    ok, period := ReadField(out, Context(DIAG_LOG_SAMPLE_PERIOD), ok);
    var counters;
    ok, counters := ReadCounters(out, n, ok);
    view := View(sync, clear, enable, single, repetitive, onDemand, samples, period, counters);
  }

  method ReadCounters(out: array<byte>, n: int, before: bool) returns (ok: bool, counters: seq<nat>)
    ensures ok <==> before && (n > 0 ==> HEAD_BYTES + COUNTER_BYTES * n <= out.Length)
    ensures ok ==> counters == CountersOf(out[..], Asked(n))
  {
    hide Get;
    ok, counters := before, [];
    var i := 0;
    while i < n
      invariant 0 <= i && (i > 0 ==> i <= n)
      invariant ok <==> before && (i > 0 ==> HEAD_BYTES + COUNTER_BYTES * i <= out.Length)
      invariant ok ==> counters == CountersOf(out[..], i)
    {
      var v;
      ok, v := ReadField(out, CounterField(i), ok);
      counters := counters + [v];
      i := i + 1;
    }
  }

  /* ---- round trip ---- */

  function Low16(counters: seq<nat>): (r: seq<nat>)
    ensures |r| == |counters|
    ensures forall i :: 0 <= i < |r| ==> r[i] == counters[i] % 0x1_0000
  {
    seq(|counters|, i requires 0 <= i < |counters| => counters[i] % 0x1_0000)
  }

  // The record as a device can hold it: each field cut to its width.
  function Cut(p: Params): View {
    View(p.sync % 2, p.clear % 2, p.enable % 2, p.single % 2, p.repetitive % 2, p.onDemand % 2,
         p.logNumOfSamples % 256, p.logSamplePeriod % 256, Low16(p.counters))
  }

  // The set command, and the modes of the record.
  ghost predicate HasModes(f: Buffer, p: Params)
    requires |f| >= HEAD_BYTES
  {
    hide Get;
    && Get(f, OPCODE) == 0x820
    && Get(f, Context(DIAG_LOG_NUM_OF_SAMPLES)) == p.logNumOfSamples % 256
    && Get(f, Context(DIAG_SINGLE)) == p.single % 2
    && Get(f, Context(DIAG_REPETITIVE)) == p.repetitive % 2
    && Get(f, Context(DIAG_SYNC)) == p.sync % 2
    && Get(f, Context(DIAG_CLEAR)) == p.clear % 2
  }

  ghost predicate HasRates(f: Buffer, p: Params)
    requires |f| >= HEAD_BYTES
  {
    hide Get;
    && Get(f, Context(DIAG_ON_DEMAND)) == p.onDemand % 2
    && Get(f, Context(DIAG_ENABLE)) == p.enable % 2
    && Get(f, Context(DIAG_LOG_SAMPLE_PERIOD)) == p.logSamplePeriod % 256
    && Get(f, Context(DIAG_NUM_OF_COUNTERS)) == |p.counters| % 0x1_0000
  }

  ghost predicate HasCounters(f: Buffer, counters: seq<nat>, n: nat)
    requires n <= |counters| && |f| == HEAD_BYTES + COUNTER_BYTES * |counters|
  {
    hide Get;
    forall i :: 0 <= i < n ==> Get(f, CounterField(i)) == counters[i] % 0x1_0000
  }

  lemma ModesWritten(f: Buffer, p: Params)
    requires |f| >= HEAD_BYTES && Get(f, OPCODE) == 0x820
    ensures HasModes(PutModes(f, p), p)
  {
    hide Get, Put, Pow2;
    PowersOfTwo();
    var f1 := Put(f, Context(DIAG_LOG_NUM_OF_SAMPLES), p.logNumOfSamples);
    var f2 := Put(f1, Context(DIAG_SINGLE), p.single);
    var f3 := Put(f2, Context(DIAG_REPETITIVE), p.repetitive);
    var f4 := Put(f3, Context(DIAG_SYNC), p.sync);
    PutFacts(f, Context(DIAG_LOG_NUM_OF_SAMPLES), p.logNumOfSamples);
    PutFacts(f1, Context(DIAG_SINGLE), p.single);
    PutFacts(f2, Context(DIAG_REPETITIVE), p.repetitive);
    PutFacts(f3, Context(DIAG_SYNC), p.sync);
    PutFacts(f4, Context(DIAG_CLEAR), p.clear);
  }

  lemma RatesWritten(f: Buffer, p: Params)
    requires |f| >= HEAD_BYTES && HasModes(f, p)
    ensures HasModes(PutRates(f, p), p) && HasRates(PutRates(f, p), p)
  {
    hide Get, Put, Pow2;
    PowersOfTwo();
    var f1 := Put(f, Context(DIAG_ON_DEMAND), p.onDemand);
    var f2 := Put(f1, Context(DIAG_ENABLE), p.enable);
    var f3 := Put(f2, Context(DIAG_LOG_SAMPLE_PERIOD), p.logSamplePeriod);
    PutFacts(f, Context(DIAG_ON_DEMAND), p.onDemand);
    PutFacts(f1, Context(DIAG_ENABLE), p.enable);
    PutFacts(f2, Context(DIAG_LOG_SAMPLE_PERIOD), p.logSamplePeriod);
    PutFacts(f3, Context(DIAG_NUM_OF_COUNTERS), |p.counters|);
  }

  // The frame holds the record and its first n counters.
  ghost predicate Holds(f: Buffer, p: Params, n: nat) {
    hide HasModes, HasRates, HasCounters;
    && n <= |p.counters| && |f| == HEAD_BYTES + COUNTER_BYTES * |p.counters|
    && HasModes(f, p) && HasRates(f, p) && HasCounters(f, p.counters, n)
  }

  lemma {:induction false} CountersWritten(f: Buffer, p: Params, n: nat)
    requires Holds(f, p, 0) && n <= |p.counters|
    ensures Holds(PutCounters(f, p.counters, n), p, n)
  {
    hide Holds, PutCounter;
    HoldsSize(f, p, 0);
    if n > 0 {
      CountersWritten(f, p, n - 1);
      CounterWritten(PutCounters(f, p.counters, n - 1), p, n - 1);
    }
  }

  lemma HoldsSize(f: Buffer, p: Params, n: nat)
    requires Holds(f, p, n)
    ensures |f| == HEAD_BYTES + COUNTER_BYTES * |p.counters|
  {
    hide HasModes, HasRates, HasCounters;
  }

  // Writing one counter keeps the record and the counters before it.
  lemma CounterWritten(f: Buffer, p: Params, n: nat)
    requires Holds(f, p, n) && n < |p.counters|
    ensures |f| == HEAD_BYTES + COUNTER_BYTES * |p.counters|
    ensures Holds(PutCounter(f, p.counters, n), p, n + 1)
  {
    hide Get, Put, Pow2;
    PowersOfTwo();
    PutFacts(f, CounterField(n), p.counters[n]);
  }

  lemma NoCountersYet(f: Buffer, p: Params)
    requires |f| == HEAD_BYTES + COUNTER_BYTES * |p.counters| && HasModes(f, p) && HasRates(f, p)
    ensures Holds(f, p, 0)
  {
    hide Get, HasModes, HasRates;
  }

  /** The frame is a SET_DIAGNOSTIC_PARAMS command and holds the whole record, whatever
      malloc had left in its block. */
  lemma SetFrameDecodes(block: Buffer, p: Params)
    requires |block| == HEAD_BYTES + COUNTER_BYTES * |p.counters|
    ensures Holds(SetFrame(block, p), p, |p.counters|)
  {
    hide Get, Put, PutModes, PutRates, PutCounters, HasModes, HasRates, Holds, Pow2;
    PowersOfTwo();
    var f := Put(block, OPCODE, OP_SET_DIAGNOSTIC_PARAMS);
    PutFacts(block, OPCODE, OP_SET_DIAGNOSTIC_PARAMS);
    ModesWritten(f, p);
    RatesWritten(PutModes(f, p), p);
    NoCountersYet(PutRates(PutModes(f, p), p), p);
    CountersWritten(PutRates(PutModes(f, p), p), p, |p.counters|);
  }

  lemma QueryFrameDecodes()
    ensures Get(QueryFrame(), OPCODE) == 0x819
  {
    hide Get, Put, Pow2;
    PowersOfTwo();
    PutFacts(Zeros(16), OPCODE, OP_QUERY_DIAGNOSTIC_PARAMS);
  }

  /** Neither command is about a handle: the device's books only gain their question. */
  lemma DiagMovesNoHandle(env: Env, dev: Device, block: Buffer, p: Params, out: Buffer)
    requires |block| == HEAD_BYTES + COUNTER_BYTES * |p.counters|
    ensures var f := SetFrame(block, p);
            && Get(f, OPCODE) == 0x820
            && Perform(env, dev, Machine.Command(f), out).dev == dev.(log := dev.log + [Machine.Command(f)])
    ensures var f := QueryFrame();
            && Get(f, OPCODE) == 0x819
            && Perform(env, dev, Machine.Command(f), out).dev == dev.(log := dev.log + [Machine.Command(f)])
  {
    hide Get, SetFrame, QueryFrame, HasRates, HasCounters, OpOf, Succeeds, HandleOf;
    SetFrameDecodes(block, p);
    QueryFrameDecodes();
    NoHandleCommand(SetFrame(block, p));
    NoHandleCommand(QueryFrame());
  }

  lemma NoHandleCommand(f: Buffer)
    requires |f| >= SHORT_FRAME_BYTES && Get(f, OPCODE) in {0x819, 0x820}
    ensures OpOf(Machine.Command(f)) == Other
  {
    hide Get;
  }

  lemma {:induction false} CountersRead(f: Buffer, counters: seq<nat>, n: nat)
    requires n <= |counters| && |f| == HEAD_BYTES + COUNTER_BYTES * |counters|
    requires HasCounters(f, counters, n)
    ensures CountersOf(f, n) == Low16(counters)[..n]
  {
    hide Get;
    if n > 0 { CountersRead(f, counters, n - 1); }
  }

  // Whatever the block held and however many counters there are, the query, given
  // the context as it was set, shows the record cut to its widths.
  lemma ContextRoundTrip(block: Buffer, p: Params, reply: Buffer)
    requires |block| == |reply| == HEAD_BYTES + COUNTER_BYTES * |p.counters|
    requires reply[DIAG_CONTEXT_OFF..] == SetFrame(block, p)[DIAG_CONTEXT_OFF..]
    ensures ViewOf(reply, |p.counters|) == Cut(p)
  {
    hide Get, SetFrame, Holds, ViewOf, CountersOf;
    var sent := SetFrame(block, p);
    SetFrameDecodes(block, p);
    ViewDecodes(sent, p);
    ViewsAgree(sent, reply, |p.counters|);
  }

  // If it accepts the set frame f after log, the device answers a query, asked right
  // then, with the context that f carried.
  ghost predicate Remembers(env: Env, log: seq<Event>, f: Buffer) {
    hide Answered, Raw, QueryFrame;
    Answered(env, log + [Machine.Command(f)], 16) ==>
      var out := Raw(env, log + [Machine.Command(f)] + [Machine.Command(QueryFrame())]).out;
      DIAG_CONTEXT_OFF <= |f| <= |out| && out[DIAG_CONTEXT_OFF..|f|] == f[DIAG_CONTEXT_OFF..]
  }

  /** Set, then query: from the device's two answers on, for any record of up to
      16375 counters and any contents of the two blocks, the query shows the record,
      every field and counter cut to its width. */
  lemma RoundTrip(env: Env, dev: Device, block: Buffer, p: Params, junk: Buffer)
    requires |p.counters| <= 16375 && |block| == HEAD_BYTES + COUNTER_BYTES * |p.counters|
    requires |junk| == QuerySize(|p.counters|) && Remembers(env, dev.log, SetFrame(block, p))
    ensures var x := Perform(env, dev, Machine.Command(SetFrame(block, p)), Zeros(16));
            var y := Perform(env, x.dev, Machine.Command(QueryFrame()), junk);
            x.err == 0 && y.err == 0 ==>
              HEAD_BYTES + COUNTER_BYTES * |p.counters| <= |y.out| && ViewOf(y.out, |p.counters|) == Cut(p)
  {
    hide SetFrame, QueryFrame, ViewOf, Answered, Raw, Get, Recorded, OpOf;
    ReadsFitIff(|p.counters|);
    var f := SetFrame(block, p);
    var x := Perform(env, dev, Machine.Command(f), Zeros(16));
    var y := Perform(env, x.dev, Machine.Command(QueryFrame()), junk);
    PerformAnswer(env, dev, f, 16);
    if x.err == 0 && y.err == 0 {
      var out := Raw(env, dev.log + [Machine.Command(f)] + [Machine.Command(QueryFrame())]).out;
      assert y.out[DIAG_CONTEXT_OFF..] == f[DIAG_CONTEXT_OFF..] by { OverlayTail(junk, out, f); }
      ContextRoundTrip(block, p, y.out);
    }
  }

  lemma OverlayTail(s: Buffer, bytes: Buffer, f: Buffer)
    requires |s| == |f| <= |bytes| && DIAG_CONTEXT_OFF <= |f|
    requires bytes[DIAG_CONTEXT_OFF..|f|] == f[DIAG_CONTEXT_OFF..]
    ensures Overlay(s, bytes)[DIAG_CONTEXT_OFF..] == f[DIAG_CONTEXT_OFF..]
  {
    assert Overlay(s, bytes) == bytes[..|f|];
  }

  // The two methods, one after the other, against a device that remembers this record.
  method SetThenQuery(host: Host, p: Params) returns (err: int, ok: bool, view: View)
    requires forall block: Buffer :: |block| == HEAD_BYTES + COUNTER_BYTES * |p.counters| ==>
               Remembers(host.env, host.world.dev.log, SetFrame(block, p))
    modifies host`world, host.window
    ensures err == 0 ==> (ok <==> |p.counters| <= 16375) && (ok ==> view == Cut(p))
  {
    hide Remembers, SetFrame, QueryFrame, Perform, ViewOf, Cut;
    ok, view := false, View(0, 0, 0, 0, 0, 0, 0, 0, []);
    ghost var dev := host.world.dev;
    ghost var block, junk;
    err, block := SetParam(host, p);
    if err != 0 { return; }
    err, ok, view, junk := QueryParam(host, |p.counters|);
    ReadsFitIff(|p.counters|);
    if err == 0 && ok { RoundTrip(host.env, dev, block, p, junk); }
  }

  // A device that answers everything, and every question with what it was asked
  // before, behind a head of zeros.
  function Recall(log: seq<Event>): Reply {
    if |log| >= 2 && log[|log| - 2].Command? && |log[|log| - 2].frame| >= DIAG_CONTEXT_OFF then
      Reply(0, Zeros(DIAG_CONTEXT_OFF) + log[|log| - 2].frame[DIAG_CONTEXT_OFF..], [])
    else Reply(0, Zeros(DIAG_CONTEXT_OFF), [])
  }

  function RecallingDevice(lifetime: nat): Env {
    Env(Recall, lifetime, k => k + 1)
  }

  lemma RecallAnswers(lifetime: nat, dev: Device, f: Buffer, out: Buffer)
    requires |dev.log| < lifetime && |out| >= DIAG_CONTEXT_OFF
    ensures Perform(RecallingDevice(lifetime), dev, Machine.Command(f), out).err == 0
  {
    hide Get, OpOf, Recorded;
    var log := dev.log + [Machine.Command(f)];
    var out' := Overlay(out, Recall(log).out);
    assert out'[..DIAG_CONTEXT_OFF] == Zeros(DIAG_CONTEXT_OFF);
    forall k | 0 <= k < DIAG_CONTEXT_OFF ensures out'[k] == 0 {
      assert out'[k] == out'[..DIAG_CONTEXT_OFF][k];
    }
    GetLocal(out', Zeros(DIAG_CONTEXT_OFF), STATUS);
    ZeroField(Zeros(DIAG_CONTEXT_OFF), STATUS);
  }

  lemma RecallRemembers(lifetime: nat, log: seq<Event>, f: Buffer)
    requires |log| + 2 <= lifetime && |f| >= DIAG_CONTEXT_OFF
    ensures Remembers(RecallingDevice(lifetime), log, f)
  {
    hide Answered, QueryFrame;
    var log' := log + [Machine.Command(f)] + [Machine.Command(QueryFrame())];
    assert log'[|log'| - 2] == Machine.Command(f);
  }

  /** There is a device against which, after any history, for any record of up to 16375
      counters, both commands succeed and the query shows the record. */
  lemma RoundTripHappens(dev: Device, block: Buffer, p: Params, junk: Buffer)
    requires |p.counters| <= 16375 && |block| == HEAD_BYTES + COUNTER_BYTES * |p.counters|
    requires |junk| == QuerySize(|p.counters|)
    ensures var env := RecallingDevice(|dev.log| + 2);
            var x := Perform(env, dev, Machine.Command(SetFrame(block, p)), Zeros(16));
            var y := Perform(env, x.dev, Machine.Command(QueryFrame()), junk);
            && x.err == 0 && y.err == 0
            && HEAD_BYTES + COUNTER_BYTES * |p.counters| <= |y.out| && ViewOf(y.out, |p.counters|) == Cut(p)
  {
    hide SetFrame, QueryFrame, ViewOf, Perform, Cut, Remembers, RecallingDevice;
    var env := RecallingDevice(|dev.log| + 2);
    var x := Perform(env, dev, Machine.Command(SetFrame(block, p)), Zeros(16));
    ReadsFitIff(|p.counters|);
    RecallAnswers(|dev.log| + 2, dev, SetFrame(block, p), Zeros(16));
    RecallAnswers(|dev.log| + 2, x.dev, QueryFrame(), junk);
    RecallRemembers(|dev.log| + 2, dev.log, SetFrame(block, p));
    RoundTrip(env, dev, block, p, junk);
  }

  lemma ViewDecodes(f: Buffer, p: Params)
    requires |f| == HEAD_BYTES + COUNTER_BYTES * |p.counters| && Holds(f, p, |p.counters|)
    ensures ViewOf(f, |p.counters|) == Cut(p)
  {
    hide Get, CountersOf, HasCounters;
    CountersRead(f, p.counters, |p.counters|);
  }

  // The view depends on the context alone.
  lemma ViewsAgree(f: Buffer, g: Buffer, n: nat)
    requires |f| == |g| && HEAD_BYTES + COUNTER_BYTES * n <= |f|
    requires f[DIAG_CONTEXT_OFF..] == g[DIAG_CONTEXT_OFF..]
    ensures ViewOf(f, n) == ViewOf(g, n)
  {
    hide Get, CountersOf;
    SameAt(f, g, Context(DIAG_SYNC));
    SameAt(f, g, Context(DIAG_CLEAR));
    SameAt(f, g, Context(DIAG_ENABLE));
    SameAt(f, g, Context(DIAG_SINGLE));
    SameAt(f, g, Context(DIAG_REPETITIVE));
    SameAt(f, g, Context(DIAG_ON_DEMAND));
    SameAt(f, g, Context(DIAG_LOG_NUM_OF_SAMPLES));
    SameAt(f, g, Context(DIAG_LOG_SAMPLE_PERIOD));
    CountersAgree(f, g, n);
  }

  lemma {:induction false} CountersAgree(f: Buffer, g: Buffer, n: nat)
    requires |f| == |g| && HEAD_BYTES + COUNTER_BYTES * n <= |f|
    requires f[DIAG_CONTEXT_OFF..] == g[DIAG_CONTEXT_OFF..]
    ensures CountersOf(f, n) == CountersOf(g, n)
  {
    hide Get;
    if n > 0 {
      CountersAgree(f, g, n - 1);
      SameAt(f, g, CounterField(n - 1));
    }
  }

  lemma SameAt(f: Buffer, g: Buffer, h: Field)
    requires |f| == |g| && Valid(h, |f|) && h.off >= 8 * DIAG_CONTEXT_OFF
    requires f[DIAG_CONTEXT_OFF..] == g[DIAG_CONTEXT_OFF..]
    ensures Get(f, h) == Get(g, h)
  {
    hide Get;
    var n := DIAG_CONTEXT_OFF;
    forall k | n <= k < |f| ensures f[k] == g[k] {
      assert f[k] == f[n..][k - n] && g[k] == g[n..][k - n];
    }
    GetLocal(f, g, h);
  }
}
