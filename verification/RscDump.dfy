/** The rscdump and coredump commands (do_rscdump): acquire, dump, parse, release.
    DidRscDump says what one run of the command is; module Lifecycle says what
    follows for handles, memory and the device's log, and EndToEnd what it shows. */
module RscDump {
  import Bits
  import opened Codec
  import opened FieldLaws
  import opened Layouts
  import opened Machine
  import opened Register
  import opened Mlx5Lib
  import opened ResourceDump
  import opened Collectors
  import opened Segments
  import opened SegmentReads

  const REG_CORE_DUMP := 0x402e
  const CR_DUMP_TO_MEM := 2

  datatype Command = DumpCommand | CoreCommand | UnknownCommand

  // Undefined: the C code left defined behaviour. Hangs: its parser loops forever.
  datatype Outcome = Returned(code: int) | UndefinedRun | Hangs

  // How a command ended, what its parser visited and how it left the world;
  // dangling: it freed memory that the device still has registered.
  datatype Account = Account(outcome: Outcome, visits: seq<Visit>, w: World, dangling: bool)

  /* ---- a dump and its parse ---- */

  function AfterParse(stop: Stop, inside: bool): Outcome {
    if !inside then UndefinedRun else if stop == Spin then Hangs else Returned(0)
  }

  ghost predicate Parsed(block: Buffer, size: int, outcome: Outcome, visits: seq<Visit>) {
    hide WalkDump, ParsedInside;
    && visits == WalkDump(block, size).visits
    && outcome == AfterParse(WalkDump(block, size).stop, ParsedInside(block, size))
  }

  // The collector failed before it had anything to show.
  predicate NothingCollected(end: Run) { end.status == DeviceError && end.data == [] }

  // mlx5_rsc_dump without a registered buffer: end is the collector's last state
  // and block the memory it returns.
  ghost predicate InlineShown(env: Env, w: World, args: Args, end: Run, block: Buffer, r: Account) {
    hide Inline, Parsed;
    && !r.dangling
    && if env.grant(w.allocs) == 0 then r == Account(Returned(0), [], Allocated(env, w), false)
       else
         && end == Inline(env, InlineStart(env, w, args, [], []))
         && if end.status == Undefined then r == Account(UndefinedRun, [], end.w, false)
            else if NothingCollected(end) then r == Account(Returned(0), [], end.w, false)
            else
              && |block| == end.cap && end.data <= block
              && Parsed(block, |end.data|, r.outcome, r.visits)
              && r.w == Freed(end.w, end.block)
  }

  method DumpInline(host: Host, args: Args)
    returns (outcome: Outcome, visits: seq<Visit>, ghost end: Run, ghost block: Buffer)
    requires host.window == null
    modifies host`world
    ensures InlineShown(host.env, old(host.world), args, end, block, Account(outcome, visits, host.world, false))
  {
    hide Inline, WalkDump, ParsedInside, InlineRequest;
    visits, block := [], [];
    var data, p, total, status;
    ghost var junk;
    data, p, total, status, junk, end := CollectInline(host, args, 0);
    assert junk == [];
    if status == Undefined { return UndefinedRun, visits, end, block; }
    if data == null { return Returned(0), visits, end, block; }
    block := data[..];
    assert block[..total] == end.data;
    var stop, inside;
    visits, stop, inside := ParseResourceDump(data, total);
    host.Free(p);
    outcome := AfterParse(stop, inside);
  }

  // mlx5_rsc_dump with one: the parser gets the buffer's size, and the temporary
  // block of the collector is never freed.
  ghost predicate UmemShown(env: Env, w: World, args: Args, b: Buff, window: Buffer, end: Run, block: Buffer,
                            r: Account)
    requires b.Buff?
  {
    hide Umem, Parsed, IdxToMkey;
    && !r.dangling
    && if env.grant(w.allocs) == 0 then r == Account(Returned(0), [], Allocated(env, w), false)
       else
         && end == Umem(env, UmemStart(env, w, args, b.Mkey(), b.addr, b.size, window))
         && if end.status == Undefined then r == Account(UndefinedRun, [], end.w, false)
            else if NothingCollected(end) then r == Account(Returned(0), [], end.w, false)
            else
              && |block| == TEMP_BYTES && end.data <= block
              && Parsed(block, ToInt32(ToU32(b.size)), r.outcome, r.visits)
              && r.w == end.w
  }

  method DumpUmem(host: Host, args: Args, ub: UmemBuff, ghost b: Buff)
    returns (outcome: Outcome, visits: seq<Visit>, ghost end: Run, ghost block: Buffer)
    requires host.window == ub.buff && Describes(b, ub)
    modifies host`world, ub.buff
    ensures host.window == ub.buff
    ensures UmemShown(host.env, old(host.world), args, b, old(ub.buff[..]), end, block,
                      Account(outcome, visits, host.world, false))
  {
    hide Umem, WalkDump, ParsedInside, UmemRequest, IdxToMkey;
    visits, block := [], [];
    var data, status;
    data, status, end := CollectUmem(host, args, ub);
    if status == Undefined { return UndefinedRun, visits, end, block; }
    if data == null { return Returned(0), visits, end, block; }
    block := data[..];
    assert block[..|end.data|] == end.data;
    var stop, inside;
    visits, stop, inside := ParseResourceDump(data, ToInt32(ToU32(ub.size)));
    outcome := AfterParse(stop, inside);
  }

  ghost predicate Describes(b: Buff, ub: UmemBuff)
    reads ub
  {
    hide IdxToMkey;
    b.Buff? && b.self == ub.self && b.addr == ub.addr && b.size == ub.size && b.umemId == ub.umemId
    && b.Mkey() == ub.mkey
  }

  /* ---- core dump ---- */

  function CoreRequest(addr: nat, size: nat, mkey: nat): (r: Buffer)
    ensures |r| == CORE_DUMP_BYTES
  {
    hide Put;
    var r1 := Put(Zeros(CORE_DUMP_BYTES), CORE_DUMP_TYPE, CR_DUMP_TO_MEM);
    var r2 := Put(r1, CORE_ADDRESS, addr);
    var r3 := Put(r2, CORE_SIZE, size);
    Put(r3, CORE_MKEY, mkey)
  }

  // The core-dump request points the device at the registered buffer.
  ghost predicate AsksCore(r: Buffer, addr: nat, size: nat, mkey: nat) {
    hide Get;
    && |r| == CORE_DUMP_BYTES
    && Get(r, CORE_DUMP_TYPE) == CR_DUMP_TO_MEM
    && Get(r, CORE_ADDRESS) == addr % 0x1_0000_0000_0000_0000
    && Get(r, CORE_SIZE) == size % 0x1_0000_0000
    && Get(r, CORE_MKEY) == mkey % 0x1_0000_0000
  }

  lemma CoreRequestAsks(addr: nat, size: nat, mkey: nat)
    ensures AsksCore(CoreRequest(addr, size, mkey), addr, size, mkey)
  {
    hide Get, Put, Bits.Pow2;
    Bits.PowersOfTwo();
    var r0 := Zeros(CORE_DUMP_BYTES);
    var r1 := Put(r0, CORE_DUMP_TYPE, CR_DUMP_TO_MEM);
    var r2 := Put(r1, CORE_ADDRESS, addr);
    var r3 := Put(r2, CORE_SIZE, size);
    PutFacts(r0, CORE_DUMP_TYPE, CR_DUMP_TO_MEM);
    PutFacts(r1, CORE_ADDRESS, addr);
    PutFacts(r2, CORE_SIZE, size);
    PutFacts(r3, CORE_MKEY, mkey);
  }

  // The size a core-dump reply announces, as an int.
  function CoreSize(reply: Buffer): int
    requires |reply| == CORE_DUMP_BYTES
  {
    hide Get, Bits.Pow2;
    GetBound(reply, CORE_SIZE);
    Bits.PowersOfTwo();
    ToInt32(Get(reply, CORE_SIZE))
  }

  // mlx5_core_dump: asks once, and shows as many bytes of the buffer as the reply
  // announces.
  ghost predicate CoreShown(env: Env, w: World, b: Buff, r: Account) {
    hide AccessReg, CoreRequest, CoreSize, IdxToMkey;
    if b.NoBuff? then r == Account(Returned(0), [], w, false)
    else
      var a := AccessReg(env, w, CoreRequest(b.addr, b.size, b.Mkey()), Zeros(CORE_DUMP_BYTES),
                         REG_CORE_DUMP, 0, 0);
      r == Account(if a.err == 0 && CoreSize(a.data) > b.size then UndefinedRun else Returned(0), [], a.w, false)
  }

  method CoreDump(host: Host, ub: UmemBuff?, ghost b: Buff) returns (outcome: Outcome)
    requires if ub == null then b == NoBuff else Describes(b, ub) && host.window == ub.buff
    requires ub != null ==> ub.size == ub.buff.Length
    modifies host`world, host.window
    ensures CoreShown(host.env, old(host.world), b, Account(outcome, [], host.world, false))
  {
    hide Put, AccessReg, IdxToMkey, Get, Overlay;
    if ub == null { return Returned(0); }
    var input := new byte[CORE_DUMP_BYTES](_ => 0);
    var output := new byte[CORE_DUMP_BYTES](_ => 0);
    assert input[..] == Zeros(CORE_DUMP_BYTES) && output[..] == Zeros(CORE_DUMP_BYTES);
    Write(input, CORE_DUMP_TYPE, CR_DUMP_TO_MEM);
    Write(input, CORE_ADDRESS, ub.addr);
    Write(input, CORE_SIZE, ub.size);
    Write(input, CORE_MKEY, ub.mkey);
    var err := AccessRegister(host, input, output, REG_CORE_DUMP, 0, 0);
    if err != 0 { return Returned(0); }
    var inside := Hexdump(ub.buff, 0, CoreSize(output[..]));
    outcome := if inside then Returned(0) else UndefinedRun;
  }

  /* ---- do_rscdump ---- */

  // The file's static variable. It is not reset after the release.
  class Program {
    var umemBuff: UmemBuff?

    constructor ()
      ensures umemBuff == null
    {
      umemBuff := null;
    }
  }

  ghost predicate Ran(env: Env, w: World, command: Command, args: Args, b: Buff, window: Buffer,
                      end: Run, block: Buffer, r: Account)
  {
    hide InlineShown, UmemShown, CoreShown;
    match command
    case DumpCommand =>
      if b.NoBuff? then InlineShown(env, w, args, end, block, r)
      else UmemShown(env, w, args, b, window, end, block, r)
    case CoreCommand => CoreShown(env, w, b, r)
    case UnknownCommand => r == Account(Returned(0), [], w, false)
  }

  method RunCommand(host: Host, command: Command, args: Args, ub: UmemBuff?, ghost b: Buff)
    returns (outcome: Outcome, visits: seq<Visit>, ghost end: Run, ghost block: Buffer)
    requires host.window == if ub == null then null else ub.buff
    requires if ub == null then b == NoBuff else Describes(b, ub) && ub.size == ub.buff.Length
    modifies host`world, host.window
    ensures host.window == old(host.window)
    ensures Ran(host.env, old(host.world), command, args, b,
                if ub == null then [] else old(ub.buff[..]), end, block,
                Account(outcome, visits, host.world, false))
  {
    hide InlineShown, UmemShown, CoreShown, InlineRequest, IdxToMkey;
    outcome, visits, block := Returned(0), [], [];
    end := InlineStart(host.env, host.world, args, [], []);
    match command
    case DumpCommand =>
      if ub == null {
        outcome, visits, end, block := DumpInline(host, args);
      } else {
        outcome, visits, end, block := DumpUmem(host, args, ub, b);
      }
    case CoreCommand =>
      outcome := CoreDump(host, ub, b);
    case UnknownCommand =>
  }

  // The three releases, one after the other: key, umem, pd.
  datatype Teardown = Teardown(key: Told, umem: Told, pd: Told)

  function Release(env: Env, dev: Device, b: Buff, pdn: nat): Teardown
    requires b.Buff?
  {
    hide Ask, AskUnregister, DestroyMkeyFrame, DeallocPdFrame, IdxToMkey;
    var key := Ask(env, dev, DestroyMkeyFrame(b.Mkey()));
    var umem := AskUnregister(env, key.dev, b.umemId);
    Teardown(key, umem, Ask(env, umem.dev, DeallocPdFrame(pdn, 0)))
  }

  function DefaultType(args: Args): Args {
    if args.ty < 0 then args.(ty := TYPE_MENU) else args
  }

  predicate IsInt(n: int) { -0x8000_0000 <= n <= INT_MAX }

  // The pd the command allocates and the buffer it acquires.
  function PdOf(env: Env, w: World): Told {
    hide Ask, AllocPdFrame;
    Ask(env, w.dev, AllocPdFrame(0))
  }

  function BufferOf(env: Env, w: World, umemKb: int): (a: Acquisition)
    ensures a.buff.Buff? ==> a.buff.size == |a.window| == AlignToPage(ToU64(umemKb * 1024))
  {
    hide Acquire, PdOf, AlignToPage;
    var p := PdOf(env, w);
    Acquire(env, w.(dev := p.dev), ToU64(umemKb * 1024), p.handle)
  }

  // The command with a buffer: mid is the account of the dump itself.
  ghost predicate DidWithBuffer(env: Env, w: World, command: Command, umemKb: int, args: Args,
                                end: Run, block: Buffer, mid: Account, r: Account)
  {
    hide Ask, BufferOf, PdOf, Ran, Release, DeallocPdFrame;
    var p := PdOf(env, w);
    var a := BufferOf(env, w, umemKb);
    if p.err != 0 then r == Account(Returned(p.err), [], w.(dev := p.dev), false)
    else if a.buff.NoBuff? then
      r == Account(Returned(-ENOMEM), [], a.w.(dev := Ask(env, a.w.dev, DeallocPdFrame(p.handle, 0)).dev), a.dangling)
    else
      && Ran(env, a.w, command, DefaultType(args), a.buff, a.window, end, block, mid)
      && r.outcome == mid.outcome && r.visits == mid.visits
      && (!mid.outcome.Returned? ==> r == mid)
      && (mid.outcome.Returned? ==>
            var t := Release(env, mid.w.dev, a.buff, p.handle);
            && r.w == Freed(Freed(mid.w.(dev := t.pd.dev), a.buff.addr), a.buff.self)
            && r.dangling == (t.umem.err != 0))
  }

  ghost predicate DidRscDump(env: Env, w: World, command: Command, umemKb: int, args: Args,
                             end: Run, block: Buffer, mid: Account, r: Account)
  {
    hide Ran, DidWithBuffer;
    if umemKb == 0 then Ran(env, w, command, DefaultType(args), NoBuff, [], end, block, r)
    else if !IsInt(umemKb * 1024) then r == Account(UndefinedRun, [], w, false)
    else DidWithBuffer(env, w, command, umemKb, args, end, block, mid, r)
  }

  /** One run of the command, against every device and allocator. */
  method DoRscDump(host: Host, program: Program, command: Command, umemKb: int, args: Args)
    returns (outcome: Outcome, visits: seq<Visit>, ghost end: Run, ghost block: Buffer,
             ghost mid: Account, ghost r: Account)
    requires host.window == null && program.umemBuff == null
    modifies host, program
    ensures r.outcome == outcome && r.visits == visits && r.w == host.world
    ensures DidRscDump(host.env, old(host.world), command, umemKb, args, end, block, mid, r)
    ensures outcome.Returned? ==> (host.window != null <==> r.dangling)
  {
    hide Ran, Acquire, Ask, AskUnregister, DeallocPdFrame, AllocPdFrame, DestroyMkeyFrame, IdxToMkey,
         InlineRequest;
    var args' := DefaultType(args);
    ghost var w0 := host.world;
    outcome, visits, block := UndefinedRun, [], [];
    end := InlineStart(host.env, w0, args', [], []);
    r := Account(outcome, visits, w0, false);
    mid := r;
    if umemKb == 0 {
      outcome, visits, end, block := RunCommand(host, command, args', null, NoBuff);
      r := Account(outcome, visits, host.world, false);
      return;
    }
    if !IsInt(umemKb * 1024) { return; }
    var err, pdn := AllocPdNumber(host, 0);
    if err != 0 {
      outcome := Returned(err);
      r := Account(outcome, visits, host.world, false);
      return;
    }
    ghost var a := Acquire(host.env, host.world, ToU64(umemKb * 1024), pdn);
    var ub := AllocUmemMkeyBuff(host, ToU64(umemKb * 1024), pdn);
    program.umemBuff := ub;
    if ub == null {
      var e := DeallocPdNumber(host, pdn, 0);
      outcome := Returned(-ENOMEM);
      r := Account(outcome, visits, host.world, a.dangling);
      return;
    }
    outcome, visits, end, block := RunCommand(host, command, args', ub, a.buff);
    mid := Account(outcome, visits, host.world, false);
    r := mid;
    if !outcome.Returned? { return; }
    ghost var dev := host.world.dev;
    FreeUmemMkeyBuff(host, ub);
    r := r.(dangling := host.window != null);
    var e := DeallocPdNumber(host, pdn, 0);
    r := r.(w := host.world);
  }
}
