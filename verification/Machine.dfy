/** What the program runs against: a device that answers commands, and malloc.

    Neither is known, so both are oracles. The device is an arbitrary function
    from everything it was ever asked to its next reply; the allocator is an
    arbitrary function from the number of the request to an address, 0 being
    NULL. A run of the program that ends asks only finitely many questions:
    after `lifetime` of them every further one fails. */
module Machine {
  import opened Codec
  import opened FieldLaws
  import opened Layouts

  datatype Event =
    | Command(frame: Buffer)
    | Register(addr: nat, len: nat)
    | Unregister(id: nat)

  // The ioctl's result, the bytes written to the reply buffer, and the bytes
  // written to the registered memory.
  datatype Reply = Reply(ret: int, out: Buffer, dma: Buffer)

  datatype Env = Env(respond: seq<Event> -> Reply, lifetime: nat, grant: nat -> nat)

  // The handles the device holds; an mkey remembers its pd and its umem.
  datatype Live = Live(pds: set<nat>, umems: set<nat>, mkeys: map<nat, (nat, nat)>)

  // misuse counts requests naming a handle that is dead, or still in use by an
  // mkey; refused counts failed releases of handles that could be released;
  // clashes counts the handles given out although they were live.
  datatype Device = Device(log: seq<Event>, live: Live, misuse: nat, refused: nat, clashes: nat)

  // live holds the addresses of the blocks not freed yet; faults counts the frees of
  // an address that is not live; overlaps the live addresses handed out again.
  datatype Heap = Heap(live: set<nat>, faults: nat, overlaps: nat) {
    function Take(p: nat): Heap {
      if p == 0 then this else Heap(live + {p}, faults, overlaps + (if p in live then 1 else 0))
    }

    // free(NULL) does nothing
    function Drop(p: nat): Heap {
      if p == 0 then this else Heap(live - {p}, faults + (if p in live then 0 else 1), overlaps)
    }
  }

  // allocs is the number of requests the allocator has had.
  datatype World = World(dev: Device, allocs: nat, heap: Heap)

  // The heap is as before, if the allocator handed out no live address.
  ghost predicate Settled(before: Heap, after: Heap) {
    before.overlaps <= after.overlaps && (after.overlaps == before.overlaps ==> after == before)
  }

  // The heap has these new blocks and is otherwise as before, under the same condition.
  ghost predicate Gained(before: Heap, after: Heap, blocks: set<nat>) {
    && before.overlaps <= after.overlaps
    && (after.overlaps == before.overlaps ==>
          && after == before.(live := before.live + blocks)
          && blocks !! before.live && 0 !in blocks)
  }

  const EIO := 5
  const ENOMEM := 12
  const EREMOTEIO := 121
  const INT_MAX := 0x7fff_ffff

  function ToInt32(v: nat): (r: int)
    requires v < 0x1_0000_0000
    ensures -0x8000_0000 <= r <= INT_MAX && (v - r) % 0x1_0000_0000 == 0
  {
    if v <= INT_MAX then v else v - 0x1_0000_0000
  }

  function Zeros(n: nat): (s: Buffer)
    ensures |s| == n && forall i :: 0 <= i < n ==> s[i] == 0
  {
    seq(n, _ => 0)
  }

  function Overlay(s: Buffer, bytes: Buffer): (r: Buffer)
    ensures |r| == |s|
  {
    if |bytes| <= |s| then bytes + s[|bytes|..] else bytes[..|s|]
  }

  /* ---- the handles behind an event ---- */

  datatype Op =
    | AllocPd
    | DeallocPd(pd: nat)
    | CreateMkey(pd: nat, umem: nat)
    | DestroyMkey(index: nat)
    | RegisterUmem
    | UnregisterUmem(umem: nat)
    | Other

  function OpOf(e: Event): Op {
    match e
    case Register(_, _) => RegisterUmem
    case Unregister(id) => UnregisterUmem(id)
    case Command(f) =>
      if |f| < SHORT_FRAME_BYTES then Other
      else
        hide Get;
        var opcode := Get(f, OPCODE);
        if opcode == OP_ALLOC_PD then AllocPd
        else if opcode == OP_DEALLOC_PD then DeallocPd(Get(f, HANDLE))
        else if opcode == OP_CREATE_MKEY && |f| == CREATE_MKEY_BYTES then
          CreateMkey(Get(f, MKC_PD.At(MKC_OFF)), Get(f, MKEY_UMEM_ID))
        else if opcode == OP_DESTROY_MKEY then DestroyMkey(Get(f, HANDLE))
        else Other
  }

  predicate PdInUse(live: Live, pd: nat) {
    exists k :: k in live.mkeys && live.mkeys[k].0 == pd
  }

  predicate UmemInUse(live: Live, umem: nat) {
    exists k :: k in live.mkeys && live.mkeys[k].1 == umem
  }

  // Every handle the request names is live, and free if it is to be released.
  predicate Sound(live: Live, op: Op) {
    match op
    case DeallocPd(pd) => pd in live.pds && !PdInUse(live, pd)
    case CreateMkey(pd, umem) => pd in live.pds && umem in live.umems
    case DestroyMkey(k) => k in live.mkeys
    case UnregisterUmem(umem) => umem in live.umems && !UmemInUse(live, umem)
    case _ => true
  }

  predicate Fresh(live: Live, op: Op, h: nat) {
    match op
    case AllocPd => h !in live.pds
    case CreateMkey(_, _) => h !in live.mkeys
    case RegisterUmem => h !in live.umems
    case _ => true
  }

  predicate IsRelease(op: Op) {
    op.DeallocPd? || op.DestroyMkey? || op.UnregisterUmem?
  }

  // The live handles after a successful request that returned handle h, whether
  // or not the request was sound.
  function After(live: Live, op: Op, h: nat): Live {
    match op
    case AllocPd => live.(pds := live.pds + {h})
    case DeallocPd(pd) => live.(pds := live.pds - {pd})
    case CreateMkey(pd, umem) => live.(mkeys := live.mkeys[h := (pd, umem)])
    case DestroyMkey(k) => live.(mkeys := live.mkeys - {k})
    case RegisterUmem => live.(umems := live.umems + {h})
    case UnregisterUmem(umem) => live.(umems := live.umems - {umem})
    case Other => live
  }

  // An mkey is live only while its pd and its umem are.
  predicate Consistent(live: Live) {
    forall k :: k in live.mkeys ==> live.mkeys[k].0 in live.pds && live.mkeys[k].1 in live.umems
  }

  /* ---- one exchange with the device ---- */

  datatype Answer = Answer(dev: Device, err: int, out: Buffer, dma: Buffer)

  function Raw(env: Env, log: seq<Event>): Reply {
    if |log| <= env.lifetime then env.respond(log) else Reply(-1, [], [])
  }

  predicate Succeeds(e: Event, ret: int, out: Buffer) {
    hide Get;
    match e
    case Command(_) => ret == 0 && (|out| >= 4 ==> Get(out, STATUS) == 0)
    case Register(_, _) => 0 <= ret <= INT_MAX
    case Unregister(_) => ret == 0
  }

  function HandleOf(e: Event, ret: int, out: Buffer): nat {
    hide Get;
    if e.Command? && |out| >= SHORT_FRAME_BYTES then Get(out, HANDLE)
    else if ret >= 0 then ret else 0
  }

  // The result of the call when the ioctl returned ret and left out.
  function ResultOf(e: Event, ret: int, out: Buffer): int {
    hide Get;
    if Succeeds(e, ret, out) then (if e.Register? then ret else 0)
    else if e.Command? && ret == 0 then (if |out| >= 4 then Get(out, STATUS) else 0)
    else if e.Register? then (if ret < 0 then ret else -1)
    else ret
  }

  // The device does as it answers; its books record what that means.
  function Perform(env: Env, dev: Device, e: Event, out: Buffer): (x: Answer)
    ensures |x.out| == |out|
    ensures x.dev.log == dev.log + [e]
  {
    hide OpOf, Get;
    var log := dev.log + [e];
    var r := Raw(env, log);
    var out' := Overlay(out, r.out);
    Answer(Recorded(dev, e, HandleOf(e, r.ret, out'), Succeeds(e, r.ret, out')), ResultOf(e, r.ret, out'),
           out', r.dma)
  }

  // The books after request op, answered with handle h if ok.
  function Booked(dev: Device, op: Op, h: nat, ok: bool): Device {
    var sound := Sound(dev.live, op);
    Device(dev.log, if ok then After(dev.live, op, h) else dev.live,
           dev.misuse + (if sound then 0 else 1),
           dev.refused + (if sound && IsRelease(op) && !ok then 1 else 0),
           dev.clashes + (if ok && !Fresh(dev.live, op, h) then 1 else 0))
  }

  function Recorded(dev: Device, e: Event, h: nat, ok: bool): (d: Device)
    ensures d.log == dev.log + [e]
  {
    hide OpOf, Booked;
    Booked(dev, OpOf(e), h, ok).(log := dev.log + [e])
  }

  // The device's answer to log counts as success in a zeroed n-byte reply.
  predicate Answered(env: Env, log: seq<Event>, n: nat) {
    hide Get;
    var r := Raw(env, log);
    r.ret == 0 && (n >= 4 ==> Get(Overlay(Zeros(n), r.out), STATUS) == 0)
  }

  lemma PerformAnswer(env: Env, dev: Device, f: Buffer, n: nat)
    ensures var x := Perform(env, dev, Command(f), Zeros(n));
            x.err == 0 <==> Answered(env, x.dev.log, n)
  {
    hide OpOf, Get, Recorded;
  }

  // The status of a reply is its first byte.
  lemma StatusByte(out: Buffer)
    requires |out| >= 1
    ensures Get(out, STATUS) == out[0] as nat
  {
    hide Bits.Bit, Bits.Pow2, ReadBits;
    Bits.PowersOfTwo();
    ReadBitsUnique(out[0] as nat, out, 0, 8);
  }

  /** A command's result is the ioctl's, or else the reply's status byte. */
  lemma CommandResult(env: Env, dev: Device, f: Buffer, n: nat)
    requires n >= 4
    ensures var x := Perform(env, dev, Command(f), Zeros(n));
            var r := Raw(env, dev.log + [Command(f)]);
            x.err == if r.ret != 0 then r.ret else Overlay(Zeros(n), r.out)[0] as int
  {
    hide OpOf, Get, Recorded, Raw, Overlay;
    StatusByte(Overlay(Zeros(n), Raw(env, dev.log + [Command(f)]).out));
  }

  // A command about no handle succeeds exactly when it is answered, shows the
  // answer, and moves no handle.
  lemma CommandReply(env: Env, dev: Device, f: Buffer, n: nat)
    requires OpOf(Command(f)) == Other
    ensures var x := Perform(env, dev, Command(f), Zeros(n));
            && x.dev == dev.(log := dev.log + [Command(f)])
            && (x.err == 0 <==> Answered(env, x.dev.log, n))
            && (x.err == 0 ==> && |x.dev.log| <= env.lifetime
                               && x.out == Overlay(Zeros(n), Raw(env, x.dev.log).out)
                               && x.dma == Raw(env, x.dev.log).dma)
  {
    hide OpOf, Get;
  }

  // What a request op, answered with handle h if ok, did to the device's books.
  ghost predicate Effect(before: Device, after: Device, op: Op, h: nat, ok: bool) {
    after == Booked(before, op, h, ok).(log := after.log)
  }

  // Carried out, the request leaves some mkey without its pd or its umem.
  predicate Breaks(live: Live, op: Op) {
    match op
    case DeallocPd(pd) => PdInUse(live, pd)
    case UnregisterUmem(umem) => UmemInUse(live, umem)
    case CreateMkey(pd, umem) => pd !in live.pds || umem !in live.umems
    case _ => false
  }

  /** An exchange takes an mkey's pd or umem away exactly if the device carried out
      a request of those that no sound request is one of. */
  lemma ConsistentIff(before: Device, after: Device, op: Op, h: nat, ok: bool)
    requires Consistent(before.live) && Effect(before, after, op, h, ok)
    ensures Consistent(after.live) <==> !(ok && Breaks(before.live, op))
    ensures Sound(before.live, op) ==> !Breaks(before.live, op)
  {
    if ok && Breaks(before.live, op) {
      match op
      case DeallocPd(pd) =>
        var k :| k in before.live.mkeys && before.live.mkeys[k].0 == pd;
        assert k in after.live.mkeys;
      case UnregisterUmem(umem) =>
        var k :| k in before.live.mkeys && before.live.mkeys[k].1 == umem;
        assert k in after.live.mkeys;
      case CreateMkey(_, _) =>
        assert h in after.live.mkeys;
    }
  }

  /* ---- requests about handles ---- */

  // What the program learns from a command whose reply carries a handle.
  datatype Told = Told(dev: Device, err: int, handle: nat, dma: Buffer)

  function Ask(env: Env, dev: Device, frame: Buffer): (t: Told)
    ensures t.handle < 0x100_0000
    ensures t.dev.log == dev.log + [Command(frame)]
  {
    hide Perform, Get, Bits.Pow2;
    var x := Perform(env, dev, Command(frame), Zeros(SHORT_FRAME_BYTES));
    GetBound(x.out, HANDLE);
    Bits.PowersOfTwo();
    Told(x.dev, x.err, Get(x.out, HANDLE), x.dma)
  }

  function AskRegister(env: Env, dev: Device, addr: nat, len: nat): (t: Told)
    ensures t.dev.log == dev.log + [Register(addr, len)]
    ensures t.err < 0 || (t.err == t.handle && t.handle <= INT_MAX)
  {
    hide Perform;
    var x := Perform(env, dev, Register(addr, len), []);
    RegisterBound(env, dev, addr, len);
    Told(x.dev, x.err, if x.err >= 0 then x.err else 0, x.dma)
  }

  lemma RegisterBound(env: Env, dev: Device, addr: nat, len: nat)
    ensures Perform(env, dev, Register(addr, len), []).err <= INT_MAX
  {
  }

  function AskUnregister(env: Env, dev: Device, id: nat): (t: Told)
    ensures t.dev.log == dev.log + [Unregister(id)]
  {
    hide Perform;
    var x := Perform(env, dev, Unregister(id), []);
    Told(x.dev, x.err, 0, x.dma)
  }

  lemma AskEffect(env: Env, dev: Device, frame: Buffer)
    ensures var t := Ask(env, dev, frame);
            Effect(dev, t.dev, OpOf(Command(frame)), t.handle, t.err == 0)
  {
    hide OpOf, Get;
  }

  lemma RegisterEffect(env: Env, dev: Device, addr: nat, len: nat)
    ensures var t := AskRegister(env, dev, addr, len);
            Effect(dev, t.dev, RegisterUmem, t.handle, t.err >= 0)
  {
  }

  lemma UnregisterEffect(env: Env, dev: Device, id: nat)
    ensures var t := AskUnregister(env, dev, id);
            Effect(dev, t.dev, UnregisterUmem(id), 0, t.err == 0)
  {
  }

  /* ---- the running program's view ---- */

  class Host {
    const env: Env
    var world: World
    var window: array?<byte>   // the registered memory, which the device may write

    constructor (env: Env, world: World)
      ensures this.env == env && this.world == world && window == null
    {
      this.env := env;
      this.world := world;
      window := null;
    }

    method Malloc() returns (p: nat)
      modifies `world
      ensures p == env.grant(old(world.allocs))
      ensures world == Allocated(env, old(world))
    {
      p := env.grant(world.allocs);
      world := Allocated(env, world);
    }

    method Realloc(was: nat) returns (p: nat)
      modifies `world
      ensures p == env.grant(old(world.allocs))
      ensures world == Reallocated(env, old(world), was)
    {
      p := env.grant(world.allocs);
      world := Reallocated(env, world, was);
    }

    method Free(p: nat)
      modifies `world
      ensures world == Freed(old(world), p)
    {
      world := Freed(world, p);
    }

    // mlx5u_cmd
    method Cmd(input: array<byte>, output: array<byte>) returns (err: int)
      requires input != output && window != input && window != output
      modifies `world, output, window
      ensures var x := Perform(env, old(world.dev), Command(input[..]), old(output[..]));
              && world == old(world).(dev := x.dev)
              && err == x.err
              && output[..] == x.out
              && (window != null ==> window[..] == Overlay(old(window[..]), x.dma))
    {
      hide Perform;
      var x := Perform(env, world.dev, Command(input[..]), output[..]);
      world := world.(dev := x.dev);
      Store(output, 0, x.out);
      if window != null {
        var w := Overlay(window[..], x.dma);
        Store(window, 0, w);
      }
      err := x.err;
    }

    method RegisterUmem(buf: array<byte>, addr: nat) returns (ret: int)
      modifies `world, `window
      ensures var t := AskRegister(env, old(world.dev), addr, buf.Length);
              && world == old(world).(dev := t.dev)
              && ret == t.err
              && window == if ret >= 0 then buf else old(window)
    {
      var t := AskRegister(env, world.dev, addr, buf.Length);
      world := world.(dev := t.dev);
      ret := t.err;
      if ret >= 0 { window := buf; }
    }

    method UnregisterUmem(id: nat) returns (ret: int)
      modifies `world, `window
      ensures var t := AskUnregister(env, old(world.dev), id);
              && world == old(world).(dev := t.dev)
              && ret == t.err
              && window == if ret == 0 then null else old(window)
    {
      var t := AskUnregister(env, world.dev, id);
      world := world.(dev := t.dev);
      ret := t.err;
      if ret == 0 { window := null; }
    }
  }

  function Allocated(env: Env, w: World): World {
    w.(allocs := w.allocs + 1, heap := w.heap.Take(env.grant(w.allocs)))
  }

  // A block moves or stays; on failure the old one is kept.
  function Reallocated(env: Env, w: World, was: nat): World {
    var p := env.grant(w.allocs);
    w.(allocs := w.allocs + 1, heap := if p == 0 then w.heap else w.heap.Drop(was).Take(p))
  }

  // The allocator grants these requests.
  ghost predicate Granted(env: Env, from: nat, to: nat) {
    forall k: nat :: from <= k < to ==> env.grant(k) != 0
  }

  function Freed(w: World, p: nat): World {
    w.(heap := w.heap.Drop(p))
  }

  // A block taken and freed again leaves the heap alone, and so do two.
  lemma TakeDrop(h: Heap, p: nat)
    ensures Settled(h, h.Take(p).Drop(p))
  {
    if p != 0 && p !in h.live { assert h.live + {p} - {p} == h.live; }
  }

  lemma TakeDropTwo(h: Heap, p: nat, q: nat)
    ensures Settled(h, h.Take(p).Take(q).Drop(q).Drop(p))
  {
    TakeDrop(h.Take(p), q);
    TakeDrop(h, p);
  }

  lemma TakeSettledDrop(h: Heap, p: nat, after: Heap)
    requires Settled(h.Take(p), after)
    ensures Settled(h, after.Drop(p))
  {
    if p != 0 && p !in h.live { assert h.live + {p} - {p} == h.live; }
  }

  lemma SettledTwice(a: Heap, b: Heap, c: Heap)
    requires Settled(a, b) && Settled(b, c)
    ensures Settled(a, c)
  {
  }

  lemma SettledGains(a: Heap, b: Heap)
    ensures Settled(a, b) <==> Gained(a, b, {})
  {
    assert a.live + {} == a.live;
  }

  lemma GainedTwice(a: Heap, b: Heap, c: Heap, first: set<nat>, second: set<nat>)
    requires Gained(a, b, first) && Gained(b, c, second)
    ensures Gained(a, c, first + second)
  {
    assert a.live + first + second == a.live + (first + second);
  }

  lemma TakeGains(h: Heap, p: nat)
    requires p != 0
    ensures Gained(h, h.Take(p), {p})
  {
  }

  // A block gained is lost again when it is freed.
  lemma GainedDrop(a: Heap, b: Heap, blocks: set<nat>, p: nat)
    requires Gained(a, b, blocks + {p}) && p !in blocks
    ensures Gained(a, b.Drop(p), blocks)
  {
    if b.overlaps == a.overlaps { assert a.live + (blocks + {p}) - {p} == a.live + blocks; }
  }
}
