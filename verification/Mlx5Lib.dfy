/** Protection domains, registered memory and memory keys (mlx5lib.c, mlx5lib.h). */
module Mlx5Lib {
  import opened Bits
  import opened Codec
  import opened FieldLaws
  import opened Layouts
  import opened Machine

  const UMEM_PAGE_SIZE := 4096

  /* ---- memory keys ---- */

  function MkeyToIdx(mkey: nat): nat { ShiftRight(mkey, 8) }

  function IdxToMkey(index: nat): nat { Low(ShiftLeft(index, 8), 32) }

  function MkeyVariant(mkey: nat): nat { And(mkey, Mask(8)) }

  // A 24-bit index survives the trip through a key, and the variant stays 0.
  lemma KeyRoundTrip(index: nat)
    requires index < Pow2(24)
    ensures IdxToMkey(index) == 256 * index
    ensures MkeyToIdx(IdxToMkey(index)) == index
    ensures MkeyVariant(IdxToMkey(index)) == 0
  {
    PowersOfTwo();
    hide Pow2, ShiftLeft, ShiftRight, Low, And, Mask;
    ShiftLeftIsProduct(index, 8);
    LowOfSmall(ShiftLeft(index, 8), 32);
    ShiftRightIsQuotient(256 * index, 8);
    AndMaskIsLow(256 * index, 8);
    LowIsMod(256 * index, 8);
  }

  // In the other direction a key comes back only without its variant.
  lemma IndexRoundTrip(mkey: nat)
    requires mkey < Pow2(32)
    ensures IdxToMkey(MkeyToIdx(mkey)) == mkey - MkeyVariant(mkey)
  {
    PowersOfTwo();
    hide Pow2, ShiftLeft, ShiftRight, Low, And, Mask;
    var index := MkeyToIdx(mkey);
    ShiftRightIsQuotient(mkey, 8);
    ShiftLeftIsProduct(index, 8);
    LowOfSmall(ShiftLeft(index, 8), 32);
    AndMaskIsLow(mkey, 8);
    LowIsMod(mkey, 8);
  }

  /* ---- ALIGN ---- */

  function AlignToPage(size: nat): (r: nat)
  {
    PowersOfTwo();
    And(ToU64(size + (UMEM_PAGE_SIZE - 1)), Not(64, UMEM_PAGE_SIZE - 1))
  }

  lemma AlignValue(size: nat)
    requires size <= 0x1_0000_0000_0000_0000 - UMEM_PAGE_SIZE
    ensures AlignToPage(size) == RoundDown(size + (UMEM_PAGE_SIZE - 1))
  {
    hide Low, And;
    var y := size + (UMEM_PAGE_SIZE - 1);
    assert Mask(12) == UMEM_PAGE_SIZE - 1 && Pow2(12) == UMEM_PAGE_SIZE;
    hide Pow2, Mask;
    PowersOfTwo();
    ClearLow(y, 12, 64);
    LowIsMod(y, 12);
  }

  function RoundDown(y: nat): nat { y - y % UMEM_PAGE_SIZE }

  // Away from the end of the address space, the least page multiple not below size.
  lemma AlignIsLeastMultiple(size: nat)
    requires size <= 0x1_0000_0000_0000_0000 - UMEM_PAGE_SIZE
    ensures AlignToPage(size) % UMEM_PAGE_SIZE == 0
    ensures size <= AlignToPage(size) < size + UMEM_PAGE_SIZE
  {
    hide AlignToPage;
    AlignValue(size);
  }

  // Within the last page the sum wraps around and the result is 0, so the
  // aligned size covers the one asked for exactly up to there.
  lemma AlignCoversIff(size: nat)
    requires 0 < size < 0x1_0000_0000_0000_0000
    ensures size <= AlignToPage(size) <==> size <= 0x1_0000_0000_0000_0000 - UMEM_PAGE_SIZE
  {
    hide AlignToPage;
    if size <= 0x1_0000_0000_0000_0000 - UMEM_PAGE_SIZE {
      AlignIsLeastMultiple(size);
    } else {
      AlignWraps(size);
    }
  }

  lemma AlignWraps(size: nat)
    requires 0x1_0000_0000_0000_0000 - UMEM_PAGE_SIZE < size < 0x1_0000_0000_0000_0000
    ensures AlignToPage(size) == 0
  {
    hide Low, And;
    var y := size + (UMEM_PAGE_SIZE - 1) - 0x1_0000_0000_0000_0000;
    assert ToU64(size + (UMEM_PAGE_SIZE - 1)) == y;
    assert Mask(12) == UMEM_PAGE_SIZE - 1 && Pow2(12) == UMEM_PAGE_SIZE;
    hide Pow2, Mask;
    PowersOfTwo();
    ClearLow(y, 12, 64);
    LowOfSmall(y, 12);
  }

  /* ---- command frames ---- */

  function AllocPdFrame(uid: int): (f: Buffer)
    ensures |f| == SHORT_FRAME_BYTES
  {
    hide Put;
    Put(Put(Zeros(SHORT_FRAME_BYTES), OPCODE, OP_ALLOC_PD), UID, uid)
  }

  function DeallocPdFrame(pdn: int, uid: int): (f: Buffer)
    ensures |f| == SHORT_FRAME_BYTES
  {
    hide Put;
    Put(Put(Put(Zeros(SHORT_FRAME_BYTES), OPCODE, OP_DEALLOC_PD), HANDLE, pdn), UID, uid)
  }

  function DestroyMkeyFrame(mkey: nat): (f: Buffer)
    ensures |f| == SHORT_FRAME_BYTES
  {
    hide Put;
    Put(Put(Zeros(SHORT_FRAME_BYTES), OPCODE, OP_DESTROY_MKEY), HANDLE, MkeyToIdx(mkey))
  }

  // The key context is written in place inside the create frame.
  function MkeyAccess(f: Buffer, pdn: int): (r: Buffer)
    requires |f| == CREATE_MKEY_BYTES
    ensures |r| == CREATE_MKEY_BYTES
  {
    hide Put;
    var f1 := Put(f, MKC_ACCESS_MODE.At(MKC_OFF), 1);
    var f2 := Put(f1, MKC_UMR_EN.At(MKC_OFF), 0);
    var f3 := Put(f2, MKC_PD.At(MKC_OFF), pdn);
    var f4 := Put(f3, MKC_LR.At(MKC_OFF), 1);
    Put(f4, MKC_LW.At(MKC_OFF), 1)
  }

  function MkeyRange(f: Buffer, addr: int, len: int): (r: Buffer)
    requires |f| == CREATE_MKEY_BYTES
    ensures |r| == CREATE_MKEY_BYTES
  {
    hide Put;
    var f1 := Put(f, MKC_QPN.At(MKC_OFF), 0xffffff);
    var f2 := Put(f1, MKC_START_ADDR.At(MKC_OFF), addr);
    Put(f2, MKC_LEN.At(MKC_OFF), len)
  }

  function CreateMkeyFrame(pdn: int, umemId: int, addr: int, len: int): (f: Buffer)
    ensures |f| == CREATE_MKEY_BYTES
  {
    hide Put, MkeyAccess, MkeyRange;
    var f0 := Put(Zeros(CREATE_MKEY_BYTES), OPCODE, OP_CREATE_MKEY);
    var f1 := MkeyRange(MkeyAccess(f0, pdn), addr, len);
    var f2 := Put(f1, MKEY_UMEM_VALID, 1);
    Put(f2, MKEY_UMEM_ID, umemId)
  }

  predicate ForUser(f: Buffer, uid: int) {
    hide Get;
    Valid(UID, |f|) && Get(f, UID) == uid % 0x1_0000
  }

  lemma AllocPdFrameDecodes(uid: int)
    ensures OpOf(Command(AllocPdFrame(uid))) == AllocPd && ForUser(AllocPdFrame(uid), uid)
  {
    hide Get, Put, Pow2;
    PowersOfTwo();
    var f0 := Zeros(SHORT_FRAME_BYTES);
    PutFacts(f0, OPCODE, OP_ALLOC_PD);
    PutFacts(Put(f0, OPCODE, OP_ALLOC_PD), UID, uid);
  }

  lemma DeallocPdFrameDecodes(pdn: int, uid: int)
    ensures OpOf(Command(DeallocPdFrame(pdn, uid))) == DeallocPd(pdn % 0x100_0000)
    ensures ForUser(DeallocPdFrame(pdn, uid), uid)
  {
    hide Get, Put, Pow2;
    PowersOfTwo();
    var f0 := Zeros(SHORT_FRAME_BYTES);
    var f1 := Put(f0, OPCODE, OP_DEALLOC_PD);
    PutFacts(f0, OPCODE, OP_DEALLOC_PD);
    PutFacts(f1, HANDLE, pdn);
    PutFacts(Put(f1, HANDLE, pdn), UID, uid);
  }

  // Destroying the key built from an index names exactly that index.
  lemma DestroyMkeyFrameDecodes(index: nat)
    requires index < Pow2(24)
    ensures OpOf(Command(DestroyMkeyFrame(IdxToMkey(index)))) == DestroyMkey(index)
  {
    hide Get, Put, Pow2, IdxToMkey, MkeyToIdx;
    KeyRoundTrip(index);
    PowersOfTwo();
    var f0 := Zeros(SHORT_FRAME_BYTES);
    PutFacts(f0, OPCODE, OP_DESTROY_MKEY);
    PutFacts(Put(f0, OPCODE, OP_DESTROY_MKEY), HANDLE, index);
  }

  lemma CreateMkeyFrameDecodes(pdn: int, umemId: int, addr: int, len: int)
    ensures IsCreateFrame(CreateMkeyFrame(pdn, umemId, addr, len), pdn, umemId, addr, len)
  {
    hide Get, Put, Pow2, MkeyAccess, MkeyRange, IsAccess, IsRange;
    PowersOfTwo();
    var z := Zeros(CREATE_MKEY_BYTES);
    var f0 := Put(z, OPCODE, OP_CREATE_MKEY);
    var f1 := MkeyRange(MkeyAccess(f0, pdn), addr, len);
    var f2 := Put(f1, MKEY_UMEM_VALID, 1);
    ZeroField(z, MKC_MKEY_7_0.At(MKC_OFF));
    PutFacts(z, OPCODE, OP_CREATE_MKEY);
    MkeyAccessDecodes(f0, pdn);
    MkeyRangeDecodes(MkeyAccess(f0, pdn), pdn, addr, len);
    ContextStays(f1, MKEY_UMEM_VALID, 1, pdn, addr, len);
    ContextStays(f2, MKEY_UMEM_ID, umemId, pdn, addr, len);
    PutFacts(f1, MKEY_UMEM_VALID, 1);
    PutFacts(f2, MKEY_UMEM_ID, umemId);
  }

  lemma MkeyAccessDecodes(f: Buffer, pdn: int)
    requires |f| == CREATE_MKEY_BYTES
    ensures IsAccess(MkeyAccess(f, pdn), pdn) && SameFrameHead(f, MkeyAccess(f, pdn))
  {
    hide Get, Put, Pow2;
    PowersOfTwo();
    var f1 := Put(f, MKC_ACCESS_MODE.At(MKC_OFF), 1);
    var f2 := Put(f1, MKC_UMR_EN.At(MKC_OFF), 0);
    var f3 := Put(f2, MKC_PD.At(MKC_OFF), pdn);
    var f4 := Put(f3, MKC_LR.At(MKC_OFF), 1);
    PutFacts(f, MKC_ACCESS_MODE.At(MKC_OFF), 1);
    PutFacts(f1, MKC_UMR_EN.At(MKC_OFF), 0);
    PutFacts(f2, MKC_PD.At(MKC_OFF), pdn);
    PutFacts(f3, MKC_LR.At(MKC_OFF), 1);
    PutFacts(f4, MKC_LW.At(MKC_OFF), 1);
  }

  lemma MkeyRangeDecodes(f: Buffer, pdn: int, addr: int, len: int)
    requires |f| == CREATE_MKEY_BYTES && IsAccess(f, pdn)
    ensures IsAccess(MkeyRange(f, addr, len), pdn) && IsRange(MkeyRange(f, addr, len), addr, len)
    ensures SameFrameHead(f, MkeyRange(f, addr, len))
  {
    hide Get, Put, Pow2;
    PowersOfTwo();
    var f1 := Put(f, MKC_QPN.At(MKC_OFF), 0xffffff);
    var f2 := Put(f1, MKC_START_ADDR.At(MKC_OFF), addr);
    PutFacts(f, MKC_QPN.At(MKC_OFF), 0xffffff);
    PutFacts(f1, MKC_START_ADDR.At(MKC_OFF), addr);
    PutFacts(f2, MKC_LEN.At(MKC_OFF), len);
  }

  // Every field of the create frame reads back as written; the byte that shares
  // its dword with qpn is still zero.
  ghost predicate IsCreateFrame(f: Buffer, pdn: int, umemId: int, addr: int, len: int) {
    hide Get;
    && |f| == CREATE_MKEY_BYTES
    && Get(f, OPCODE) == OP_CREATE_MKEY
    && Get(f, MKC_MKEY_7_0.At(MKC_OFF)) == 0
    && IsAccess(f, pdn)
    && IsRange(f, addr, len)
    && Get(f, MKEY_UMEM_VALID) == 1
    && Get(f, MKEY_UMEM_ID) == umemId % 0x1_0000_0000
  }

  ghost predicate IsAccess(f: Buffer, pdn: int)
    requires |f| == CREATE_MKEY_BYTES
  {
    hide Get;
    && Get(f, MKC_ACCESS_MODE.At(MKC_OFF)) == 1
    && Get(f, MKC_UMR_EN.At(MKC_OFF)) == 0
    && Get(f, MKC_PD.At(MKC_OFF)) == pdn % 0x100_0000
    && Get(f, MKC_LR.At(MKC_OFF)) == 1
    && Get(f, MKC_LW.At(MKC_OFF)) == 1
  }

  ghost predicate IsRange(f: Buffer, addr: int, len: int)
    requires |f| == CREATE_MKEY_BYTES
  {
    hide Get;
    && Get(f, MKC_QPN.At(MKC_OFF)) == 0xffffff
    && Get(f, MKC_START_ADDR.At(MKC_OFF)) == addr % 0x1_0000_0000_0000_0000
    && Get(f, MKC_LEN.At(MKC_OFF)) == len % 0x1_0000_0000_0000_0000
  }

  ghost predicate SameFrameHead(f: Buffer, r: Buffer)
    requires |f| == |r| == CREATE_MKEY_BYTES
  {
    hide Get;
    && Get(r, OPCODE) == Get(f, OPCODE)
    && Get(r, MKC_MKEY_7_0.At(MKC_OFF)) == Get(f, MKC_MKEY_7_0.At(MKC_OFF))
  }

  // Writing outside the key context keeps it.
  lemma ContextStays(f: Buffer, g: Field, v: int, pdn: int, addr: int, len: int)
    requires |f| == CREATE_MKEY_BYTES && Valid(g, |f|) && Disjoint(g, Field(8 * MKC_OFF, 512))
    requires IsAccess(f, pdn) && IsRange(f, addr, len)
    ensures IsAccess(Put(f, g, v), pdn) && IsRange(Put(f, g, v), addr, len)
  {
    hide Get, Put, Pow2;
    PutFacts(f, g, v);
  }

  lemma CreateFrameOp(f: Buffer, pdn: int, umemId: int, addr: int, len: int)
    requires IsCreateFrame(f, pdn, umemId, addr, len)
    ensures OpOf(Command(f)) == CreateMkey(pdn % 0x100_0000, umemId % 0x1_0000_0000)
  {
    hide Get;
  }

  /* ---- the library ---- */

  // A command about a handle, and its 16-byte reply.
  method Issue(host: Host, frame: array<byte>) returns (err: int, handle: nat)
    requires host.window != frame
    modifies host`world, host.window
    ensures var t := Ask(host.env, old(host.world.dev), old(frame[..]));
            && host.world == old(host.world).(dev := t.dev)
            && err == t.err && handle == t.handle
            && (host.window != null ==> host.window[..] == Overlay(old(host.window[..]), t.dma))
  {
    hide Perform, Get, Overlay;
    var out := new byte[SHORT_FRAME_BYTES](_ => 0);
    assert out[..] == Zeros(SHORT_FRAME_BYTES);
    err := host.Cmd(frame, out);
    handle := Load(out[..], HANDLE);
  }

  method AllocPdNumber(host: Host, uid: int) returns (err: int, pdn: nat)
    modifies host`world, host.window
    ensures var t := Ask(host.env, old(host.world.dev), AllocPdFrame(uid));
            && host.world == old(host.world).(dev := t.dev)
            && err == t.err && pdn == t.handle
  {
    hide Ask, Put;
    var input := new byte[SHORT_FRAME_BYTES](_ => 0);
    assert input[..] == Zeros(SHORT_FRAME_BYTES);
    Write(input, OPCODE, OP_ALLOC_PD);
    Write(input, UID, uid);
    err, pdn := Issue(host, input);
  }

  method DeallocPdNumber(host: Host, pdn: int, uid: int) returns (err: int)
    modifies host`world, host.window
    ensures var t := Ask(host.env, old(host.world.dev), DeallocPdFrame(pdn, uid));
            && host.world == old(host.world).(dev := t.dev)
            && err == t.err
  {
    hide Ask, Put;
    var input := new byte[SHORT_FRAME_BYTES](_ => 0);
    assert input[..] == Zeros(SHORT_FRAME_BYTES);
    Write(input, OPCODE, OP_DEALLOC_PD);
    Write(input, HANDLE, pdn);
    Write(input, UID, uid);
    var h;
    err, h := Issue(host, input);
  }

  method CreateUmemMkey(host: Host, pdn: nat, umemId: nat, addr: nat, len: nat) returns (err: int, mkey: nat)
    modifies host`world, host.window
    ensures var t := Ask(host.env, old(host.world.dev), CreateMkeyFrame(pdn, umemId, addr, len));
            && host.world == old(host.world).(dev := t.dev)
            && err == t.err && (err == 0 ==> mkey == IdxToMkey(t.handle))
            && (host.window != null ==> host.window[..] == Overlay(old(host.window[..]), t.dma))
  {
    hide Ask, Put, Get, IsAccess, IsRange, Or, IdxToMkey, CreateMkeyFrame, Overlay;
    var input := new byte[CREATE_MKEY_BYTES](_ => 0);
    FillCreateMkey(input, pdn, umemId, addr, len);
    CreateMkeyFrameDecodes(pdn, umemId, addr, len);
    var handle;
    err, handle := Issue(host, input);
    if err != 0 { return err, 0; }
    mkey := Or(Load(input[..], MKC_MKEY_7_0.At(MKC_OFF)), IdxToMkey(handle));
    OrZero(IdxToMkey(handle));
  }

  method FillCreateMkey(input: array<byte>, pdn: int, umemId: int, addr: int, len: int)
    requires input[..] == Zeros(CREATE_MKEY_BYTES)
    modifies input
    ensures input[..] == CreateMkeyFrame(pdn, umemId, addr, len)
  {
    hide Put;
    Write(input, OPCODE, OP_CREATE_MKEY);
    Write(input, MKC_ACCESS_MODE.At(MKC_OFF), 1);
    Write(input, MKC_UMR_EN.At(MKC_OFF), 0);
    Write(input, MKC_PD.At(MKC_OFF), pdn);
    Write(input, MKC_LR.At(MKC_OFF), 1);
    Write(input, MKC_LW.At(MKC_OFF), 1);
    Write(input, MKC_QPN.At(MKC_OFF), 0xffffff);
    Write(input, MKC_START_ADDR.At(MKC_OFF), addr);
    Write(input, MKC_LEN.At(MKC_OFF), len);
    Write(input, MKEY_UMEM_VALID, 1);
    Write(input, MKEY_UMEM_ID, umemId);
  }

  method DestroyKey(host: Host, mkey: nat)
    modifies host`world, host.window
    ensures host.world == old(host.world).(dev := Ask(host.env, old(host.world.dev), DestroyMkeyFrame(mkey)).dev)
  {
    hide Ask, Put, MkeyToIdx;
    var input := new byte[SHORT_FRAME_BYTES](_ => 0);
    assert input[..] == Zeros(SHORT_FRAME_BYTES);
    Write(input, OPCODE, OP_DESTROY_MKEY);
    Write(input, HANDLE, MkeyToIdx(mkey));
    var e, h := Issue(host, input);
  }

  // What each of these commands does to the device's books.
  lemma AllocPdEffect(env: Env, dev: Device, uid: int)
    ensures var t := Ask(env, dev, AllocPdFrame(uid));
            Effect(dev, t.dev, AllocPd, t.handle, t.err == 0)
  {
    hide OpOf, Effect, Ask, AllocPdFrame;
    AllocPdFrameDecodes(uid);
    AskEffect(env, dev, AllocPdFrame(uid));
  }

  lemma DeallocPdEffect(env: Env, dev: Device, pdn: nat, uid: int)
    requires pdn < 0x100_0000
    ensures var t := Ask(env, dev, DeallocPdFrame(pdn, uid));
            Effect(dev, t.dev, DeallocPd(pdn), t.handle, t.err == 0)
  {
    hide OpOf, Effect, Ask, DeallocPdFrame;
    DeallocPdFrameDecodes(pdn, uid);
    AskEffect(env, dev, DeallocPdFrame(pdn, uid));
  }

  lemma CreateMkeyEffect(env: Env, dev: Device, pdn: nat, umemId: nat, addr: nat, len: nat)
    requires pdn < 0x100_0000 && umemId <= INT_MAX
    ensures var t := Ask(env, dev, CreateMkeyFrame(pdn, umemId, addr, len));
            Effect(dev, t.dev, CreateMkey(pdn, umemId), t.handle, t.err == 0)
  {
    hide OpOf, Effect, Ask, CreateMkeyFrame, IsCreateFrame;
    CreateMkeyFrameDecodes(pdn, umemId, addr, len);
    CreateFrameOp(CreateMkeyFrame(pdn, umemId, addr, len), pdn, umemId, addr, len);
    AskEffect(env, dev, CreateMkeyFrame(pdn, umemId, addr, len));
  }

  // The key built from an index releases the key of that index.
  lemma DestroyMkeyEffect(env: Env, dev: Device, index: nat)
    requires index < 0x100_0000
    ensures var t := Ask(env, dev, DestroyMkeyFrame(IdxToMkey(index)));
            Effect(dev, t.dev, DestroyMkey(index), t.handle, t.err == 0)
  {
    PowersOfTwo();
    hide OpOf, Effect, Ask, DestroyMkeyFrame, IdxToMkey, Pow2;
    DestroyMkeyFrameDecodes(index);
    AskEffect(env, dev, DestroyMkeyFrame(IdxToMkey(index)));
  }

  /* ---- registered buffers ---- */

  class UmemBuff {
    const self: nat            // address of the struct itself
    var buff: array<byte>
    var addr: nat
    var size: nat
    var umemId: nat
    var mkey: nat

    constructor (self: nat)
      ensures this.self == self && fresh(buff) && buff.Length == 0
    {
      this.self := self;
      buff := new byte[0];
      addr, size, umemId, mkey := 0, 0, 0, 0;
    }
  }

  // The struct's fields as a value; index is what the key is made of.
  datatype Buff = NoBuff | Buff(self: nat, addr: nat, size: nat, umemId: nat, index: nat)
  {
    function Mkey(): nat requires Buff? { IdxToMkey(index) }

    function Blocks(): set<nat> { if Buff? then {self, addr} else {} }
  }

  // dangling: the memory was freed although the device still has it registered.
  datatype Acquisition = Acquisition(w: World, buff: Buff, window: Buffer, dangling: bool)

  // mlx5lib_alloc_umem_mkey_buff: two blocks, the registration, the key.
  function Acquire(env: Env, w: World, size: nat, pdn: nat): (a: Acquisition)
    ensures a.buff.Buff? ==> a.buff.index < 0x100_0000 && a.buff.umemId <= INT_MAX
    ensures a.buff.Buff? ==> a.buff.size == |a.window| == AlignToPage(size)
  {
    hide AlignToPage, AskRegister, Ask, AskUnregister, CreateMkeyFrame, Overlay;
    var self := env.grant(w.allocs);
    var w1 := Allocated(env, w);
    if self == 0 then Acquisition(w1, NoBuff, [], false)
    else
      var addr := env.grant(w1.allocs);
      var w2 := Allocated(env, w1);
      if addr == 0 then Acquisition(Freed(w2, self), NoBuff, [], false)
      else
        var n := AlignToPage(size);
        var r := AskRegister(env, w2.dev, addr, n);
        if r.err < 0 then Acquisition(Freed(Freed(w2.(dev := r.dev), addr), self), NoBuff, [], false)
        else
          var k := Ask(env, r.dev, CreateMkeyFrame(pdn, r.handle, addr, ToU32(n)));
          if k.err != 0 then
            var u := AskUnregister(env, k.dev, r.handle);
            Acquisition(Freed(Freed(w2.(dev := u.dev), addr), self), NoBuff, [], u.err != 0)
          else
            Acquisition(w2.(dev := k.dev), Buff(self, addr, n, r.handle, k.handle),
                        Overlay(Zeros(n), k.dma), false)
  }

  method AllocUmemMkeyBuff(host: Host, size: nat, pdn: nat) returns (ub: UmemBuff?)
    requires host.window == null
    modifies host
    ensures var a := Acquire(host.env, old(host.world), size, pdn);
            && host.world == a.w
            && (ub == null <==> a.buff == NoBuff)
            && (ub == null ==> (host.window != null <==> a.dangling))
            && (ub != null ==>
                  && a.buff == Buff(ub.self, ub.addr, ub.size, ub.umemId, a.buff.index)
                  && ub.mkey == a.buff.Mkey()
                  && host.window == ub.buff && ub.buff[..] == a.window)
    ensures ub != null ==> fresh(ub) && fresh(ub.buff)
    ensures host.window != null ==> fresh(host.window)
  {
    hide AlignToPage, IdxToMkey, Ask, AskRegister, AskUnregister, CreateMkeyFrame, Overlay;
    var self := host.Malloc();
    if self == 0 { return null; }
    ub := new UmemBuff(self);
    ub.size := AlignToPage(size);
    var addr := host.Malloc();
    if addr == 0 {
      host.Free(self);
      return null;
    }
    ub.addr := addr;
    ub.buff := new byte[ub.size](_ => 0);
    assert ub.buff[..] == Zeros(ub.size);
    var ret := host.RegisterUmem(ub.buff, addr);
    if ret < 0 {
      host.Free(addr);
      host.Free(self);
      return null;
    }
    ub.umemId := ret;
    var err, mkey := CreateUmemMkey(host, pdn, ub.umemId, addr, ToU32(ub.size));
    if err != 0 {
      ret := host.UnregisterUmem(ub.umemId);
      host.Free(addr);
      host.Free(self);
      return null;
    }
    ub.mkey := mkey;
  }

  // The reverse of the acquisition, step by step: key, umem, memory.
  method FreeUmemMkeyBuff(host: Host, ub: UmemBuff)
    requires host.window == ub.buff
    modifies host, ub.buff
    ensures var k := Ask(host.env, old(host.world.dev), DestroyMkeyFrame(ub.mkey));
            var u := AskUnregister(host.env, k.dev, ub.umemId);
            && host.world == Freed(Freed(old(host.world).(dev := u.dev), ub.addr), ub.self)
            && host.window == if u.err == 0 then null else ub.buff
    ensures ub.addr != ub.self && {ub.addr, ub.self} <= old(host.world.heap.live) - {0} ==>
              host.world.heap == old(host.world.heap).(live := old(host.world.heap.live) - {ub.addr, ub.self})
  {
    hide Ask, AskUnregister, DestroyMkeyFrame;
    DestroyKey(host, ub.mkey);
    var ret := host.UnregisterUmem(ub.umemId);
    host.Free(ub.addr);
    host.Free(ub.self);
  }

  /* ---- what an acquisition is ---- */

  ghost predicate Grants(env: Env, w: World) {
    env.grant(w.allocs) != 0 && env.grant(w.allocs + 1) != 0
  }

  // The two questions of an acquisition.
  function RegisterLog(env: Env, w: World, size: nat): seq<Event> {
    hide AlignToPage;
    w.dev.log + [Register(env.grant(w.allocs + 1), AlignToPage(size))]
  }

  function CreateLog(env: Env, w: World, size: nat, pdn: nat, umemId: nat): seq<Event> {
    hide AlignToPage, CreateMkeyFrame;
    RegisterLog(env, w, size) +
      [Command(CreateMkeyFrame(pdn, umemId, env.grant(w.allocs + 1), ToU32(AlignToPage(size))))]
  }

  /** A buffer is acquired if and only if both blocks are granted, the device
      answers the registration with an id, and answers the creation of the key on
      that id. */
  lemma AcquiresIff(env: Env, w: World, size: nat, pdn: nat)
    ensures var r := Raw(env, RegisterLog(env, w, size));
            Acquire(env, w, size, pdn).buff.Buff? <==>
              && Grants(env, w)
              && 0 <= r.ret <= INT_MAX
              && Answered(env, CreateLog(env, w, size, pdn, r.ret), SHORT_FRAME_BYTES)
  {
    hide AlignToPage, CreateMkeyFrame, Overlay, Raw, AskUnregister, Ask, Answered;
    if Grants(env, w) {
      RegisterAnswer(env, w.dev, env.grant(w.allocs + 1), AlignToPage(size));
      var t := AskRegister(env, w.dev, env.grant(w.allocs + 1), AlignToPage(size));
      if t.err >= 0 {
        AskAnswer(env, t.dev, CreateMkeyFrame(pdn, t.handle, env.grant(w.allocs + 1), ToU32(AlignToPage(size))));
      }
    }
  }

  lemma RegisterAnswer(env: Env, dev: Device, addr: nat, len: nat)
    ensures var t, r := AskRegister(env, dev, addr, len), Raw(env, dev.log + [Register(addr, len)]).ret;
            (t.err >= 0 <==> 0 <= r <= INT_MAX) && (t.err >= 0 ==> t.err == r)
  {
    hide Raw;
  }

  lemma AskAnswer(env: Env, dev: Device, frame: Buffer)
    ensures Ask(env, dev, frame).err == 0 <==> Answered(env, dev.log + [Command(frame)], SHORT_FRAME_BYTES)
  {
    hide Perform, Answered, Get;
    PerformAnswer(env, dev, frame, SHORT_FRAME_BYTES);
  }

  // What the device was asked: nothing, or the registration, then the key, then,
  // where the key was not made, the way back.
  lemma AcquireLog(env: Env, w: World, size: nat, pdn: nat)
    ensures var a := Acquire(env, w, size, pdn);
            var r := Raw(env, RegisterLog(env, w, size));
            a.w.dev.log ==
              if !Grants(env, w) then w.dev.log
              else if !(0 <= r.ret <= INT_MAX) then RegisterLog(env, w, size)
              else CreateLog(env, w, size, pdn, r.ret) + if a.buff.Buff? then [] else [Unregister(r.ret)]
  {
    hide AlignToPage, CreateMkeyFrame, Overlay, Raw, AskUnregister, Ask;
    if Grants(env, w) {
      RegisterAnswer(env, w.dev, env.grant(w.allocs + 1), AlignToPage(size));
    }
  }

  // The device after each request of an acquisition.
  function AcquireStages(env: Env, w: World, size: nat, pdn: nat): seq<Device> {
    hide AlignToPage, AskRegister, Ask, AskUnregister, CreateMkeyFrame;
    if env.grant(w.allocs) == 0 || env.grant(w.allocs + 1) == 0 then []
    else
      var addr, n := env.grant(w.allocs + 1), AlignToPage(size);
      var r := AskRegister(env, w.dev, addr, n);
      if r.err < 0 then [r.dev]
      else
        var k := Ask(env, r.dev, CreateMkeyFrame(pdn, r.handle, addr, ToU32(n)));
        if k.err == 0 then [r.dev, k.dev] else [r.dev, k.dev, AskUnregister(env, k.dev, r.handle).dev]
  }

  // after is before with one umem and one key on it more
  ghost predicate Acquired(before: Device, after: Device, pdn: nat, umemId: nat, index: nat) {
    && umemId !in before.live.umems && index !in before.live.mkeys
    && after.live == Live(before.live.pds, before.live.umems + {umemId},
                          before.live.mkeys[index := (pdn, umemId)])
    && after.misuse == before.misuse && after.refused == before.refused
  }

  // Nothing is left behind, unless the device refused to give the umem up.
  ghost predicate Undone(before: Device, after: Device) {
    && after.misuse == before.misuse
    && after.refused >= before.refused
    && (after.refused == before.refused <==> after.live == before.live)
    && Consistent(after.live)
    && before.live.pds == after.live.pds && before.live.mkeys == after.live.mkeys
  }

  lemma KeyMade(d0: Device, d1: Device, d2: Device, pdn: nat, umemId: nat, index: nat)
    requires pdn in d0.live.pds
    requires Effect(d0, d1, RegisterUmem, umemId, true)
    requires Effect(d1, d2, CreateMkey(pdn, umemId), index, true)
    ensures d0.clashes <= d1.clashes <= d2.clashes
    ensures d2.clashes == d0.clashes ==> Acquired(d0, d2, pdn, umemId, index)
  {
  }

  lemma KeyRefused(d0: Device, d1: Device, d2: Device, d3: Device, pdn: nat, umemId: nat, index: nat, ok: bool)
    requires Consistent(d0.live) && pdn in d0.live.pds
    requires Effect(d0, d1, RegisterUmem, umemId, true)
    requires Effect(d1, d2, CreateMkey(pdn, umemId), index, false)
    requires Effect(d2, d3, UnregisterUmem(umemId), 0, ok)
    ensures d0.clashes <= d3.clashes
    ensures d3.clashes == d0.clashes ==> Undone(d0, d3) && (d3.refused == d0.refused <==> ok)
  {
    if d3.clashes == d0.clashes {
      assert !UmemInUse(d2.live, umemId);
      assert d0.live.umems + {umemId} - {umemId} == d0.live.umems;
    }
  }

  lemma NotRegistered(d0: Device, d1: Device, h: nat)
    requires Consistent(d0.live) && Effect(d0, d1, RegisterUmem, h, false)
    ensures Undone(d0, d1) && d1.clashes == d0.clashes && d1.refused == d0.refused
  {
  }

  lemma NothingDone(d: Device)
    requires Consistent(d.live)
    ensures Undone(d, d)
  {
  }

  /** The heap gains the buffer's two blocks, or nothing, on every path: what is freed
      was live and is freed once. */
  lemma AcquiredBlocks(env: Env, w: World, size: nat, pdn: nat)
    ensures var a := Acquire(env, w, size, pdn);
            && Gained(w.heap, a.w.heap, a.buff.Blocks())
            && (a.buff.Buff? && a.w.heap.overlaps == w.heap.overlaps ==> a.buff.self != a.buff.addr)
  {
    hide AlignToPage, CreateMkeyFrame, Overlay, AskUnregister, Ask, AskRegister;
    var self, addr := env.grant(w.allocs), env.grant(w.allocs + 1);
    TakeDrop(w.heap, self);
    TakeDropTwo(w.heap, self, addr);
    assert w.heap.live + {self} + {addr} == w.heap.live + {self, addr};
    assert w.heap.live + {} == w.heap.live;
  }

  /** For every outcome of every call, a device that hands out no live handle ends
      with exactly one umem and one key more, or with nothing more unless it refused
      to give the umem up; exactly then memory was freed that is still registered. */
  lemma AcquireAllOrNothing(env: Env, w: World, size: nat, pdn: nat)
    requires Consistent(w.dev.live) && pdn in w.dev.live.pds && pdn < 0x100_0000
    ensures var a := Acquire(env, w, size, pdn);
            && Gained(w.heap, a.w.heap, a.buff.Blocks())
            && w.dev.clashes <= a.w.dev.clashes
            && (a.w.dev.clashes == w.dev.clashes ==>
                  if a.buff.Buff? then
                    && Acquired(w.dev, a.w.dev, pdn, a.buff.umemId, a.buff.index)
                    && !a.dangling
                  else
                    && Undone(w.dev, a.w.dev)
                    && (a.dangling <==> a.w.dev.refused > w.dev.refused))
  {
    hide AlignToPage, CreateMkeyFrame, Overlay, Ask, AskRegister, AskUnregister, Effect, Acquired, Undone, Gained;
    NothingDone(w.dev);
    AcquiredBlocks(env, w, size, pdn);
    if Grants(env, w) {
      var addr, n := env.grant(w.allocs + 1), AlignToPage(size);
      var r := AskRegister(env, w.dev, addr, n);
      RegisterEffect(env, w.dev, addr, n);
      if r.err < 0 {
        NotRegistered(w.dev, r.dev, r.handle);
      } else {
        var k := Ask(env, r.dev, CreateMkeyFrame(pdn, r.handle, addr, ToU32(n)));
        CreateMkeyEffect(env, r.dev, pdn, r.handle, addr, ToU32(n));
        if k.err == 0 {
          KeyMade(w.dev, r.dev, k.dev, pdn, r.handle, k.handle);
        } else {
          var u := AskUnregister(env, k.dev, r.handle);
          UnregisterEffect(env, k.dev, r.handle);
          KeyRefused(w.dev, r.dev, k.dev, u.dev, pdn, r.handle, k.handle, u.err == 0);
        }
      }
    }
  }

  /** Also while a buffer is acquired, or given back because its key was refused, every
      key has its pd and its umem. */
  lemma AcquireKeepsParts(env: Env, w: World, size: nat, pdn: nat)
    requires Consistent(w.dev.live) && pdn in w.dev.live.pds && pdn < 0x100_0000
    requires Acquire(env, w, size, pdn).w.dev.clashes == w.dev.clashes
    ensures forall d :: d in AcquireStages(env, w, size, pdn) ==> Consistent(d.live)
    ensures var stages := AcquireStages(env, w, size, pdn);
            Acquire(env, w, size, pdn).w.dev == if stages == [] then w.dev else stages[|stages| - 1]
  {
    hide AlignToPage, CreateMkeyFrame, Overlay, Ask, AskRegister, AskUnregister, Effect, Consistent;
    if Grants(env, w) {
      var addr, n := env.grant(w.allocs + 1), AlignToPage(size);
      var r := AskRegister(env, w.dev, addr, n);
      RegisterEffect(env, w.dev, addr, n);
      ConsistentIff(w.dev, r.dev, RegisterUmem, r.handle, r.err >= 0);
      if r.err >= 0 {
        var k := Ask(env, r.dev, CreateMkeyFrame(pdn, r.handle, addr, ToU32(n)));
        CreateMkeyEffect(env, r.dev, pdn, r.handle, addr, ToU32(n));
        Registered(w.dev, r.dev, r.handle, pdn);
        ConsistentIff(r.dev, k.dev, CreateMkey(pdn, r.handle), k.handle, k.err == 0);
        if k.err != 0 {
          var u := AskUnregister(env, k.dev, r.handle);
          UnregisterEffect(env, k.dev, r.handle);
          StillUnused(w.dev, r.dev, k.dev, u.dev, pdn, r.handle, k.handle, u.err == 0);
          ConsistentIff(k.dev, u.dev, UnregisterUmem(r.handle), 0, u.err == 0);
        }
      }
    }
  }

  lemma Registered(d0: Device, d1: Device, umemId: nat, pdn: nat)
    requires Effect(d0, d1, RegisterUmem, umemId, true) && pdn in d0.live.pds
    ensures !Breaks(d1.live, CreateMkey(pdn, umemId)) && d0.clashes <= d1.clashes
  {
  }

  lemma StillUnused(d0: Device, d1: Device, d2: Device, d3: Device, pdn: nat, umemId: nat, index: nat, ok: bool)
    requires Consistent(d0.live) && Effect(d0, d1, RegisterUmem, umemId, true)
    requires Effect(d1, d2, CreateMkey(pdn, umemId), index, false)
    requires Effect(d2, d3, UnregisterUmem(umemId), 0, ok) && d3.clashes == d0.clashes
    ensures !Breaks(d2.live, UnregisterUmem(umemId))
  {
  }
}
