/** What goes over the wire, in plain numbers: every command frame the program builds,
    field by field, at the bit offsets of mlx5_ifc.h. */
module Wire {
  import opened Bits
  import opened Codec
  import opened FieldLaws
  import opened Layouts
  import opened Machine
  import opened Register
  import opened Mlx5Lib
  import opened ResourceDump
  import opened EchoLaws
  import opened DumpTheorems
  import opened RscDump
  import opened DiagCnt

  // ACCESS_REGISTER, reading, of this register, with argument 0 and this payload.
  ghost predicate ReadsRegister(f: Buffer, register: nat, payload: Buffer) {
    hide Get;
    && |f| == 16 + |payload| && f[16..] == payload
    && Get(f, Field(0, 16)) == 0x805
    && Get(f, Field(48, 16)) == 1
    && Get(f, Field(80, 16)) == register
    && Get(f, Field(96, 32)) == 0
  }

  lemma RegisterFrame(data: Buffer, regId: nat)
    requires regId < 0x1_0000
    ensures ReadsRegister(Frame(data, regId, 0, 0), regId, data)
  {
    hide Get, Frame;
    FrameDecodes(data, regId, 0, 0);
  }

  /** The dump's questions read register 0xC000, the core dump's 0x402e. */
  lemma QuestionFrames(request: Buffer, core: Buffer)
    ensures ReadsRegister(Question(request).frame, 0xC000, request)
    ensures ReadsRegister(Frame(core, REG_CORE_DUMP, 0, 0), 0x402e, core)
  {
    hide Frame, ReadsRegister;
    RegisterFrame(request, 0xC000);
    RegisterFrame(core, 0x402e);
  }

  // A dump request's query: type and function, and how to answer.
  ghost predicate Queries(r: Buffer, ty: nat, vhca: nat, inline: nat) {
    hide Get;
    && |r| == 256
    && Get(r, Field(16, 16)) == ty && Get(r, Field(48, 16)) == vhca && Get(r, Field(1, 1)) == inline
  }

  ghost predicate Indexes(r: Buffer, index1: nat, index2: nat) {
    hide Get;
    |r| == 256 && Get(r, Field(64, 32)) == index1 && Get(r, Field(96, 32)) == index2
  }

  ghost predicate Into(r: Buffer, mkey: nat, size: nat, addr: nat) {
    hide Get;
    |r| == 256 && Get(r, Field(256, 32)) == mkey && Get(r, Field(288, 32)) == size && Get(r, Field(320, 64)) == addr
  }

  /** The first requests of both collectors. */
  lemma RequestFields(args: Args, mkey: nat, addr: nat, size: int)
    ensures var r := InlineRequest(args);
            && Queries(r, args.ty % 0x1_0000, args.vhca % 0x1_0000, 1)
            && Indexes(r, args.index1 % 0x1_0000_0000, args.index2 % 0x1_0000_0000)
    ensures var r := UmemRequest(args, mkey, addr, size);
            && Queries(r, args.ty % 0x1_0000, args.vhca % 0x1_0000, 0)
            && Indexes(r, args.index1 % 0x1_0000_0000, args.index2 % 0x1_0000_0000)
            && Into(r, mkey % 0x1_0000_0000, size % 0x1_0000_0000, addr % 0x1_0000_0000_0000_0000)
  {
    hide Get, InlineRequest, UmemRequest;
    InlineRequestAsks(args);
    UmemRequestAsks(args, mkey, addr, size);
  }

  // Whatever repeats a query has its fields.
  lemma QueryFields(r: Buffer, init: Buffer, ty: nat, vhca: nat, inline: nat, mkey: nat, size: nat, addr: nat)
    requires |r| == |init| == DUMP_BYTES && SameQuery(r, init)
    ensures Queries(init, ty, vhca, inline) ==> Queries(r, ty, vhca, inline)
    ensures Into(init, mkey, size, addr) ==> Into(r, mkey, size, addr)
  {
    hide Get;
  }

  /** The four commands about pd and key. */
  lemma HandleFrames(pdn: nat, index: nat, umemId: nat, addr: nat, len: nat)
    requires pdn < 0x100_0000 && index < 0x100_0000
    ensures Get(AllocPdFrame(0), Field(0, 16)) == 0x800
    ensures Get(DeallocPdFrame(pdn, 0), Field(0, 16)) == 0x801 && Get(DeallocPdFrame(pdn, 0), Field(72, 24)) == pdn
    ensures var f := DestroyMkeyFrame(IdxToMkey(index));
            Get(f, Field(0, 16)) == 0x202 && Get(f, Field(72, 24)) == index
    ensures var f := CreateMkeyFrame(pdn, umemId, addr, len);
            && Get(f, Field(0, 16)) == 0x200
            && Get(f, Field(97, 1)) == 1 && Get(f, Field(800, 32)) == umemId % 0x1_0000_0000
            && Get(f, Field(144, 1)) == 0 && Get(f, Field(148, 1)) == 1 && Get(f, Field(149, 1)) == 1
            && Get(f, Field(150, 2)) == 1 && Get(f, Field(160, 24)) == 0xffffff && Get(f, Field(184, 8)) == 0
            && Get(f, Field(232, 24)) == pdn
            && Get(f, Field(256, 64)) == addr % 0x1_0000_0000_0000_0000
            && Get(f, Field(320, 64)) == len % 0x1_0000_0000_0000_0000
  {
    PowersOfTwo();
    hide Get, AllocPdFrame, DeallocPdFrame, DestroyMkeyFrame, CreateMkeyFrame, IdxToMkey, Pow2;
    AllocPdFrameDecodes(0);
    DeallocPdFrameDecodes(pdn, 0);
    DestroyMkeyFrameDecodes(index);
    CreateMkeyFrameDecodes(pdn, umemId, addr, len);
  }

  // The set frame of a record.
  ghost predicate IsSetFrame(f: Buffer, p: Params) {
    hide Get;
    && |f| == 32 + 4 * |p.counters|
    && Get(f, Field(0, 16)) == 0x820
    && Get(f, Field(64, 16)) == |p.counters| % 0x1_0000
    && Get(f, Field(88, 8)) == p.logNumOfSamples % 256
    && Get(f, Field(96, 1)) == p.single % 2 && Get(f, Field(97, 1)) == p.repetitive % 2
    && Get(f, Field(98, 1)) == p.sync % 2 && Get(f, Field(99, 1)) == p.clear % 2
    && Get(f, Field(100, 1)) == p.onDemand % 2 && Get(f, Field(101, 1)) == p.enable % 2
    && Get(f, Field(120, 8)) == p.logSamplePeriod % 256
    && forall i :: 0 <= i < |p.counters| ==> Get(f, Field(272 + 32 * i, 16)) == p.counters[i] % 0x1_0000
  }

  /** The set frame, over whatever its block held, and the query. */
  lemma DiagFrames(block: Buffer, p: Params)
    requires |block| == 32 + 4 * |p.counters|
    ensures IsSetFrame(SetFrame(block, p), p)
    ensures Get(QueryFrame(), Field(0, 16)) == 0x819
  {
    hide Get, SetFrame, QueryFrame;
    SetFrameDecodes(block, p);
    QueryFrameDecodes();
    forall i | 0 <= i < |p.counters|
      ensures Get(SetFrame(block, p), Field(272 + 32 * i, 16)) == p.counters[i] % 0x1_0000
    {
      assert CounterField(i) == Field(272 + 32 * i, 16);
    }
  }

  // A set frame with enable 1 and n counters, of which number i is v.
  ghost predicate Sends(f: Buffer, n: nat, i: nat, v: nat) {
    hide Get;
    && i < n && |f| == 32 + 4 * n
    && Get(f, Field(0, 16)) == 0x820 && Get(f, Field(101, 1)) == 1
    && Get(f, Field(64, 16)) == n % 0x1_0000
    && Get(f, Field(272 + 32 * i, 16)) == v % 0x1_0000
  }

  lemma SetFrameSends(f: Buffer, p: Params, i: nat)
    requires IsSetFrame(f, p) && p.enable == 1 && i < |p.counters|
    ensures Sends(f, |p.counters|, i, p.counters[i])
  {
    hide Get;
  }

  lemma SendsSame(f: Buffer, n: nat, i: nat, v: nat, v': nat)
    requires Sends(f, n, i, v) && v % 0x1_0000 == v' % 0x1_0000
    ensures Sends(f, n, i, v')
  {
    hide Get;
  }
}
