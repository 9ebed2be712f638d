/** Register access (mlx5_access_reg in reg.c): a 16-byte head, then the register. */
module Register {
  import opened Bits
  import opened Codec
  import opened FieldLaws
  import opened Layouts
  import opened Machine

  // The request frame: head fields written over a zeroed head, then the payload.
  function Frame(data: Buffer, regId: nat, arg: int, write: int): (f: Buffer)
    ensures |f| == REG_HEAD_BYTES + |data|
  {
    hide Put;
    var f0 := Zeros(REG_HEAD_BYTES) + data;
    var f1 := Put(f0, OPCODE, OP_ACCESS_REG);
    var f2 := Put(f1, OP_MOD, if write == 0 then 1 else 0);
    var f3 := Put(f2, ARGUMENT, arg);
    Put(f3, REGISTER_ID, regId)
  }

  datatype Access = Access(w: World, err: int, data: Buffer, dma: Buffer)

  function AccessReg(env: Env, w: World, input: Buffer, output: Buffer,
                     regId: nat, arg: int, write: int): (a: Access)
    ensures |a.data| == |output|
    ensures a.err != 0 ==> a.data == output
  {
    hide Perform, Frame;
    var pin, pout := env.grant(w.allocs), env.grant(w.allocs + 1);
    var w' := Freed(Freed(Allocated(env, Allocated(env, w)), pout), pin);
    if pin == 0 || pout == 0 then
      Access(w', -ENOMEM, output, [])
    else
      var x := Perform(env, w.dev, Command(Frame(input, regId, arg, write)),
                       Zeros(REG_HEAD_BYTES + |output|));
      Access(w'.(dev := x.dev), x.err, if x.err != 0 then output else x.out[REG_HEAD_BYTES..], x.dma)
  }

  method AccessRegister(host: Host, input: array<byte>, output: array<byte>,
                        regId: nat, arg: int, write: int) returns (err: int)
    requires host.window != input && host.window != output
    modifies host`world, output, host.window
    ensures var a := AccessReg(host.env, old(host.world), old(input[..]), old(output[..]), regId, arg, write);
            && host.world == a.w
            && err == a.err
            && output[..] == a.data
            && (host.window != null ==> host.window[..] == Overlay(old(host.window[..]), a.dma))
  {
    hide Perform, Frame, Get, Put;
    ghost var w0, in0, out0 := host.world, input[..], output[..];
    err := -ENOMEM;
    var pin := host.Malloc();
    var pout := host.Malloc();
    if pin != 0 && pout != 0 {
      var frame := new byte[REG_HEAD_BYTES + input.Length](_ => 0);
      var reply := new byte[REG_HEAD_BYTES + output.Length](_ => 0);
      Store(frame, REG_HEAD_BYTES, input[..]);
      assert frame[..] == Zeros(REG_HEAD_BYTES) + in0;
      FillHead(frame, input[..], regId, arg, write);
      assert reply[..] == Zeros(REG_HEAD_BYTES + |out0|);
      err := host.Cmd(frame, reply);
      if err == 0 {
        Store(output, 0, reply[REG_HEAD_BYTES..]);
      }
    }
    host.Free(pout);
    host.Free(pin);
  }

  method FillHead(frame: array<byte>, ghost data: Buffer, regId: nat, arg: int, write: int)
    requires frame[..] == Zeros(REG_HEAD_BYTES) + data
    modifies frame
    ensures frame[..] == Frame(data, regId, arg, write)
  {
    hide Put;
    Write(frame, OPCODE, OP_ACCESS_REG);
    Write(frame, OP_MOD, if write == 0 then 1 else 0);
    Write(frame, ARGUMENT, arg);
    Write(frame, REGISTER_ID, regId);
  }

  // f asks for register regId with this argument, and carries data.
  predicate IsRequest(f: Buffer, data: Buffer, regId: nat, arg: int, write: int) {
    hide Get;
    && |f| == REG_HEAD_BYTES + |data|
    && Get(f, OPCODE) == OP_ACCESS_REG
    && Get(f, OP_MOD) == (if write == 0 then 1 else 0)
    && Get(f, ARGUMENT) == arg % 0x1_0000_0000
    && Get(f, REGISTER_ID) == regId
    && f[REG_HEAD_BYTES..] == data
  }

  // The head decodes to what was asked and the payload is untouched.
  lemma FrameDecodes(data: Buffer, regId: nat, arg: int, write: int)
    requires regId < 0x1_0000
    ensures IsRequest(Frame(data, regId, arg, write), data, regId, arg, write)
  {
    hide Get, Put;
    var f0 := Zeros(REG_HEAD_BYTES) + data;
    var f1 := Put(f0, OPCODE, OP_ACCESS_REG);
    var m := if write == 0 then 1 else 0;
    var f2 := Put(f1, OP_MOD, m);
    var f3 := Put(f2, ARGUMENT, arg);
    var f4 := Put(f3, REGISTER_ID, regId);
    PutTail(f0, OPCODE, OP_ACCESS_REG, REG_HEAD_BYTES);
    PutTail(f1, OP_MOD, m, REG_HEAD_BYTES);
    PutTail(f2, ARGUMENT, arg, REG_HEAD_BYTES);
    PutTail(f3, REGISTER_ID, regId, REG_HEAD_BYTES);
    PowersOfTwo();
    GetPut(f0, OPCODE, OP_ACCESS_REG);
    GetPutElsewhere(f1, OP_MOD, m, OPCODE);
    GetPutElsewhere(f2, ARGUMENT, arg, OPCODE);
    GetPutElsewhere(f3, REGISTER_ID, regId, OPCODE);
    GetPut(f1, OP_MOD, m);
    GetPutElsewhere(f2, ARGUMENT, arg, OP_MOD);
    GetPutElsewhere(f3, REGISTER_ID, regId, OP_MOD);
    GetPut(f2, ARGUMENT, arg);
    GetPutElsewhere(f3, REGISTER_ID, regId, ARGUMENT);
    GetPut(f3, REGISTER_ID, regId);
  }

  // What an access does: on success the caller gets the register as the device
  // sent it, on failure its buffer keeps what it held; no handle changes.
  lemma AccessRegMeaning(env: Env, w: World, input: Buffer, output: Buffer,
                         regId: nat, arg: int, write: int)
    requires regId < 0x1_0000
    ensures var a := AccessReg(env, w, input, output, regId, arg, write);
            var f := Frame(input, regId, arg, write);
            var log := w.dev.log + [Command(f)];
            && IsRequest(f, input, regId, arg, write)
            && (a.err != 0 ==> a.data == output)
            && (a.err == 0 <==>
                  && env.grant(w.allocs) != 0 && env.grant(w.allocs + 1) != 0
                  && Answered(env, log, REG_HEAD_BYTES + |output|))
            && (a.err == 0 ==>
                  && a.w.dev.log == log && |log| <= env.lifetime
                  && a.data == Overlay(Zeros(REG_HEAD_BYTES + |output|), Raw(env, log).out)[REG_HEAD_BYTES..]
                  && a.dma == Raw(env, log).dma)
            && a.w.dev in {w.dev, w.dev.(log := log)}
            && Settled(w.heap, a.w.heap) && a.w.allocs == w.allocs + 2
  {
    hide Perform, Raw, IsRequest, Frame, OpOf, Overlay, Answered, Settled;
    TakeDropTwo(w.heap, env.grant(w.allocs), env.grant(w.allocs + 1));
    var f := Frame(input, regId, arg, write);
    FrameDecodes(input, regId, arg, write);
    RequestMovesNoHandle(f, input, regId, arg, write);
    CommandReply(env, w.dev, f, REG_HEAD_BYTES + |output|);
  }

  /** The result is -ENOMEM without memory, the ioctl's if it fails, and otherwise the
      status byte of the device's reply. */
  lemma AccessRegResult(env: Env, w: World, input: Buffer, output: Buffer, regId: nat, arg: int, write: int)
    ensures var r := Raw(env, w.dev.log + [Command(Frame(input, regId, arg, write))]);
            AccessReg(env, w, input, output, regId, arg, write).err ==
            if env.grant(w.allocs) == 0 || env.grant(w.allocs + 1) == 0 then -12
            else if r.ret != 0 then r.ret
            else Overlay(Zeros(16 + |output|), r.out)[0] as int
  {
    hide Perform, Raw, Frame, Overlay;
    CommandResult(env, w.dev, Frame(input, regId, arg, write), REG_HEAD_BYTES + |output|);
  }

  lemma RequestMovesNoHandle(f: Buffer, data: Buffer, regId: nat, arg: int, write: int)
    requires IsRequest(f, data, regId, arg, write)
    ensures OpOf(Command(f)) == Other
  {
    hide Get;
  }
}
