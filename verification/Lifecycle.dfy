/** What one run of the rscdump or coredump command does to handles, to the heap and
    to the device's log: for every device, every allocator and every outcome of
    every call. The device is assumed to hand out no handle that is live; it may
    refuse or carry out anything else. */
module Lifecycle {
  import opened Codec
  import opened Layouts
  import opened Machine
  import opened Register
  import opened Mlx5Lib
  import opened ResourceDump
  import opened DumpRuns
  import opened HeapRuns
  import opened RscDump

  /* ---- dumps move no handle ---- */

  // None of these questions is about a handle.
  ghost predicate AboutNoHandle(questions: seq<Event>) {
    hide OpOf;
    forall e :: e in questions ==> OpOf(e) == Other
  }

  ghost predicate OnlyAsked(before: World, after: World) {
    && after.dev == before.dev.(log := after.dev.log)
    && before.dev.log <= after.dev.log
    && AboutNoHandle(after.dev.log[|before.dev.log|..])
  }

  lemma AccessMovesNoHandle(data: Buffer, regId: nat, arg: int, write: int)
    requires regId < 0x1_0000
    ensures OpOf(Machine.Command(Frame(data, regId, arg, write))) == Other
  {
    hide Frame, IsRequest, OpOf;
    FrameDecodes(data, regId, arg, write);
    RequestMovesNoHandle(Frame(data, regId, arg, write), data, regId, arg, write);
  }

  lemma {:induction false} QuestionsMoveNoHandle(trace: seq<Exchange>)
    ensures AboutNoHandle(Questions(trace))
  {
    hide OpOf, Frame;
    if trace != [] {
      QuestionsMoveNoHandle(trace[..|trace| - 1]);
      AccessMovesNoHandle(trace[|trace| - 1].request, REG_RESOURCE_DUMP, 0, 0);
    }
  }

  lemma FaithfulOnlyAsks(env: Env, w0: World, inline: bool, init: Buffer, junk: Buffer, s: Run)
    requires |init| == DUMP_BYTES && Faithful(env, w0, inline, init, junk, s)
    ensures OnlyAsked(w0, s.w)
  {
    hide Linked, NextRequest, HasMore, Questions, Chunks, OpOf, Frame;
    QuestionsMoveNoHandle(s.trace);
    AccessMovesNoHandle(NextRequest(init, s.trace), REG_RESOURCE_DUMP, 0, 0);
    var log := w0.dev.log;
    assert (log + Questions(s.trace))[|log|..] == Questions(s.trace);
    assert (log + Questions(s.trace) + [Question(NextRequest(init, s.trace))])[|log|..] ==
           Questions(s.trace) + [Question(NextRequest(init, s.trace))];
  }

  lemma InlineOnlyAsks(env: Env, w: World, args: Args, end: Run, block: Buffer, r: Account)
    requires InlineShown(env, w, args, end, block, r)
    ensures OnlyAsked(w, r.w)
  {
    hide Inline, Faithful, Parsed, InlineRequest, AboutNoHandle;
    NoQuestions();
    if env.grant(w.allocs) != 0 {
      InlineRun(env, w, args, []);
      FaithfulOnlyAsks(env, Allocated(env, w), true, InlineRequest(args), [], end);
    } else {
      assert w.dev.log[|w.dev.log|..] == [];
    }
  }

  lemma NoQuestions()
    ensures AboutNoHandle([])
  {
  }

  lemma UmemOnlyAsks(env: Env, w: World, args: Args, b: Buff, window: Buffer, end: Run, block: Buffer, r: Account)
    requires b.Buff? && UmemShown(env, w, args, b, window, end, block, r)
    ensures OnlyAsked(w, r.w)
  {
    hide Umem, Faithful, Parsed, UmemRequest, AboutNoHandle, IdxToMkey;
    NoQuestions();
    if env.grant(w.allocs) != 0 {
      UmemRun(env, w, args, b.Mkey(), b.addr, b.size, window);
      FaithfulOnlyAsks(env, Allocated(env, w), false,
                       UmemRequest(args, b.Mkey(), b.addr, ToInt32(ToU32(b.size))), [], end);
    } else {
      assert w.dev.log[|w.dev.log|..] == [];
    }
  }

  lemma CoreOnlyAsks(env: Env, w: World, b: Buff, r: Account)
    requires CoreShown(env, w, b, r)
    ensures OnlyAsked(w, r.w)
  {
    hide AccessReg, Frame, IsRequest, Answered, Raw, Overlay, CoreRequest, IdxToMkey, OpOf, CoreSize;
    assert w.dev.log[|w.dev.log|..] == [];
    if b.Buff? {
      var request := CoreRequest(b.addr, b.size, b.Mkey());
      AccessRegMeaning(env, w, request, Zeros(CORE_DUMP_BYTES), REG_CORE_DUMP, 0, 0);
      AccessMovesNoHandle(request, REG_CORE_DUMP, 0, 0);
      var e := Machine.Command(Frame(request, REG_CORE_DUMP, 0, 0));
      assert (w.dev.log + [e])[|w.dev.log|..] == [e];
    }
  }

  lemma RanOnlyAsks(env: Env, w: World, command: RscDump.Command, args: Args, b: Buff, window: Buffer,
                    end: Run, block: Buffer, r: Account)
    requires Ran(env, w, command, args, b, window, end, block, r)
    ensures OnlyAsked(w, r.w) && !r.dangling
  {
    hide InlineShown, UmemShown, CoreShown, OnlyAsked;
    match command
    case DumpCommand =>
      if b.NoBuff? {
        InlineOnlyAsks(env, w, args, end, block, r);
        assert !r.dangling by { InlineNotDangling(env, w, args, end, block, r); }
      } else {
        UmemOnlyAsks(env, w, args, b, window, end, block, r);
        assert !r.dangling by { UmemNotDangling(env, w, args, b, window, end, block, r); }
      }
    case CoreCommand =>
      CoreOnlyAsks(env, w, b, r);
      assert !r.dangling by { CoreNotDangling(env, w, b, r); }
    case UnknownCommand =>
      NothingAsked(w);
  }

  lemma NothingAsked(w: World)
    ensures OnlyAsked(w, w)
  {
    assert w.dev.log[|w.dev.log|..] == [];
  }

  lemma InlineNotDangling(env: Env, w: World, args: Args, end: Run, block: Buffer, r: Account)
    requires InlineShown(env, w, args, end, block, r)
    ensures !r.dangling
  {
    hide Inline, Parsed, InlineRequest;
  }

  lemma UmemNotDangling(env: Env, w: World, args: Args, b: Buff, window: Buffer, end: Run, block: Buffer, r: Account)
    requires b.Buff? && UmemShown(env, w, args, b, window, end, block, r)
    ensures !r.dangling
  {
    hide Umem, Parsed, UmemRequest, IdxToMkey;
  }

  lemma CoreNotDangling(env: Env, w: World, b: Buff, r: Account)
    requires CoreShown(env, w, b, r)
    ensures !r.dangling
  {
    hide AccessReg, CoreRequest, CoreSize, IdxToMkey;
  }

  /* ---- the three releases ---- */

  // From before the pd was allocated to after it was released, with what each
  // request did.
  ghost predicate TornDown(d0: Device, d1: Device, d2: Device, d3: Device, key: Device, umem: Device, pd: Device,
                           pdn: nat, umemId: nat, index: nat, keyOk: bool, umemOk: bool, pdOk: bool)
  {
    hide Effect, Acquired;
    && Consistent(d0.live)
    && Effect(d0, d1, AllocPd, pdn, true) && d1.clashes == d0.clashes
    && Acquired(d1, d2, pdn, umemId, index) && d3 == d2.(log := d3.log) && d2.clashes == d1.clashes
    && Effect(d3, key, DestroyMkey(index), 0, keyOk)
    && Effect(key, umem, UnregisterUmem(umemId), 0, umemOk)
    && Effect(umem, pd, DeallocPd(pdn), 0, pdOk)
    && pd.clashes == d0.clashes
  }

  // Before the releases only the new key uses the new pd and the new umem.
  lemma OnlyTheKey(d0: Device, d1: Device, d2: Device, pdn: nat, umemId: nat, index: nat)
    requires Consistent(d0.live) && Effect(d0, d1, AllocPd, pdn, true) && d1.clashes == d0.clashes
    requires Acquired(d1, d2, pdn, umemId, index)
    ensures Consistent(d2.live)
    ensures forall k :: k in d2.live.mkeys && k != index ==>
                          d2.live.mkeys[k].0 != pdn && d2.live.mkeys[k].1 != umemId
    ensures index in d2.live.mkeys && d2.live.mkeys[index] == (pdn, umemId)
    ensures pdn !in d0.live.pds && umemId !in d0.live.umems && index !in d0.live.mkeys
    ensures d2.live.pds == d0.live.pds + {pdn} && d2.live.umems == d0.live.umems + {umemId}
    ensures d2.live.mkeys - {index} == d0.live.mkeys
    ensures d2.misuse == d0.misuse && d2.refused == d0.refused
  {
    assert d2.live.mkeys - {index} == d0.live.mkeys;
  }

  /** Released in this order, everything comes back exactly if the device refuses
      none of the three; then no request named a dead or busy handle. Memory stays
      registered exactly if its release failed. */
  lemma TeardownBooks(d0: Device, d1: Device, d2: Device, d3: Device, key: Device, umem: Device, pd: Device,
                      pdn: nat, umemId: nat, index: nat, keyOk: bool, umemOk: bool, pdOk: bool)
    requires TornDown(d0, d1, d2, d3, key, umem, pd, pdn, umemId, index, keyOk, umemOk, pdOk)
    ensures pd.refused >= d0.refused
    ensures pd.refused == d0.refused <==> keyOk && umemOk && pdOk
    ensures pd.refused == d0.refused <==> pd.live == d0.live
    ensures pd.refused == d0.refused ==> pd.misuse == d0.misuse
    ensures umemOk <==> pd.live.umems == d0.live.umems
  {
    hide Acquired;
    OnlyTheKey(d0, d1, d2, pdn, umemId, index);
    if keyOk {
      assert key.live.mkeys == d0.live.mkeys;
      assert !UmemInUse(key.live, umemId);
      assert !PdInUse(umem.live, pdn);
      assert d0.live.umems + {umemId} - {umemId} == d0.live.umems;
      assert d0.live.pds + {pdn} - {pdn} == d0.live.pds;
    } else {
      assert index in pd.live.mkeys;
      assert d0.live.umems + {umemId} - {umemId} == d0.live.umems;
      assert umemId in d0.live.umems + {umemId};
    }
  }

  /** While it is torn down an mkey is live only as long as its pd and its umem are,
      unless the device first refuses to destroy it and then carries out one of the
      releases behind it. */
  lemma TeardownConsistentIff(d0: Device, d1: Device, d2: Device, d3: Device, key: Device, umem: Device, pd: Device,
                              pdn: nat, umemId: nat, index: nat, keyOk: bool, umemOk: bool, pdOk: bool)
    requires TornDown(d0, d1, d2, d3, key, umem, pd, pdn, umemId, index, keyOk, umemOk, pdOk)
    ensures Consistent(d1.live) && Consistent(d2.live) && Consistent(d3.live) && Consistent(key.live)
    ensures Consistent(umem.live) && Consistent(pd.live) <==> keyOk || (!umemOk && !pdOk)
  {
    hide Acquired, Effect;
    Unfold(d0, d1, AllocPd, pdn, true);
    OnlyTheKey(d0, d1, d2, pdn, umemId, index);
    ConsistentIff(d3, key, DestroyMkey(index), 0, keyOk);
    ConsistentIff(key, umem, UnregisterUmem(umemId), 0, umemOk);
    Unfold(d3, key, DestroyMkey(index), 0, keyOk);
    Unfold(key, umem, UnregisterUmem(umemId), 0, umemOk);
    if keyOk {
      assert !UmemInUse(key.live, umemId);
      assert !PdInUse(umem.live, pdn);
      ConsistentIff(umem, pd, DeallocPd(pdn), 0, pdOk);
    } else {
      assert UmemInUse(key.live, umemId);
      if !umemOk {
        assert PdInUse(umem.live, pdn);
        ConsistentIff(umem, pd, DeallocPd(pdn), 0, pdOk);
      }
    }
  }

  lemma Unfold(before: Device, after: Device, op: Op, h: nat, ok: bool)
    requires Effect(before, after, op, h, ok)
    ensures after.live == if ok then After(before.live, op, h) else before.live
  {
  }

  /* ---- the whole command ---- */

  // The command acquired its buffer and ran to its end.
  ghost predicate Completed(env: Env, w: World, umemKb: int, r: Account) {
    hide BufferOf, PdOf;
    umemKb != 0 && IsInt(umemKb * 1024) && r.outcome.Returned?
    && PdOf(env, w).err == 0 && BufferOf(env, w, umemKb).buff.Buff?
  }

  lemma EffectOfHandle(before: Device, after: Device, op: Op, h: nat, ok: bool)
    requires Effect(before, after, op, h, ok) && IsRelease(op)
    ensures Effect(before, after, op, 0, ok)
  {
  }

  // What a completed run did, request by request.
  lemma CompletedTeardown(env: Env, w: World, command: RscDump.Command, umemKb: int, args: Args,
                          end: Run, block: Buffer, mid: Account, r: Account)
    requires DidRscDump(env, w, command, umemKb, args, end, block, mid, r) && Completed(env, w, umemKb, r)
    requires Consistent(w.dev.live) && r.w.dev.clashes == w.dev.clashes
    ensures var p, a := PdOf(env, w), BufferOf(env, w, umemKb);
            var t := Release(env, mid.w.dev, a.buff, p.handle);
            && TornDown(w.dev, p.dev, a.w.dev, mid.w.dev, t.key.dev, t.umem.dev, t.pd.dev,
                        p.handle, a.buff.umemId, a.buff.index, t.key.err == 0, t.umem.err == 0, t.pd.err == 0)
            && r.w.dev == t.pd.dev && r.dangling == (t.umem.err != 0)
            && OnlyAsked(a.w, mid.w)
  {
    hide Ran, Ask, AskUnregister, Acquire, Effect, Acquired, Undone, OnlyAsked, IdxToMkey,
         AllocPdFrame, DeallocPdFrame, DestroyMkeyFrame;
    var p, a := PdOf(env, w), BufferOf(env, w, umemKb);
    var t := Release(env, mid.w.dev, a.buff, p.handle);
    var w1 := w.(dev := p.dev);
    RanOnlyAsks(env, a.w, command, DefaultType(args), a.buff, a.window, end, block, mid);
    OnlyAskedBooks(a.w, mid.w);
    AllocPdEffect(env, w.dev, 0);
    DestroyMkeyEffect(env, mid.w.dev, a.buff.index);
    UnregisterEffect(env, t.key.dev, a.buff.umemId);
    DeallocPdEffect(env, t.umem.dev, p.handle, 0);
    EffectOfHandle(mid.w.dev, t.key.dev, DestroyMkey(a.buff.index), t.key.handle, t.key.err == 0);
    EffectOfHandle(t.umem.dev, t.pd.dev, DeallocPd(p.handle), t.pd.handle, t.pd.err == 0);
    ClashesGrow(w.dev, p.dev, AllocPd, p.handle, true);
    ClashesGrow(mid.w.dev, t.key.dev, DestroyMkey(a.buff.index), 0, t.key.err == 0);
    ClashesGrow(t.key.dev, t.umem.dev, UnregisterUmem(a.buff.umemId), 0, t.umem.err == 0);
    ClashesGrow(t.umem.dev, t.pd.dev, DeallocPd(p.handle), 0, t.pd.err == 0);
    PdAllocated(w.dev, p.dev, p.handle);
    AcquireAllOrNothing(env, w1, ToU64(umemKb * 1024), p.handle);
  }

  lemma OnlyAskedBooks(before: World, after: World)
    requires OnlyAsked(before, after)
    ensures after.dev == before.dev.(log := after.dev.log)
  {
  }

  lemma ClashesGrow(before: Device, after: Device, op: Op, h: nat, ok: bool)
    requires Effect(before, after, op, h, ok)
    ensures before.clashes <= after.clashes
  {
  }

  lemma PdAllocated(d0: Device, d1: Device, pdn: nat)
    requires Consistent(d0.live) && Effect(d0, d1, AllocPd, pdn, true)
    ensures Consistent(d1.live) && pdn in d1.live.pds
  {
  }

  // The device after every request of a run that is about a handle, and after its
  // dump: to the end of the run, however far it gets.
  function Points(env: Env, w: World, umemKb: int, mid: Account, r: Account): (points: seq<Device>)
    ensures points != []
  {
    hide PdOf, BufferOf, Release, AcquireStages;
    if umemKb == 0 then [r.w.dev]
    else
      var p, a := PdOf(env, w), BufferOf(env, w, umemKb);
      if p.err != 0 then [p.dev]
      else
        var acquired := [p.dev] + AcquireStages(env, w.(dev := p.dev), ToU64(umemKb * 1024), p.handle);
        if a.buff.NoBuff? then acquired + [r.w.dev]
        else
          var t := Release(env, mid.w.dev, a.buff, p.handle);
          acquired + [mid.w.dev, t.key.dev, t.umem.dev, t.pd.dev]
  }

  // The device refused to destroy the command's key and yet took back what it uses.
  ghost predicate TookParts(env: Env, w: World, umemKb: int, mid: Account, r: Account) {
    hide PdOf, BufferOf, Release;
    Completed(env, w, umemKb, r)
    && var t := Release(env, mid.w.dev, BufferOf(env, w, umemKb).buff, PdOf(env, w).handle);
       t.key.err != 0 && (t.umem.err == 0 || t.pd.err == 0)
  }

  /** At every point of every run that returns, whatever fails in it, each mkey has its
      pd and its umem, exactly unless the device refused to destroy the command's key
      and yet took back what it uses. */
  lemma KeysHaveTheirParts(env: Env, w: World, command: RscDump.Command, umemKb: int, args: Args,
                           end: Run, block: Buffer, mid: Account, r: Account)
    requires DidRscDump(env, w, command, umemKb, args, end, block, mid, r) && r.outcome.Returned?
    requires Consistent(w.dev.live) && r.w.dev.clashes == w.dev.clashes
    ensures (forall d :: d in Points(env, w, umemKb, mid, r) ==> Consistent(d.live))
            <==> !TookParts(env, w, umemKb, mid, r)
    ensures var points := Points(env, w, umemKb, mid, r); points[|points| - 1] == r.w.dev
  {
    hide Ran, Consistent, TornDown, OnlyAsked, PdOf, BufferOf, Release, AcquireStages, Ask, DeallocPdFrame;
    var p, a := PdOf(env, w), BufferOf(env, w, umemKb);
    if umemKb == 0 {
      RanOnlyAsks(env, w, command, DefaultType(args), NoBuff, [], end, block, r);
      OnlyAskedBooks(w, r.w);
    } else if p.err != 0 {
      PdRefused(env, w);
    } else if a.buff.NoBuff? {
      FailedParts(env, w, umemKb, r);
    } else {
      CompletedParts(env, w, command, umemKb, args, end, block, mid, r);
    }
  }

  lemma PdRefused(env: Env, w: World)
    requires Consistent(w.dev.live) && PdOf(env, w).err != 0
    ensures Consistent(PdOf(env, w).dev.live)
  {
    hide Ask, AllocPdFrame, Effect, Consistent;
    var p := PdOf(env, w);
    AllocPdEffect(env, w.dev, 0);
    ConsistentIff(w.dev, p.dev, AllocPd, p.handle, false);
  }

  // Up to the end of the acquisition.
  lemma AcquiredParts(env: Env, w: World, umemKb: int)
    requires Consistent(w.dev.live) && PdOf(env, w).err == 0
    requires BufferOf(env, w, umemKb).w.dev.clashes == w.dev.clashes
    ensures var p := PdOf(env, w);
            && Consistent(p.dev.live) && p.dev.clashes == w.dev.clashes
            && forall d :: d in AcquireStages(env, w.(dev := p.dev), ToU64(umemKb * 1024), p.handle) ==>
                             Consistent(d.live)
  {
    hide Ask, AllocPdFrame, Effect, Consistent, Acquire, AcquireStages, Acquired, Undone;
    var p := PdOf(env, w);
    var w1 := w.(dev := p.dev);
    AllocPdEffect(env, w.dev, 0);
    ClashesGrow(w.dev, p.dev, AllocPd, p.handle, true);
    PdAllocated(w.dev, p.dev, p.handle);
    AcquireAllOrNothing(env, w1, ToU64(umemKb * 1024), p.handle);
    AcquireKeepsParts(env, w1, ToU64(umemKb * 1024), p.handle);
  }

  lemma FailedParts(env: Env, w: World, umemKb: int, r: Account)
    requires var p, a := PdOf(env, w), BufferOf(env, w, umemKb);
             && p.err == 0 && a.buff.NoBuff?
             && r.w.dev == Ask(env, a.w.dev, DeallocPdFrame(p.handle, 0)).dev
    requires Consistent(w.dev.live) && r.w.dev.clashes == w.dev.clashes
    ensures var p := PdOf(env, w);
            && Consistent(p.dev.live) && Consistent(r.w.dev.live)
            && forall d :: d in AcquireStages(env, w.(dev := p.dev), ToU64(umemKb * 1024), p.handle) ==>
                             Consistent(d.live)
  {
    hide Ask, Acquire, Effect, Acquired, Undone, AllocPdFrame, DeallocPdFrame, Consistent, AcquireStages;
    var p, a := PdOf(env, w), BufferOf(env, w, umemKb);
    var t := Ask(env, a.w.dev, DeallocPdFrame(p.handle, 0));
    AllocPdEffect(env, w.dev, 0);
    DeallocPdEffect(env, a.w.dev, p.handle, 0);
    ClashesGrow(w.dev, p.dev, AllocPd, p.handle, true);
    ClashesGrow(a.w.dev, t.dev, DeallocPd(p.handle), t.handle, t.err == 0);
    PdAllocated(w.dev, p.dev, p.handle);
    AcquireAllOrNothing(env, w.(dev := p.dev), ToU64(umemKb * 1024), p.handle);
    AcquiredParts(env, w, umemKb);
    NewPdUnused(w.dev, p.dev, a.w.dev, p.handle);
    ConsistentIff(a.w.dev, t.dev, DeallocPd(p.handle), t.handle, t.err == 0);
  }

  lemma NewPdUnused(d0: Device, d1: Device, d2: Device, pdn: nat)
    requires Consistent(d0.live) && Effect(d0, d1, AllocPd, pdn, true) && d1.clashes == d0.clashes
    requires Undone(d1, d2)
    ensures Consistent(d2.live) && !Breaks(d2.live, DeallocPd(pdn))
  {
  }

  lemma CompletedParts(env: Env, w: World, command: RscDump.Command, umemKb: int, args: Args,
                       end: Run, block: Buffer, mid: Account, r: Account)
    requires DidRscDump(env, w, command, umemKb, args, end, block, mid, r) && Completed(env, w, umemKb, r)
    requires Consistent(w.dev.live) && r.w.dev.clashes == w.dev.clashes
    ensures (forall d :: d in Points(env, w, umemKb, mid, r) ==> Consistent(d.live))
            <==> !TookParts(env, w, umemKb, mid, r)
    ensures var points := Points(env, w, umemKb, mid, r); points[|points| - 1] == r.w.dev
  {
    hide DidRscDump, Consistent, TornDown, OnlyAsked, PdOf, BufferOf, Release, AcquireStages;
    CompletedTeardown(env, w, command, umemKb, args, end, block, mid, r);
    var p, a := PdOf(env, w), BufferOf(env, w, umemKb);
    var t := Release(env, mid.w.dev, a.buff, p.handle);
    TeardownConsistentIff(w.dev, p.dev, a.w.dev, mid.w.dev, t.key.dev, t.umem.dev, t.pd.dev,
                          p.handle, a.buff.umemId, a.buff.index, t.key.err == 0, t.umem.err == 0, t.pd.err == 0);
    assert a.w.dev.clashes == w.dev.clashes by {
      TornDownClashes(w.dev, p.dev, a.w.dev, mid.w.dev, t.key.dev, t.umem.dev, t.pd.dev,
                      p.handle, a.buff.umemId, a.buff.index, t.key.err == 0, t.umem.err == 0, t.pd.err == 0);
    }
    AcquiredParts(env, w, umemKb);
    var acquired := [p.dev] + AcquireStages(env, w.(dev := p.dev), ToU64(umemKb * 1024), p.handle);
    assert Points(env, w, umemKb, mid, r) == acquired + [mid.w.dev, t.key.dev, t.umem.dev, t.pd.dev];
    assert t.umem.dev in Points(env, w, umemKb, mid, r) && t.pd.dev in Points(env, w, umemKb, mid, r);
  }

  lemma TornDownClashes(d0: Device, d1: Device, d2: Device, d3: Device, key: Device, umem: Device, pd: Device,
                        pdn: nat, umemId: nat, index: nat, keyOk: bool, umemOk: bool, pdOk: bool)
    requires TornDown(d0, d1, d2, d3, key, umem, pd, pdn, umemId, index, keyOk, umemOk, pdOk)
    ensures d2.clashes == d0.clashes
  {
    hide Effect, Acquired, Consistent;
  }

  // Nothing gained and nothing lost, exactly unless a release was refused.
  ghost predicate Balanced(before: Device, after: Device) {
    && before.refused <= after.refused
    && (after.refused == before.refused <==> after.live == before.live)
    && (after.refused == before.refused ==> after.misuse == before.misuse)
  }

  lemma SameBooks(w: World, w': World)
    requires OnlyAsked(w, w')
    ensures Balanced(w.dev, w'.dev) && w'.dev.live == w.dev.live
  {
  }

  // The pd was allocated, but no buffer.
  lemma BalanceWithoutBuffer(d0: Device, d1: Device, d2: Device, d3: Device, pdn: nat, ok: bool)
    requires Consistent(d0.live) && Effect(d0, d1, AllocPd, pdn, true)
    requires Undone(d1, d2) && Effect(d2, d3, DeallocPd(pdn), 0, ok)
    requires d1.clashes == d0.clashes
    ensures Balanced(d0, d3) && (d3.live.umems == d0.live.umems <==> d2.refused == d1.refused)
  {
    assert !PdInUse(d0.live, pdn);
    assert !PdInUse(d2.live, pdn);
    assert d0.live.pds + {pdn} - {pdn} == d0.live.pds;
  }

  lemma NotAllocated(d0: Device, d1: Device, pdn: nat)
    requires Effect(d0, d1, AllocPd, pdn, false)
    ensures Balanced(d0, d1) && d1.live == d0.live
  {
  }

  /** Every run that returns leaves the device's live handles as it found them if and
      only if the device refused no release; then no request named a dead or busy
      handle. It freed registered memory exactly if some is still registered. */
  lemma BooksBalance(env: Env, w: World, command: RscDump.Command, umemKb: int, args: Args,
                     end: Run, block: Buffer, mid: Account, r: Account)
    requires DidRscDump(env, w, command, umemKb, args, end, block, mid, r) && r.outcome.Returned?
    requires Consistent(w.dev.live) && r.w.dev.clashes == w.dev.clashes
    ensures Balanced(w.dev, r.w.dev)
    ensures r.dangling <==> r.w.dev.live.umems != w.dev.live.umems
  {
    hide Ran, Ask, Acquire, Effect, Acquired, Undone, OnlyAsked, Balanced, IdxToMkey, Release,
         AllocPdFrame, DeallocPdFrame, DestroyMkeyFrame, TornDown;
    var p, a := PdOf(env, w), BufferOf(env, w, umemKb);
    AllocPdEffect(env, w.dev, 0);
    if umemKb == 0 {
      RanOnlyAsks(env, w, command, DefaultType(args), NoBuff, [], end, block, r);
      SameBooks(w, r.w);
    } else if p.err != 0 {
      NotAllocated(w.dev, p.dev, p.handle);
    } else if a.buff.Buff? {
      CompletedTeardown(env, w, command, umemKb, args, end, block, mid, r);
      var t := Release(env, mid.w.dev, a.buff, p.handle);
      TeardownBooks(w.dev, p.dev, a.w.dev, mid.w.dev, t.key.dev, t.umem.dev, t.pd.dev,
                    p.handle, a.buff.umemId, a.buff.index, t.key.err == 0, t.umem.err == 0, t.pd.err == 0);
      TornDownBalanced(w.dev, r.w.dev);
    } else {
      FailedBalance(env, w, umemKb, r);
    }
  }

  lemma TornDownBalanced(d0: Device, pd: Device)
    requires pd.refused >= d0.refused && (pd.refused == d0.refused <==> pd.live == d0.live)
    requires pd.refused == d0.refused ==> pd.misuse == d0.misuse
    ensures Balanced(d0, pd)
  {
  }

  lemma FailedBalance(env: Env, w: World, umemKb: int, r: Account)
    requires var p, a := PdOf(env, w), BufferOf(env, w, umemKb);
             && p.err == 0 && a.buff.NoBuff?
             && r.w.dev == Ask(env, a.w.dev, DeallocPdFrame(p.handle, 0)).dev && r.dangling == a.dangling
    requires Consistent(w.dev.live) && r.w.dev.clashes == w.dev.clashes
    ensures Balanced(w.dev, r.w.dev)
    ensures r.dangling <==> r.w.dev.live.umems != w.dev.live.umems
  {
    hide Ask, Acquire, Effect, Acquired, Undone, Balanced, AllocPdFrame, DeallocPdFrame;
    var p, a := PdOf(env, w), BufferOf(env, w, umemKb);
    var t := Ask(env, a.w.dev, DeallocPdFrame(p.handle, 0));
    AllocPdEffect(env, w.dev, 0);
    DeallocPdEffect(env, a.w.dev, p.handle, 0);
    EffectOfHandle(a.w.dev, t.dev, DeallocPd(p.handle), t.handle, t.err == 0);
    ClashesGrow(w.dev, p.dev, AllocPd, p.handle, true);
    ClashesGrow(a.w.dev, t.dev, DeallocPd(p.handle), 0, t.err == 0);
    PdAllocated(w.dev, p.dev, p.handle);
    AcquireAllOrNothing(env, w.(dev := p.dev), ToU64(umemKb * 1024), p.handle);
    BalanceWithoutBuffer(w.dev, p.dev, a.w.dev, t.dev, p.handle, t.err == 0);
    assert a.w.dev.refused >= p.dev.refused by { UndoneRefused(p.dev, a.w.dev); }
  }

  lemma UndoneRefused(d1: Device, d2: Device)
    requires Undone(d1, d2)
    ensures d2.refused >= d1.refused
  {
  }

  /* ---- the log ---- */

  // What a completed run asks before and after the dump.
  function Opening(env: Env, w: World, umemKb: int): seq<Event>
    requires BufferOf(env, w, umemKb).buff.Buff?
  {
    hide PdOf, BufferOf, CreateMkeyFrame, AllocPdFrame;
    var p, b := PdOf(env, w), BufferOf(env, w, umemKb).buff;
    [Machine.Command(AllocPdFrame(0)), Machine.Register(b.addr, b.size),
     Machine.Command(CreateMkeyFrame(p.handle, b.umemId, b.addr, ToU32(b.size)))]
  }

  function Closing(env: Env, w: World, umemKb: int): seq<Event>
    requires BufferOf(env, w, umemKb).buff.Buff?
  {
    hide PdOf, BufferOf, DestroyMkeyFrame, DeallocPdFrame, IdxToMkey;
    var p, b := PdOf(env, w), BufferOf(env, w, umemKb).buff;
    [Machine.Command(DestroyMkeyFrame(b.Mkey())), Unregister(b.umemId),
     Machine.Command(DeallocPdFrame(p.handle, 0))]
  }

  /** A completed run asks for pd, registration and key, then only questions about no
      handle, then gives key, registration and pd back, in that order and each
      exactly once. */
  lemma CompletedLog(env: Env, w: World, command: RscDump.Command, umemKb: int, args: Args,
                     end: Run, block: Buffer, mid: Account, r: Account) returns (asked: seq<Event>)
    requires DidRscDump(env, w, command, umemKb, args, end, block, mid, r) && Completed(env, w, umemKb, r)
    ensures BufferOf(env, w, umemKb).buff.Buff? && AboutNoHandle(asked)
    ensures r.w.dev.log == w.dev.log + Opening(env, w, umemKb) + asked + Closing(env, w, umemKb)
  {
    hide Ran, Ask, AskUnregister, Acquire, OnlyAsked, IdxToMkey, AboutNoHandle,
         AllocPdFrame, DeallocPdFrame, DestroyMkeyFrame, CreateMkeyFrame;
    var p, a := PdOf(env, w), BufferOf(env, w, umemKb);
    RanOnlyAsks(env, a.w, command, DefaultType(args), a.buff, a.window, end, block, mid);
    asked := Between(a.w, mid.w);
    AcquiredLog(env, w.(dev := p.dev), ToU64(umemKb * 1024), p.handle);
    assert a.w.dev.log == w.dev.log + Opening(env, w, umemKb);
    assert r.w.dev.log == mid.w.dev.log + Closing(env, w, umemKb);
  }

  lemma Between(before: World, after: World) returns (asked: seq<Event>)
    requires OnlyAsked(before, after)
    ensures after.dev.log == before.dev.log + asked && AboutNoHandle(asked)
  {
    hide AboutNoHandle;
    asked := after.dev.log[|before.dev.log|..];
  }

  lemma AcquiredLog(env: Env, w: World, size: nat, pdn: nat)
    ensures var a := Acquire(env, w, size, pdn);
            a.buff.Buff? ==>
              a.w.dev.log == w.dev.log + [Machine.Register(a.buff.addr, a.buff.size),
                Machine.Command(CreateMkeyFrame(pdn, a.buff.umemId, a.buff.addr, ToU32(a.buff.size)))]
  {
    hide AlignToPage, CreateMkeyFrame, Overlay, AskUnregister, Ask, AskRegister;
  }

  /* ---- return codes and the heap ---- */

  /** The command returns 0 exactly if it needs no buffer or gets one; otherwise the
      error of the pd, or -ENOMEM after giving the pd back. */
  lemma ReturnCodes(env: Env, w: World, command: RscDump.Command, umemKb: int, args: Args,
                    end: Run, block: Buffer, mid: Account, r: Account)
    requires DidRscDump(env, w, command, umemKb, args, end, block, mid, r) && r.outcome.Returned?
    ensures r.outcome.code ==
            if umemKb == 0 then 0
            else if !Answered(env, w.dev.log + [Machine.Command(AllocPdFrame(0))], SHORT_FRAME_BYTES) then
              PdOf(env, w).err
            else if BufferOf(env, w, umemKb).buff.NoBuff? then -12 else 0
    ensures r.outcome.code == 0 <==> umemKb == 0 || (PdOf(env, w).err == 0 && BufferOf(env, w, umemKb).buff.Buff?)
    ensures umemKb != 0 && r.outcome.code == -12 && PdOf(env, w).err == 0 ==>
              r.w.dev.log == BufferOf(env, w, umemKb).w.dev.log
                             + [Machine.Command(DeallocPdFrame(PdOf(env, w).handle, 0))]
  {
    hide Ask, Acquire, Ran, Release, AllocPdFrame, DeallocPdFrame, Answered, IdxToMkey;
    AskAnswer(env, w.dev, AllocPdFrame(0));
    if umemKb == 0 {
      RanCode(env, w, command, DefaultType(args), NoBuff, [], end, block, r);
    } else if PdOf(env, w).err == 0 && BufferOf(env, w, umemKb).buff.Buff? {
      var a := BufferOf(env, w, umemKb);
      RanCode(env, a.w, command, DefaultType(args), a.buff, a.window, end, block, mid);
    }
  }

  lemma RanCode(env: Env, w: World, command: RscDump.Command, args: Args, b: Buff, window: Buffer,
                end: Run, block: Buffer, r: Account)
    requires Ran(env, w, command, args, b, window, end, block, r) && r.outcome.Returned?
    ensures r.outcome.code == 0
  {
    hide Inline, Umem, AccessReg, CoreRequest, CoreSize, IdxToMkey, InlineRequest, UmemRequest,
         Segments.WalkDump, SegmentReads.ParsedInside;
  }

  // The parser's loop goes on whatever the number of its passes.
  ghost predicate LoopsForever(block: Buffer, size: int) {
    hide Segments.Passes;
    |block| >= 36 && !(0 <= size < 40) && forall n: nat :: Segments.Passes(block, size, 36, n).At?
  }

  lemma SpinIff(block: Buffer, size: int)
    ensures LoopsForever(block, size) <==> Segments.WalkDump(block, size).stop == Segments.Spin
  {
    hide Segments.Passes, Segments.WalkFrom;
    if |block| >= 36 && !(0 <= size < 40) {
      if Segments.WalkFrom(block, size, 36).stop == Segments.Spin {
        forall n: nat ensures Segments.Passes(block, size, 36, n).At? {
          Segments.SpinsForever(block, size, 36, n);
        }
      } else {
        Segments.HaltsOtherwise(block, size, 36);
      }
    }
  }

  // A dump whose collector brought something to parse, and the size it is parsed with.
  predicate Parses(env: Env, w: World, end: Run) {
    env.grant(w.allocs) != 0 && end.status != Undefined && !(end.status == DeviceError && end.data == [])
  }

  function ParsedSize(b: Buff, end: Run): int {
    if b.NoBuff? then |end.data| else ToInt32(ToU32(b.size))
  }

  lemma DumpOutcome(env: Env, w: World, args: Args, b: Buff, window: Buffer, end: Run, block: Buffer, r: Account)
    requires Ran(env, w, DumpCommand, args, b, window, end, block, r)
    ensures var inside := SegmentReads.ParsedInside(block, ParsedSize(b, end));
            && (r.outcome == Hangs <==> Parses(env, w, end) && inside && LoopsForever(block, ParsedSize(b, end)))
            && (r.outcome == UndefinedRun <==>
                  env.grant(w.allocs) != 0 && (end.status == Undefined || (Parses(env, w, end) && !inside)))
  {
    hide Inline, Umem, Segments.WalkDump, SegmentReads.ParsedInside, InlineRequest, UmemRequest, IdxToMkey,
         LoopsForever;
    SpinIff(block, ParsedSize(b, end));
  }

  /** `rscdump` never returns exactly if its parser stays inside its block and no number
      of passes ends its loop; it leaves defined behaviour exactly if its size is no
      int, the collector did, or the parser leaves the block. */
  lemma OutcomeIff(env: Env, w: World, umemKb: int, args: Args, end: Run, block: Buffer, mid: Account, r: Account)
    requires DidRscDump(env, w, DumpCommand, umemKb, args, end, block, mid, r)
    ensures var a := BufferOf(env, w, umemKb);
            var isInt := -0x8000_0000 <= umemKb * 1024 <= 0x7fff_ffff;
            var dumps := umemKb == 0 || (isInt && PdOf(env, w).err == 0 && a.buff.Buff?);
            var b, w' := if umemKb == 0 then NoBuff else a.buff, if umemKb == 0 then w else a.w;
            var inside := SegmentReads.ParsedInside(block, ParsedSize(b, end));
            && (r.outcome == Hangs <==>
                  dumps && Parses(env, w', end) && inside && LoopsForever(block, ParsedSize(b, end)))
            && (r.outcome == UndefinedRun <==>
                  || !isInt
                  || (dumps && env.grant(w'.allocs) != 0
                      && (end.status == Undefined || (Parses(env, w', end) && !inside))))
  {
    hide Ran, PdOf, BufferOf, Release, LoopsForever, SegmentReads.ParsedInside, Ask, DeallocPdFrame, Parses;
    if umemKb == 0 {
      DumpOutcome(env, w, DefaultType(args), NoBuff, [], end, block, r);
    } else if IsInt(umemKb * 1024) && PdOf(env, w).err == 0 && BufferOf(env, w, umemKb).buff.Buff? {
      var a := BufferOf(env, w, umemKb);
      DumpOutcome(env, a.w, DefaultType(args), a.buff, a.window, end, block, mid);
    }
  }

  // A dump leaves its collector's block allocated: the inline one when nothing was
  // collected, the other one always.
  function Leaked(env: Env, w: World, command: RscDump.Command, b: Buff, end: Run): set<nat> {
    if command == DumpCommand && env.grant(w.allocs) != 0
       && (b.Buff? || (end.status == DeviceError && end.data == [])) then {end.block}
    else {}
  }

  lemma NoGrant(env: Env, w: World)
    requires env.grant(w.allocs) == 0
    ensures Gained(w.heap, Allocated(env, w).heap, {})
  {
    SettledGains(w.heap, w.heap);
  }

  lemma InlineHeap(env: Env, w: World, args: Args, end: Run, block: Buffer, r: Account)
    requires InlineShown(env, w, args, end, block, r) && r.outcome != UndefinedRun
    ensures Gained(w.heap, r.w.heap, Leaked(env, w, DumpCommand, NoBuff, end))
  {
    hide Inline, Parsed, InlineRequest, Gained;
    if env.grant(w.allocs) == 0 {
      NoGrant(env, w);
    } else {
      InlineHolds(env, w, args, [], []);
      assert {} + {end.block} == {end.block};
      GainedDrop(w.heap, end.w.heap, {}, end.block);
    }
  }

  lemma UmemHeap(env: Env, w: World, args: Args, b: Buff, window: Buffer, end: Run, block: Buffer, r: Account)
    requires b.Buff? && UmemShown(env, w, args, b, window, end, block, r)
    ensures Gained(w.heap, r.w.heap, Leaked(env, w, DumpCommand, b, end))
  {
    hide Umem, Parsed, UmemRequest, IdxToMkey, Gained;
    if env.grant(w.allocs) == 0 {
      NoGrant(env, w);
    } else {
      UmemHolds(env, w, args, b.Mkey(), b.addr, b.size, window);
    }
  }

  lemma CoreHeap(env: Env, w: World, b: Buff, r: Account)
    requires CoreShown(env, w, b, r)
    ensures Gained(w.heap, r.w.heap, {})
  {
    hide AccessReg, Frame, IsRequest, Answered, Raw, Overlay, CoreRequest, IdxToMkey, CoreSize, Gained, Settled;
    if b.Buff? {
      AccessRegMeaning(env, w, CoreRequest(b.addr, b.size, b.Mkey()), Zeros(CORE_DUMP_BYTES), REG_CORE_DUMP, 0, 0);
      SettledGains(w.heap, r.w.heap);
    } else {
      NothingGained(w.heap);
    }
  }

  lemma NothingGained(h: Heap)
    ensures Gained(h, h, {})
  {
    SettledGains(h, h);
  }

  lemma RanHeap(env: Env, w: World, command: RscDump.Command, args: Args, b: Buff, window: Buffer,
                end: Run, block: Buffer, r: Account)
    requires Ran(env, w, command, args, b, window, end, block, r) && r.outcome != UndefinedRun
    ensures Gained(w.heap, r.w.heap, Leaked(env, w, command, b, end))
  {
    hide InlineShown, UmemShown, CoreShown, Gained;
    match command
    case DumpCommand =>
      if b.NoBuff? { InlineHeap(env, w, args, end, block, r); }
      else { UmemHeap(env, w, args, b, window, end, block, r); }
    case CoreCommand => CoreHeap(env, w, b, r);
    case UnknownCommand => NothingGained(w.heap);
  }

  /** On every path through the command each block it frees was live and is freed
      once, and the heap it leaves is the one it found and the block that Leaked names. */
  lemma HeapBalance(env: Env, w: World, command: RscDump.Command, umemKb: int, args: Args,
                    end: Run, block: Buffer, mid: Account, r: Account)
    requires DidRscDump(env, w, command, umemKb, args, end, block, mid, r) && r.outcome.Returned?
    ensures var a := BufferOf(env, w, umemKb);
            var leaked := if umemKb == 0 then Leaked(env, w, command, NoBuff, end)
                          else if PdOf(env, w).err == 0 && a.buff.Buff? then Leaked(env, a.w, command, a.buff, end)
                          else {};
            Gained(w.heap, r.w.heap, leaked)
  {
    hide Ask, Acquire, Ran, Release, AllocPdFrame, DeallocPdFrame, IdxToMkey, Leaked, Gained;
    var p, a := PdOf(env, w), BufferOf(env, w, umemKb);
    AcquiredBlocks(env, w.(dev := p.dev), ToU64(umemKb * 1024), p.handle);
    if umemKb == 0 {
      RanHeap(env, w, command, DefaultType(args), NoBuff, [], end, block, r);
    } else if p.err != 0 {
      NothingGained(w.heap);
    } else if a.buff.Buff? {
      RanHeap(env, a.w, command, DefaultType(args), a.buff, a.window, end, block, mid);
      BufferGivenBack(w.heap, a.w.heap, mid.w.heap, a.buff.self, a.buff.addr, Leaked(env, a.w, command, a.buff, end));
    }
  }

  lemma BufferGivenBack(h0: Heap, h1: Heap, h2: Heap, self: nat, addr: nat, leaked: set<nat>)
    requires Gained(h0, h1, {self, addr}) && (h1.overlaps == h0.overlaps ==> self != addr)
    requires Gained(h1, h2, leaked)
    ensures Gained(h0, h2.Drop(addr).Drop(self), leaked)
  {
    if h2.overlaps == h0.overlaps {
      assert h0.live + {self, addr} + leaked - {addr} - {self} == h0.live + leaked;
    }
  }

  lemma AcquireCounts(env: Env, w: World, size: nat, pdn: nat)
    ensures Counts(env, w, Acquire(env, w, size, pdn).w)
  {
    hide AlignToPage, CreateMkeyFrame, Overlay, AskUnregister, Ask, AskRegister;
  }

  lemma RanCounts(env: Env, w: World, command: RscDump.Command, args: Args, b: Buff, window: Buffer,
                  end: Run, block: Buffer, r: Account)
    requires Ran(env, w, command, args, b, window, end, block, r)
    ensures Counts(env, w, r.w)
  {
    hide AccessReg, Inline, Umem, Parsed, CoreRequest, CoreSize, IdxToMkey, InlineRequest, UmemRequest, Counted;
    BlockCounts(env, w, 0);
    BlockCounts(env, end.w, end.block);
    RunCounts(env, InlineStart(env, w, args, [], []));
    if b.Buff? {
      RunCounts(env, UmemStart(env, w, args, b.Mkey(), b.addr, b.size, window));
      RegisterCounts(env, w, CoreRequest(b.addr, b.size, b.Mkey()), Zeros(CORE_DUMP_BYTES), REG_CORE_DUMP, 0, 0);
    }
  }

  /** There is an allocator, one that counts up, that hands out no live address to any
      run of the command. */
  lemma NoOverlaps(env: Env, w: World, command: RscDump.Command, umemKb: int, args: Args,
                   end: Run, block: Buffer, mid: Account, r: Account)
    requires DidRscDump(env, w, command, umemKb, args, end, block, mid, r) && Counted(env, w)
    ensures r.w.heap.overlaps == w.heap.overlaps
  {
    hide Ran, Ask, Acquire, Release, AllocPdFrame, DeallocPdFrame, IdxToMkey;
    var p, a := PdOf(env, w), BufferOf(env, w, umemKb);
    AcquireCounts(env, w.(dev := p.dev), ToU64(umemKb * 1024), p.handle);
    if umemKb == 0 {
      RanCounts(env, w, command, DefaultType(args), NoBuff, [], end, block, r);
    } else if IsInt(umemKb * 1024) && p.err == 0 && a.buff.Buff? {
      RanCounts(env, a.w, command, DefaultType(args), a.buff, a.window, end, block, mid);
    }
  }
}
