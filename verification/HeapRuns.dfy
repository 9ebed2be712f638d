/** What a run of either collector does to the heap: on every exit it holds one block
    more than before, the one its state names, and has freed only blocks of its own. */
module HeapRuns {
  import opened Codec
  import opened Layouts
  import opened Machine
  import opened Register
  import opened ResourceDump

  ghost predicate Holds(before: Heap, s: Run) {
    hide Gained;
    s.block != 0 && Gained(before, s.w.heap, {s.block})
  }

  lemma RoundSettles(env: Env, w: World, request: Buffer, reply: Buffer)
    requires |request| == |reply| == DUMP_BYTES
    ensures Settled(w.heap, Iterate(env, w, request, reply).w.heap)
  {
    hide Settled, Iterate, Question, Raw, Overlay, Echo, InSequence, HasMore, Answered;
    IterateMeaning(env, w, request, reply);
  }

  lemma RoundHolds(env: Env, before: Heap, s: Run)
    requires s.Valid() && Holds(before, s)
    ensures Holds(before, s.Received(Iterate(env, s.w, s.request, s.reply)))
  {
    hide Iterate, Settled, Gained;
    var r := Iterate(env, s.w, s.request, s.reply);
    RoundSettles(env, s.w, s.request, s.reply);
    SettledGains(s.w.heap, r.w.heap);
    GainedTwice(before, s.w.heap, r.w.heap, {s.block}, {});
    assert {s.block} + {} == {s.block};
  }

  // realloc gives the old block back when it grants a new one.
  lemma RoomHolds(env: Env, before: Heap, s: Run, n: int)
    requires Holds(before, s)
    ensures Holds(before, MakeRoom(env, s, n))
  {
    hide Gained;
    var p := env.grant(s.w.allocs);
    if p != 0 {
      var dropped := s.w.heap.Drop(s.block);
      assert {} + {s.block} == {s.block} && {} + {p} == {p};
      GainedDrop(before, s.w.heap, {}, s.block);
      TakeGains(dropped, p);
      GainedTwice(before, dropped, dropped.Take(p), {}, {p});
    }
  }

  lemma StepHolds(env: Env, before: Heap, s: Run)
    requires s.Valid() && s.status == Running && Holds(before, s)
    ensures Holds(before, InlineStep(env, s)) && Holds(before, UmemStep(env, s))
  {
    hide Iterate, Gained, MakeRoom, ReportedSize;
    var r := Iterate(env, s.w, s.request, s.reply);
    RoundHolds(env, before, s);
    RoomHolds(env, before, s.Received(r), ReportedSize(r.reply));
  }

  lemma {:induction false} RunHolds(env: Env, before: Heap, s: Run)
    requires s.Valid() && Holds(before, s)
    ensures Holds(before, Inline(env, s)) && Holds(before, Umem(env, s))
    decreases s.Rounds(env)
  {
    hide Holds, InlineStep, UmemStep;
    if s.status == Running {
      StepProgress(env, s);
      StepHolds(env, before, s);
      RunHolds(env, before, InlineStep(env, s));
      RunHolds(env, before, UmemStep(env, s));
    }
  }

  /** Whatever the device and the allocator do, a collector that got its first block
      ends with exactly one block more than it found. */
  lemma InlineHolds(env: Env, w: World, args: Args, junk: Buffer, window: Buffer)
    requires env.grant(w.allocs) != 0
    ensures Holds(w.heap, Inline(env, InlineStart(env, w, args, junk, window)))
  {
    hide Inline, Umem, InlineRequest, Gained;
    TakeGains(w.heap, env.grant(w.allocs));
    RunHolds(env, w.heap, InlineStart(env, w, args, junk, window));
  }

  lemma UmemHolds(env: Env, w: World, args: Args, mkey: nat, addr: nat, size: nat, window: Buffer)
    requires env.grant(w.allocs) != 0
    ensures Holds(w.heap, Umem(env, UmemStart(env, w, args, mkey, addr, size, window)))
  {
    hide Inline, Umem, UmemRequest, Gained;
    TakeGains(w.heap, env.grant(w.allocs));
    RunHolds(env, w.heap, UmemStart(env, w, args, mkey, addr, size, window));
  }

  /* ---- an allocator that hands out no live address ---- */

  // It counts up, so every live block lies below what comes next.
  ghost predicate Counted(env: Env, w: World) {
    (forall k: nat :: env.grant(k) == k + 1) && (forall p :: p in w.heap.live ==> p <= w.allocs)
  }

  ghost predicate Counts(env: Env, w: World, after: World) {
    hide Counted;
    Counted(env, w) ==> Counted(env, after) && after.heap.overlaps == w.heap.overlaps
  }

  lemma BlockCounts(env: Env, w: World, p: nat)
    ensures Counts(env, w, Allocated(env, w)) && Counts(env, w, Freed(w, p)) && Counts(env, w, Reallocated(env, w, p))
  {
  }

  lemma DeviceCounts(env: Env, w: World, dev: Device)
    ensures Counts(env, w, w.(dev := dev))
  {
  }

  lemma RegisterCounts(env: Env, w: World, input: Buffer, output: Buffer, regId: nat, arg: int, write: int)
    ensures Counts(env, w, AccessReg(env, w, input, output, regId, arg, write).w)
  {
    hide Perform, Frame;
  }

  lemma StepCounts(env: Env, s: Run)
    requires s.Valid() && s.status == Running
    ensures Counts(env, s.w, InlineStep(env, s).w) && Counts(env, s.w, UmemStep(env, s).w)
  {
    hide AccessReg, Echo, HasMore, InSequence, ReportedSize, MakeRoom, Allocated, Freed, Reallocated, Counted;
    RegisterCounts(env, s.w, s.request, s.reply, REG_RESOURCE_DUMP, 0, 0);
    var r := Iterate(env, s.w, s.request, s.reply);
    RoomCounts(env, s.Received(r), ReportedSize(r.reply));
  }

  lemma RoomCounts(env: Env, s: Run, n: int)
    ensures Counts(env, s.w, MakeRoom(env, s, n).w)
  {
    hide Allocated, Freed, Reallocated, Counted;
    BlockCounts(env, s.w, s.block);
  }

  lemma {:induction false} RunCounts(env: Env, s: Run)
    requires s.Valid()
    ensures Counts(env, s.w, Inline(env, s).w) && Counts(env, s.w, Umem(env, s).w)
    decreases s.Rounds(env)
  {
    hide Counted, InlineStep, UmemStep;
    if s.status == Running {
      StepProgress(env, s);
      StepCounts(env, s);
      RunCounts(env, InlineStep(env, s));
      RunCounts(env, UmemStep(env, s));
    }
  }
}
