/** What a whole run of the rscdump or coredump command asks of the device, in the
    caller's arguments: on every path, also those that leave defined behaviour. */
module CommandQuestions {
  import opened Codec
  import opened FieldLaws
  import opened Layouts
  import opened Machine
  import opened Register
  import opened Mlx5Lib
  import opened ResourceDump
  import opened EchoLaws
  import opened DumpRuns
  import opened DumpTheorems
  import opened Conversations
  import opened RscDump
  import opened Lifecycle
  import opened Wire

  /* ---- the questions of one collector ---- */

  // The event reads register 0xC000.
  ghost predicate IsDumpQuestion(e: Event) {
    hide ReadsRegister;
    e.Command? && |e.frame| >= 16 && ReadsRegister(e.frame, 0xC000, e.frame[16..])
  }

  // It does, and repeats the query of init, which it is if it comes first.
  ghost predicate Repeats(e: Event, init: Buffer, first: bool)
    requires |init| == DUMP_BYTES
  {
    hide ReadsRegister, SameQuery;
    && IsDumpQuestion(e) && |e.frame| == 16 + DUMP_BYTES
    && SameQuery(e.frame[16..], init)
    && (first ==> e.frame[16..] == init)
  }

  lemma QuestionRepeats(request: Buffer, init: Buffer, first: bool)
    requires |request| == |init| == DUMP_BYTES && SameQuery(request, init) && (first ==> request == init)
    ensures Repeats(Question(request), init, first)
  {
    hide Frame, Get, SameQuery;
    QuestionFrames(request, []);
  }

  lemma NextRepeats(env: Env, w0: World, inline: bool, init: Buffer, junk: Buffer, s: Run)
    requires |init| == DUMP_BYTES && Faithful(env, w0, inline, init, junk, s)
    ensures var next := NextRequest(init, s.trace);
            Repeats(Question(next), init, s.trace == [])
  {
    hide Linked, Chunks, Questions, Question, HasMore, SameQuery, SameCursor, Echo, Repeats;
    var next := NextRequest(init, s.trace);
    if s.trace == [] {
      SameAsItself(init);
    } else {
      EchoRule(init, s.trace[|s.trace| - 1].reply);
    }
    QuestionRepeats(next, init, s.trace == []);
  }

  ghost predicate AllRepeat(asked: seq<Event>, init: Buffer)
    requires |init| == DUMP_BYTES
  {
    hide Repeats;
    forall i :: 0 <= i < |asked| ==> Repeats(asked[i], init, i == 0)
  }

  lemma {:induction false} TraceRepeats(env: Env, w0: World, inline: bool, init: Buffer, junk: Buffer, s: Run, n: nat)
    requires |init| == DUMP_BYTES && Faithful(env, w0, inline, init, junk, s) && n <= |s.trace|
    ensures |Questions(s.trace[..n])| == n && AllRepeat(Questions(s.trace[..n]), init)
  {
    hide Faithful, Question, SameQuery, SameCursor, HasMore, Echo, Repeats;
    if n > 0 {
      TraceRepeats(env, w0, inline, init, junk, s, n - 1);
      assert s.trace[..n][..n - 1] == s.trace[..n - 1];
      RequestRule(env, w0, inline, init, junk, s, n - 1);
      SameAsItself(init);
      QuestionRepeats(s.trace[n - 1].request, init, n == 1);
    }
  }

  lemma OneMoreRepeats(asked: seq<Event>, e: Event, init: Buffer)
    requires |init| == DUMP_BYTES && AllRepeat(asked, init) && Repeats(e, init, asked == [])
    ensures AllRepeat(asked + [e], init)
  {
    hide Repeats;
  }

  lemma RunLog(env: Env, w0: World, inline: bool, init: Buffer, junk: Buffer, s: Run)
    requires |init| == DUMP_BYTES && Faithful(env, w0, inline, init, junk, s)
    ensures s.trace != [] ==> |s.trace[|s.trace| - 1].reply| == DUMP_BYTES
    ensures var log := w0.dev.log + Questions(s.trace);
            s.w.dev.log == log || s.w.dev.log == log + [Question(NextRequest(init, s.trace))]
  {
    hide Linked, Chunks, Questions, Question, HasMore, NextRequest;
  }

  // Everything a run adds to the log repeats its first request.
  lemma RunAsks(env: Env, w0: World, inline: bool, init: Buffer, junk: Buffer, s: Run) returns (asked: seq<Event>)
    requires |init| == DUMP_BYTES && Faithful(env, w0, inline, init, junk, s)
    ensures s.w.dev.log == w0.dev.log + asked && AllRepeat(asked, init)
  {
    hide Faithful, Questions, Question, NextRequest, Repeats, AllRepeat;
    TraceRepeats(env, w0, inline, init, junk, s, |s.trace|);
    RunLog(env, w0, inline, init, junk, s);
    NextRepeats(env, w0, inline, init, junk, s);
    assert s.trace[..|s.trace|] == s.trace;
    asked := Questions(s.trace);
    var next := Question(NextRequest(init, s.trace));
    OneMoreRepeats(asked, next, init);
    if s.w.dev.log != w0.dev.log + asked {
      assert w0.dev.log + asked + [next] == w0.dev.log + (asked + [next]);
      asked := asked + [next];
    }
  }

  /* ---- the command ---- */

  // What the caller's arguments make of a dump question: type 0xffff, the menu, for
  // a negative one; the indexes count for the first question only.
  ghost predicate AsksDump(e: Event, args: Args, inline: nat, first: bool) {
    hide ReadsRegister, Queries, Indexes;
    && IsDumpQuestion(e)
    && var r := e.frame[16..];
       && Queries(r, if args.ty < 0 then 0xffff else args.ty % 0x1_0000, args.vhca % 0x1_0000, inline)
       && (first ==> Indexes(r, args.index1 % 0x1_0000_0000, args.index2 % 0x1_0000_0000))
  }

  // It points the device at the buffer.
  ghost predicate AsksInto(e: Event, b: Buff) {
    hide Into;
    && e.Command? && |e.frame| >= 16 && b.Buff?
    && Into(e.frame[16..], 256 * b.index, b.size % 0x1_0000_0000, b.addr % 0x1_0000_0000_0000_0000)
  }

  ghost predicate AllAsk(asked: seq<Event>, args: Args, b: Buff) {
    hide AsksDump, AsksInto;
    forall i :: 0 <= i < |asked| ==>
      && AsksDump(asked[i], args, if b.Buff? then 0 else 1, i == 0)
      && (b.Buff? ==> AsksInto(asked[i], b))
  }

  lemma RepeatsAsks(e: Event, init: Buffer, args: Args, b: Buff, first: bool)
    requires |init| == DUMP_BYTES && Repeats(e, init, first)
    requires var ty := if args.ty < 0 then 0xffff else args.ty % 0x1_0000;
             && Queries(init, ty, args.vhca % 0x1_0000, if b.Buff? then 0 else 1)
             && Indexes(init, args.index1 % 0x1_0000_0000, args.index2 % 0x1_0000_0000)
    requires b.Buff? ==>
               Into(init, 256 * b.index, b.size % 0x1_0000_0000, b.addr % 0x1_0000_0000_0000_0000)
    ensures AsksDump(e, args, if b.Buff? then 0 else 1, first) && (b.Buff? ==> AsksInto(e, b))
  {
    hide ReadsRegister, Queries, Indexes, Into, SameQuery;
    var ty := if args.ty < 0 then 0xffff else args.ty % 0x1_0000;
    if b.Buff? {
      QueryFields(e.frame[16..], init, ty, args.vhca % 0x1_0000, 0,
                  256 * b.index, b.size % 0x1_0000_0000, b.addr % 0x1_0000_0000_0000_0000);
    } else {
      QueryFields(e.frame[16..], init, ty, args.vhca % 0x1_0000, 1, 0, 0, 0);
    }
  }

  lemma AllRepeatAsk(asked: seq<Event>, init: Buffer, args: Args, b: Buff)
    requires |init| == DUMP_BYTES && AllRepeat(asked, init)
    requires var ty := if args.ty < 0 then 0xffff else args.ty % 0x1_0000;
             && Queries(init, ty, args.vhca % 0x1_0000, if b.Buff? then 0 else 1)
             && Indexes(init, args.index1 % 0x1_0000_0000, args.index2 % 0x1_0000_0000)
    requires b.Buff? ==>
               Into(init, 256 * b.index, b.size % 0x1_0000_0000, b.addr % 0x1_0000_0000_0000_0000)
    ensures AllAsk(asked, args, b)
  {
    hide Repeats, Queries, Indexes, Into, AsksDump, AsksInto;
    forall i | 0 <= i < |asked|
      ensures AsksDump(asked[i], args, if b.Buff? then 0 else 1, i == 0) && (b.Buff? ==> AsksInto(asked[i], b))
    {
      RepeatsAsks(asked[i], init, args, b, i == 0);
    }
  }

  // Where the log of an account comes from.
  lemma InlineLog(env: Env, w: World, args: Args, end: Run, block: Buffer, r: Account)
    requires InlineShown(env, w, args, end, block, r)
    ensures if env.grant(w.allocs) == 0 then r.w.dev == w.dev
            else end == Inline(env, InlineStart(env, w, args, [], [])) && r.w.dev == end.w.dev
  {
    hide Inline, Parsed, InlineRequest;
  }

  lemma UmemLog(env: Env, w: World, args: Args, b: Buff, window: Buffer, end: Run, block: Buffer, r: Account)
    requires b.Buff? && UmemShown(env, w, args, b, window, end, block, r)
    ensures if env.grant(w.allocs) == 0 then r.w.dev == w.dev
            else && end == Umem(env, UmemStart(env, w, args, b.Mkey(), b.addr, b.size, window))
                 && r.w.dev == end.w.dev
  {
    hide Umem, Parsed, UmemRequest, IdxToMkey;
  }

  lemma InlineAsks(env: Env, w: World, args: Args, end: Run, block: Buffer, r: Account) returns (asked: seq<Event>)
    requires InlineShown(env, w, DefaultType(args), end, block, r)
    ensures r.w.dev.log == w.dev.log + asked && AllAsk(asked, args, NoBuff)
  {
    hide InlineShown, Inline, InlineStart, InlineRequest, UmemRequest, Faithful, AllRepeat, Queries, Indexes, Into,
         AllAsk;
    asked := [];
    NoEvents(args, NoBuff);
    InlineLog(env, w, DefaultType(args), end, block, r);
    if env.grant(w.allocs) != 0 {
      var init := InlineRequest(DefaultType(args));
      InlineRun(env, w, DefaultType(args), []);
      asked := RunAsks(env, Allocated(env, w), true, init, [], end);
      RequestFields(DefaultType(args), 0, 0, 0);
      AllRepeatAsk(asked, init, args, NoBuff);
    }
  }

  lemma SizeKept(size: nat)
    ensures ToInt32(ToU32(size)) % 0x1_0000_0000 == size % 0x1_0000_0000
  {
    Bits.PowersOfTwo();
    var v := ToU32(size);
    if v > INT_MAX { Bits.DivModUnique(v - 0x1_0000_0000, 0x1_0000_0000, -1, v); }
  }

  lemma KeyOfIndex(b: Buff)
    requires b.Buff? && b.index < 0x100_0000
    ensures b.Mkey() == 256 * b.index && b.Mkey() % 0x1_0000_0000 == 256 * b.index
  {
    Bits.PowersOfTwo();
    hide Bits.Pow2, IdxToMkey, MkeyToIdx, MkeyVariant;
    KeyRoundTrip(b.index);
  }

  lemma UmemAsks(env: Env, w: World, args: Args, b: Buff, window: Buffer, end: Run, block: Buffer, r: Account)
    returns (asked: seq<Event>)
    requires b.Buff? && b.index < 0x100_0000 && UmemShown(env, w, DefaultType(args), b, window, end, block, r)
    ensures r.w.dev.log == w.dev.log + asked && AllAsk(asked, args, b)
  {
    hide UmemShown, Umem, UmemStart, UmemRequest, InlineRequest, Faithful, AllRepeat, Queries, Indexes, Into, AllAsk,
         IdxToMkey;
    asked := [];
    NoEvents(args, b);
    UmemLog(env, w, DefaultType(args), b, window, end, block, r);
    if env.grant(w.allocs) != 0 {
      var size := ToInt32(ToU32(b.size));
      var init := UmemRequest(DefaultType(args), b.Mkey(), b.addr, size);
      UmemRun(env, w, DefaultType(args), b.Mkey(), b.addr, b.size, window);
      asked := RunAsks(env, Allocated(env, w), false, init, [], end);
      RequestFields(DefaultType(args), b.Mkey(), b.addr, size);
      SizeKept(b.size);
      KeyOfIndex(b);
      AllRepeatAsk(asked, init, args, b);
    }
  }

  lemma NotDumps(e: Event)
    requires OpOf(e) != Other
    ensures !IsDumpQuestion(e)
  {
    hide Get;
  }

  // None of these events asks for a dump.
  ghost predicate NoDumps(events: seq<Event>) {
    hide IsDumpQuestion;
    forall e :: e in events ==> !IsDumpQuestion(e)
  }

  lemma OpeningIsNoDump(env: Env, w: World, umemKb: int)
    requires BufferOf(env, w, umemKb).buff.Buff?
    ensures NoDumps(Opening(env, w, umemKb))
  {
    hide PdOf, BufferOf, OpOf, IsDumpQuestion, AllocPdFrame, CreateMkeyFrame, IsCreateFrame;
    var p, b := PdOf(env, w), BufferOf(env, w, umemKb).buff;
    AllocPdFrameDecodes(0);
    CreateMkeyFrameDecodes(p.handle, b.umemId, b.addr, ToU32(b.size));
    CreateFrameOp(CreateMkeyFrame(p.handle, b.umemId, b.addr, ToU32(b.size)), p.handle, b.umemId, b.addr,
                  ToU32(b.size));
    forall e | e in Opening(env, w, umemKb) ensures !IsDumpQuestion(e) {
      MemoryIsNoDump(b.addr, b.size, 0);
      NotDumps(e);
    }
  }

  lemma ClosingIsNoDump(env: Env, w: World, umemKb: int)
    requires BufferOf(env, w, umemKb).buff.Buff? && BufferOf(env, w, umemKb).buff.index < 0x100_0000
    ensures NoDumps(Closing(env, w, umemKb))
  {
    hide PdOf, BufferOf, OpOf, IsDumpQuestion, DestroyMkeyFrame, DeallocPdFrame, IdxToMkey, Bits.Pow2;
    Bits.PowersOfTwo();
    var p, b := PdOf(env, w), BufferOf(env, w, umemKb).buff;
    DestroyMkeyFrameDecodes(b.index);
    DeallocPdFrameDecodes(p.handle, 0);
    forall e | e in Closing(env, w, umemKb) ensures !IsDumpQuestion(e) {
      MemoryIsNoDump(0, 0, b.umemId);
      NotDumps(e);
    }
  }

  lemma MemoryIsNoDump(addr: nat, len: nat, id: nat)
    ensures OpOf(Machine.Register(addr, len)) != Other && OpOf(Unregister(id)) != Other
  {
  }

  // A run without pd or buffer asks for handles only.
  lemma FailureIsNoDump(env: Env, w: World, umemKb: int) returns (events: seq<Event>)
    requires PdOf(env, w).err == 0 && BufferOf(env, w, umemKb).buff.NoBuff?
    ensures var a := BufferOf(env, w, umemKb);
            var d := Ask(env, a.w.dev, DeallocPdFrame(PdOf(env, w).handle, 0)).dev;
            d.log == w.dev.log + events && NoDumps(events)
  {
    hide OpOf, IsDumpQuestion, AllocPdFrame, DeallocPdFrame, CreateMkeyFrame, IsCreateFrame, Acquire, Ask, Raw,
         AlignToPage, Answered;
    var p := PdOf(env, w);
    var w1 := w.(dev := p.dev);
    var size := ToU64(umemKb * 1024);
    AcquireLog(env, w1, size, p.handle);
    var addr, id := env.grant(w.allocs + 1), Raw(env, RegisterLog(env, w1, size)).ret;
    var create := CreateMkeyFrame(p.handle, if id < 0 then 0 else id, addr, ToU32(AlignToPage(size)));
    var all := [Machine.Command(AllocPdFrame(0)), Machine.Register(addr, AlignToPage(size)),
                Machine.Command(create), Unregister(if id < 0 then 0 else id),
                Machine.Command(DeallocPdFrame(p.handle, 0))];
    AllocPdFrameDecodes(0);
    DeallocPdFrameDecodes(p.handle, 0);
    CreateMkeyFrameDecodes(p.handle, if id < 0 then 0 else id, addr, ToU32(AlignToPage(size)));
    CreateFrameOp(create, p.handle, if id < 0 then 0 else id, addr, ToU32(AlignToPage(size)));
    MemoryIsNoDump(addr, AlignToPage(size), if id < 0 then 0 else id);
    forall e | e in all ensures !IsDumpQuestion(e) { NotDumps(e); }
    events := if !Grants(env, w1) then [all[0], all[4]]
              else if !(0 <= id <= INT_MAX) then [all[0], all[1], all[4]]
              else all;
    assert Ask(env, BufferOf(env, w, umemKb).w.dev, DeallocPdFrame(p.handle, 0)).dev.log == w.dev.log + events;
  }

  /** On every path of `rscdump` what lies in the log between the requests about handles
      are the dump's questions, and there are no others: each asks for the type and
      function of the command's own arguments, the first also for its indexes; with a
      buffer all of them point the device at it. */
  lemma DumpAsks(env: Env, w: World, umemKb: int, args: Args, end: Run, block: Buffer, mid: Account, r: Account)
    returns (before: seq<Event>, asked: seq<Event>, after: seq<Event>)
    requires DidRscDump(env, w, DumpCommand, umemKb, args, end, block, mid, r)
    ensures r.w.dev.log == w.dev.log + before + asked + after
    ensures NoDumps(before) && NoDumps(after)
    ensures umemKb == 0 ==> before == after == []
    ensures AllAsk(asked, args, if umemKb == 0 then NoBuff else BufferOf(env, w, umemKb).buff)
  {
    hide InlineShown, UmemShown, PdOf, BufferOf, Release, NoDumps, AllAsk, Opening, Closing, Ask, DeallocPdFrame;
    before, asked, after := [], [], [];
    NoEvents(args, if umemKb == 0 then NoBuff else BufferOf(env, w, umemKb).buff);
    if umemKb == 0 {
      asked := InlineAsks(env, w, args, end, block, r);
    } else if IsInt(umemKb * 1024) {
      var p, a := PdOf(env, w), BufferOf(env, w, umemKb);
      if p.err != 0 {
        before := PdIsNoDump(env, w);
        assert w.dev.log + before + asked + after == w.dev.log + before;
      } else if a.buff.NoBuff? {
        before := FailureIsNoDump(env, w, umemKb);
        assert w.dev.log + before + asked + after == w.dev.log + before;
      } else {
        before := Opening(env, w, umemKb);
        BufferIndex(env, w, umemKb);
        OpeningIsNoDump(env, w, umemKb);
        ClosingIsNoDump(env, w, umemKb);
        OpeningLog(env, w, umemKb);
        asked := UmemAsks(env, a.w, args, a.buff, a.window, end, block, mid);
        if mid.outcome.Returned? {
          after := Closing(env, w, umemKb);
          ClosingLog(env, w, umemKb, mid.w.dev);
        }
      }
    }
  }

  lemma NoEvents(args: Args, b: Buff)
    ensures NoDumps([]) && AllAsk([], args, b)
  {
  }

  lemma PdIsNoDump(env: Env, w: World) returns (events: seq<Event>)
    ensures PdOf(env, w).dev.log == w.dev.log + events && NoDumps(events)
  {
    hide Ask, AllocPdFrame, OpOf, IsDumpQuestion;
    events := [Machine.Command(AllocPdFrame(0))];
    AllocPdFrameDecodes(0);
    NotDumps(events[0]);
  }

  lemma BufferIndex(env: Env, w: World, umemKb: int)
    ensures var b := BufferOf(env, w, umemKb).buff; b.Buff? ==> b.index < 0x100_0000
  {
    hide Acquire;
  }

  lemma OpeningLog(env: Env, w: World, umemKb: int)
    requires PdOf(env, w).err == 0 && BufferOf(env, w, umemKb).buff.Buff?
    ensures BufferOf(env, w, umemKb).w.dev.log == w.dev.log + Opening(env, w, umemKb)
  {
    hide Ask, Acquire, AllocPdFrame, CreateMkeyFrame;
    var p := PdOf(env, w);
    AcquiredLog(env, w.(dev := p.dev), ToU64(umemKb * 1024), p.handle);
  }

  lemma ClosingLog(env: Env, w: World, umemKb: int, dev: Device)
    requires BufferOf(env, w, umemKb).buff.Buff?
    ensures Release(env, dev, BufferOf(env, w, umemKb).buff, PdOf(env, w).handle).pd.dev.log ==
            dev.log + Closing(env, w, umemKb)
  {
    hide Ask, AskUnregister, BufferOf, PdOf, DestroyMkeyFrame, DeallocPdFrame, IdxToMkey;
  }

  /* ---- the core dump ---- */

  // The event reads register 0x402e with a request to dump into the buffer's memory.
  ghost predicate AsksCoreDump(e: Event, b: Buff) {
    hide Get, ReadsRegister;
    && e.Command? && b.Buff? && |e.frame| == 80 && ReadsRegister(e.frame, 0x402e, e.frame[16..])
    && var r := e.frame[16..];
       && Get(r, Field(24, 8)) == 2
       && Get(r, Field(128, 32)) == 256 * b.index
       && Get(r, Field(160, 32)) == b.size % 0x1_0000_0000
       && Get(r, Field(192, 64)) == b.addr % 0x1_0000_0000_0000_0000
  }

  function CoreQuestion(b: Buff): Event
    requires b.Buff?
  {
    hide Frame, CoreRequest, IdxToMkey;
    Machine.Command(Frame(CoreRequest(b.addr, b.size, b.Mkey()), REG_CORE_DUMP, 0, 0))
  }

  lemma CoreQuestionAsks(b: Buff)
    requires b.Buff? && b.index < 0x100_0000
    ensures AsksCoreDump(CoreQuestion(b), b)
  {
    hide Get, Frame, CoreRequest, IdxToMkey, ReadsRegister;
    var request := CoreRequest(b.addr, b.size, b.Mkey());
    CoreRequestAsks(b.addr, b.size, b.Mkey());
    QuestionFrames([], request);
    CoreFrame(request);
    KeyOfIndex(b);
  }

  lemma CoreFrame(request: Buffer)
    ensures var f := Frame(request, REG_CORE_DUMP, 0, 0); f[16..] == request
  {
    hide Get, Frame;
    FrameDecodes(request, REG_CORE_DUMP, 0, 0);
  }

  // The size the device announces in its answer to log.
  function AnnouncedCore(env: Env, log: seq<Event>): nat {
    hide Raw, Overlay, Get;
    Get(Overlay(Zeros(80), Raw(env, log).out)[16..], Field(160, 32))
  }

  lemma SignedSize(reply: Buffer, size: nat)
    requires |reply| == CORE_DUMP_BYTES
    ensures CoreSize(reply) > size <==> size < Get(reply, Field(160, 32)) <= INT_MAX
  {
    hide Get, Bits.Pow2;
    GetBound(reply, CORE_SIZE);
    Bits.PowersOfTwo();
  }

  /** A core dump asks once, if it gets its memory; it then shows as many bytes of the
      buffer as the answer announces, which leaves the buffer exactly if that is a
      positive int above the buffer's size. */
  lemma CoreAsks(env: Env, w: World, b: Buff, r: Account)
    requires b.Buff? && b.index < 0x100_0000 && CoreShown(env, w, b, r)
    ensures AsksCoreDump(CoreQuestion(b), b)
    ensures var log := w.dev.log + [CoreQuestion(b)];
            && r.w.dev.log == (if Grants(env, w) then log else w.dev.log)
            && r.outcome in {Returned(0), UndefinedRun}
            && (r.outcome == UndefinedRun <==>
                  Grants(env, w) && Answered(env, log, 80) && b.size < AnnouncedCore(env, log) <= INT_MAX)
  {
    hide AccessReg, CoreRequest, CoreSize, IdxToMkey, Frame, Raw, Overlay, Get, Answered, IsRequest, Settled,
         AsksCoreDump;
    CoreQuestionAsks(b);
    var request := CoreRequest(b.addr, b.size, b.Mkey());
    var a := AccessReg(env, w, request, Zeros(CORE_DUMP_BYTES), REG_CORE_DUMP, 0, 0);
    AccessRegMeaning(env, w, request, Zeros(CORE_DUMP_BYTES), REG_CORE_DUMP, 0, 0);
    AskedIfGranted(env, w, request, Zeros(CORE_DUMP_BYTES));
    if a.err == 0 { SignedSize(a.data, b.size); }
  }

  lemma AskedIfGranted(env: Env, w: World, input: Buffer, output: Buffer)
    ensures AccessReg(env, w, input, output, REG_CORE_DUMP, 0, 0).w.dev.log ==
            if Grants(env, w) then w.dev.log + [Machine.Command(Frame(input, REG_CORE_DUMP, 0, 0))] else w.dev.log
  {
    hide Perform, Frame;
  }

  /** A completed `coredump` asks exactly that between acquiring its buffer and giving it
      back; without a buffer the command asks nothing. */
  lemma CoreRunAsks(env: Env, w: World, umemKb: int, args: Args, end: Run, block: Buffer, mid: Account, r: Account)
    requires DidRscDump(env, w, CoreCommand, umemKb, args, end, block, mid, r)
    ensures umemKb == 0 ==> r == Account(Returned(0), [], w, false)
    ensures Completed(env, w, umemKb, r) ==>
              var a := BufferOf(env, w, umemKb);
              && AsksCoreDump(CoreQuestion(a.buff), a.buff)
              && r.w.dev.log == w.dev.log + Opening(env, w, umemKb)
                                + (if Grants(env, a.w) then [CoreQuestion(a.buff)] else [])
                                + Closing(env, w, umemKb)
  {
    hide PdOf, BufferOf, Release, Opening, Closing, CoreQuestion, AsksCoreDump, Answered, AnnouncedCore, Ask;
    if Completed(env, w, umemKb, r) {
      var a := BufferOf(env, w, umemKb);
      BufferIndex(env, w, umemKb);
      MidCore(env, a.w, DefaultType(args), a.buff, a.window, end, block, mid);
      CoreAsks(env, a.w, a.buff, mid);
      OpeningLog(env, w, umemKb);
      ClosingLog(env, w, umemKb, mid.w.dev);
    }
  }

  lemma MidCore(env: Env, w: World, args: Args, b: Buff, window: Buffer, end: Run, block: Buffer, r: Account)
    requires Ran(env, w, CoreCommand, args, b, window, end, block, r)
    ensures CoreShown(env, w, b, r)
  {
    hide CoreShown;
  }
}
