/** How far the two collectors get: served by a prompt device, with memory to have,
    each returns the whole stream, or the device has died, or the stream is too long
    for the collector; and which streams are too long. */
module Completeness {
  import opened Codec
  import opened FieldLaws
  import opened Layouts
  import opened Machine
  import opened ResourceDump
  import opened EchoLaws
  import opened DumpRuns
  import opened DumpTheorems
  import opened Conversations
  import opened Service

  // A run of the session that goes on, with a prompt and honest device.
  ghost predicate Underway(env: Env, w0: World, junk: Buffer, s: Run, x: Session) {
    hide RunOf, Honest, Prompt;
    && RunOf(env, w0, junk, s, x)
    && Honest(env, x) && x.place(x.init) == 0 && Prompt(env, x)
    && s.status == Running && s.Valid()
  }

  lemma RequestPlace(env: Env, w0: World, junk: Buffer, s: Run, x: Session)
    requires RunOf(env, w0, junk, s, x) && Honest(env, x) && x.place(x.init) == 0 && s.status == Running
    ensures |junk| <= |s.data| && s.Valid()
    ensures InSession(env, x, s.w.dev.log, s.request)
    ensures x.place(s.request) == |s.data| - |junk|
  {
    hide Faithful, Honest, HasMore, Echo, SameQuery, SameCursor, Chunks, InSession, Talk, Questions;
    NextTalks(env, w0, x.inline, x.init, junk, s);
    FaithfulData(env, w0, x.inline, x.init, junk, s);
    RunningRequest(env, w0, x.inline, x.init, junk, s);
    if s.trace != [] {
      LastCursor(env, w0, junk, s, x);
      EchoRule(x.init, s.trace[|s.trace| - 1].reply);
      PlaceEchoed(env, x, s.request, s.trace[|s.trace| - 1].reply);
    }
    Joins(env, x, s.w.dev.log, s.request);
  }

  lemma Joins(env: Env, x: Session, log: seq<Event>, request: Buffer)
    requires |request| == DUMP_BYTES && Talk(env, x.log, x.init, log, request) && x.place(request) <= |x.stream|
    ensures InSession(env, x, log, request)
  {
    hide Talk;
  }

  lemma LastCursor(env: Env, w0: World, junk: Buffer, s: Run, x: Session)
    requires RunOf(env, w0, junk, s, x) && Honest(env, x) && x.place(x.init) == 0 && s.trace != []
    requires var e := s.trace[|s.trace| - 1]; |e.reply| == DUMP_BYTES && HasMore(e.reply)
    ensures x.place(s.trace[|s.trace| - 1].reply) == |Chunks(s.trace)| <= |x.stream|
  {
    hide RunOf, Honest, HasMore, Carries, AtPrefix, Chunks, InSession;
    TracePrefix(env, w0, junk, s, x, |s.trace| - 1);
    LastPlace(s.trace, x);
  }

  lemma LastPlace(trace: seq<Exchange>, x: Session)
    requires trace != [] && Carries(trace[|trace| - 1], x, |Chunks(trace[..|trace| - 1])|)
    requires |trace[|trace| - 1].reply| == DUMP_BYTES && HasMore(trace[|trace| - 1].reply)
    ensures x.place(trace[|trace| - 1].reply) == |Chunks(trace)| <= |x.stream|
  {
    hide HasMore, Get, ReportedSize, InSequence;
    ReplyRead(trace[|trace| - 1].reply, trace[|trace| - 1].reply);
  }

  // The next round of a run under way serves the stream, while the device lives.
  lemma NextRound(env: Env, w0: World, junk: Buffer, s: Run, x: Session)
    requires Underway(env, w0, junk, s, x) && Granted(env, s.w.allocs, s.w.allocs + 2)
    ensures s.Valid() && |junk| <= |s.data| <= |junk| + |x.stream|
    ensures InSession(env, x, s.w.dev.log, s.request)
    ensures var r := Iterate(env, s.w, s.request, s.reply);
            var log := s.w.dev.log + [Question(s.request)];
            if |s.w.dev.log| < env.lifetime then
              && r.code >= 0 && r.w.dev.log == log
              && r.reply == SentRegister(env, log) && r.dma == Raw(env, log).dma
              && (r.code > 0 <==> HasMore(r.reply))
              && Serves(env, log, x, |s.data| - |junk|)
            else
              r.code < 0 && |r.w.dev.log| >= env.lifetime
  {
    hide Faithful, Honest, Prompt, HasMore, Serves, Iterate, Question, SentRegister, Raw, InSequence, Answered,
         Talk;
    RequestPlace(env, w0, junk, s, x);
    RoundFacts(env, s);
    if |s.w.dev.log| < env.lifetime {
      PromptAnswer(env, x, s.w.dev.log, s.request);
      Accepted(env, s);
      HonestServes(env, x, s.w.dev.log, s.request);
    } else {
      RoundIsAsked(env, s.w, s.request, s.reply);
    }
  }

  lemma PromptAnswer(env: Env, x: Session, log: seq<Event>, request: Buffer)
    requires Prompt(env, x) && InSession(env, x, log, request) && |log| < env.lifetime
    ensures |request| == DUMP_BYTES
    ensures Answered(env, log + [Question(request)], REPLY_BYTES)
    ensures InSequence(request, SentRegister(env, log + [Question(request)]))
  {
    hide Answered, SentRegister, Question, InSequence, Talk;
  }

  lemma HonestServes(env: Env, x: Session, log: seq<Event>, request: Buffer)
    requires Honest(env, x) && InSession(env, x, log, request)
    requires Answered(env, log + [Question(request)], REPLY_BYTES)
    ensures x.place(request) <= |x.stream|
    ensures Serves(env, log + [Question(request)], x, x.place(request))
  {
    hide Answered, Serves, Question, Talk;
  }

  lemma Accepted(env: Env, s: Run)
    requires s.Valid() && Granted(env, s.w.allocs, s.w.allocs + 2)
    requires Answered(env, s.w.dev.log + [Question(s.request)], REPLY_BYTES)
    requires InSequence(s.request, SentRegister(env, s.w.dev.log + [Question(s.request)]))
    ensures Iterate(env, s.w, s.request, s.reply).code >= 0
  {
    hide Iterate, Question, Raw, Overlay, Echo, InSequence, HasMore, Answered;
    IterateMeaning(env, s.w, s.request, s.reply);
  }

  lemma ServesFacts(env: Env, log: seq<Event>, x: Session, p: nat)
    requires p <= |x.stream| && Serves(env, log, x, p)
    ensures var reply := SentRegister(env, log);
            var n := ReportedSize(reply);
            && n == Get(reply, SIZE)
            && 0 <= n <= |x.stream| - p
            && n <= (if x.inline then INLINE_MAX else |Raw(env, log).dma|)
  {
    hide SentRegister, ReportedSize, Raw, HasMore, Get, InSequence;
    ReplyRead(SentRegister(env, log), SentRegister(env, log));
  }

  // With a device that is progressive as well, every round but the last brings
  // a byte.
  ghost predicate Productive(env: Env, x: Session, junk: Buffer, s: Run) {
    hide Progressive;
    Progressive(env, x) ==> |s.w.dev.log| + |junk| <= |x.log| + |s.data|
  }

  lemma MoreIsSomething(env: Env, x: Session, log: seq<Event>, request: Buffer)
    requires Progressive(env, x) && InSession(env, x, log, request)
    requires HasMore(SentRegister(env, log + [Question(request)]))
    ensures Get(SentRegister(env, log + [Question(request)]), SIZE) > 0
  {
    hide SentRegister, Question, HasMore, ReportedSize, InSession, Get, InSequence;
    var reply := SentRegister(env, log + [Question(request)]);
    ReplyRead(reply, reply);
  }

  // What a step under way leads to, when limit bytes fit the collector.
  ghost predicate Advances(env: Env, x: Session, junk: Buffer, s: Run, t: Run, limit: nat) {
    hide Progressive;
    if |s.w.dev.log| >= env.lifetime then t.status == DeviceError && |t.w.dev.log| >= env.lifetime
    else if t.status == Undefined then |junk| + |x.stream| > limit
    else
      && t.status in {Running, Done} && |t.w.dev.log| == |s.w.dev.log| + 1
      && (t.status == Running && Progressive(env, x) ==> |t.data| > |s.data|)
  }

  // How such a run ends.
  ghost predicate Concludes(env: Env, x: Session, junk: Buffer, t: Run, limit: nat) {
    hide Progressive;
    && t.status in {Done, Undefined, DeviceError}
    && (t.status == Undefined ==> |junk| + |x.stream| > limit)
    && (t.status == DeviceError ==> |t.w.dev.log| >= env.lifetime)
    && (Progressive(env, x) ==>
          && (t.status == Done ==> |t.w.dev.log| <= |x.log| + |x.stream| + 1)
          && (|x.log| + |x.stream| < env.lifetime ==> t.status != DeviceError))
  }

  // A progressive device with enough life left does not die.
  lemma LivesOn(env: Env, x: Session, junk: Buffer, t: Run, limit: nat)
    requires Concludes(env, x, junk, t, limit) && Progressive(env, x) && |x.log| + |x.stream| < env.lifetime
    ensures t.status != DeviceError
  {
    hide Progressive;
  }

  lemma ConcludesNow(env: Env, junk: Buffer, s: Run, x: Session, t: Run, limit: nat)
    requires |junk| <= |s.data| <= |junk| + |x.stream| && Productive(env, x, junk, s)
    requires Advances(env, x, junk, s, t, limit) && t.status != Running
    ensures Concludes(env, x, junk, t, limit)
  {
    hide Progressive;
  }

  lemma StaysProductive(env: Env, junk: Buffer, s: Run, x: Session, t: Run, limit: nat)
    requires Productive(env, x, junk, s) && Advances(env, x, junk, s, t, limit) && t.status == Running
    ensures Productive(env, x, junk, t)
  {
    hide Progressive;
  }

  // A step of the session's collector, and its run to the end.
  lemma StepUnderway(env: Env, w0: World, junk: Buffer, s: Run, x: Session)
    requires Underway(env, w0, junk, s, x)
    ensures s.Valid()
    ensures var t := if x.inline then InlineStep(env, s) else UmemStep(env, s);
            t.status == Running ==> Underway(env, w0, junk, t, x)
  {
    hide Faithful, Honest, Prompt, InlineStep, UmemStep;
    RunIsValid(env, w0, x.inline, x.init, junk, s);
    StepFaithful(env, w0, x.inline, x.init, junk, s);
  }

  // What a step and a run ask of the allocator.
  lemma StepAllocates(env: Env, s: Run)
    requires s.Valid() && s.status == Running
    ensures Iterate(env, s.w, s.request, s.reply).w.allocs == s.w.allocs + 2
    ensures s.w.allocs + 2 <= InlineStep(env, s).w.allocs && UmemStep(env, s).w.allocs == s.w.allocs + 2
    ensures InlineStep(env, s).status == NoMemory ==> !Granted(env, s.w.allocs, InlineStep(env, s).w.allocs)
  {
    hide Iterate, ReportedSize, Overlay, Question, Echo, InSequence, HasMore, Answered, Raw;
    IterateMeaning(env, s.w, s.request, s.reply);
  }

  lemma {:induction false} RunAllocates(env: Env, s: Run)
    requires s.Valid()
    ensures s.w.allocs <= Inline(env, s).w.allocs && s.w.allocs <= Umem(env, s).w.allocs
    decreases s.Rounds(env)
  {
    hide InlineStep, UmemStep;
    if s.status == Running {
      StepProgress(env, s);
      StepAllocates(env, s);
      RunAllocates(env, InlineStep(env, s));
      RunAllocates(env, UmemStep(env, s));
    }
  }

  /* ---- inline ---- */

  lemma InlineAdvances(env: Env, w0: World, junk: Buffer, s: Run, x: Session, limit: nat)
    requires Underway(env, w0, junk, s, x) && x.inline && Spacious(s, limit)
    requires Granted(env, s.w.allocs, InlineStep(env, s).w.allocs)
    ensures s.Valid() && Spacious(InlineStep(env, s), limit)
    ensures Advances(env, x, junk, s, InlineStep(env, s), limit)
  {
    hide RunOf, Honest, Prompt, HasMore, Serves, Iterate, Question, SentRegister, Raw, ReportedSize,
         MakeRoom, Overlay, Spacious, InSession, Progressive, Get;
    StepAllocates(env, s);
    NextRound(env, w0, junk, s, x);
    var r := Iterate(env, s.w, s.request, s.reply);
    StepSpacious(env, s, limit);
    if |s.w.dev.log| < env.lifetime {
      ServesFacts(env, r.w.dev.log, x, |s.data| - |junk|);
      SameSpace(s, s.Received(r), limit);
      RoomIff(env, s.Received(r), ReportedSize(r.reply), limit);
      if Progressive(env, x) && HasMore(r.reply) { MoreIsSomething(env, x, s.w.dev.log, s.request); }
    }
  }

  lemma {:induction false} InlineCompletes(env: Env, w0: World, junk: Buffer, s: Run, x: Session, limit: nat)
    requires Underway(env, w0, junk, s, x) && x.inline && Spacious(s, limit) && Productive(env, x, junk, s)
    requires Granted(env, s.w.allocs, Inline(env, s).w.allocs)
    ensures s.Valid() && Spacious(Inline(env, s), limit)
    ensures Concludes(env, x, junk, Inline(env, s), limit)
    decreases s.Rounds(env)
  {
    hide RunOf, Honest, Prompt, InlineStep, Spacious, Productive, Advances, Concludes, InSession;
    StepAllocates(env, s);
    StepProgress(env, s);
    RunAllocates(env, InlineStep(env, s));
    InlineAdvances(env, w0, junk, s, x, limit);
    NextRound(env, w0, junk, s, x);
    StepUnderway(env, w0, junk, s, x);
    var t := InlineStep(env, s);
    if t.status == Running {
      StaysProductive(env, junk, s, x, t, limit);
      InlineCompletes(env, w0, junk, t, x, limit);
    } else {
      ConcludesNow(env, junk, s, x, t, limit);
    }
  }

  function InlineSession(w: World, args: Args, stream: Buffer, place: Place): Session {
    Session(w.dev.log, InlineRequest(args), true, stream, place)
  }

  /** Through inline replies, cut as the device likes, a dump returns exactly the
      stream, behind whatever the buffer held before, if and only if that fits the
      largest buffer whose size is an int; a longer stream makes the size overflow;
      or the device dies before. A progressive one needs no more questions than the
      stream has bytes, and one. */
  lemma InlineDump(env: Env, w: World, args: Args, junk: Buffer, stream: Buffer, place: Place)
    requires var x := InlineSession(w, args, stream, place);
             Honest(env, x) && Prompt(env, x) && place(x.init) == 0
    requires Granted(env, w.allocs, Inline(env, InlineStart(env, w, args, junk, [])).w.allocs)
    requires junk == [] || INLINE_MAX <= |junk| <= INT_MAX
    ensures var t := Inline(env, InlineStart(env, w, args, junk, []));
            && Concludes(env, InlineSession(w, args, stream, place), junk, t, LargestDump(junk))
            && junk <= t.data <= junk + stream
            && (t.status == Done ==> t.data == junk + stream)
            && (t.status != DeviceError ==> (t.status == Done <==> |junk| + |stream| <= LargestDump(junk)))
  {
    hide Faithful, Honest, Prompt, Inline, InlineRequest, Ceiling, Progressive;
    var w0, x := Allocated(env, w), InlineSession(w, args, stream, place);
    var s := InlineStart(env, w, args, junk, []);
    var limit := LargestDump(junk);
    StartFaithful(env, w0, true, x.init, junk, s);
    StartSpacious(env, w, args, junk, []);
    InlineCompletes(env, w0, junk, s, x, limit);
    InlineRun(env, w, args, junk);
    CollectsPrefix(env, w0, junk, Inline(env, s), x);
    SpaciousBound(Inline(env, s), limit);
    PrefixBehind(junk, Inline(env, s).data, stream);
  }

  lemma PrefixBehind(junk: Buffer, data: Buffer, stream: Buffer)
    requires junk <= data && data[|junk|..] <= stream
    ensures data <= junk + stream
  {
    assert data == junk + data[|junk|..];
  }

  /** The command's own dump starts empty: while the device lives, it is whole exactly
      up to 4069 * 2^19 bytes. */
  lemma InlineDumpIff(env: Env, w: World, args: Args, stream: Buffer, place: Place)
    requires var x := InlineSession(w, args, stream, place);
             Honest(env, x) && Prompt(env, x) && place(x.init) == 0
    requires Granted(env, w.allocs, Inline(env, InlineStart(env, w, args, [], [])).w.allocs)
    ensures var t := Inline(env, InlineStart(env, w, args, [], []));
            && Concludes(env, InlineSession(w, args, stream, place), [], t, MAX_DUMP)
            && (t.status != DeviceError ==> (t.status == Done && t.data == stream <==> |stream| <= MAX_DUMP))
            && (t.status == Done ==> t.data == stream)
  {
    hide Honest, Prompt, Inline, InlineRequest, Ceiling, Concludes;
    InlineDump(env, w, args, [], stream, place);
    FirstCeiling();
    assert [] + stream == stream;
  }

  /* ---- umem ---- */

  // The device writes no more than the window holds, and the counter is not 0.
  ghost predicate Windowed(env: Env, x: Session, s: Run) {
    hide WritesUpTo;
    WritesUpTo(env, x, |s.window|) && s.remain != 0 && |s.data| <= TEMP_BYTES
  }

  lemma WritesThatMuch(env: Env, x: Session, n: nat, log: seq<Event>, request: Buffer)
    requires WritesUpTo(env, x, n) && InSession(env, x, log, request)
    ensures |Raw(env, log + [Question(request)]).dma| <= n
  {
    hide Raw, Question, InSession;
  }

  lemma UmemAdvances(env: Env, w0: World, junk: Buffer, s: Run, x: Session)
    requires Underway(env, w0, junk, s, x) && !x.inline && junk == [] && Windowed(env, x, s)
    requires Granted(env, s.w.allocs, UmemStep(env, s).w.allocs)
    ensures s.Valid() && Windowed(env, x, UmemStep(env, s))
    ensures Advances(env, x, junk, s, UmemStep(env, s), TEMP_BYTES)
  {
    hide RunOf, Honest, Prompt, HasMore, Serves, Iterate, Question, SentRegister, Raw, ReportedSize,
         InSession, Progressive, WritesUpTo, Get;
    StepAllocates(env, s);
    NextRound(env, w0, junk, s, x);
    var r := Iterate(env, s.w, s.request, s.reply);
    if |s.w.dev.log| < env.lifetime {
      ServesFacts(env, r.w.dev.log, x, |s.data| - |junk|);
      WritesThatMuch(env, x, |s.window|, s.w.dev.log, s.request);
      if Progressive(env, x) && HasMore(r.reply) { MoreIsSomething(env, x, s.w.dev.log, s.request); }
    }
  }

  lemma {:induction false} UmemCompletes(env: Env, w0: World, junk: Buffer, s: Run, x: Session)
    requires Underway(env, w0, junk, s, x) && !x.inline && junk == []
    requires Windowed(env, x, s) && Productive(env, x, junk, s)
    requires Granted(env, s.w.allocs, Umem(env, s).w.allocs)
    ensures s.Valid() && Windowed(env, x, Umem(env, s))
    ensures Concludes(env, x, junk, Umem(env, s), TEMP_BYTES)
    decreases s.Rounds(env)
  {
    hide RunOf, Honest, Prompt, UmemStep, Windowed, Productive, Advances, Concludes, InSession;
    StepAllocates(env, s);
    StepProgress(env, s);
    RunAllocates(env, UmemStep(env, s));
    UmemAdvances(env, w0, junk, s, x);
    NextRound(env, w0, junk, s, x);
    StepUnderway(env, w0, junk, s, x);
    var t := UmemStep(env, s);
    if t.status == Running {
      StaysProductive(env, junk, s, x, t, TEMP_BYTES);
      UmemCompletes(env, w0, junk, t, x);
    } else {
      ConcludesNow(env, junk, s, x, t, TEMP_BYTES);
    }
  }

  // The window's size, as the int the collector and the parser make of it.
  function IntSize(window: Buffer): int { ToInt32(ToU32(|window|)) }

  function UmemSession(w: World, args: Args, mkey: nat, addr: nat, window: Buffer, stream: Buffer,
                       place: Place): Session
  {
    Session(w.dev.log, UmemRequest(args, mkey, addr, IntSize(window)), false, stream, place)
  }

  /** Through a registered window a dump returns exactly the stream, although every
      chunk passes through the same window, if and only if it fits the temporary
      buffer, or the device dies before; only a window whose size is 0 as an int
      stops it short. */
  lemma UmemDump(env: Env, w: World, args: Args, mkey: nat, addr: nat, window: Buffer,
                 stream: Buffer, place: Place)
    requires ToU32(|window|) != 0
    requires var x := UmemSession(w, args, mkey, addr, window, stream, place);
             Honest(env, x) && Prompt(env, x) && place(x.init) == 0 && WritesUpTo(env, x, |window|)
    requires Granted(env, w.allocs, Umem(env, UmemStart(env, w, args, mkey, addr, |window|, window)).w.allocs)
    ensures var t := Umem(env, UmemStart(env, w, args, mkey, addr, |window|, window));
            && Concludes(env, UmemSession(w, args, mkey, addr, window, stream, place), [], t, 0x10_0000)
            && t.data <= stream
            && (t.status == Done ==> t.data == stream)
            && (t.status != DeviceError ==> (t.status == Done <==> |stream| <= 0x10_0000))
  {
    hide Faithful, Honest, Prompt, Umem, UmemRequest, Progressive, WritesUpTo;
    var w0, x := Allocated(env, w), UmemSession(w, args, mkey, addr, window, stream, place);
    var s := UmemStart(env, w, args, mkey, addr, |window|, window);
    StartFaithful(env, w0, false, x.init, [], s);
    UmemCompletes(env, w0, [], s, x);
    UmemRun(env, w, args, mkey, addr, |window|, window);
    CollectsPrefix(env, w0, [], Umem(env, s), x);
    assert [] + stream == stream;
    assert Umem(env, s).data[0..] == Umem(env, s).data;
  }
}
