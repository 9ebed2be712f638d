/** Safety of whole dump runs: what holds of every run of either collector,
    against every device, however the run ends. */
module DumpRuns {
  import opened Codec
  import opened FieldLaws
  import opened Layouts
  import opened Machine
  import opened ResourceDump
  import opened EchoLaws

  function Chunks(trace: seq<Exchange>): Buffer {
    if trace == [] then [] else Chunks(trace[..|trace| - 1]) + trace[|trace| - 1].chunk
  }

  function Questions(trace: seq<Exchange>): seq<Event> {
    if trace == [] then [] else Questions(trace[..|trace| - 1]) + [Question(trace[|trace| - 1].request)]
  }

  // The register the device sent when its history was log.
  function SentRegister(env: Env, log: seq<Event>): (r: Buffer)
    ensures |r| == DUMP_BYTES
  {
    Overlay(Zeros(REG_HEAD_BYTES + DUMP_BYTES), Raw(env, log).out)[REG_HEAD_BYTES..]
  }

  // x is what the device answered to the last question of log, and the chunk
  // is the part of it that the reply announces.
  ghost predicate Genuine(env: Env, log: seq<Event>, inline: bool, x: Exchange) {
    hide SentRegister, InSequence, Question, Answered, Raw, Get;
    && |x.request| == |x.reply| == DUMP_BYTES
    && Answered(env, log, REG_HEAD_BYTES + DUMP_BYTES)
    && x.reply == SentRegister(env, log)
    && InSequence(x.request, x.reply)
    && |x.chunk| == Get(x.reply, SIZE)
    && (inline ==> |x.chunk| <= INLINE_MAX && x.chunk == x.reply[INLINE_OFF..INLINE_OFF + |x.chunk|])
    && (!inline ==> var dma := Raw(env, log).dma;
                    |x.chunk| <= |dma| ==> x.chunk == dma[..|x.chunk|])
  }

  // The request after the replies of the trace.
  function NextRequest(init: Buffer, trace: seq<Exchange>): (r: Buffer)
    requires |init| == DUMP_BYTES
    requires trace != [] ==> |trace[|trace| - 1].reply| == DUMP_BYTES
    ensures |r| == DUMP_BYTES
  {
    hide Echo;
    if trace == [] then init else Echo(init, trace[|trace| - 1].reply)
  }

  // Exchange i of the trace: it was asked with the cursor of the one before,
  // which had more to come, and answered by the device at that point.
  ghost predicate Linked(env: Env, w0: World, inline: bool, init: Buffer, trace: seq<Exchange>, i: nat)
    requires |init| == DUMP_BYTES && i < |trace|
  {
    hide Genuine, NextRequest, HasMore, Questions;
    && Genuine(env, w0.dev.log + Questions(trace[..i + 1]), inline, trace[i])
    && (i > 0 ==> |trace[i - 1].reply| == DUMP_BYTES && HasMore(trace[i - 1].reply))
    && trace[i].request == NextRequest(init, trace[..i])
  }

  /** The invariant of a run that started in world w0 with request init and the
      bytes junk already in its buffer. */
  ghost predicate Faithful(env: Env, w0: World, inline: bool, init: Buffer, junk: Buffer, s: Run)
    requires |init| == DUMP_BYTES
  {
    hide Linked, NextRequest, HasMore, Questions, Chunks, Question;
    var trace := s.trace;
    var asked := w0.dev.log + Questions(trace);
    && s.Valid()
    && s.data == junk + Chunks(trace)
    && (forall i: nat :: i < |trace| ==> Linked(env, w0, inline, init, trace, i))
    && (trace != [] ==> |trace[|trace| - 1].reply| == DUMP_BYTES)
    && s.w.dev == w0.dev.(log := s.w.dev.log)
    && (s.status == Running ==>
          && s.w.dev.log == asked
          && s.request == NextRequest(init, trace)
          && (trace != [] ==> HasMore(trace[|trace| - 1].reply)))
    && (s.status != Running ==>
          s.w.dev.log == asked || s.w.dev.log == asked + [Question(NextRequest(init, trace))])
    && (s.status == Done ==> trace != [] && !HasMore(trace[|trace| - 1].reply))
  }

  lemma LinkedPrefix(env: Env, w0: World, inline: bool, init: Buffer, trace: seq<Exchange>, x: Exchange, i: nat)
    requires |init| == DUMP_BYTES && i < |trace| && Linked(env, w0, inline, init, trace, i)
    ensures Linked(env, w0, inline, init, trace + [x], i)
  {
    hide Genuine, NextRequest, HasMore, Questions;
    assert (trace + [x])[..i + 1] == trace[..i + 1] && (trace + [x])[..i] == trace[..i];
  }

  // A round whose chunk is kept extends the trace.
  lemma Extend(env: Env, w0: World, inline: bool, init: Buffer, junk: Buffer, s: Run, x: Exchange, t: Run)
    requires |init| == DUMP_BYTES && s.status == Running && Faithful(env, w0, inline, init, junk, s)
    requires x.request == s.request && |x.reply| == DUMP_BYTES
    requires Genuine(env, s.w.dev.log + [Question(s.request)], inline, x)
    requires t.Valid() && t.data == s.data + x.chunk && t.trace == s.trace + [x]
    requires t.w.dev == s.w.dev.(log := s.w.dev.log + [Question(s.request)])
    requires t.status in {Running, Done, Full}
    requires t.status == Running ==> HasMore(x.reply)
    requires t.status == Done ==> !HasMore(x.reply)
    requires t.request == if HasMore(x.reply) then Echo(s.request, x.reply) else s.request
    ensures Faithful(env, w0, inline, init, junk, t)
  {
    hide Genuine, Linked, HasMore, Question, Echo, NextRequest;
    var trace := s.trace + [x];
    assert trace[..|trace| - 1] == s.trace && trace[|trace| - 1] == x;
    NextAfter(env, w0, inline, init, junk, s, x);
    assert junk + Chunks(s.trace) + x.chunk == junk + (Chunks(s.trace) + x.chunk);
    assert w0.dev.log + Questions(s.trace) + [Question(s.request)] ==
           w0.dev.log + (Questions(s.trace) + [Question(s.request)]);
    forall i: nat | i < |trace|
      ensures Linked(env, w0, inline, init, trace, i)
    {
      if i < |s.trace| {
        LinkedPrefix(env, w0, inline, init, s.trace, x, i);
      } else {
        LinkedLast(env, w0, inline, init, s.trace, x);
      }
    }
  }

  lemma LinkedLast(env: Env, w0: World, inline: bool, init: Buffer, trace: seq<Exchange>, x: Exchange)
    requires |init| == DUMP_BYTES
    requires trace != [] ==> |trace[|trace| - 1].reply| == DUMP_BYTES && HasMore(trace[|trace| - 1].reply)
    requires Genuine(env, w0.dev.log + Questions(trace + [x]), inline, x)
    requires x.request == NextRequest(init, trace)
    ensures Linked(env, w0, inline, init, trace + [x], |trace|)
  {
    hide Genuine, HasMore, Questions, NextRequest;
    assert (trace + [x])[..|trace| + 1] == trace + [x] && (trace + [x])[..|trace|] == trace;
  }

  lemma NextAfter(env: Env, w0: World, inline: bool, init: Buffer, junk: Buffer, s: Run, x: Exchange)
    requires |init| == DUMP_BYTES && s.status == Running && Faithful(env, w0, inline, init, junk, s)
    requires x.request == s.request && |x.reply| == DUMP_BYTES
    ensures NextRequest(init, s.trace + [x]) == Echo(s.request, x.reply)
  {
    hide Linked, HasMore, Question, Echo, Questions, Chunks;
    if s.trace != [] {
      EchoForgets(init, s.trace[|s.trace| - 1].reply, x.reply);
    }
  }

  // A round that stops the run before anything is kept.
  lemma StopEarly(env: Env, w0: World, inline: bool, init: Buffer, junk: Buffer, s: Run, t: Run)
    requires |init| == DUMP_BYTES && s.status == Running && Faithful(env, w0, inline, init, junk, s)
    requires t.Valid() && t.data == s.data && t.trace == s.trace
    requires t.w.dev == s.w.dev || t.w.dev == s.w.dev.(log := s.w.dev.log + [Question(s.request)])
    requires t.status !in {Running, Done}
    ensures Faithful(env, w0, inline, init, junk, t)
  {
    hide Linked, HasMore, Question, NextRequest, Questions, Chunks;
  }

  // A step either stops the run, keeping nothing, or keeps one more chunk.
  ghost predicate Stopped(s: Run, t: Run) {
    hide Question;
    && t.data == s.data && t.trace == s.trace
    && (t.w.dev == s.w.dev || t.w.dev == s.w.dev.(log := s.w.dev.log + [Question(s.request)]))
    && t.status !in {Running, Done, Full}
  }

  ghost predicate Kept(s: Run, t: Run, x: Exchange) {
    hide Question, HasMore, Echo;
    && x.request == s.request && |x.request| == |x.reply| == DUMP_BYTES
    && t.data == s.data + x.chunk && t.trace == s.trace + [x]
    && t.w.dev == s.w.dev.(log := s.w.dev.log + [Question(s.request)])
    && t.status in {Running, Done, Full}
    && (t.status == Running ==> HasMore(x.reply))
    && (t.status == Done ==> !HasMore(x.reply))
    && t.request == if HasMore(x.reply) then Echo(s.request, x.reply) else s.request
  }

  lemma InlineShape(env: Env, s: Run)
    requires s.Valid() && s.status == Running
    ensures var t := InlineStep(env, s);
            Stopped(s, t) || (t.trace != [] && Kept(s, t, t.trace[|t.trace| - 1]))
  {
    hide Iterate, Question, HasMore, Echo, MakeRoom, ReportedSize, SentRegister, Overlay, Raw, InSequence, Answered;
    RoundFacts(env, s);
  }

  lemma UmemShape(env: Env, s: Run)
    requires s.Valid() && s.status == Running
    ensures var t := UmemStep(env, s);
            Stopped(s, t) || (t.trace != [] && Kept(s, t, t.trace[|t.trace| - 1]))
  {
    hide Iterate, Question, HasMore, Echo, ReportedSize, SentRegister, Overlay, Raw, InSequence, Answered;
    RoundFacts(env, s);
  }

  lemma FromStopped(env: Env, w0: World, inline: bool, init: Buffer, junk: Buffer, s: Run, t: Run)
    requires |init| == DUMP_BYTES && s.status == Running && Faithful(env, w0, inline, init, junk, s)
    requires t.Valid() && Stopped(s, t)
    ensures Faithful(env, w0, inline, init, junk, t)
  {
    hide Faithful, Question;
    StopEarly(env, w0, inline, init, junk, s, t);
  }

  lemma FromKept(env: Env, w0: World, inline: bool, init: Buffer, junk: Buffer, s: Run, x: Exchange, t: Run)
    requires |init| == DUMP_BYTES && s.status == Running && Faithful(env, w0, inline, init, junk, s)
    requires t.Valid() && Kept(s, t, x) && Genuine(env, s.w.dev.log + [Question(s.request)], inline, x)
    ensures Faithful(env, w0, inline, init, junk, t)
  {
    hide Faithful, Genuine, Question, HasMore, Echo;
    Extend(env, w0, inline, init, junk, s, x, t);
  }

  lemma KeptTrace(s: Run, t: Run, x: Exchange)
    requires Kept(s, t, x)
    ensures t.trace == s.trace + [x]
  {
    hide Question, HasMore, Echo;
  }

  lemma StepFaithful(env: Env, w0: World, inline: bool, init: Buffer, junk: Buffer, s: Run)
    requires |init| == DUMP_BYTES && s.status == Running && Faithful(env, w0, inline, init, junk, s)
    ensures Faithful(env, w0, inline, init, junk, if inline then InlineStep(env, s) else UmemStep(env, s))
  {
    hide *;
    RunIsValid(env, w0, inline, init, junk, s);
    var t := if inline then InlineStep(env, s) else UmemStep(env, s);
    if inline { InlineShape(env, s); } else { UmemShape(env, s); }
    if Stopped(s, t) {
      FromStopped(env, w0, inline, init, junk, s, t);
    } else {
      var x := t.trace[|t.trace| - 1];
      KeptTrace(s, t, x);
      ChunkGenuine(env, s, inline, x);
      FromKept(env, w0, inline, init, junk, s, x, t);
    }
  }

  lemma RunIsValid(env: Env, w0: World, inline: bool, init: Buffer, junk: Buffer, s: Run)
    requires |init| == DUMP_BYTES && Faithful(env, w0, inline, init, junk, s)
    ensures s.Valid()
  {
  }

  // RoundMeaning, unfolded for a run's next round.
  lemma RoundFacts(env: Env, s: Run)
    requires s.Valid()
    ensures var r := Iterate(env, s.w, s.request, s.reply);
            && (r.w.dev == s.w.dev || r.w.dev == s.w.dev.(log := s.w.dev.log + [Question(s.request)]))
            && (r.code >= 0 ==>
                  && r.w.dev.log == s.w.dev.log + [Question(s.request)]
                  && Answered(env, r.w.dev.log, REG_HEAD_BYTES + DUMP_BYTES)
                  && r.reply == SentRegister(env, r.w.dev.log) && r.dma == Raw(env, r.w.dev.log).dma
                  && InSequence(s.request, r.reply)
                  && (r.code > 0 <==> HasMore(r.reply)))
            && r.request == if r.code > 0 then Echo(s.request, r.reply) else s.request
  {
    hide Iterate, Question, Raw, Overlay, Echo, InSequence, HasMore, Answered;
    IterateMeaning(env, s.w, s.request, s.reply);
  }

  lemma ChunkGenuine(env: Env, s: Run, inline: bool, x: Exchange)
    requires s.Valid() && s.status == Running
    requires var t := if inline then InlineStep(env, s) else UmemStep(env, s);
             t.trace == s.trace + [x]
    ensures Genuine(env, s.w.dev.log + [Question(s.request)], inline, x)
  {
    hide Iterate, Question, HasMore, Echo, MakeRoom, ReportedSize, SentRegister, InSequence, Raw, Overlay, Answered,
         Get;
    RoundFacts(env, s);
    var t := if inline then InlineStep(env, s) else UmemStep(env, s);
    assert t.trace[|s.trace|] == x;
    ReplyRead(s.request, x.reply);
    OverlayPrefix(s.window, Raw(env, s.w.dev.log + [Question(s.request)]).dma, |x.chunk|);
  }

  // What the device wrote first is what the window starts with.
  lemma OverlayPrefix(s: Buffer, bytes: Buffer, n: nat)
    ensures n <= |s| && n <= |bytes| ==> Overlay(s, bytes)[..n] == bytes[..n]
  {
  }

  lemma {:induction false} InlineFaithful(env: Env, w0: World, init: Buffer, junk: Buffer, s: Run)
    requires |init| == DUMP_BYTES && Faithful(env, w0, true, init, junk, s)
    ensures Faithful(env, w0, true, init, junk, Inline(env, s))
    decreases s.Rounds(env)
  {
    RunIsValid(env, w0, true, init, junk, s);
    hide Faithful, InlineStep;
    if s.status == Running {
      StepProgress(env, s);
      StepFaithful(env, w0, true, init, junk, s);
      InlineFaithful(env, w0, init, junk, InlineStep(env, s));
    }
  }

  lemma {:induction false} UmemFaithful(env: Env, w0: World, init: Buffer, s: Run)
    requires |init| == DUMP_BYTES && Faithful(env, w0, false, init, [], s)
    ensures Faithful(env, w0, false, init, [], Umem(env, s))
    decreases s.Rounds(env)
  {
    RunIsValid(env, w0, false, init, [], s);
    hide Faithful, UmemStep;
    if s.status == Running {
      StepProgress(env, s);
      StepFaithful(env, w0, false, init, [], s);
      UmemFaithful(env, w0, init, UmemStep(env, s));
    }
  }

  /** Every run of the inline collector: the buffer holds what was there before
      and the chunks of a prefix of whole replies, each asked with exactly the
      initial request and the previous reply's cursor. */
  lemma InlineRun(env: Env, w: World, args: Args, junk: Buffer)
    ensures Faithful(env, Allocated(env, w), true, InlineRequest(args), junk,
                     Inline(env, InlineStart(env, w, args, junk, [])))
  {
    hide Inline, InlineRequest;
    var s := InlineStart(env, w, args, junk, []);
    assert junk + Chunks([]) == junk;
    assert w.dev.log + Questions([]) == w.dev.log;
    InlineFaithful(env, Allocated(env, w), InlineRequest(args), junk, s);
  }

  /** The same for the umem collector, although every reply uses one window. */
  lemma UmemRun(env: Env, w: World, args: Args, mkey: nat, addr: nat, size: nat, window: Buffer)
    ensures Faithful(env, Allocated(env, w), false, UmemRequest(args, mkey, addr, ToInt32(ToU32(size))), [],
                     Umem(env, UmemStart(env, w, args, mkey, addr, size, window)))
  {
    hide Umem, UmemRequest;
    var s := UmemStart(env, w, args, mkey, addr, size, window);
    assert w.dev.log + Questions([]) == w.dev.log;
    UmemFaithful(env, Allocated(env, w), UmemRequest(args, mkey, addr, ToInt32(ToU32(size))), s);
  }

  /* ---- one window for every reply ---- */

  // The window after the exchanges of trace: each answer is written over what the
  // answers before it left.
  function WindowAfter(env: Env, log: seq<Event>, window: Buffer, trace: seq<Exchange>): (r: Buffer)
    ensures |r| == |window|
  {
    hide Overlay, Raw, Questions;
    if trace == [] then window
    else Overlay(WindowAfter(env, log, window, trace[..|trace| - 1]), Raw(env, log + Questions(trace)).dma)
  }

  // Chunk i is what the window held after its answer: where the device wrote less
  // than it announced, the rest is stale.
  ghost predicate FromWindow(env: Env, log: seq<Event>, window: Buffer, trace: seq<Exchange>, i: nat)
    requires i < |trace|
  {
    hide WindowAfter;
    && |trace[i].chunk| <= |window|
    && trace[i].chunk == WindowAfter(env, log, window, trace[..i + 1])[..|trace[i].chunk|]
  }

  ghost predicate ThroughWindow(env: Env, w0: World, window: Buffer, s: Run) {
    hide WindowAfter, FromWindow;
    && (forall i: nat :: i < |s.trace| ==> FromWindow(env, w0.dev.log, window, s.trace, i))
    && (s.status == Running ==> s.window == WindowAfter(env, w0.dev.log, window, s.trace))
  }

  lemma FromWindowPrefix(env: Env, log: seq<Event>, window: Buffer, trace: seq<Exchange>, x: Exchange, i: nat)
    requires i < |trace| && FromWindow(env, log, window, trace, i)
    ensures FromWindow(env, log, window, trace + [x], i)
  {
    hide WindowAfter;
    assert (trace + [x])[..i + 1] == trace[..i + 1];
  }

  lemma FromWindowLast(env: Env, log: seq<Event>, window: Buffer, trace: seq<Exchange>, x: Exchange)
    requires |x.chunk| <= |window| && x.chunk == WindowAfter(env, log, window, trace + [x])[..|x.chunk|]
    ensures FromWindow(env, log, window, trace + [x], |trace|)
  {
    hide WindowAfter;
    assert (trace + [x])[..|trace| + 1] == trace + [x];
  }

  // A step keeps nothing and stops, or keeps what the window then starts with.
  lemma UmemTakes(env: Env, s: Run)
    requires s.Valid() && s.status == Running
    ensures var t := UmemStep(env, s);
            var written := Overlay(s.window, Raw(env, s.w.dev.log + [Question(s.request)]).dma);
            if t.trace == s.trace then t.status != Running
            else
              && t.window == written && t.trace != [] && t.trace[..|t.trace| - 1] == s.trace
              && var x := t.trace[|t.trace| - 1];
                 x.request == s.request && |x.chunk| <= |written| && x.chunk == written[..|x.chunk|]
  {
    hide Iterate, Question, HasMore, Echo, ReportedSize, SentRegister, Overlay, Raw, InSequence, Answered;
    RoundFacts(env, s);
  }

  lemma WindowExtends(env: Env, w0: World, window: Buffer, s: Run, x: Exchange, t: Run)
    requires s.status == Running && ThroughWindow(env, w0, window, s) && t.trace == s.trace + [x]
    requires t.window == Overlay(s.window, Raw(env, w0.dev.log + Questions(s.trace) + [Question(x.request)]).dma)
    requires |x.chunk| <= |t.window| && x.chunk == t.window[..|x.chunk|]
    ensures ThroughWindow(env, w0, window, t)
  {
    hide Question, Overlay, Raw, WindowAfter, Questions, FromWindow;
    WindowNext(env, w0, window, s.trace, x);
    FromWindowLast(env, w0.dev.log, window, s.trace, x);
    forall i: nat | i < |t.trace| ensures FromWindow(env, w0.dev.log, window, t.trace, i) {
      if i < |s.trace| { FromWindowPrefix(env, w0.dev.log, window, s.trace, x, i); }
    }
  }

  lemma StepThroughWindow(env: Env, w0: World, init: Buffer, window: Buffer, s: Run)
    requires |init| == DUMP_BYTES && s.status == Running && Faithful(env, w0, false, init, [], s)
    requires ThroughWindow(env, w0, window, s)
    ensures s.Valid() && ThroughWindow(env, w0, window, UmemStep(env, s))
  {
    hide *;
    RunIsValid(env, w0, false, init, [], s);
    AskedSoFar(env, w0, init, s);
    UmemTakes(env, s);
    var t := UmemStep(env, s);
    if t.trace == s.trace {
      SameTrace(env, w0, window, s, t);
    } else {
      var x := t.trace[|t.trace| - 1];
      assert t.trace == s.trace + [x];
      WindowExtends(env, w0, window, s, x, t);
    }
  }

  lemma SameTrace(env: Env, w0: World, window: Buffer, s: Run, t: Run)
    requires ThroughWindow(env, w0, window, s) && t.trace == s.trace && t.status != Running
    ensures ThroughWindow(env, w0, window, t)
  {
    hide FromWindow;
  }

  lemma AskedSoFar(env: Env, w0: World, init: Buffer, s: Run)
    requires |init| == DUMP_BYTES && s.status == Running && Faithful(env, w0, false, init, [], s)
    ensures s.w.dev.log == w0.dev.log + Questions(s.trace)
  {
    hide Linked, HasMore, Question, NextRequest, Questions, Chunks;
  }

  lemma WindowNext(env: Env, w0: World, window: Buffer, trace: seq<Exchange>, x: Exchange)
    ensures WindowAfter(env, w0.dev.log, window, trace + [x]) ==
            Overlay(WindowAfter(env, w0.dev.log, window, trace),
                    Raw(env, w0.dev.log + Questions(trace) + [Question(x.request)]).dma)
  {
    hide Overlay, Raw, Question;
    assert (trace + [x])[..|trace|] == trace;
    assert w0.dev.log + (Questions(trace) + [Question(x.request)]) ==
           w0.dev.log + Questions(trace) + [Question(x.request)];
  }

  lemma {:induction false} WindowFaithful(env: Env, w0: World, init: Buffer, window: Buffer, s: Run)
    requires |init| == DUMP_BYTES && s.Valid() && Faithful(env, w0, false, init, [], s)
    requires ThroughWindow(env, w0, window, s)
    ensures ThroughWindow(env, w0, window, Umem(env, s))
    decreases s.Rounds(env)
  {
    hide Faithful, UmemStep, ThroughWindow;
    if s.status == Running {
      StepProgress(env, s);
      StepFaithful(env, w0, false, init, [], s);
      StepThroughWindow(env, w0, init, window, s);
      WindowFaithful(env, w0, init, window, UmemStep(env, s));
    }
  }

  /** What the collector takes from the window is exactly determined, also where a
      reply announces more than the device wrote. */
  lemma UmemWindow(env: Env, w: World, args: Args, mkey: nat, addr: nat, size: nat, window: Buffer)
    ensures ThroughWindow(env, Allocated(env, w), window,
                          Umem(env, UmemStart(env, w, args, mkey, addr, size, window)))
  {
    hide Umem, UmemRequest;
    var s := UmemStart(env, w, args, mkey, addr, size, window);
    assert w.dev.log + Questions([]) == w.dev.log;
    WindowFaithful(env, Allocated(env, w), UmemRequest(args, mkey, addr, ToInt32(ToU32(size))), window, s);
  }
}
