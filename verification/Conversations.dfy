/** The conversation of one dump: the initial request, and then, as long as an answer
    has more to come, the same query with that answer's cursor. Every run of a
    collector holds it, and nothing else is asked in between. What is assumed of a
    device's dumps is assumed of its answers in such a conversation only. */
module Conversations {
  import opened Codec
  import opened FieldLaws
  import opened Layouts
  import opened Machine
  import opened ResourceDump
  import opened EchoLaws
  import opened DumpRuns
  import opened DumpTheorems

  // The answer to log's last question was accepted as one that has more to come.
  ghost predicate Continues(env: Env, log: seq<Event>) {
    hide Answered, SentRegister, Get;
    Answered(env, log, REPLY_BYTES) && Get(SentRegister(env, log), MORE_DUMP) == 1
  }

  // In the conversation that began with init after log0, request may come next
  // after log.
  ghost predicate Talk(env: Env, log0: seq<Event>, init: Buffer, log: seq<Event>, request: Buffer)
    decreases |log|
  {
    hide SameQuery, SameCursor, Question, SentRegister, Continues;
    && |init| == |request| == DUMP_BYTES && |log0| <= |log| && SameQuery(request, init)
    && if |log| == |log0| then log == log0 && request == init
       else
         var before := log[..|log| - 1];
         && Continues(env, log) && SameCursor(request, SentRegister(env, log))
         && exists r: Buffer :: log[|log| - 1] == Question(r) && Talk(env, log0, init, before, r)
  }

  lemma TalkBegins(env: Env, log0: seq<Event>, init: Buffer)
    requires |init| == DUMP_BYTES
    ensures Talk(env, log0, init, log0, init)
  {
    hide SameQuery;
    SameAsItself(init);
  }

  lemma TalkGoesOn(env: Env, log0: seq<Event>, init: Buffer, log: seq<Event>, r: Buffer, request: Buffer)
    requires Talk(env, log0, init, log, r) && |request| == |init| == DUMP_BYTES
    requires Continues(env, log + [Question(r)])
    requires SameQuery(request, init) && SameCursor(request, SentRegister(env, log + [Question(r)]))
    ensures Talk(env, log0, init, log + [Question(r)], request)
  {
    hide SameQuery, SameCursor, Question, SentRegister, Continues;
    assert (log + [Question(r)])[..|log|] == log;
    assert |log0| <= |log|;
  }

  lemma TalkFacts(env: Env, log0: seq<Event>, init: Buffer, log: seq<Event>, request: Buffer)
    requires Talk(env, log0, init, log, request)
    ensures |init| == |request| == DUMP_BYTES && |log0| <= |log| && SameQuery(request, init)
  {
    hide SameQuery, SameCursor, Question, SentRegister, Continues;
  }

  // Whatever was asked since the conversation began repeats its query.
  lemma {:induction false} OnlyThatQuery(env: Env, log0: seq<Event>, init: Buffer, log: seq<Event>, request: Buffer)
    requires Talk(env, log0, init, log, request)
    ensures log0 <= log
    ensures forall e :: e in log[|log0|..] ==>
              exists r :: |r| == |init| == DUMP_BYTES && e == Question(r) && SameQuery(r, init)
    decreases |log|
  {
    hide SameQuery, SameCursor, Question, SentRegister, Continues;
    if |log| > |log0| {
      var before := log[..|log| - 1];
      var r: Buffer :| log[|log| - 1] == Question(r) && Talk(env, log0, init, before, r);
      OnlyThatQuery(env, log0, init, before, r);
      TalkFacts(env, log0, init, before, r);
      assert log[|log0|..] == before[|log0|..] + [Question(r)];
    }
  }

  /* ---- the runs ---- */

  lemma ChunksSnoc(trace: seq<Exchange>, i: nat)
    requires i < |trace|
    ensures Chunks(trace[..i + 1]) == Chunks(trace[..i]) + trace[i].chunk
    ensures Questions(trace[..i + 1]) == Questions(trace[..i]) + [Question(trace[i].request)]
  {
    hide Question;
    assert trace[..i + 1][..i] == trace[..i];
  }

  lemma LinkGenuine(env: Env, w0: World, inline: bool, init: Buffer, junk: Buffer, s: Run, i: nat)
    requires |init| == DUMP_BYTES && Faithful(env, w0, inline, init, junk, s) && i < |s.trace|
    ensures Genuine(env, w0.dev.log + Questions(s.trace[..i]) + [Question(s.trace[i].request)], inline, s.trace[i])
    ensures |s.trace[i].request| == |s.trace[i].reply| == DUMP_BYTES
  {
    hide HasMore, Genuine, NextRequest, Question, Questions;
    assert Linked(env, w0, inline, init, s.trace, i);
    GenuineSizes(env, w0.dev.log + Questions(s.trace[..i + 1]), inline, s.trace[i]);
    ChunksSnoc(s.trace, i);
    assert w0.dev.log + Questions(s.trace[..i]) + [Question(s.trace[i].request)] ==
           w0.dev.log + Questions(s.trace[..i + 1]);
  }

  lemma GenuineFacts(env: Env, log: seq<Event>, inline: bool, e: Exchange)
    requires Genuine(env, log, inline, e)
    ensures Answered(env, log, REPLY_BYTES) && e.reply == SentRegister(env, log) && |e.reply| == DUMP_BYTES
  {
    hide Answered, SentRegister, Get, Raw, InSequence;
  }

  lemma SameAsItself(r: Buffer)
    requires |r| == DUMP_BYTES
    ensures SameQuery(r, r)
  {
  }

  // What follows exchange i of a run, if its reply has more to come.
  lemma TalkAfter(env: Env, w0: World, inline: bool, init: Buffer, junk: Buffer, s: Run, i: nat, request: Buffer)
    requires |init| == |request| == DUMP_BYTES && Faithful(env, w0, inline, init, junk, s) && i < |s.trace|
    requires Talk(env, w0.dev.log, init, w0.dev.log + Questions(s.trace[..i]), s.trace[i].request)
    requires |s.trace[i].reply| == DUMP_BYTES && HasMore(s.trace[i].reply)
    requires SameQuery(request, init) && SameCursor(request, s.trace[i].reply)
    ensures Talk(env, w0.dev.log, init, w0.dev.log + Questions(s.trace[..i + 1]), request)
  {
    hide Faithful, SameQuery, SameCursor, Question, SentRegister, HasMore, Talk, Genuine, Answered, Questions, Get,
         ReportedSize, InSequence;
    var log := w0.dev.log + Questions(s.trace[..i]);
    ReplyRead(s.trace[i].reply, s.trace[i].reply);
    LinkGenuine(env, w0, inline, init, junk, s, i);
    GenuineFacts(env, log + [Question(s.trace[i].request)], inline, s.trace[i]);
    ChunksSnoc(s.trace, i);
    TalkGoesOn(env, w0.dev.log, init, log, s.trace[i].request, request);
    assert w0.dev.log + Questions(s.trace[..i + 1]) == log + [Question(s.trace[i].request)];
  }

  /** Every request of a run is asked in the conversation of its dump. */
  lemma {:induction false} RunTalks(env: Env, w0: World, inline: bool, init: Buffer, junk: Buffer, s: Run, i: nat)
    requires |init| == DUMP_BYTES && Faithful(env, w0, inline, init, junk, s) && i < |s.trace|
    ensures Talk(env, w0.dev.log, init, w0.dev.log + Questions(s.trace[..i]), s.trace[i].request)
  {
    hide *;
    RequestRule(env, w0, inline, init, junk, s, i);
    if i == 0 {
      NoQuestions(w0.dev.log, s.trace);
      TalkBegins(env, w0.dev.log, init);
    } else {
      RunTalks(env, w0, inline, init, junk, s, i - 1);
      TalkAfter(env, w0, inline, init, junk, s, i - 1, s.trace[i].request);
    }
  }

  lemma NoQuestions(log: seq<Event>, trace: seq<Exchange>)
    ensures log + Questions(trace[..0]) == log
  {
    assert trace[..0] == [];
    assert log + [] == log;
  }

  lemma RunningRequest(env: Env, w0: World, inline: bool, init: Buffer, junk: Buffer, s: Run)
    requires |init| == DUMP_BYTES && Faithful(env, w0, inline, init, junk, s) && s.status == Running
    ensures s.Valid() && s.w.dev.log == w0.dev.log + Questions(s.trace)
    ensures s.trace == [] ==> s.request == init
    ensures s.trace != [] ==> var e := s.trace[|s.trace| - 1];
                              |e.reply| == DUMP_BYTES && HasMore(e.reply) && s.request == Echo(init, e.reply)
  {
    hide Linked, HasMore, Questions, Question, Chunks, Echo;
  }

  /** And so is the request that a running collector asks next. */
  lemma NextTalks(env: Env, w0: World, inline: bool, init: Buffer, junk: Buffer, s: Run)
    requires |init| == DUMP_BYTES && Faithful(env, w0, inline, init, junk, s) && s.status == Running
    ensures s.Valid() && Talk(env, w0.dev.log, init, s.w.dev.log, s.request)
  {
    hide *;
    RunningRequest(env, w0, inline, init, junk, s);
    assert s.trace[..|s.trace|] == s.trace;
    if s.trace == [] {
      NoQuestions(w0.dev.log, s.trace);
      TalkBegins(env, w0.dev.log, init);
    } else {
      var n := |s.trace| - 1;
      RunTalks(env, w0, inline, init, junk, s, n);
      EchoRule(init, s.trace[n].reply);
      TalkAfter(env, w0, inline, init, junk, s, n, s.request);
    }
  }

  /* ---- runs with small replies ---- */

  // In this conversation the device never announces more than a reply holds.
  ghost predicate SmallReplies(env: Env, log0: seq<Event>, init: Buffer) {
    hide SentRegister, Get, Question, Talk;
    forall log, request :: Talk(env, log0, init, log, request) ==>
      Get(SentRegister(env, log + [Question(request)]), SIZE) <= INLINE_MAX
  }

  lemma RoundIsSmall(env: Env, log0: seq<Event>, init: Buffer, s: Run)
    requires s.Valid() && SmallReplies(env, log0, init) && Talk(env, log0, init, s.w.dev.log, s.request)
    ensures var r := Iterate(env, s.w, s.request, s.reply);
            r.code >= 0 ==> 0 <= ReportedSize(r.reply) <= INLINE_MAX
  {
    hide Iterate, Question, HasMore, Echo, ReportedSize, SentRegister, Overlay, Raw, InSequence, Answered, Talk, Get;
    RoundFacts(env, s);
    ReplyRead(s.request, Iterate(env, s.w, s.request, s.reply).reply);
  }

  lemma {:induction false} StaysWithin(env: Env, w0: World, init: Buffer, junk: Buffer, s: Run, limit: nat)
    requires |init| == DUMP_BYTES && Faithful(env, w0, true, init, junk, s) && s.status != Undefined
    requires SmallReplies(env, w0.dev.log, init) && Spacious(s, limit)
    ensures s.Valid()
    ensures var t := Inline(env, s);
            && |t.data| <= t.cap <= limit
            && (t.status == Undefined ==> |t.data| + ReportedSize(t.reply) > limit)
    decreases s.Rounds(env)
  {
    hide *;
    RunIsValid(env, w0, true, init, junk, s);
    SpaciousBound(s, limit);
    if s.status != Running {
      InlineStops(env, s);
    } else {
      InlineUnfolds(env, s);
      StepProgress(env, s);
      StepFaithful(env, w0, true, init, junk, s);
      StepSpacious(env, s, limit);
      var t := InlineStep(env, s);
      if t.status == Undefined {
        NextTalks(env, w0, true, init, junk, s);
        RoundIsSmall(env, w0.dev.log, init, s);
        SpaciousBound(t, limit);
        InlineStops(env, t);
      } else {
        StaysWithin(env, w0, init, junk, t, limit);
      }
    }
  }

  /** If every reply of the dump announces at most 208 bytes, a run, however long, holds
      no more than the limit, and leaves defined behaviour only on a reply that would
      take it past the limit: 4069 * 2^19 for the command's dump. */
  lemma NeverUndefined(env: Env, w: World, args: Args, junk: Buffer)
    requires SmallReplies(env, w.dev.log, InlineRequest(args))
    requires junk == [] || INLINE_MAX <= |junk| <= INT_MAX
    ensures var t := Inline(env, InlineStart(env, w, args, junk, []));
            && |t.data| <= t.cap <= LargestDump(junk)
            && (t.status == Undefined ==> |t.data| + Get(t.reply, SIZE) > LargestDump(junk))
  {
    hide Faithful, Inline, InlineRequest, SmallReplies, Spacious, Ceiling, ReportedSize, Get, HasMore, InSequence;
    var s := InlineStart(env, w, args, junk, []);
    StartFaithful(env, Allocated(env, w), true, InlineRequest(args), junk, s);
    StartSpacious(env, w, args, junk, []);
    StaysWithin(env, Allocated(env, w), InlineRequest(args), junk, s, LargestDump(junk));
    ReplyRead(s.reply, Inline(env, s).reply);
  }

  lemma StartFaithful(env: Env, w0: World, inline: bool, init: Buffer, junk: Buffer, s: Run)
    requires |init| == DUMP_BYTES && s.Valid() && s.w == w0 && s.request == init
    requires s.data == junk && s.trace == [] && s.status == Running
    ensures Faithful(env, w0, inline, init, junk, s)
  {
    assert junk + Chunks([]) == junk;
    assert w0.dev.log + Questions([]) == w0.dev.log;
  }
}
