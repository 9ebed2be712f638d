/** Devices that serve a byte stream, in chunks of any sizes, to the client that asks
    the right query: whatever else happens, what a run collects is a prefix of the
    stream. */
module Service {
  import opened Codec
  import opened FieldLaws
  import opened Layouts
  import opened Machine
  import opened ResourceDump
  import opened EchoLaws
  import opened DumpRuns
  import opened DumpTheorems
  import opened Conversations

  // Where in the stream a register stands. The device may encode this as it
  // likes, but only in the fields a client echoes.
  type Place = Buffer -> nat

  // What one dump is about: the device's history before it, the initial request,
  // the way the replies come, the stream and its places.
  datatype Session = Session(log: seq<Event>, init: Buffer, inline: bool, stream: Buffer, place: Place)

  ghost predicate InCursor(place: Place) {
    forall s, t :: |s| == |t| == DUMP_BYTES && SameCursor(s, t) ==> place(s) == place(t)
  }

  // The request may be asked next in the session: nothing but the conversation it
  // belongs to came before, and it stands at a place of the stream.
  ghost predicate InSession(env: Env, x: Session, log: seq<Event>, request: Buffer) {
    hide Talk;
    |request| == DUMP_BYTES && Talk(env, x.log, x.init, log, request) && x.place(request) <= |x.stream|
  }

  // The chunk that the answer to log announces.
  function Chunk(env: Env, log: seq<Event>, inline: bool): Buffer {
    hide Get, SentRegister, Raw;
    var reply := SentRegister(env, log);
    var n := Get(reply, SIZE);
    var source := if inline then reply[INLINE_OFF..] else Raw(env, log).dma;
    if n <= |source| then source[..n] else []
  }

  // The answer to log, whose last question stood at p, carries the stream's bytes
  // from p on, and says so if there are more. It may be empty.
  ghost predicate Serves(env: Env, log: seq<Event>, x: Session, p: nat)
    requires p <= |x.stream|
  {
    hide SentRegister, Get, Raw;
    var reply := SentRegister(env, log);
    var n := Get(reply, SIZE);
    && n <= INT_MAX && p + n <= |x.stream|
    && n <= (if x.inline then INLINE_MAX else |Raw(env, log).dma|)
    && Chunk(env, log, x.inline) == x.stream[p..p + n]
    && (p + n < |x.stream| ==> Get(reply, MORE_DUMP) == 1)
    && (Get(reply, MORE_DUMP) == 1 ==> x.place(reply) == p + n)
  }

  // Whatever the device answers in the session, it answers from the stream at the
  // place asked for; it may also fail, at any time. What it does before, after any
  // other command in between, for another query or a cursor it did not send, is its
  // own affair.
  ghost predicate Honest(env: Env, x: Session) {
    hide Question, Answered, Talk, Serves;
    && InCursor(x.place)
    && forall log, request ::
         InSession(env, x, log, request) && Answered(env, log + [Question(request)], REPLY_BYTES)
         ==> Serves(env, log + [Question(request)], x, x.place(request))
  }

  // It does answer, in sequence, as long as it lives.
  ghost predicate Prompt(env: Env, x: Session) {
    hide Question, Answered, SentRegister, InSequence, Talk;
    forall log, request ::
      InSession(env, x, log, request) && |log| < env.lifetime ==>
        && Answered(env, log + [Question(request)], REPLY_BYTES)
        && InSequence(request, SentRegister(env, log + [Question(request)]))
  }

  // No answer that announces more is empty.
  ghost predicate Progressive(env: Env, x: Session) {
    hide Question, SentRegister, InSession, Get;
    forall log, request :: InSession(env, x, log, request) ==>
      var reply := SentRegister(env, log + [Question(request)]);
      Get(reply, MORE_DUMP) == 1 ==> Get(reply, SIZE) > 0
  }

  // No answer writes more than n bytes into registered memory.
  ghost predicate WritesUpTo(env: Env, x: Session, n: nat) {
    hide Question, Raw, InSession;
    forall log, request :: InSession(env, x, log, request) ==> |Raw(env, log + [Question(request)]).dma| <= n
  }

  /* ---- safety: what is collected is a prefix of the stream ---- */

  // s is a run of the session, started in world w0 with junk in its buffer.
  ghost predicate RunOf(env: Env, w0: World, junk: Buffer, s: Run, x: Session) {
    hide Faithful;
    && |x.init| == DUMP_BYTES && x.log == w0.dev.log
    && Faithful(env, w0, x.inline, x.init, junk, s)
  }

  // The exchange moved the stream's bytes from p on.
  ghost predicate Carries(e: Exchange, x: Session, p: nat) {
    hide Get;
    && |e.reply| == DUMP_BYTES
    && p + |e.chunk| <= |x.stream|
    && e.chunk == x.stream[p..p + |e.chunk|]
    && (p + |e.chunk| < |x.stream| ==> Get(e.reply, MORE_DUMP) == 1)
    && (Get(e.reply, MORE_DUMP) == 1 ==> x.place(e.reply) == p + |e.chunk|)
  }

  ghost predicate AtPrefix(trace: seq<Exchange>, x: Session, i: nat)
    requires i < |trace|
  {
    var p := |Chunks(trace[..i])|;
    && p <= |x.stream|
    && Chunks(trace[..i]) == x.stream[..p]
    && x.place(trace[i].request) == p
  }

  lemma {:induction false} TracePrefix(env: Env, w0: World, junk: Buffer, s: Run, x: Session, i: nat)
    requires RunOf(env, w0, junk, s, x) && Honest(env, x) && x.place(x.init) == 0
    requires i < |s.trace|
    ensures AtPrefix(s.trace, x, i)
    ensures InSession(env, x, x.log + Questions(s.trace[..i]), s.trace[i].request)
    ensures Carries(s.trace[i], x, |Chunks(s.trace[..i])|)
  {
    hide Faithful, HasMore, Echo, SameQuery, SameCursor, Genuine, Honest, Carries, AtPrefix, Chunks,
         Questions, Question, Talk;
    RequestRule(env, w0, x.inline, x.init, junk, s, i);
    LinkGenuine(env, w0, x.inline, x.init, junk, s, i);
    RunTalks(env, w0, x.inline, x.init, junk, s, i);
    if i == 0 {
      FirstPlace(s.trace, x);
    } else {
      TracePrefix(env, w0, junk, s, x, i - 1);
      PlaceEchoed(env, x, s.trace[i].request, s.trace[i - 1].reply);
      NextPlace(s.trace, x, i);
    }
    PlaceOf(s.trace, x, i);
    ServedExchange(env, x.log + Questions(s.trace[..i]), x, s.trace[i]);
  }

  lemma FirstPlace(trace: seq<Exchange>, x: Session)
    requires trace != [] && x.place(trace[0].request) == 0
    ensures AtPrefix(trace, x, 0)
  {
    assert trace[..0] == [];
  }

  lemma NextPlace(trace: seq<Exchange>, x: Session, i: nat)
    requires 0 < i < |trace| && AtPrefix(trace, x, i - 1)
    requires Carries(trace[i - 1], x, |Chunks(trace[..i - 1])|)
    requires HasMore(trace[i - 1].reply) && x.place(trace[i].request) == x.place(trace[i - 1].reply)
    ensures AtPrefix(trace, x, i)
  {
    hide HasMore, Chunks, Questions, Question, Get, ReportedSize, InSequence;
    var e, before := trace[i - 1], trace[..i - 1];
    ReplyRead(e.reply, e.reply);
    assert Chunks(trace[..i]) == Chunks(before) + e.chunk by { ChunksSnoc(trace, i - 1); }
    Abut(x.stream, |Chunks(before)|, |e.chunk|);
  }

  lemma Abut(stream: Buffer, p: nat, n: nat)
    requires p + n <= |stream|
    ensures stream[..p] + stream[p..p + n] == stream[..p + n]
  {
  }

  lemma PlaceOf(trace: seq<Exchange>, x: Session, i: nat)
    requires i < |trace| && AtPrefix(trace, x, i)
    ensures x.place(trace[i].request) == |Chunks(trace[..i])| <= |x.stream|
  {
  }

  lemma PlaceEchoed(env: Env, x: Session, s: Buffer, t: Buffer)
    requires Honest(env, x)
    requires |s| == |t| == DUMP_BYTES && SameCursor(s, t)
    ensures x.place(s) == x.place(t)
  {
    hide SameCursor, Serves, Answered, Question, InSession;
  }

  // A genuine exchange of the session carries the stream's bytes.
  lemma ServedExchange(env: Env, log: seq<Event>, x: Session, e: Exchange)
    requires Honest(env, x) && InSession(env, x, log, e.request)
    requires Genuine(env, log + [Question(e.request)], x.inline, e)
    requires |e.request| == |e.reply| == DUMP_BYTES && x.place(e.request) <= |x.stream|
    ensures Carries(e, x, x.place(e.request))
  {
    hide Genuine, Honest, Chunk, Question, Serves, InSession;
    HonestAnswer(env, log, x, e);
    GenuineChunk(env, log + [Question(e.request)], x.inline, e);
    ServedChunk(env, log + [Question(e.request)], x, x.place(e.request), e);
  }

  lemma ServedChunk(env: Env, log: seq<Event>, x: Session, p: nat, e: Exchange)
    requires p <= |x.stream| && Serves(env, log, x, p)
    requires e.reply == SentRegister(env, log) && |e.chunk| == Get(e.reply, SIZE)
    requires |e.chunk| <= (if x.inline then INLINE_MAX else |Raw(env, log).dma|) ==>
               e.chunk == Chunk(env, log, x.inline)
    ensures Carries(e, x, p)
  {
    hide SentRegister, Get, Raw, Chunk;
  }

  lemma HonestAnswer(env: Env, log: seq<Event>, x: Session, e: Exchange)
    requires Honest(env, x) && InSession(env, x, log, e.request)
    requires Genuine(env, log + [Question(e.request)], x.inline, e)
    ensures x.place(e.request) <= |x.stream|
    ensures Serves(env, log + [Question(e.request)], x, x.place(e.request))
  {
    hide Serves, Answered, SentRegister, Question, Get, Raw, InSequence, Talk;
  }

  lemma GenuineChunk(env: Env, log: seq<Event>, inline: bool, e: Exchange)
    requires Genuine(env, log, inline, e)
    ensures |e.request| == |e.reply| == DUMP_BYTES
    ensures e.reply == SentRegister(env, log) && |e.chunk| == Get(e.reply, SIZE)
    ensures |e.chunk| <= (if inline then INLINE_MAX else |Raw(env, log).dma|) ==> e.chunk == Chunk(env, log, inline)
  {
    hide Answered, SentRegister, Get, Raw, InSequence;
  }

  /** However a run ends, what it collected is a prefix of the stream, behind the
      bytes that were there before; a run that ends normally has it all. */
  lemma CollectsPrefix(env: Env, w0: World, junk: Buffer, s: Run, x: Session)
    requires RunOf(env, w0, junk, s, x) && Honest(env, x) && x.place(x.init) == 0
    ensures junk <= s.data && s.data[|junk|..] <= x.stream
    ensures s.status == Done ==> s.data == junk + x.stream
  {
    hide *;
    RunData(env, w0, junk, s, x);
    ChunksPrefix(env, w0, junk, s, x);
    Behind(junk, Chunks(s.trace), x.stream);
  }

  lemma Behind(junk: Buffer, data: Buffer, stream: Buffer)
    requires data <= stream
    ensures junk <= junk + data && (junk + data)[|junk|..] <= stream
  {
    assert (junk + data)[|junk|..] == data;
  }

  lemma RunData(env: Env, w0: World, junk: Buffer, s: Run, x: Session)
    requires RunOf(env, w0, junk, s, x)
    ensures s.data == junk + Chunks(s.trace)
    ensures s.trace != [] ==> |s.trace[|s.trace| - 1].reply| == DUMP_BYTES
    ensures s.status == Done ==> s.trace != [] && !HasMore(s.trace[|s.trace| - 1].reply)
  {
    hide Faithful, HasMore, Chunks;
    FaithfulData(env, w0, x.inline, x.init, junk, s);
  }

  lemma ChunksPrefix(env: Env, w0: World, junk: Buffer, s: Run, x: Session)
    requires RunOf(env, w0, junk, s, x) && Honest(env, x) && x.place(x.init) == 0
    ensures Chunks(s.trace) <= x.stream
    ensures s.status == Done ==> Chunks(s.trace) == x.stream
  {
    hide *;
    RunData(env, w0, junk, s, x);
    if s.trace == [] {
      NoChunks();
    } else {
      TracePrefix(env, w0, junk, s, x, |s.trace| - 1);
      PrefixGrows(s.trace, x);
    }
  }

  lemma NoChunks()
    ensures Chunks([]) == []
  {
  }

  lemma FaithfulData(env: Env, w0: World, inline: bool, init: Buffer, junk: Buffer, s: Run)
    requires |init| == DUMP_BYTES && Faithful(env, w0, inline, init, junk, s)
    ensures s.data == junk + Chunks(s.trace) && Chunks([]) == []
    ensures s.trace != [] ==> |s.trace[|s.trace| - 1].reply| == DUMP_BYTES
    ensures s.status == Done ==> s.trace != [] && !HasMore(s.trace[|s.trace| - 1].reply)
  {
    hide Linked, HasMore, Questions, NextRequest, Question;
  }

  lemma PrefixGrows(trace: seq<Exchange>, x: Session)
    requires trace != [] && AtPrefix(trace, x, |trace| - 1)
    requires Carries(trace[|trace| - 1], x, |Chunks(trace[..|trace| - 1])|)
    ensures Chunks(trace) <= x.stream
    ensures |trace[|trace| - 1].reply| == DUMP_BYTES
    ensures !HasMore(trace[|trace| - 1].reply) ==> Chunks(trace) == x.stream
  {
    hide HasMore, Get, ReportedSize, InSequence;
    var e, p := trace[|trace| - 1], |Chunks(trace[..|trace| - 1])|;
    ReplyRead(e.reply, e.reply);
    assert x.stream[..p] + x.stream[p..p + |e.chunk|] == x.stream[..p + |e.chunk|];
  }
}
