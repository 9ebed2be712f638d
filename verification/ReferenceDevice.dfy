/** A device for every stream: it keeps the place in device_opaque and sends as
    much as one reply holds. It shows that what Service asks of a device can be
    met, whatever the query and the stream, by a device that knows no other query
    and stops serving at any other command, such as one that destroys the key it
    writes through. Those commands, and registrations, it grants with a reply of
    zeros, so every handle it gives out is 0. */
module ReferenceDevice {
  import opened Bits
  import opened Codec
  import opened FieldLaws
  import opened Layouts
  import opened Machine
  import opened Register
  import opened ResourceDump
  import opened EchoLaws
  import opened DumpRuns
  import opened DumpTheorems
  import opened Conversations
  import opened Service

  function OpaquePlace(b: Buffer): nat {
    hide Get;
    if |b| == DUMP_BYTES then Get(b, DEVICE_OPAQUE) else 0
  }

  function PieceAt(stream: Buffer, p: nat): (piece: Buffer)
    requires p <= |stream|
    ensures |piece| <= INLINE_MAX
  {
    if |stream| - p <= INLINE_MAX then stream[p..] else stream[p..p + INLINE_MAX]
  }

  function ReplyRegister(stream: Buffer, p: nat): (r: Buffer)
    requires p <= |stream|
    ensures |r| == DUMP_BYTES
  {
    hide Put;
    var piece := PieceAt(stream, p);
    var q := p + |piece|;
    var r0 := Zeros(INLINE_OFF) + piece + Zeros(INLINE_MAX - |piece|);
    var r1 := Put(r0, SIZE, |piece|);
    var r2 := Put(r1, DEVICE_OPAQUE, q);
    Put(r2, MORE_DUMP, if q < |stream| then 1 else 0)
  }

  predicate IsQuestion(e: Event) {
    hide Get;
    e.Command? && |e.frame| == REPLY_BYTES && Get(e.frame, OPCODE) == OP_ACCESS_REG
  }

  // A question that repeats the query of init.
  predicate Repeats(e: Event, init: Buffer)
    requires |init| == DUMP_BYTES
  {
    hide SameQuery;
    IsQuestion(e) && SameQuery(e.frame[REG_HEAD_BYTES..], init)
  }

  // Since its first `start` questions the device was asked nothing else.
  predicate Undisturbed(init: Buffer, start: nat, log: seq<Event>)
    requires |init| == DUMP_BYTES
  {
    hide Repeats;
    start <= |log| ==> forall e :: e in log[start..] ==> Repeats(e, init)
  }

  // It knows one query, and refuses every other, and that one after any other command.
  function Respond(init: Buffer, stream: Buffer, start: nat, log: seq<Event>): Reply
    requires |init| == DUMP_BYTES
  {
    hide ReplyRegister, SameQuery, Undisturbed;
    if log != [] && IsQuestion(log[|log| - 1]) then
      var request := log[|log| - 1].frame[REG_HEAD_BYTES..];
      var p := OpaquePlace(request);
      if SameQuery(request, init) && p <= |stream| && Undisturbed(init, start, log[..|log| - 1]) then
        Reply(0, Zeros(REG_HEAD_BYTES) + ReplyRegister(stream, p), PieceAt(stream, p))
      else Reply(-1, [], [])
    else Reply(0, [], [])
  }

  function Reference(init: Buffer, stream: Buffer, start: nat, lifetime: nat): Env
    requires |init| == DUMP_BYTES
  {
    Env(log => Respond(init, stream, start, log), lifetime, k => k + 1)
  }

  // What the reply register says.
  ghost predicate Says(r: Buffer, stream: Buffer, p: nat)
    requires p <= |stream|
  {
    hide Get;
    var piece := PieceAt(stream, p);
    && |r| == DUMP_BYTES
    && Get(r, SIZE) == |piece|
    && Get(r, SEQ_NUM) == 0
    && Get(r, DEVICE_OPAQUE) == p + |piece|
    && (Get(r, MORE_DUMP) != 0 <==> p + |piece| < |stream|)
    && r[INLINE_OFF..INLINE_OFF + |piece|] == piece
  }

  lemma ReplySays(stream: Buffer, p: nat)
    requires p <= |stream| < 0x1_0000_0000_0000_0000
    ensures Says(ReplyRegister(stream, p), stream, p)
  {
    hide Get, Put, Pow2;
    PowersOfTwo();
    var piece := PieceAt(stream, p);
    var q := p + |piece|;
    var r0 := Zeros(INLINE_OFF) + piece + Zeros(INLINE_MAX - |piece|);
    var r1 := Put(r0, SIZE, |piece|);
    var r2 := Put(r1, DEVICE_OPAQUE, q);
    var m := if q < |stream| then 1 else 0;
    HeadZero(r0, SEQ_NUM);
    PutFacts(r0, SIZE, |piece|);
    PutFacts(r1, DEVICE_OPAQUE, q);
    PutFacts(r2, MORE_DUMP, m);
    Tail(r0, SIZE, |piece|);
    Tail(r1, DEVICE_OPAQUE, q);
    Tail(r2, MORE_DUMP, m);
    SliceOfTail(r0, Put(r2, MORE_DUMP, m), piece);
  }

  lemma HeadZero(r: Buffer, f: Field)
    requires |r| == DUMP_BYTES && Valid(f, INLINE_OFF)
    requires forall k :: 0 <= k < INLINE_OFF ==> r[k] == 0
    ensures Get(r, f) == 0
  {
    hide Get;
    GetLocal(r, Zeros(INLINE_OFF), f);
    ZeroField(Zeros(INLINE_OFF), f);
  }

  lemma Tail(r: Buffer, f: Field, v: int)
    requires |r| == DUMP_BYTES && Valid(f, INLINE_OFF)
    ensures Put(r, f, v)[INLINE_OFF..] == r[INLINE_OFF..]
  {
    hide Put;
    PutTail(r, f, v, INLINE_OFF);
  }

  lemma SliceOfTail(r: Buffer, t: Buffer, piece: Buffer)
    requires |r| == |t| == DUMP_BYTES && |piece| <= INLINE_MAX
    requires r == Zeros(INLINE_OFF) + piece + Zeros(INLINE_MAX - |piece|)
    requires t[INLINE_OFF..] == r[INLINE_OFF..]
    ensures t[INLINE_OFF..INLINE_OFF + |piece|] == piece
  {
    assert t[INLINE_OFF..INLINE_OFF + |piece|] == t[INLINE_OFF..][..|piece|];
  }

  // The request inside a question is the register the client holds.
  lemma QuestionCarries(request: Buffer)
    requires |request| == DUMP_BYTES
    ensures IsQuestion(Question(request))
    ensures Question(request).frame[REG_HEAD_BYTES..] == request
  {
    hide Frame, Get;
    FrameDecodes(request, REG_RESOURCE_DUMP, 0, 0);
  }

  lemma AnswerTo(init: Buffer, stream: Buffer, start: nat, log: seq<Event>, request: Buffer)
    requires |init| == |request| == DUMP_BYTES
    ensures var p := OpaquePlace(request);
            Respond(init, stream, start, log + [Question(request)]) ==
            if SameQuery(request, init) && p <= |stream| && Undisturbed(init, start, log) then
              Reply(0, Zeros(REG_HEAD_BYTES) + ReplyRegister(stream, p), PieceAt(stream, p))
            else Reply(-1, [], [])
  {
    hide Question, ReplyRegister, OpaquePlace, IsQuestion, SameQuery, Undisturbed;
    QuestionCarries(request);
    assert (log + [Question(request)])[..|log|] == log;
  }

  // A conversation disturbs nothing, and a command about a handle would.
  lemma TalkUndisturbed(env: Env, log0: seq<Event>, init: Buffer, log: seq<Event>, request: Buffer)
    requires |init| == DUMP_BYTES && Talk(env, log0, init, log, request)
    ensures Undisturbed(init, |log0|, log) && SameQuery(request, init)
  {
    hide Talk, Question, SameQuery, IsQuestion;
    OnlyThatQuery(env, log0, init, log, request);
    TalkFacts(env, log0, init, log, request);
    forall e | e in log[|log0|..] ensures Repeats(e, init) {
      var r :| |r| == DUMP_BYTES && e == Question(r) && SameQuery(r, init);
      QuestionCarries(r);
    }
  }

  lemma HandlesDisturb(e: Event, init: Buffer)
    requires |init| == DUMP_BYTES && OpOf(e) != Other
    ensures !Repeats(e, init)
  {
    hide Get, SameQuery;
  }

  lemma StatusZero(out: Buffer)
    requires |out| == REPLY_BYTES && out[..REG_HEAD_BYTES] == Zeros(REG_HEAD_BYTES)
    ensures Get(out, STATUS) == 0
  {
    hide Get;
    assert forall k :: 0 <= k < REG_HEAD_BYTES ==> out[k] == out[..REG_HEAD_BYTES][k];
    GetLocal(out, Zeros(REG_HEAD_BYTES), STATUS);
    ZeroField(Zeros(REG_HEAD_BYTES), STATUS);
  }

  lemma OverlayAll(s: Buffer, t: Buffer)
    requires |s| == |t|
    ensures Overlay(s, t) == t
  {
  }

  // What the client sees of the answer.
  lemma SeenAnswer(init: Buffer, stream: Buffer, start: nat, lifetime: nat, log: seq<Event>, request: Buffer)
    requires |init| == |request| == DUMP_BYTES && |log| < lifetime
    requires SameQuery(request, init) && OpaquePlace(request) <= |stream| && Undisturbed(init, start, log)
    ensures var env, log' := Reference(init, stream, start, lifetime), log + [Question(request)];
            var p := OpaquePlace(request);
            && Answered(env, log', REPLY_BYTES)
            && SentRegister(env, log') == ReplyRegister(stream, p)
            && Raw(env, log').dma == PieceAt(stream, p)
  {
    hide Get, Question, ReplyRegister, OpaquePlace, Respond, Overlay, SameQuery, Undisturbed;
    AnswerTo(init, stream, start, log, request);
    var out := Respond(init, stream, start, log + [Question(request)]).out;
    assert out[..REG_HEAD_BYTES] == Zeros(REG_HEAD_BYTES);
    StatusZero(out);
    OverlayAll(Zeros(REPLY_BYTES), out);
  }

  lemma OtherRefused(init: Buffer, stream: Buffer, start: nat, lifetime: nat, log: seq<Event>, request: Buffer)
    requires |init| == |request| == DUMP_BYTES && !(SameQuery(request, init) && Undisturbed(init, start, log))
    ensures !Answered(Reference(init, stream, start, lifetime), log + [Question(request)], REPLY_BYTES)
  {
    hide Get, Question, ReplyRegister, OpaquePlace, Respond, Overlay, SameQuery, Undisturbed;
    AnswerTo(init, stream, start, log, request);
  }

  lemma SaysServes(env: Env, log: seq<Event>, x: Session, p: nat)
    requires x.place == OpaquePlace
    requires p <= |x.stream| && Says(SentRegister(env, log), x.stream, p) && Raw(env, log).dma == PieceAt(x.stream, p)
    ensures Serves(env, log, x, p)
    ensures forall request :: |request| == DUMP_BYTES ==> InSequence(request, SentRegister(env, log))
    ensures Get(SentRegister(env, log), MORE_DUMP) == 1 ==> Get(SentRegister(env, log), SIZE) > 0
  {
    hide Get, SentRegister, Raw;
    var r, piece := SentRegister(env, log), PieceAt(x.stream, p);
    OneBit(r);
    assert r[INLINE_OFF..][..|piece|] == r[INLINE_OFF..INLINE_OFF + |piece|];
    assert piece == x.stream[p..p + |piece|];
  }

  lemma OneBit(reply: Buffer)
    requires |reply| == DUMP_BYTES
    ensures Get(reply, MORE_DUMP) <= 1
  {
    hide Get, Pow2;
    GetBound(reply, MORE_DUMP);
    PowersOfTwo();
  }

  lemma PlaceInCursor()
    ensures InCursor(OpaquePlace)
  {
    hide Get;
  }

  // After log0 it refuses every query but one, and that one as soon as anything else
  // was asked, such as to destroy a key.
  ghost predicate KnowsOnly(env: Env, log0: seq<Event>, init: Buffer)
    requires |init| == DUMP_BYTES
  {
    hide Question, Answered, SameQuery, OpOf;
    && (forall log, request :: |request| == DUMP_BYTES && !SameQuery(request, init) ==>
          !Answered(env, log + [Question(request)], REPLY_BYTES))
    && (forall log, request, e: Event ::
          |request| == DUMP_BYTES && log0 <= log && e in log[|log0|..] && OpOf(e) != Other ==>
            !Answered(env, log + [Question(request)], REPLY_BYTES))
  }

  /** For every query, every stream and every history there is a device that serves the
      stream from then on, honestly, promptly and progressively, in either way, that
      refuses every other query and, once asked about a handle, every dump, and never
      writes more than one reply's worth. */
  lemma EveryStreamIsServed(log0: seq<Event>, init: Buffer, inline: bool, stream: Buffer, lifetime: nat)
    requires |init| == DUMP_BYTES && |stream| < 0x1_0000_0000_0000_0000
    ensures var env := Reference(init, stream, |log0|, lifetime);
            var x := Session(log0, init, inline, stream, OpaquePlace);
            && Honest(env, x) && Prompt(env, x) && Progressive(env, x) && WritesUpTo(env, x, INLINE_MAX)
            && (forall k :: env.grant(k) != 0) && env.lifetime == lifetime && KnowsOnly(env, log0, init)
  {
    hide Question, Answered, SentRegister, InSequence, Serves, InCursor, OpaquePlace, Respond, SameQuery, Raw,
         Get, Talk, KnowsOnly;
    var env := Reference(init, stream, |log0|, lifetime);
    var x := Session(log0, init, inline, stream, OpaquePlace);
    PlaceInCursor();
    forall log, request | InSession(env, x, log, request) && Answered(env, log + [Question(request)], REPLY_BYTES)
      ensures Serves(env, log + [Question(request)], x, x.place(request))
    {
      AnsweredAlive(env, log, request);
      ServesOne(lifetime, log, x, request);
    }
    forall log, request | InSession(env, x, log, request) && |log| < lifetime
      ensures Answered(env, log + [Question(request)], REPLY_BYTES)
              && InSequence(request, SentRegister(env, log + [Question(request)]))
    {
      TalkUndisturbed(env, log0, init, log, request);
      SeenAnswer(init, stream, |log0|, lifetime, log, request);
      ServesOne(lifetime, log, x, request);
    }
    forall log, request | InSession(env, x, log, request)
      ensures Get(SentRegister(env, log + [Question(request)]), MORE_DUMP) == 1 ==>
                Get(SentRegister(env, log + [Question(request)]), SIZE) > 0
    {
      if |log| < lifetime {
        ServesOne(lifetime, log, x, request);
      } else {
        DeadSaysNothing(env, log + [Question(request)]);
      }
    }
    forall log, request | InSession(env, x, log, request)
      ensures |Raw(env, log + [Question(request)]).dma| <= INLINE_MAX
    {
      WritesLittle(init, stream, |log0|, lifetime, log + [Question(request)]);
    }
    ReferenceKnowsOnly(log0, init, stream, lifetime);
  }

  lemma ReferenceKnowsOnly(log0: seq<Event>, init: Buffer, stream: Buffer, lifetime: nat)
    requires |init| == DUMP_BYTES
    ensures KnowsOnly(Reference(init, stream, |log0|, lifetime), log0, init)
  {
    hide Question, Answered, SameQuery, OpOf, Respond, Repeats;
    var env := Reference(init, stream, |log0|, lifetime);
    forall log, request | |request| == DUMP_BYTES && !SameQuery(request, init)
      ensures !Answered(env, log + [Question(request)], REPLY_BYTES)
    {
      OtherRefused(init, stream, |log0|, lifetime, log, request);
    }
    forall log, request, e: Event | |request| == DUMP_BYTES && log0 <= log && e in log[|log0|..] && OpOf(e) != Other
      ensures !Answered(env, log + [Question(request)], REPLY_BYTES)
    {
      HandlesDisturb(e, init);
      OtherRefused(init, stream, |log0|, lifetime, log, request);
    }
  }

  // A register full of zeros announces nothing.
  lemma DeadSaysNothing(env: Env, log: seq<Event>)
    requires |log| > env.lifetime
    ensures Get(SentRegister(env, log), MORE_DUMP) == 0
  {
    hide Get;
    assert SentRegister(env, log) == Zeros(DUMP_BYTES);
    ZeroField(Zeros(DUMP_BYTES), MORE_DUMP);
  }

  lemma WritesLittle(init: Buffer, stream: Buffer, start: nat, lifetime: nat, log: seq<Event>)
    requires |init| == DUMP_BYTES
    ensures |Raw(Reference(init, stream, start, lifetime), log).dma| <= INLINE_MAX
  {
    hide ReplyRegister, OpaquePlace, IsQuestion, SameQuery, Undisturbed;
  }

  lemma AnsweredAlive(env: Env, log: seq<Event>, request: Buffer)
    requires Answered(env, log + [Question(request)], REPLY_BYTES)
    ensures |log| < env.lifetime
  {
    hide Get, Question;
  }

  lemma ServesOne(lifetime: nat, log: seq<Event>, x: Session, request: Buffer)
    requires |x.init| == DUMP_BYTES && x.place == OpaquePlace && |log| < lifetime
    requires InSession(Reference(x.init, x.stream, |x.log|, lifetime), x, log, request)
    requires |x.stream| < 0x1_0000_0000_0000_0000
    ensures var env, log' := Reference(x.init, x.stream, |x.log|, lifetime), log + [Question(request)];
            && Serves(env, log', x, x.place(request))
            && InSequence(request, SentRegister(env, log'))
            && (Get(SentRegister(env, log'), MORE_DUMP) == 1 ==> Get(SentRegister(env, log'), SIZE) > 0)
  {
    hide Question, Answered, SentRegister, InSequence, Serves, OpaquePlace, ReplyRegister, Says, Reference,
         SameQuery, Raw, Get, Talk, Undisturbed;
    var env := Reference(x.init, x.stream, |x.log|, lifetime);
    TalkUndisturbed(env, x.log, x.init, log, request);
    SeenAnswer(x.init, x.stream, |x.log|, lifetime, log, request);
    ReplySays(x.stream, x.place(request));
    SaysServes(env, log + [Question(request)], x, x.place(request));
  }

  // Both collectors' first requests stand at the start of the stream.
  lemma StartsAtTheStart(args: Args, mkey: nat, addr: nat, size: int)
    ensures OpaquePlace(InlineRequest(args)) == 0
    ensures OpaquePlace(UmemRequest(args, mkey, addr, size)) == 0
  {
    hide Get, InlineRequest, UmemRequest;
    StartsAtZero(args, mkey, addr, size, DEVICE_OPAQUE);
  }

  // A request about a handle is granted, and the handle is 0.
  lemma GrantsHandle(init: Buffer, stream: Buffer, start: nat, lifetime: nat, dev: Device, frame: Buffer)
    requires |init| == DUMP_BYTES && |dev.log| < lifetime && !IsQuestion(Command(frame))
    ensures var t := Ask(Reference(init, stream, start, lifetime), dev, frame);
            t.err == 0 && t.handle == 0 && t.dma == []
  {
    hide Get, OpOf, Recorded, IsQuestion, ReplyRegister, OpaquePlace, SameQuery, Undisturbed;
    assert Raw(Reference(init, stream, start, lifetime), dev.log + [Command(frame)]) == Reply(0, [], []);
    assert Overlay(Zeros(SHORT_FRAME_BYTES), []) == Zeros(SHORT_FRAME_BYTES);
    ZeroField(Zeros(SHORT_FRAME_BYTES), STATUS);
    ZeroField(Zeros(SHORT_FRAME_BYTES), HANDLE);
  }

  lemma GrantsMemory(init: Buffer, stream: Buffer, start: nat, lifetime: nat, dev: Device, addr: nat, len: nat)
    requires |init| == DUMP_BYTES && |dev.log| < lifetime
    ensures var env := Reference(init, stream, start, lifetime);
            && AskRegister(env, dev, addr, len).err == AskRegister(env, dev, addr, len).handle == 0
            && forall id :: AskUnregister(env, dev, id).err == 0
  {
    hide Get, OpOf, Recorded, ReplyRegister, OpaquePlace, SameQuery, Undisturbed;
  }
}
