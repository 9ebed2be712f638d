/** The main results about dump runs, read off the invariant of DumpRuns. */
module DumpTheorems {
  import opened Bits
  import opened Codec
  import opened FieldLaws
  import opened Layouts
  import opened Machine
  import opened ResourceDump
  import opened EchoLaws
  import opened DumpRuns

  /* ---- requests ---- */

  // What a first request asks for: every argument cut to its field's width.
  ghost predicate AsksFor(r: Buffer, args: Args, inline: nat) {
    hide Get;
    && |r| == DUMP_BYTES
    && Get(r, SEGMENT_TYPE) == args.ty % 0x1_0000
    && Get(r, INDEX1) == args.index1 % 0x1_0000_0000
    && Get(r, INDEX2) == args.index2 % 0x1_0000_0000
    && Get(r, VHCA_ID) == args.vhca % 0x1_0000
    && Get(r, INLINE_DUMP) == inline
  }

  ghost predicate Targets(r: Buffer, mkey: nat, addr: nat, size: int) {
    hide Get;
    && |r| == DUMP_BYTES
    && Get(r, MKEY) == mkey % 0x1_0000_0000
    && Get(r, ADDRESS) == addr % 0x1_0000_0000_0000_0000
    && Get(r, SIZE) == size % 0x1_0000_0000
  }

  lemma CommonRequestAsks(args: Args)
    ensures AsksFor(Put(CommonRequest(args), INLINE_DUMP, 1), args, 1)
    ensures AsksFor(Put(CommonRequest(args), INLINE_DUMP, 0), args, 0)
  {
    hide Get, Put, Pow2;
    PowersOfTwo();
    var r0 := Zeros(DUMP_BYTES);
    var r1 := Put(r0, SEGMENT_TYPE, args.ty);
    var r2 := Put(r1, INDEX1, args.index1);
    var r3 := Put(r2, INDEX2, args.index2);
    PutFacts(r0, SEGMENT_TYPE, args.ty);
    PutFacts(r1, INDEX1, args.index1);
    PutFacts(r2, INDEX2, args.index2);
    PutFacts(r3, VHCA_ID, args.vhca);
    PutFacts(CommonRequest(args), INLINE_DUMP, 1);
    PutFacts(CommonRequest(args), INLINE_DUMP, 0);
  }

  lemma InlineRequestAsks(args: Args)
    ensures AsksFor(InlineRequest(args), args, 1)
  {
    hide Put, AsksFor, CommonRequest;
    CommonRequestAsks(args);
  }

  lemma UmemRequestAsks(args: Args, mkey: nat, addr: nat, size: int)
    ensures AsksFor(UmemRequest(args, mkey, addr, size), args, 0)
    ensures Targets(UmemRequest(args, mkey, addr, size), mkey, addr, size)
  {
    CommonRequestAsks(args);
    hide Get, Put, Pow2, CommonRequest;
    PowersOfTwo();
    var r1 := Put(CommonRequest(args), INLINE_DUMP, 0);
    var r2 := Put(r1, MKEY, mkey);
    var r3 := Put(r2, ADDRESS, addr);
    PutFacts(r1, MKEY, mkey);
    PutFacts(r2, ADDRESS, addr);
    PutFacts(r3, SIZE, size);
  }

  // The requests of a run: the first is init; each later one keeps init's query
  // and carries the cursor of the reply before it.
  lemma RequestRule(env: Env, w0: World, inline: bool, init: Buffer, junk: Buffer, s: Run, i: nat)
    requires |init| == DUMP_BYTES && Faithful(env, w0, inline, init, junk, s) && i < |s.trace|
    ensures |s.trace[i].request| == DUMP_BYTES
    ensures i == 0 ==> s.trace[i].request == init
    ensures i > 0 ==> && |s.trace[i - 1].reply| == DUMP_BYTES
                      && HasMore(s.trace[i - 1].reply)
                      && s.trace[i].request == Echo(init, s.trace[i - 1].reply)
                      && SameQuery(s.trace[i].request, init)
                      && SameCursor(s.trace[i].request, s.trace[i - 1].reply)
  {
    hide HasMore, Echo, SameQuery, SameCursor, Genuine, NextRequest;
    assert Linked(env, w0, inline, init, s.trace, i);
    NextRequestOf(init, s.trace, i);
    assert |s.trace[i].request| == DUMP_BYTES by {
      GenuineSizes(env, w0.dev.log + Questions(s.trace[..i + 1]), inline, s.trace[i]);
    }
    if i > 0 { EchoRule(init, s.trace[i - 1].reply); }
  }

  lemma NextRequestOf(init: Buffer, trace: seq<Exchange>, i: nat)
    requires |init| == DUMP_BYTES && i < |trace|
    requires i > 0 ==> |trace[i - 1].reply| == DUMP_BYTES
    ensures NextRequest(init, trace[..i]) == if i == 0 then init else Echo(init, trace[i - 1].reply)
  {
    hide Echo;
  }

  lemma GenuineSizes(env: Env, log: seq<Event>, inline: bool, x: Exchange)
    requires Genuine(env, log, inline, x)
    ensures |x.request| == |x.reply| == DUMP_BYTES && InSequence(x.request, x.reply)
  {
    hide InSequence, Answered, SentRegister, Raw;
  }

  // What no reply changes: the caller's type and function, and the way to answer.
  ghost predicate KeepsAsking(r: Buffer, args: Args, inline: nat) {
    hide Get;
    && |r| == DUMP_BYTES
    && Get(r, SEGMENT_TYPE) == args.ty % 0x1_0000
    && Get(r, VHCA_ID) == args.vhca % 0x1_0000
    && Get(r, INLINE_DUMP) == inline
  }

  lemma SameQueryAsks(r: Buffer, init: Buffer, args: Args, inline: nat)
    requires |r| == |init| == DUMP_BYTES && SameQuery(r, init) && AsksFor(init, args, inline)
    ensures KeepsAsking(r, args, inline)
  {
    hide Get;
  }

  lemma SameQueryTargets(r: Buffer, init: Buffer, mkey: nat, addr: nat, size: int)
    requires |r| == |init| == DUMP_BYTES && SameQuery(r, init) && Targets(init, mkey, addr, size)
    ensures Targets(r, mkey, addr, size)
  {
    hide Get;
  }

  lemma EveryRequestRepeats(env: Env, w0: World, inline: bool, init: Buffer, junk: Buffer, s: Run, i: nat)
    requires |init| == DUMP_BYTES && Faithful(env, w0, inline, init, junk, s) && i < |s.trace|
    ensures |s.trace[i].request| == DUMP_BYTES && SameQuery(s.trace[i].request, init)
  {
    RequestRule(env, w0, inline, init, junk, s, i);
    hide Faithful, Echo, Get, SameCursor;
  }

  /** Whatever the replies hold, every request of a dump asks for the type and function
      the caller named, and for replies of the same kind. */
  lemma InlineKeepsAsking(env: Env, w: World, args: Args, junk: Buffer, i: nat)
    ensures var t := Inline(env, InlineStart(env, w, args, junk, []));
            i < |t.trace| ==> KeepsAsking(t.trace[i].request, args, 1)
  {
    hide Faithful, Inline, InlineRequest, SameQuery, AsksFor, KeepsAsking;
    var t := Inline(env, InlineStart(env, w, args, junk, []));
    InlineRun(env, w, args, junk);
    InlineRequestAsks(args);
    if i < |t.trace| {
      EveryRequestRepeats(env, Allocated(env, w), true, InlineRequest(args), junk, t, i);
      SameQueryAsks(t.trace[i].request, InlineRequest(args), args, 1);
    }
  }

  /** Through a registered buffer, also for the same key, address and size. */
  lemma UmemKeepsAsking(env: Env, w: World, args: Args, mkey: nat, addr: nat, size: nat, window: Buffer, i: nat)
    ensures var t := Umem(env, UmemStart(env, w, args, mkey, addr, size, window));
            i < |t.trace| ==> KeepsAsking(t.trace[i].request, args, 0)
                              && Targets(t.trace[i].request, mkey, addr, ToInt32(ToU32(size)))
  {
    hide Faithful, Umem, UmemRequest, SameQuery, AsksFor, KeepsAsking, Targets;
    var t := Umem(env, UmemStart(env, w, args, mkey, addr, size, window));
    var init := UmemRequest(args, mkey, addr, ToInt32(ToU32(size)));
    UmemRun(env, w, args, mkey, addr, size, window);
    UmemRequestAsks(args, mkey, addr, ToInt32(ToU32(size)));
    if i < |t.trace| {
      EveryRequestRepeats(env, Allocated(env, w), false, init, [], t, i);
      SameQueryAsks(t.trace[i].request, init, args, 0);
      SameQueryTargets(t.trace[i].request, init, mkey, addr, ToInt32(ToU32(size)));
    }
  }

  /* ---- sequence numbers ---- */

  function SeqNum(reply: Buffer): (n: nat)
    requires |reply| == DUMP_BYTES
    ensures n < 16
  {
    hide Get, Pow2;
    GetBound(reply, SEQ_NUM);
    PowersOfTwo();
    Get(reply, SEQ_NUM)
  }

  ghost predicate Wellsized(trace: seq<Exchange>) {
    forall i :: 0 <= i < |trace| ==> |trace[i].request| == |trace[i].reply| == DUMP_BYTES
  }

  // How many replies, up to reply i, since the last one numbered 0 or the start.
  function SinceZero(trace: seq<Exchange>, i: nat): nat
    requires i < |trace| && Wellsized(trace)
  {
    hide SeqNum;
    if SeqNum(trace[i].reply) == 0 then 0
    else 1 + if i == 0 then 0 else SinceZero(trace, i - 1)
  }

  lemma TraceSizes(env: Env, w0: World, inline: bool, init: Buffer, junk: Buffer, s: Run)
    requires |init| == DUMP_BYTES && Faithful(env, w0, inline, init, junk, s)
    ensures Wellsized(s.trace)
  {
    hide HasMore, Genuine, NextRequest;
    forall i: nat | i < |s.trace|
      ensures |s.trace[i].request| == |s.trace[i].reply| == DUMP_BYTES
    {
      assert Linked(env, w0, inline, init, s.trace, i);
      GenuineSizes(env, w0.dev.log + Questions(s.trace[..i + 1]), inline, s.trace[i]);
    }
  }

  lemma InSequenceIff(request: Buffer, reply: Buffer)
    requires |request| == |reply| == DUMP_BYTES
    ensures InSequence(request, reply) <==> SeqNum(reply) == 0 || SeqNum(reply) == SeqNum(request) + 1
    ensures SameCursor(request, reply) ==> SeqNum(request) == SeqNum(reply)
  {
    hide Get;
  }

  // A reply of an accepted run is numbered by the replies since the last 0.
  lemma {:induction false} SequenceNumbers(env: Env, w0: World, inline: bool, init: Buffer, junk: Buffer,
                                           s: Run, i: nat)
    requires |init| == DUMP_BYTES && SeqNum(init) == 0
    requires Faithful(env, w0, inline, init, junk, s) && i < |s.trace|
    ensures Wellsized(s.trace) && SeqNum(s.trace[i].reply) == SinceZero(s.trace, i)
  {
    hide Faithful, SeqNum, InSequence, SameCursor, SameQuery, HasMore, Echo;
    TraceSizes(env, w0, inline, init, junk, s);
    RequestRule(env, w0, inline, init, junk, s, i);
    LinkInSequence(env, w0, inline, init, junk, s, i);
    InSequenceIff(s.trace[i].request, s.trace[i].reply);
    if i > 0 {
      SequenceNumbers(env, w0, inline, init, junk, s, i - 1);
      InSequenceIff(s.trace[i].request, s.trace[i - 1].reply);
    }
  }

  lemma LinkInSequence(env: Env, w0: World, inline: bool, init: Buffer, junk: Buffer, s: Run, i: nat)
    requires |init| == DUMP_BYTES && Faithful(env, w0, inline, init, junk, s) && i < |s.trace|
    ensures |s.trace[i].request| == |s.trace[i].reply| == DUMP_BYTES
    ensures InSequence(s.trace[i].request, s.trace[i].reply)
  {
    hide HasMore, Genuine, NextRequest, InSequence;
    assert Linked(env, w0, inline, init, s.trace, i);
    GenuineSizes(env, w0.dev.log + Questions(s.trace[..i + 1]), inline, s.trace[i]);
  }

  // The number has four bits, so no 16 replies in a row can go without a 0.
  lemma ZeroAmongSixteen(env: Env, w0: World, inline: bool, init: Buffer, junk: Buffer, s: Run, i: nat)
    requires |init| == DUMP_BYTES && SeqNum(init) == 0
    requires Faithful(env, w0, inline, init, junk, s) && i + 16 <= |s.trace|
    ensures Wellsized(s.trace) && exists j :: i <= j < i + 16 && SeqNum(s.trace[j].reply) == 0
  {
    hide Faithful, SeqNum, SinceZero;
    TraceSizes(env, w0, inline, init, junk, s);
    if forall j :: i <= j < i + 16 ==> SeqNum(s.trace[j].reply) != 0 {
      CountsUp(s.trace, i, 15);
      SequenceNumbers(env, w0, inline, init, junk, s, i + 15);
    }
  }

  lemma {:induction false} CountsUp(trace: seq<Exchange>, i: nat, k: nat)
    requires Wellsized(trace) && i + k < |trace|
    requires forall j :: i <= j <= i + k ==> SeqNum(trace[j].reply) != 0
    ensures SinceZero(trace, i + k) >= k + 1
  {
    hide SeqNum;
    if k > 0 { CountsUp(trace, i, k - 1); }
  }

  predicate IsZero(s: Buffer, f: Field) {
    hide Get;
    Valid(f, |s|) && Get(s, f) == 0
  }

  // A field that no initial request sets, such as the cursor's, starts at 0.
  ghost predicate Unset(f: Field) {
    && Valid(f, DUMP_BYTES)
    && Disjoint(f, SEGMENT_TYPE) && Disjoint(f, INDEX1) && Disjoint(f, INDEX2) && Disjoint(f, VHCA_ID)
    && Disjoint(f, INLINE_DUMP) && Disjoint(f, MKEY) && Disjoint(f, ADDRESS) && Disjoint(f, SIZE)
  }

  lemma StartsAtZero(args: Args, mkey: nat, addr: nat, size: int, f: Field)
    requires Unset(f)
    ensures IsZero(InlineRequest(args), f) && IsZero(UmemRequest(args, mkey, addr, size), f)
  {
    hide IsZero, InlineRequest, UmemRequest, CommonRequest;
    CommonZero(args, f);
    InlineZero(args, f);
    UmemZero(args, mkey, addr, size, f);
  }

  // Both collectors start counting at 0.
  lemma CountsFromZero(args: Args, mkey: nat, addr: nat, size: int)
    ensures SeqNum(InlineRequest(args)) == 0
    ensures SeqNum(UmemRequest(args, mkey, addr, size)) == 0
  {
    hide Get, InlineRequest, UmemRequest;
    StartsAtZero(args, mkey, addr, size, SEQ_NUM);
  }

  lemma ZeroStaysZero(s: Buffer, f: Field, g: Field, v: int)
    requires IsZero(s, f) && Valid(g, |s|) && Disjoint(f, g)
    ensures IsZero(Put(s, g, v), f)
  {
    hide Get, Put;
    GetPutElsewhere(s, g, v, f);
  }

  lemma CommonZero(args: Args, f: Field)
    requires Unset(f)
    ensures IsZero(CommonRequest(args), f)
  {
    hide Put, IsZero;
    var r0 := Zeros(DUMP_BYTES);
    var r1 := Put(r0, SEGMENT_TYPE, args.ty);
    var r2 := Put(r1, INDEX1, args.index1);
    var r3 := Put(r2, INDEX2, args.index2);
    ZerosAreZero(f);
    ZeroStaysZero(r0, f, SEGMENT_TYPE, args.ty);
    ZeroStaysZero(r1, f, INDEX1, args.index1);
    ZeroStaysZero(r2, f, INDEX2, args.index2);
    ZeroStaysZero(r3, f, VHCA_ID, args.vhca);
  }

  lemma ZerosAreZero(f: Field)
    requires Valid(f, DUMP_BYTES)
    ensures IsZero(Zeros(DUMP_BYTES), f)
  {
    hide Get;
    ZeroField(Zeros(DUMP_BYTES), f);
  }

  lemma InlineZero(args: Args, f: Field)
    requires Unset(f) && IsZero(CommonRequest(args), f)
    ensures IsZero(InlineRequest(args), f)
  {
    hide Put, IsZero, CommonRequest;
    ZeroStaysZero(CommonRequest(args), f, INLINE_DUMP, 1);
  }

  lemma UmemZero(args: Args, mkey: nat, addr: nat, size: int, f: Field)
    requires Unset(f) && IsZero(CommonRequest(args), f)
    ensures IsZero(UmemRequest(args, mkey, addr, size), f)
  {
    hide Put, IsZero, CommonRequest;
    var r0 := CommonRequest(args);
    var r1 := Put(r0, INLINE_DUMP, 0);
    var r2 := Put(r1, MKEY, mkey);
    var r3 := Put(r2, ADDRESS, addr);
    ZeroStaysZero(r0, f, INLINE_DUMP, 0);
    ZeroStaysZero(r1, f, MKEY, mkey);
    ZeroStaysZero(r2, f, ADDRESS, addr);
    ZeroStaysZero(r3, f, SIZE, size);
  }

  /* ---- the doubling buffer ---- */

  // realloc from capacity c may copy c bytes: the sum over r doublings of first.
  function Copied(first: nat, r: nat): nat {
    if r == 0 then 0 else Copied(first, r - 1) + first * Pow2(r - 1)
  }

  lemma {:induction false} CopiedSum(first: nat, r: nat)
    ensures Copied(first, r) == first * Pow2(r) - first
  {
    if r > 0 {
      CopiedSum(first, r - 1);
      TwiceFirst(first, r - 1);
    }
  }

  // The buffer was doubled r times; if it was, it is less than twice the data,
  // and so is everything the reallocations copied. (Undefined comes between a
  // doubling and the copy it was meant for.)
  ghost predicate Doubled(first: nat, s: Run, r: nat) {
    && s.cap == first * Pow2(r)
    && |s.data| <= s.cap
    && (s.status != Undefined && r > 0 ==> s.cap < 2 * |s.data| && Copied(first, r) < 2 * |s.data|)
  }

  lemma StepDoubled(env: Env, first: nat, s: Run, r: nat) returns (r': nat)
    requires s.Valid() && s.status == Running && first > 0 && Doubled(first, s, r)
    ensures Doubled(first, InlineStep(env, s), r') && r <= r' <= r + 1
  {
    hide Iterate, ReportedSize, MakeRoom, Pow2, Overlay, Copied;
    r' := if InlineStep(env, s).cap == s.cap then r else r + 1;
    TwiceFirst(first, r);
    CopiedSum(first, r);
    CopiedSum(first, r + 1);
    var it := Iterate(env, s.w, s.request, s.reply);
    RoomDoubles(env, s.Received(it), ReportedSize(it.reply));
  }

  lemma TwiceFirst(first: nat, r: nat)
    ensures first * Pow2(r + 1) == 2 * (first * Pow2(r))
  {
    DoubleProduct(Pow2(r), first);
  }

  // The buffer grows at most to twice its size, and only when it has to.
  lemma RoomDoubles(env: Env, s: Run, n: int)
    requires s.status == Running && |s.data| <= s.cap
    ensures var t := MakeRoom(env, s, n);
            && (t.cap == s.cap || (t.cap == 2 * s.cap && s.cap < |s.data| + n))
            && (t.cap != s.cap ==> t.status in {Running, Undefined})
            && |s.data| <= t.cap
  {
  }

  // At the end of every run the capacity is the first one times a power of two,
  // and the realloc copies together moved less than twice the bytes collected.
  lemma {:induction false} DoublingBuffer(env: Env, first: nat, s: Run, r: nat) returns (r': nat)
    requires s.Valid() && first > 0 && Doubled(first, s, r)
    ensures Doubled(first, Inline(env, s), r')
    decreases s.Rounds(env)
  {
    hide InlineStep, Doubled;
    if s.status != Running {
      r' := r;
    } else {
      StepProgress(env, s);
      var r1 := StepDoubled(env, first, s, r);
      r' := DoublingBuffer(env, first, InlineStep(env, s), r1);
    }
  }

  // The command's dump starts at 4069 bytes.
  lemma InlineCapacity(env: Env, w: World, args: Args) returns (r: nat)
    ensures Doubled(FIRST_CAPACITY, Inline(env, InlineStart(env, w, args, [], [])), r)
  {
    hide Inline, InlineRequest, Copied;
    r := DoublingBuffer(env, FIRST_CAPACITY, InlineStart(env, w, args, [], []), 0);
  }

  /* ---- how much fits ---- */

  // The largest capacity that doubling reaches: the next one overflows an int.
  function Ceiling(cap: nat): nat
    requires 0 < cap
    decreases INT_MAX - cap
  {
    if 2 * cap > INT_MAX then cap else Ceiling(2 * cap)
  }

  lemma {:induction false} CeilingBound(cap: nat)
    requires 0 < cap <= INT_MAX
    ensures cap <= Ceiling(cap) <= INT_MAX < 2 * Ceiling(cap)
    decreases INT_MAX - cap
  {
    if 2 * cap <= INT_MAX { CeilingBound(2 * cap); }
  }

  lemma {:induction false} CeilingDoubled(first: nat, r: nat)
    requires 0 < first && first * Pow2(r) <= INT_MAX
    ensures Ceiling(first * Pow2(r)) == Ceiling(first)
  {
    if r > 0 {
      TwiceFirst(first, r - 1);
      CeilingDoubled(first, r - 1);
    }
  }

  const MAX_DUMP: nat := 4069 * 0x8_0000

  lemma FirstCeiling()
    ensures Ceiling(FIRST_CAPACITY) == MAX_DUMP
  {
    assert Pow2(19) == 0x8_0000 by { assert Pow2(3) == 8; PowersOfTwo(); PowProduct(3, 16); }
    hide Pow2;
    CeilingDoubled(FIRST_CAPACITY, 19);
  }

  // The buffer can take any full chunk in one doubling, and grow to limit.
  ghost predicate Spacious(s: Run, limit: nat) {
    INLINE_MAX <= s.cap <= INT_MAX && |s.data| <= s.cap && Ceiling(s.cap) == limit
  }

  /** In a spacious buffer a chunk finds room exactly if it is no larger than a
      reply's, does not pass the limit, and realloc succeeds when it is needed; a
      chunk of a reply's size leaves defined behaviour exactly if it passes the
      limit. */
  lemma RoomIff(env: Env, s: Run, n: int, limit: nat)
    requires s.status == Running && Spacious(s, limit)
    ensures var t := MakeRoom(env, s, n);
            && (t.status == Running <==>
                  && 0 <= n <= INLINE_MAX && |s.data| + n <= limit
                  && (|s.data| + n <= s.cap || env.grant(s.w.allocs) != 0))
            && (0 <= n <= INLINE_MAX ==> (t.status == Undefined <==> |s.data| + n > limit))
            && Spacious(t, limit)
  {
    CeilingBound(s.cap);
  }

  // A caller that starts with nothing, or with at least a reply's bytes and room
  // to double them, can be sure that any first chunk fits; no other caller can.
  lemma FirstRoomIff(env: Env, w: World, args: Args, junk: Buffer, r: Round)
    requires |junk| <= INT_MAX && |r.request| == |r.reply| == DUMP_BYTES && env.grant(r.w.allocs) != 0
    ensures (forall n :: 0 <= n <= INLINE_MAX ==>
                MakeRoom(env, InlineStart(env, w, args, junk, []).Received(r), n).status == Running)
            <==> junk == [] || (INLINE_MAX <= |junk| && 2 * |junk| <= INT_MAX)
  {
    hide InlineRequest;
    var s := InlineStart(env, w, args, junk, []).Received(r);
    if junk != [] && |junk| < INLINE_MAX {
      assert MakeRoom(env, s, INLINE_MAX).status == Undefined;
    } else if 2 * |junk| > INT_MAX {
      assert MakeRoom(env, s, 1).status == Undefined;
    }
  }

  // From such a start every later state is spacious, so RoomIff holds of it.
  lemma StartSpacious(env: Env, w: World, args: Args, junk: Buffer, window: Buffer)
    requires junk == [] || INLINE_MAX <= |junk| <= INT_MAX
    ensures var s := InlineStart(env, w, args, junk, window);
            s.cap > 0 && Spacious(s, Ceiling(s.cap))
  {
    hide InlineRequest, Ceiling;
  }

  lemma StepSpacious(env: Env, s: Run, limit: nat)
    requires s.Valid() && s.status == Running && Spacious(s, limit)
    ensures var t, r := InlineStep(env, s), Iterate(env, s.w, s.request, s.reply);
            && Spacious(t, limit)
            && (t.status == Undefined ==> t.reply == r.reply && r.code >= 0)
            && (r.code >= 0 && 0 <= ReportedSize(r.reply) <= INLINE_MAX ==>
                  (t.status == Undefined <==> |s.data| + ReportedSize(r.reply) > limit))
            && (t.status == Undefined ==> t.data == s.data)
  {
    hide Iterate, ReportedSize, Overlay, MakeRoom, Spacious;
    var r := Iterate(env, s.w, s.request, s.reply);
    if r.code >= 0 {
      var n := ReportedSize(r.reply);
      assert Spacious(s.Received(r), limit) by { SameSpace(s, s.Received(r), limit); }
      RoomIff(env, s.Received(r), n, limit);
      KeptSpace(env, s, r, n, limit);
    } else {
      SameSpace(s, s.Received(r), limit);
      SameSpace(s, InlineStep(env, s), limit);
    }
  }

  lemma SameSpace(s: Run, t: Run, limit: nat)
    requires Spacious(s, limit) && t.data == s.data && t.cap == s.cap
    ensures Spacious(t, limit)
  {
  }

  lemma KeptSpace(env: Env, s: Run, r: Round, n: int, limit: nat)
    requires s.status == Running && |r.request| == |r.reply| == DUMP_BYTES
    requires Spacious(MakeRoom(env, s.Received(r), n), limit)
    ensures var t := MakeRoom(env, s.Received(r), n);
            t.status == Running ==>
              Spacious(t.Kept(s.request, r.reply[INLINE_OFF..INLINE_OFF + n], r.code > 0), limit)
  {
    hide Overlay, Ceiling;
  }

  lemma SpaciousBound(s: Run, limit: nat)
    requires Spacious(s, limit)
    ensures |s.data| <= s.cap <= limit
  {
    CeilingBound(s.cap);
  }

  // How many bytes a dump into a buffer that holds junk can grow to.
  function LargestDump(junk: Buffer): nat {
    Ceiling(if junk == [] then FIRST_CAPACITY else |junk|)
  }

  /* ---- umem accounting ---- */

  function Remaining(size: int, trace: seq<Exchange>): int {
    if trace == [] then size
    else
      var p := Remaining(size, trace[..|trace| - 1]);
      var n := |trace[|trace| - 1].chunk|;
      if n < p then p - n else p
  }

  ghost predicate AllFit(size: int, trace: seq<Exchange>) {
    forall i :: 0 <= i < |trace| ==> |trace[i].chunk| < Remaining(size, trace[..i])
  }

  // The umem counter follows the chunks; the loop's own stop needs it at 0.
  ghost predicate Counted(size: int, s: Run) {
    && (s.status in {Running, Done, Full} ==> s.remain == Remaining(size, s.trace))
    && (s.status == Full ==> s.remain == 0)
    && (s.status == Done || (s.status == Running && s.trace != []) ==> s.remain != 0)
  }

  lemma {:induction false} UmemCounts(env: Env, size: int, s: Run)
    requires s.Valid() && Counted(size, s)
    ensures Counted(size, Umem(env, s))
    decreases s.Rounds(env)
  {
    if s.status == Running {
      StepProgress(env, s);
      StepCounts(env, size, s);
      hide UmemStep, Counted;
      UmemCounts(env, size, UmemStep(env, s));
    }
  }

  lemma StepCounts(env: Env, size: int, s: Run)
    requires s.Valid() && s.status == Running && Counted(size, s)
    ensures Counted(size, UmemStep(env, s))
  {
    hide Iterate, ReportedSize, Overlay, Remaining;
    var t := UmemStep(env, s);
    RemainingNext(size, s.trace, t.trace);
  }

  lemma RemainingNext(size: int, trace: seq<Exchange>, trace': seq<Exchange>)
    ensures trace' != [] && trace == trace'[..|trace'| - 1] ==>
              var p, n := Remaining(size, trace), |trace'[|trace'| - 1].chunk|;
              Remaining(size, trace') == if n < p then p - n else p
  {
  }

  // A counter that starts positive stays positive and never counts twice; it
  // plus the bytes collected is the buffer's size exactly when every chunk fitted.
  lemma {:induction false} RemainingAccount(size: int, trace: seq<Exchange>)
    requires size > 0
    ensures 0 < Remaining(size, trace) <= size <= Remaining(size, trace) + |Chunks(trace)|
    ensures Remaining(size, trace) + |Chunks(trace)| == size <==> AllFit(size, trace)
  {
    if trace != [] {
      var init := trace[..|trace| - 1];
      RemainingAccount(size, init);
      assert forall i :: 0 <= i < |init| ==> init[..i] == trace[..i];
    }
  }

  /** The loop's `remain == 0` exit fires only when the buffer's size, as an int,
      was 0 from the start. */
  lemma FullOnlyWhenEmpty(env: Env, w: World, args: Args, mkey: nat, addr: nat, size: nat, window: Buffer)
    ensures var t := Umem(env, UmemStart(env, w, args, mkey, addr, size, window));
            && (t.status == Full ==> ToU32(size) == 0)
            && (t.status == Done ==> ToU32(size) != 0)
  {
    hide UmemStep, Umem, UmemRequest;
    var s := UmemStart(env, w, args, mkey, addr, size, window);
    var size0 := ToInt32(ToU32(size));
    UmemCounts(env, size0, s);
    var t := Umem(env, s);
    if size0 > 0 {
      RemainingAccount(size0, t.trace);
    } else if size0 < 0 {
      NegativeStays(size0, t.trace);
    } else {
      ZeroStays(t.trace);
    }
  }

  lemma {:induction false} NegativeStays(size: int, trace: seq<Exchange>)
    requires size < 0
    ensures Remaining(size, trace) == size
  {
    if trace != [] { NegativeStays(size, trace[..|trace| - 1]); }
  }

  lemma {:induction false} ZeroStays(trace: seq<Exchange>)
    ensures Remaining(0, trace) == 0
  {
    if trace != [] { ZeroStays(trace[..|trace| - 1]); }
  }
}
