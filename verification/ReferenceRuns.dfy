/** Runs against the reference device: the hypotheses of the end-to-end results can be
    met, for every stream and every terminated list of segments, by a device that
    refuses every query but the one the client was given; and dumps exist that make
    the parser read past its block. */
module ReferenceRuns {
  import Bits
  import opened Codec
  import opened FieldLaws
  import opened Layouts
  import opened Machine
  import opened Mlx5Lib
  import opened ResourceDump
  import opened DumpTheorems
  import opened Service
  import opened Completeness
  import opened Segments
  import opened SegmentReads
  import opened RscDump
  import opened Lifecycle
  import opened ReferenceDevice
  import opened EndToEnd

  /** For every stream and query there is a device, knowing no other query, whose dump
      through either collector returns the stream if and only if it fits. */
  lemma EveryStreamIsDumped(stream: Buffer, w: World, args: Args, mkey: nat, addr: nat, window: Buffer)
    requires |stream| < 0x1_0000_0000_0000_0000
    ensures var lifetime := |w.dev.log| + |stream| + 1;
            var init := InlineRequest(args);
            var env := Reference(init, stream, |w.dev.log|, lifetime);
            var t := Inline(env, InlineStart(env, w, args, [], []));
            KnowsOnly(env, w.dev.log, init) && (t.status == Done && t.data == stream <==> |stream| <= MAX_DUMP)
    ensures var lifetime := |w.dev.log| + |stream| + 1;
            var init := UmemRequest(args, mkey, addr, IntSize(window));
            var env := Reference(init, stream, |w.dev.log|, lifetime);
            var u := Umem(env, UmemStart(env, w, args, mkey, addr, |window|, window));
            KnowsOnly(env, w.dev.log, init)
            && (|window| >= INLINE_MAX && ToU32(|window|) != 0 ==>
                  (u.status == Done && u.data == stream <==> |stream| <= TEMP_BYTES))
  {
    InlineOfStream(stream, w, args);
    UmemOfStream(stream, w, args, mkey, addr, window);
  }

  lemma InlineOfStream(stream: Buffer, w: World, args: Args)
    requires |stream| < 0x1_0000_0000_0000_0000
    ensures var init := InlineRequest(args);
            var env := Reference(init, stream, |w.dev.log|, |w.dev.log| + |stream| + 1);
            var t := Inline(env, InlineStart(env, w, args, [], []));
            && KnowsOnly(env, w.dev.log, init) && t.status != DeviceError
            && (t.status == Done && t.data == stream <==> |stream| <= MAX_DUMP)
  {
    hide *;
    var lifetime := |w.dev.log| + |stream| + 1;
    var env := Reference(InlineRequest(args), stream, |w.dev.log|, lifetime);
    var x := InlineSession(w, args, stream, OpaquePlace);
    SessionFields(w, args, 0, 0, [], stream);
    StartsAtTheStart(args, 0, 0, 0);
    SessionOfStream(x, lifetime);
    AllGranted(env, w.allocs, Inline(env, InlineStart(env, w, args, [], [])).w.allocs);
    InlineDumpIff(env, w, args, stream, OpaquePlace);
    LivesOn(env, x, [], Inline(env, InlineStart(env, w, args, [], [])), MAX_DUMP);
  }

  lemma UmemOfStream(stream: Buffer, w: World, args: Args, mkey: nat, addr: nat, window: Buffer)
    requires |stream| < 0x1_0000_0000_0000_0000
    ensures var init := UmemRequest(args, mkey, addr, IntSize(window));
            var env := Reference(init, stream, |w.dev.log|, |w.dev.log| + |stream| + 1);
            var u := Umem(env, UmemStart(env, w, args, mkey, addr, |window|, window));
            && KnowsOnly(env, w.dev.log, init)
            && (|window| >= INLINE_MAX && ToU32(|window|) != 0 ==>
                  (u.status == Done && u.data == stream <==> |stream| <= 0x10_0000))
  {
    hide *;
    var lifetime := |w.dev.log| + |stream| + 1;
    var env := Reference(UmemRequest(args, mkey, addr, IntSize(window)), stream, |w.dev.log|, lifetime);
    var x := UmemSession(w, args, mkey, addr, window, stream, OpaquePlace);
    SessionFields(w, args, mkey, addr, window, stream);
    StartsAtTheStart(args, mkey, addr, IntSize(window));
    SessionOfStream(x, lifetime);
    if |window| >= INLINE_MAX && ToU32(|window|) != 0 {
      MayWriteMore(env, x, INLINE_MAX, |window|);
      AllGranted(env, w.allocs, Umem(env, UmemStart(env, w, args, mkey, addr, |window|, window)).w.allocs);
      UmemDump(env, w, args, mkey, addr, window, stream, OpaquePlace);
      LivesOn(env, x, [], Umem(env, UmemStart(env, w, args, mkey, addr, |window|, window)), 0x10_0000);
    }
  }

  lemma SessionFields(w: World, args: Args, mkey: nat, addr: nat, window: Buffer, stream: Buffer)
    ensures InlineSession(w, args, stream, OpaquePlace) ==
            Session(w.dev.log, InlineRequest(args), true, stream, OpaquePlace)
    ensures UmemSession(w, args, mkey, addr, window, stream, OpaquePlace) ==
            Session(w.dev.log, UmemRequest(args, mkey, addr, IntSize(window)), false, stream, OpaquePlace)
  {
    hide InlineRequest, UmemRequest, OpaquePlace, IntSize;
  }

  // The reference device in a session that starts at place 0.
  lemma SessionOfStream(x: Session, lifetime: nat)
    requires |x.init| == DUMP_BYTES && x.place == OpaquePlace && OpaquePlace(x.init) == 0
    requires |x.stream| < 0x1_0000_0000_0000_0000
    ensures var env := Reference(x.init, x.stream, |x.log|, lifetime);
            && Honest(env, x) && Prompt(env, x) && Progressive(env, x) && WritesUpTo(env, x, INLINE_MAX)
            && (forall k :: env.grant(k) != 0) && env.lifetime == lifetime && KnowsOnly(env, x.log, x.init)
            && x.place(x.init) == 0
  {
    hide *;
    EveryStreamIsServed(x.log, x.init, x.inline, x.stream, lifetime);
    assert x == Session(x.log, x.init, x.inline, x.stream, OpaquePlace);
  }

  lemma MayWriteMore(env: Env, x: Session, m: nat, n: nat)
    requires WritesUpTo(env, x, m) && m <= n
    ensures WritesUpTo(env, x, n)
  {
    hide Question, Raw, InSession;
  }

  lemma AllGranted(env: Env, from: nat, to: nat)
    requires forall k :: env.grant(k) != 0
    ensures Granted(env, from, to)
  {
  }

  /* ---- the command with a buffer ---- */

  // Nothing has happened yet.
  ghost predicate Blank(w: World) {
    w == World(Device([], Live({}, {}, map[]), 0, 0, 0), 0, Heap({}, 0, 0))
  }

  // Where the reference allocator puts the second block.
  const BUFFER_ADDRESS: nat := 2

  // A buffer of whole pages whose size is still an int.
  predicate BufferSize(umemKb: int) { 0 < umemKb && umemKb * 1024 <= INT_MAX - (UMEM_PAGE_SIZE - 1) }

  // The first request of a dump into the buffer that the device lets the command
  // have: key 0, at the allocator's address, of whole pages.
  function FirstRequest(umemKb: int, args: Args): (r: Buffer)
    ensures |r| == DUMP_BYTES
  {
    hide UmemRequest, IdxToMkey, AlignToPage;
    UmemRequest(DefaultType(args), IdxToMkey(0), BUFFER_ADDRESS, ToInt32(ToU32(AlignToPage(ToU64(umemKb * 1024)))))
  }

  lemma CreateIsNoQuestion(pdn: nat, umemId: nat, addr: nat, len: nat)
    ensures !IsQuestion(Machine.Command(CreateMkeyFrame(pdn, umemId, addr, len)))
  {
    hide CreateMkeyFrame, Get;
    CreateMkeyFrameDecodes(pdn, umemId, addr, len);
  }

  // The reference device lets the command have its pd, its buffer and its key.
  lemma ReferenceGrants(init: Buffer, stream: Buffer, lifetime: nat, w: World, umemKb: int)
    requires |init| == DUMP_BYTES && Blank(w) && lifetime >= 4
    ensures var env := Reference(init, stream, 3, lifetime);
            && PdOf(env, w).err == 0
            && var a := BufferOf(env, w, umemKb);
               && a.buff.Buff? && a.buff.addr == BUFFER_ADDRESS && a.buff.index == 0
               && |a.w.dev.log| == 3 && a.w.dev.clashes == 0
    ensures forall k: nat :: Reference(init, stream, 3, lifetime).grant(k) == k + 1
  {
    hide Ask, AskRegister, AskUnregister, AlignToPage, CreateMkeyFrame, AllocPdFrame, IsQuestion, Raw, Overlay,
         Get, Respond;
    var env := Reference(init, stream, 3, lifetime);
    NotThatLong(AllocPdFrame(0));
    GrantsHandle(init, stream, 3, lifetime, w.dev, AllocPdFrame(0));
    var p := PdOf(env, w);
    AllocPdEffect(env, w.dev, 0);
    var n := AlignToPage(ToU64(umemKb * 1024));
    GrantsMemory(init, stream, 3, lifetime, p.dev, BUFFER_ADDRESS, n);
    RegisterEffect(env, p.dev, BUFFER_ADDRESS, n);
    var k := AskRegister(env, p.dev, BUFFER_ADDRESS, n);
    CreateIsNoQuestion(p.handle, k.handle, BUFFER_ADDRESS, ToU32(n));
    GrantsHandle(init, stream, 3, lifetime, k.dev, CreateMkeyFrame(p.handle, k.handle, BUFFER_ADDRESS, ToU32(n)));
    CreateMkeyEffect(env, k.dev, p.handle, k.handle, BUFFER_ADDRESS, ToU32(n));
  }

  lemma NotThatLong(frame: Buffer)
    requires |frame| != REPLY_BYTES
    ensures !IsQuestion(Machine.Command(frame))
  {
    hide Get;
  }

  // And takes everything back.
  lemma ReferenceReleases(init: Buffer, stream: Buffer, lifetime: nat, dev: Device, b: Buff, pdn: nat)
    requires |init| == DUMP_BYTES
    requires b.Buff? && |dev.log| + 3 <= lifetime && b.index < 0x100_0000 && pdn < 0x100_0000
    ensures var t := Release(Reference(init, stream, 3, lifetime), dev, b, pdn);
            && t.key.err == 0 && t.umem.err == 0 && t.pd.err == 0
            && t.pd.dev.clashes == dev.clashes
  {
    hide Ask, AskUnregister, DestroyMkeyFrame, DeallocPdFrame, IdxToMkey, IsQuestion, Reference;
    var env := Reference(init, stream, 3, lifetime);
    var t := Release(env, dev, b, pdn);
    NotThatLong(DestroyMkeyFrame(b.Mkey()));
    GrantsHandle(init, stream, 3, lifetime, dev, DestroyMkeyFrame(b.Mkey()));
    DestroyMkeyEffect(env, dev, b.index);
    GrantsMemory(init, stream, 3, lifetime, t.key.dev, 0, 0);
    UnregisterEffect(env, t.key.dev, b.umemId);
    NotThatLong(DeallocPdFrame(pdn, 0));
    GrantsHandle(init, stream, 3, lifetime, t.umem.dev, DeallocPdFrame(pdn, 0));
    DeallocPdEffect(env, t.umem.dev, pdn, 0);
  }

  // The session of the command's dump, with the device that knows its first request.
  ghost predicate GoodSession(env: Env, w: World, umemKb: int, args: Args, stream: Buffer, lifetime: nat) {
    hide PdOf, BufferOf, BufferSession, Honest, Prompt, Progressive, WritesUpTo, KnowsOnly, FirstRequest, AlignToPage;
    && env.lifetime == lifetime && (forall k :: env.grant(k) != 0)
    && PdOf(env, w).err == 0
    && var a := BufferOf(env, w, umemKb);
       && a.buff.Buff? && |a.w.dev.log| == 3 && |a.window| == AlignToPage(ToU64(umemKb * 1024))
       && KnowsOnly(env, a.w.dev.log, FirstRequest(umemKb, args))
       && var x := BufferSession(env, w, umemKb, args, stream, OpaquePlace);
          && x.stream == stream && |x.log| == 3
          && Honest(env, x) && Prompt(env, x) && Progressive(env, x) && x.place(x.init) == 0
          && WritesUpTo(env, x, |a.window|)
  }

  lemma SessionIs(env: Env, w: World, umemKb: int, args: Args, stream: Buffer)
    requires var b := BufferOf(env, w, umemKb).buff; b.Buff? && b.addr == BUFFER_ADDRESS && b.index == 0
    ensures BufferSession(env, w, umemKb, args, stream, OpaquePlace) ==
            Session(BufferOf(env, w, umemKb).w.dev.log, FirstRequest(umemKb, args), false, stream, OpaquePlace)
  {
    hide BufferOf, UmemRequest, OpaquePlace, IdxToMkey, AlignToPage;
  }

  lemma FirstPlace(umemKb: int, args: Args)
    ensures OpaquePlace(FirstRequest(umemKb, args)) == 0
  {
    hide UmemRequest, OpaquePlace, IdxToMkey, AlignToPage;
    StartsAtTheStart(DefaultType(args), IdxToMkey(0), BUFFER_ADDRESS,
                     ToInt32(ToU32(AlignToPage(ToU64(umemKb * 1024)))));
  }

  lemma WindowOf(env: Env, w: World, umemKb: int)
    requires BufferSize(umemKb) && BufferOf(env, w, umemKb).buff.Buff?
    ensures |BufferOf(env, w, umemKb).window| == AlignToPage(ToU64(umemKb * 1024)) >= INLINE_MAX
  {
    hide BufferOf, AlignToPage;
    AlignIsLeastMultiple(umemKb * 1024);
  }

  lemma ReferenceSession(stream: Buffer, lifetime: nat, w: World, umemKb: int, args: Args)
    requires BufferSize(umemKb) && |stream| <= TEMP_BYTES && Blank(w) && lifetime >= 4
    ensures GoodSession(Reference(FirstRequest(umemKb, args), stream, 3, lifetime), w, umemKb, args, stream, lifetime)
  {
    hide PdOf, BufferOf, BufferSession, FirstRequest, OpaquePlace, Honest, Prompt, Progressive, WritesUpTo, Reference,
         AlignToPage, KnowsOnly;
    var init := FirstRequest(umemKb, args);
    var env := Reference(init, stream, 3, lifetime);
    ReferenceGrants(init, stream, lifetime, w, umemKb);
    var a := BufferOf(env, w, umemKb);
    var x := BufferSession(env, w, umemKb, args, stream, OpaquePlace);
    SessionIs(env, w, umemKb, args, stream);
    FirstPlace(umemKb, args);
    SessionOfStream(x, lifetime);
    WindowOf(env, w, umemKb);
    MayWriteMore(env, x, INLINE_MAX, |a.window|);
  }

  lemma ReferenceServes(env: Env, head: Buffer, segments: seq<Segment>, lifetime: nat, w: World, umemKb: int,
                        args: Args)
    requires |head| == FIRST_SEGMENT && AllValid(segments) && AllShapely(UpToFinal(segments)) && HasFinal(segments)
    requires BufferSize(umemKb) && |head + SerialiseAll(segments)| <= umemKb * 1024
    requires |head + SerialiseAll(segments)| <= TEMP_BYTES
    requires GoodSession(env, w, umemKb, args, head + SerialiseAll(segments), lifetime)
    ensures ServesBuffer(env, w, umemKb, args, head, segments, OpaquePlace)
  {
    hide SerialiseAll, AllValid, AllShapely, UpToFinal, HasFinal, PdOf, BufferOf, BufferSession, Honest, Prompt,
         Progressive, WritesUpTo, KnowsOnly, FirstRequest, AlignToPage, WindowFits, OpaquePlace;
    PagesFit(head + SerialiseAll(segments), segments, umemKb, BufferOf(env, w, umemKb).window);
  }

  lemma PagesFit(stream: Buffer, segments: seq<Segment>, umemKb: int, window: Buffer)
    requires BufferSize(umemKb) && |stream| <= umemKb * 1024 && |stream| <= TEMP_BYTES && HasFinal(segments)
    requires |window| == AlignToPage(ToU64(umemKb * 1024))
    ensures WindowFits(stream, segments, window) && |window| >= INLINE_MAX
  {
    hide AlignToPage, HasFinal;
    AlignIsLeastMultiple(umemKb * 1024);
  }

  /** For every list of segments ending in TERMINATE or ERROR, within the collector's
      and the buffer's size, there is a device, answering the command's query and no
      other, against which `rscdump` with a buffer shows exactly those segments, and
      which ends as it began. */
  lemma ReferenceRun(head: Buffer, segments: seq<Segment>, lifetime: nat, w: World, umemKb: int, args: Args,
                     end: Run, block: Buffer, mid: Account, r: Account)
    requires |head| == FIRST_SEGMENT && AllValid(segments) && AllShapely(UpToFinal(segments)) && HasFinal(segments)
    requires BufferSize(umemKb) && |head + SerialiseAll(segments)| <= umemKb * 1024
    requires |head + SerialiseAll(segments)| <= TEMP_BYTES && Blank(w)
    requires |head + SerialiseAll(segments)| + 7 <= lifetime
    requires DidRscDump(Reference(FirstRequest(umemKb, args), head + SerialiseAll(segments), 3, lifetime), w,
                        DumpCommand, umemKb, args, end, block, mid, r)
    ensures ShowsAll(r, segments)
    ensures r.w.dev.live == w.dev.live && r.w.dev.misuse == 0 && !r.dangling
    ensures r.w.heap == Heap({end.block}, 0, 0)
    ensures var env := Reference(FirstRequest(umemKb, args), head + SerialiseAll(segments), 3, lifetime);
            KnowsOnly(env, BufferOf(env, w, umemKb).w.dev.log, FirstRequest(umemKb, args))
  {
    hide SerialiseAll, AllValid, AllShapely, UpToFinal, HasFinal, PdOf, BufferOf, Release, Reference,
         ServesSegments, WindowFits, Raw, Ran, ShowsAll, OnlyAsked, IntSize, UmemRequest, FirstRequest,
         WritesUpTo, Progressive, BufferSession, KnowsOnly, Honest, Prompt, OpaquePlace;
    var stream, init := head + SerialiseAll(segments), FirstRequest(umemKb, args);
    var env := Reference(init, stream, 3, lifetime);
    ReferenceGrants(init, stream, lifetime, w, umemKb);
    ReferenceSession(stream, lifetime, w, umemKb, args);
    ReferenceServes(env, head, segments, lifetime, w, umemKb, args);
    AllGranted(env, BufferOf(env, w, umemKb).w.allocs, end.w.allocs);
    CommandShowsUmem(env, w, umemKb, args, head, segments, OpaquePlace, end, block, mid, r);
    assert r.outcome.Returned? by { ShownOutcome(r, segments); }
    ReferenceHeap(env, w, umemKb, args, end, block, mid, r);
    var p, a := PdOf(env, w), BufferOf(env, w, umemKb);
    RanOnlyAsks(env, a.w, DumpCommand, DefaultType(args), a.buff, a.window, end, block, mid);
    OnlyAskedBooks(a.w, mid.w);
    PdNumber(env, w);
    ReferenceReleases(init, stream, lifetime, mid.w.dev, a.buff, p.handle);
    CompletedTeardown(env, w, DumpCommand, umemKb, args, end, block, mid, r);
    var t := Release(env, mid.w.dev, a.buff, p.handle);
    TeardownBooks(w.dev, p.dev, a.w.dev, mid.w.dev, t.key.dev, t.umem.dev, t.pd.dev,
                  p.handle, a.buff.umemId, a.buff.index, t.key.err == 0, t.umem.err == 0, t.pd.err == 0);
  }

  lemma ReferenceHeap(env: Env, w: World, umemKb: int, args: Args, end: Run, block: Buffer, mid: Account, r: Account)
    requires DidRscDump(env, w, DumpCommand, umemKb, args, end, block, mid, r) && r.outcome.Returned?
    requires Blank(w) && (forall k: nat :: env.grant(k) == k + 1)
    requires umemKb != 0 && PdOf(env, w).err == 0 && BufferOf(env, w, umemKb).buff.Buff?
    ensures r.w.heap == Heap({end.block}, 0, 0)
  {
    hide DidRscDump, PdOf, BufferOf;
    HeapBalance(env, w, DumpCommand, umemKb, args, end, block, mid, r);
    NoOverlaps(env, w, DumpCommand, umemKb, args, end, block, mid, r);
    assert {} + {end.block} == {end.block};
  }

  lemma ShownOutcome(r: Account, segments: seq<Segment>)
    requires ShowsAll(r, segments)
    ensures r.outcome == Returned(0)
  {
    hide Report;
  }

  lemma PdNumber(env: Env, w: World)
    ensures PdOf(env, w).handle < 0x100_0000
  {
    hide Ask;
  }

  /* ---- dumps that make the parser read past its block ---- */

  /** An inline dump's size and block allow the parser to read a header past the block
      exactly if the dump is 4069, 8137 or 8138 bytes long: the first two sizes of the
      block are no multiples of 4, and these totals begin the last dword. */
  lemma InlineOverreadIff(env: Env, w: World, args: Args)
    ensures var t := Inline(env, InlineStart(env, w, args, [], []));
            t.status != Undefined ==>
              ((exists data: Buffer :: |data| == t.cap && WalkDump(data, |t.data|).stop == Overread)
               <==> |t.data| in {4069, 8137, 8138})
  {
    hide Inline, InlineRequest, WalkDump, Doubled, HeadersFit;
    var t := Inline(env, InlineStart(env, w, args, [], []));
    var r := InlineCapacity(env, w, args);
    OverreadIff(t.cap, |t.data|);
    if t.status != Undefined { SizesThatOverread(t, r); }
  }

  lemma SizesThatOverread(t: Run, r: nat)
    requires Doubled(FIRST_CAPACITY, t, r) && t.status != Undefined
    ensures !HeadersFit(t.cap, |t.data|) <==> |t.data| in {4069, 8137, 8138}
  {
    hide Copied, Bits.Pow2, HeadersFit;
    Capacities(r);
    OddBlocks(|t.data|);
    if r > 1 { WholeBlock(t.cap, |t.data|); }
  }

  lemma WholeBlock(cap: nat, total: nat)
    requires cap % 4 == 0 && FIRST_SEGMENT + HEADER_BYTES <= cap && total <= cap
    ensures HeadersFit(cap, total)
  {
  }

  lemma OddBlocks(total: nat)
    ensures total <= 4069 ==> (HeadersFit(4069, total) <==> total != 4069)
    ensures 4069 < total <= 8138 ==> (HeadersFit(8138, total) <==> total !in {8137, 8138})
  {
  }

  lemma Capacities(r: nat)
    ensures Bits.Pow2(0) == 1 && Bits.Pow2(1) == 2
    ensures r >= 2 ==> (FIRST_CAPACITY * Bits.Pow2(r)) % 4 == 0 && FIRST_CAPACITY * Bits.Pow2(r) >= 16276
  {
    if r >= 2 {
      Bits.PowProduct(2, r - 2);
      assert Bits.Pow2(2) == 4;
      assert FIRST_CAPACITY * (4 * Bits.Pow2(r - 2)) == 4 * (FIRST_CAPACITY * Bits.Pow2(r - 2));
    }
  }

  /** No run of the command without a buffer, against any device, has its parser read a
      header past the block unless its dump has one of these sizes. */
  lemma OverreadsOnlyAt(env: Env, w: World, args: Args, end: Run, block: Buffer, mid: Account, r: Account)
    requires DidRscDump(env, w, DumpCommand, 0, args, end, block, mid, r)
    requires env.grant(w.allocs) != 0 && end.status != Undefined && !NothingCollected(end)
    ensures WalkDump(block, |end.data|).stop == Overread ==> |end.data| in {4069, 8137, 8138}
  {
    hide Inline, InlineRequest, WalkDump, Parsed;
    InlineOverreadIff(env, w, DefaultType(args));
  }

  /** For each of them there is a device against which every run of the command leaves
      its block: a list of empty NOTICE segments, and a few bytes of the next. */
  lemma OverreadingRun(n: nat, w: World, args: Args, end: Run, block: Buffer, mid: Account, r: Account)
    requires n in {4069, 8137, 8138}
    requires DidRscDump(Reference(InlineRequest(DefaultType(args)), NoticeDump(n), |w.dev.log|, |w.dev.log| + n + 1), w,
                        DumpCommand, 0, args, end, block, mid, r)
    ensures end.data == NoticeDump(n) && WalkDump(block, n).stop == Overread && r.outcome == UndefinedRun
  {
    hide Inline, InlineRequest, WalkFrom, NoticeDump, Reference, Doubled, HeadersFit, KnowsOnly;
    var env := Reference(InlineRequest(DefaultType(args)), NoticeDump(n), |w.dev.log|, |w.dev.log| + n + 1);
    InlineOfStream(NoticeDump(n), w, DefaultType(args));
    GrantOf(InlineRequest(DefaultType(args)), NoticeDump(n), |w.dev.log|, |w.dev.log| + n + 1, w.allocs);
    var i := InlineCapacity(env, w, DefaultType(args));
    SizesThatOverread(end, i);
    CutShort(end.cap, n);
    NoticesLeave(block, n, FIRST_SEGMENT);
    ParsedOverread(block, n, r);
  }

  lemma GrantOf(init: Buffer, stream: Buffer, start: nat, lifetime: nat, k: nat)
    requires |init| == DUMP_BYTES
    ensures Reference(init, stream, start, lifetime).grant(k) != 0
  {
  }

  lemma CutShort(cap: nat, n: nat)
    requires n in {4069, 8137, 8138} && n <= cap && !HeadersFit(cap, n)
    ensures UpToDword(n) > cap
  {
  }

  lemma ParsedOverread(block: Buffer, n: int, r: Account)
    requires Parsed(block, n, r.outcome, r.visits) && WalkDump(block, n).stop == Overread
    ensures r.outcome == UndefinedRun
  {
    hide WalkDump, Contained;
  }

  // The walk over such a dump, in a block that ends before its last dword does.
  lemma {:induction false} NoticesLeave(block: Buffer, n: nat, off: nat)
    requires FIRST_SEGMENT <= off <= n && off % 4 == 0 && NoticeDump(n) <= block && UpToDword(n) > |block|
    ensures WalkFrom(block, n, off).stop == Overread
    decreases n - off
  {
    hide HeaderAt, WalkFrom, NoticeDump;
    WalkUnfolds(block, n, off);
    if off + HEADER_BYTES <= n {
      NoticeHeader(n, off);
      SameHeader(NoticeDump(n), block, n, off);
      NoticesLeave(block, n, off + HEADER_BYTES);
    }
  }

  /** A dump through a registered buffer can do so exactly if the buffer, whose size
      the parser is given, is larger than the collector's block. */
  lemma UmemOverreadIff(size: nat)
    ensures var n := ToInt32(ToU32(AlignToPage(size)));
            (exists data: Buffer :: |data| == TEMP_BYTES && WalkDump(data, n).stop == Overread) <==> n > TEMP_BYTES
  {
    hide WalkDump, AlignToPage;
    OverreadIff(TEMP_BYTES, ToInt32(ToU32(AlignToPage(size))));
    WholePages(size);
  }

  // The walk over the whole block of such a dump, when the size given is larger.
  lemma FullBlockLeft(block: Buffer, size: int)
    requires NoticeDump(TEMP_BYTES) <= block && |block| == TEMP_BYTES && size > TEMP_BYTES
    ensures WalkDump(block, size).stop == Overread
  {
    hide WalkFrom, NoticeDump;
    assert block == NoticeDump(TEMP_BYTES);
    assert UpToDword(size) > TEMP_BYTES;
    NoticesOverread(TEMP_BYTES, size, FIRST_SEGMENT);
  }

  lemma LargeBuffer(umemKb: int)
    requires BufferSize(umemKb) && 1024 < umemKb
    ensures ToU32(AlignToPage(ToU64(umemKb * 1024))) != 0
    ensures ToInt32(ToU32(AlignToPage(ToU64(umemKb * 1024)))) > TEMP_BYTES
  {
    hide AlignToPage;
    AlignIsLeastMultiple(umemKb * 1024);
  }

  /** With any larger buffer there is a device against which every run of the command
      leaves the block: it serves empty NOTICE segments as long as there is room. */
  lemma UmemOverreadingRun(lifetime: nat, w: World, umemKb: int, args: Args,
                           end: Run, block: Buffer, mid: Account, r: Account)
    requires BufferSize(umemKb) && 1024 < umemKb && Blank(w) && TEMP_BYTES + 4 <= lifetime
    requires DidRscDump(Reference(FirstRequest(umemKb, args), NoticeDump(TEMP_BYTES), 3, lifetime), w,
                        DumpCommand, umemKb, args, end, block, mid, r)
    ensures end.data == NoticeDump(TEMP_BYTES) && r.outcome == UndefinedRun
  {
    hide PdOf, BufferOf, Release, Reference, FirstRequest, NoticeDump, UmemShown, GoodSession;
    var env := Reference(FirstRequest(umemKb, args), NoticeDump(TEMP_BYTES), 3, lifetime);
    ReferenceSession(NoticeDump(TEMP_BYTES), lifetime, w, umemKb, args);
    assert PdOf(env, w).err == 0 && BufferOf(env, w, umemKb).buff.Buff? by {
      Acquired3(env, w, umemKb, args, NoticeDump(TEMP_BYTES), lifetime);
    }
    BufferOverread(env, lifetime, w, umemKb, args, end, block, mid);
  }

  lemma Acquired3(env: Env, w: World, umemKb: int, args: Args, stream: Buffer, lifetime: nat)
    requires GoodSession(env, w, umemKb, args, stream, lifetime)
    ensures PdOf(env, w).err == 0 && BufferOf(env, w, umemKb).buff.Buff?
  {
    hide PdOf, BufferOf, BufferSession, Honest, Prompt, Progressive, WritesUpTo, KnowsOnly, FirstRequest, AlignToPage;
  }

  lemma BufferOverread(env: Env, lifetime: nat, w: World, umemKb: int, args: Args,
                       end: Run, block: Buffer, mid: Account)
    requires BufferSize(umemKb) && 1024 < umemKb && TEMP_BYTES + 4 <= lifetime
    requires GoodSession(env, w, umemKb, args, NoticeDump(TEMP_BYTES), lifetime)
    requires BufferOf(env, w, umemKb).buff.Buff?
    requires var a := BufferOf(env, w, umemKb);
             UmemShown(env, a.w, DefaultType(args), a.buff, a.window, end, block, mid)
    ensures end.data == NoticeDump(TEMP_BYTES) && mid.outcome == UndefinedRun
  {
    hide PdOf, BufferOf, Umem, UmemRequest, IdxToMkey, FirstRequest, NoticeDump, Parsed, Honest, Prompt, Progressive,
         WritesUpTo, KnowsOnly, AlignToPage, OpaquePlace, Concludes, WalkDump;
    var a := BufferOf(env, w, umemKb);
    var stream := NoticeDump(TEMP_BYTES);
    LargeBuffer(umemKb);
    AllGranted(env, a.w.allocs, end.w.allocs);
    UmemDump(env, a.w, DefaultType(args), a.buff.Mkey(), a.buff.addr, a.window, stream, OpaquePlace);
    LivesOn(env, BufferSession(env, w, umemKb, args, stream, OpaquePlace), [], end, TEMP_BYTES);
    FullBlockLeft(block, ToInt32(ToU32(a.buff.size)));
    ParsedOverread(block, ToInt32(ToU32(a.buff.size)), mid);
  }

  lemma WholePages(size: nat)
    ensures AlignToPage(size) % UMEM_PAGE_SIZE == 0
  {
    hide Bits.Low, Bits.And;
    var y := ToU64(size + (UMEM_PAGE_SIZE - 1));
    assert Bits.Mask(12) == UMEM_PAGE_SIZE - 1 && Bits.Pow2(12) == UMEM_PAGE_SIZE;
    hide Bits.Pow2, Bits.Mask;
    Bits.PowersOfTwo();
    Bits.ClearLow(y, 12, 64);
    Bits.LowIsMod(y, 12);
  }
}
