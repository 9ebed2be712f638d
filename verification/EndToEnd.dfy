/** From the device's segments to the parser's visits: through either collector, and
    for the whole command. */
module EndToEnd {
  import opened Codec
  import opened Machine
  import opened Mlx5Lib
  import opened ResourceDump
  import opened DumpTheorems
  import opened Service
  import opened Completeness
  import opened Segments
  import opened SegmentReads
  import opened RscDump
  import opened Lifecycle

  // In this session the device serves a list of segments behind its info and its command.
  ghost predicate ServesSegments(env: Env, x: Session, head: Buffer, segments: seq<Segment>) {
    hide SerialiseAll, Honest, Prompt;
    && |head| == 36 && AllValid(segments) && x.stream == head + SerialiseAll(segments)
    && Honest(env, x) && Prompt(env, x) && x.place(x.init) == 0
  }

  /** Whatever the chunks, unless the device dies, the parser run on the collected
      block visits exactly the device's segments, in order, at their places. */
  lemma InlineShowsSegments(env: Env, w: World, args: Args, head: Buffer, segments: seq<Segment>,
                            place: Place, block: Buffer)
    requires ServesSegments(env, InlineSession(w, args, head + SerialiseAll(segments), place), head, segments)
    requires |head + SerialiseAll(segments)| <= MAX_DUMP
    requires Granted(env, w.allocs, Inline(env, InlineStart(env, w, args, [], [])).w.allocs)
    requires Inline(env, InlineStart(env, w, args, [], [])).data <= block
    ensures var t := Inline(env, InlineStart(env, w, args, [], []));
            && Concludes(env, InlineSession(w, args, head + SerialiseAll(segments), place), [], t, MAX_DUMP)
            && (t.status != DeviceError ==>
                  && t.status == Done && t.data == head + SerialiseAll(segments)
                  && WalkDump(block, |t.data|) == Report(segments))
  {
    hide SerialiseAll, Honest, Prompt, WalkDump, Inline, Report, AllValid, InlineRequest, HasFinal, Concludes;
    var stream := head + SerialiseAll(segments);
    InlineDumpIff(env, w, args, stream, place);
    if Inline(env, InlineStart(env, w, args, [], [])).status != DeviceError {
      assert block == stream + block[|stream|..];
      RoundTrip(head, segments, block[|stream|..], |stream|);
    }
  }

  // The parser gets the window's size: it must be the dump's, or the dump must be
  // terminated before it.
  ghost predicate WindowFits(stream: Buffer, segments: seq<Segment>, window: Buffer) {
    |stream| <= TEMP_BYTES
    && (|stream| == IntSize(window) || (|stream| < IntSize(window) && HasFinal(segments)))
  }

  /** Through a registered window the parser is given the window's size and a
      block with unknown bytes behind the dump, and still visits the same. */
  lemma UmemShowsSegments(env: Env, w: World, args: Args, mkey: nat, addr: nat, window: Buffer,
                          head: Buffer, segments: seq<Segment>, place: Place, block: Buffer)
    requires var x := UmemSession(w, args, mkey, addr, window, head + SerialiseAll(segments), place);
             ServesSegments(env, x, head, segments) && WritesUpTo(env, x, |window|)
    requires WindowFits(head + SerialiseAll(segments), segments, window)
    requires Granted(env, w.allocs, Umem(env, UmemStart(env, w, args, mkey, addr, |window|, window)).w.allocs)
    requires Umem(env, UmemStart(env, w, args, mkey, addr, |window|, window)).data <= block
    ensures var t := Umem(env, UmemStart(env, w, args, mkey, addr, |window|, window));
            && Concludes(env, UmemSession(w, args, mkey, addr, window, head + SerialiseAll(segments), place), [],
                         t, TEMP_BYTES)
            && (t.status != DeviceError ==>
                  && t.status == Done && t.data == head + SerialiseAll(segments)
                  && WalkDump(block, IntSize(window)) == Report(segments))
  {
    hide SerialiseAll, Honest, Prompt, WalkDump, Umem, Report, AllValid, UmemRequest, WritesUpTo, HasFinal,
         Concludes;
    var stream := head + SerialiseAll(segments);
    UmemDump(env, w, args, mkey, addr, window, stream, place);
    if Umem(env, UmemStart(env, w, args, mkey, addr, |window|, window)).status != DeviceError {
      assert block == stream + block[|stream|..];
      RoundTrip(head, segments, block[|stream|..], IntSize(window));
    }
  }

  /** Two devices that serve one stream, each to its collector, for its own query and
      in its own chunks, are dumped to the same bytes, unless one of them dies. */
  lemma CollectorsAgree(env1: Env, w1: World, args1: Args, place1: Place,
                        env2: Env, w2: World, args2: Args, place2: Place,
                        mkey: nat, addr: nat, window: Buffer, stream: Buffer)
    requires var x := InlineSession(w1, args1, stream, place1);
             Honest(env1, x) && Prompt(env1, x) && place1(x.init) == 0
    requires var y := UmemSession(w2, args2, mkey, addr, window, stream, place2);
             Honest(env2, y) && Prompt(env2, y) && place2(y.init) == 0 && WritesUpTo(env2, y, |window|)
    requires Granted(env1, w1.allocs, Inline(env1, InlineStart(env1, w1, args1, [], [])).w.allocs)
    requires Granted(env2, w2.allocs, Umem(env2, UmemStart(env2, w2, args2, mkey, addr, |window|, window)).w.allocs)
    requires |stream| <= TEMP_BYTES && ToU32(|window|) != 0
    ensures var t := Inline(env1, InlineStart(env1, w1, args1, [], []));
            var u := Umem(env2, UmemStart(env2, w2, args2, mkey, addr, |window|, window));
            && (t.status != DeviceError ==> t.data == stream) && (u.status != DeviceError ==> u.data == stream)
            && (t.data <= u.data || u.data <= t.data)
  {
    hide Honest, Prompt, Inline, Umem, InlineRequest, UmemRequest, WritesUpTo, Concludes;
    InlineDumpIff(env1, w1, args1, stream, place1);
    InlineDump(env1, w1, args1, [], stream, place1);
    UmemDump(env2, w2, args2, mkey, addr, window, stream, place2);
    assert [] + stream == stream;
  }

  /* ---- the command ---- */

  // The allocator grants what a dump asks for, from its first block to its end.
  ghost predicate GrantedTo(env: Env, w: World, end: Run) {
    env.grant(w.allocs) != 0 && Granted(env, w.allocs, end.w.allocs)
  }

  // What a good run shows: every segment up to the end, and no error.
  ghost predicate ShowsAll(r: Account, segments: seq<Segment>) {
    hide Report;
    r.outcome == Returned(0) && r.visits == Report(segments).visits
  }

  lemma ParsedShowsAll(head: Buffer, segments: seq<Segment>, block: Buffer, size: int, r: Account)
    requires |head| == 36 && AllValid(segments) && AllShapely(UpToFinal(segments))
    requires head + SerialiseAll(segments) <= block && size >= |head + SerialiseAll(segments)|
    requires size == |head + SerialiseAll(segments)| || HasFinal(segments)
    requires WalkDump(block, size) == Report(segments)
    requires Parsed(block, size, r.outcome, r.visits)
    ensures ShowsAll(r, segments)
  {
    hide SerialiseAll, WalkDump, ParsedInside, AllShapely, AllValid, Expected, UpToFinal, HasFinal;
    var stream := head + SerialiseAll(segments);
    assert block == stream + block[|stream|..];
    ReportInside(head, segments, block[|stream|..], size);
  }

  /** `rscdump` without a buffer, against a device that serves segments long enough
      for their types, shows exactly those up to the first TERMINATE or ERROR, unless
      the device dies, and leaves heap and handles as they were. */
  lemma CommandShowsInline(env: Env, w: World, args: Args, head: Buffer, segments: seq<Segment>, place: Place,
                           end: Run, block: Buffer, mid: Account, r: Account)
    requires DidRscDump(env, w, DumpCommand, 0, args, end, block, mid, r)
    requires ServesSegments(env, InlineSession(w, DefaultType(args), head + SerialiseAll(segments), place),
                            head, segments)
    requires |head + SerialiseAll(segments)| <= MAX_DUMP && AllShapely(UpToFinal(segments)) && GrantedTo(env, w, end)
    ensures Concludes(env, InlineSession(w, DefaultType(args), head + SerialiseAll(segments), place), [], end, MAX_DUMP)
    ensures end.status != DeviceError ==>
              ShowsAll(r, segments) && r.w.dev.live == w.dev.live && Settled(w.heap, r.w.heap)
  {
    hide SerialiseAll, WalkDump, Inline, Parsed, AllShapely, AllValid, UpToFinal, HasFinal, Honest, Prompt,
         InlineRequest, ShowsAll, OnlyAsked, Report, Concludes, Settled, Gained;
    InlineCase(env, w, args, head, segments, place, end, block, r);
    if end.status != DeviceError {
      InlineOnlyAsks(env, w, DefaultType(args), end, block, r);
      InlineHeap(env, w, DefaultType(args), end, block, r);
      SettledGains(w.heap, r.w.heap);
      assert r.w.dev.live == w.dev.live by { OnlyAskedBooks(w, r.w); }
    }
  }

  lemma InlineCase(env: Env, w: World, args: Args, head: Buffer, segments: seq<Segment>, place: Place,
                   end: Run, block: Buffer, r: Account)
    requires InlineShown(env, w, DefaultType(args), end, block, r)
    requires ServesSegments(env, InlineSession(w, DefaultType(args), head + SerialiseAll(segments), place),
                            head, segments)
    requires |head + SerialiseAll(segments)| <= MAX_DUMP && AllShapely(UpToFinal(segments)) && GrantedTo(env, w, end)
    ensures Concludes(env, InlineSession(w, DefaultType(args), head + SerialiseAll(segments), place), [], end, MAX_DUMP)
    ensures end.status != DeviceError ==>
              ShowsAll(r, segments) && end.status == Done && r.outcome != UndefinedRun
  {
    hide SerialiseAll, WalkDump, Inline, Parsed, AllShapely, AllValid, UpToFinal, HasFinal, Honest, Prompt,
         InlineRequest, Report, Concludes;
    var t := Inline(env, InlineStart(env, w, DefaultType(args), [], []));
    InlineShowsSegments(env, w, DefaultType(args), head, segments, place, t.data);
    if t.status != DeviceError {
      InlineShowsSegments(env, w, DefaultType(args), head, segments, place, block);
      ParsedShowsAll(head, segments, block, |t.data|, r);
    }
  }

  // The session of the command's dump into its buffer.
  function BufferSession(env: Env, w: World, umemKb: int, args: Args, stream: Buffer, place: Place): Session
    requires BufferOf(env, w, umemKb).buff.Buff?
  {
    hide BufferOf, IdxToMkey;
    var a := BufferOf(env, w, umemKb);
    UmemSession(a.w, DefaultType(args), a.buff.Mkey(), a.buff.addr, a.window, stream, place)
  }

  // The command's buffer was acquired, and the device serves segments to it.
  ghost predicate ServesBuffer(env: Env, w: World, umemKb: int, args: Args, head: Buffer,
                               segments: seq<Segment>, place: Place)
  {
    hide PdOf, BufferOf, ServesSegments, WindowFits, WritesUpTo, SerialiseAll, BufferSession,
         AllShapely, UpToFinal;
    && umemKb != 0 && IsInt(umemKb * 1024) && PdOf(env, w).err == 0
    && var a := BufferOf(env, w, umemKb);
       && a.buff.Buff?
       && var x := BufferSession(env, w, umemKb, args, head + SerialiseAll(segments), place);
          && ServesSegments(env, x, head, segments) && WritesUpTo(env, x, |a.window|)
          && WindowFits(head + SerialiseAll(segments), segments, a.window)
          && AllShapely(UpToFinal(segments))
  }

  /** `rscdump` with a buffer shows the same, although the parser does not know how
      long the dump is, and its handles come back exactly unless a release is
      refused. */
  lemma CommandShowsUmem(env: Env, w: World, umemKb: int, args: Args, head: Buffer, segments: seq<Segment>,
                         place: Place, end: Run, block: Buffer, mid: Account, r: Account)
    requires DidRscDump(env, w, DumpCommand, umemKb, args, end, block, mid, r)
    requires ServesBuffer(env, w, umemKb, args, head, segments, place)
    requires GrantedTo(env, BufferOf(env, w, umemKb).w, end)
    ensures Concludes(env, BufferSession(env, w, umemKb, args, head + SerialiseAll(segments), place), [],
                      end, TEMP_BYTES)
    ensures end.status != DeviceError ==> ShowsAll(r, segments) && mid.w == end.w
    ensures end.status != DeviceError && Consistent(w.dev.live) && r.w.dev.clashes == w.dev.clashes ==>
              Balanced(w.dev, r.w.dev)
  {
    hide ServesSegments, WindowFits, SerialiseAll, UmemRequest, IdxToMkey, AllShapely, UpToFinal, WritesUpTo, Release,
         UmemShown, Balanced, Consistent, Report, IntSize, PdOf, BufferOf, Concludes;
    var a := BufferOf(env, w, umemKb);
    UmemCase(env, a.w, DefaultType(args), a.buff, a.window, head, segments, place, end, block, mid);
    if end.status != DeviceError {
      ShownReturns(mid, r, segments);
      if Consistent(w.dev.live) && r.w.dev.clashes == w.dev.clashes {
        BooksBalance(env, w, DumpCommand, umemKb, args, end, block, mid, r);
      }
    }
  }

  lemma ShownReturns(mid: Account, r: Account, segments: seq<Segment>)
    requires ShowsAll(mid, segments) && r.outcome == mid.outcome && r.visits == mid.visits
    ensures ShowsAll(r, segments) && r.outcome.Returned?
  {
    hide Report;
  }

  lemma UmemCase(env: Env, w: World, args: Args, b: Buff, window: Buffer, head: Buffer, segments: seq<Segment>,
                 place: Place, end: Run, block: Buffer, mid: Account)
    requires b.Buff? && b.size == |window| && UmemShown(env, w, args, b, window, end, block, mid)
    requires var x := UmemSession(w, args, b.Mkey(), b.addr, window, head + SerialiseAll(segments), place);
             ServesSegments(env, x, head, segments) && WritesUpTo(env, x, |window|)
    requires WindowFits(head + SerialiseAll(segments), segments, window) && AllShapely(UpToFinal(segments))
    requires GrantedTo(env, w, end)
    ensures Concludes(env, UmemSession(w, args, b.Mkey(), b.addr, window, head + SerialiseAll(segments), place), [],
                      end, TEMP_BYTES)
    ensures end.status != DeviceError ==> ShowsAll(mid, segments) && end.status == Done && mid.w == end.w
  {
    hide SerialiseAll, WalkDump, Umem, Parsed, AllShapely, AllValid, UpToFinal, HasFinal, Honest, Prompt,
         UmemRequest, Report, IdxToMkey, WritesUpTo, Concludes;
    var t := Umem(env, UmemStart(env, w, args, b.Mkey(), b.addr, |window|, window));
    UmemShowsSegments(env, w, args, b.Mkey(), b.addr, window, head, segments, place, t.data);
    if t.status != DeviceError {
      UmemShowsSegments(env, w, args, b.Mkey(), b.addr, window, head, segments, place, block);
      ParsedShowsAll(head, segments, block, IntSize(window), mid);
    }
  }
}
