/** The segment walker of rscdump.c (parse_resource_dump) against a serialiser. */
module Segments {
  import opened Bits
  import opened Codec
  import opened FieldLaws
  import opened Layouts
  import Machine

  const TYPE_NOTICE := 0xfff9
  const TYPE_TERMINATE := 0xfffb
  const TYPE_ERROR := 0xfffc
  const TYPE_REFERENCE := 0xfffd
  const TYPE_MENU := 0xffff

  const HEADER_BYTES := 4

  datatype Header = Header(ty: nat, len: nat)

  // get_sgmnt_hdr; the length is kept in dwords and counts the header.
  function HeaderAt(data: Buffer, off: nat): (h: Header)
    requires off + HEADER_BYTES <= |data|
  {
    hide Get;
    var s := data[off..off + HEADER_BYTES];
    Header(Get(s, HEADER_TYPE), Get(s, LENGTH_DW) * 4)
  }

  // parse_segment returns 1 for these.
  predicate IsFinal(ty: nat) { ty == TYPE_TERMINATE || ty == TYPE_ERROR }

  datatype Visit = Visit(off: nat, header: Header)

  // How the walk ends. Spin: the segment it stands on has length 0, so the loop
  // visits it forever. Overread: a header lies past the memory block.
  datatype Stop = TooShort | Final | Overflow | Spin | Overread

  datatype Walk = Walk(visits: seq<Visit>, stop: Stop)

  // The loop from the segment at off on, in a dump of size bytes.
  function WalkFrom(data: Buffer, size: int, off: nat): (w: Walk)
    decreases |data| - off
  {
    if off + HEADER_BYTES > |data| then Walk([], Overread)
    else
      var h := HeaderAt(data, off);
      var here := Visit(off, h);
      if IsFinal(h.ty) then Walk([here], Final)
      else if off + h.len >= size then Walk([here], Overflow)
      else if h.len == 0 then Walk([here], Spin)
      else
        var rest := WalkFrom(data, size, off + h.len);
        Walk([here] + rest.visits, rest.stop)
  }

  // parse_resource_dump on a memory block and the dump's size in it. The size is
  // an int compared with an unsigned number, so a negative one is not too short.
  function WalkDump(data: Buffer, size: int): Walk {
    if |data| < FIRST_SEGMENT then Walk([], Overread)
    else if 0 <= size < FIRST_SEGMENT + HEADER_BYTES then Walk([], TooShort)
    else WalkFrom(data, size, FIRST_SEGMENT)
  }

  method GetSegmentHeader(data: array<byte>, off: nat) returns (h: Header)
    requires off + HEADER_BYTES <= data.Length
    ensures h == HeaderAt(data[..], off)
  {
    hide Get;
    var s := data[off..off + HEADER_BYTES];
    assert s == data[..][off..off + HEADER_BYTES];
    h := Header(Load(s, HEADER_TYPE), Load(s, LENGTH_DW) * 4);
  }

  function Before(visits: seq<Visit>, rest: Walk): Walk {
    Walk(visits + rest.visits, rest.stop)
  }

  lemma NothingBefore(w: Walk)
    ensures Before([], w) == w
  {
    assert [] + w.visits == w.visits;
  }

  lemma BeforeStops(visits: seq<Visit>, w: Walk)
    ensures w.visits == [] ==> Before(visits, w) == Walk(visits, w.stop)
    ensures |w.visits| == 1 ==> Before(visits, w) == Walk(visits + [w.visits[0]], w.stop)
  {
  }

  lemma BeforeBefore(first: seq<Visit>, second: seq<Visit>, w: Walk)
    ensures Before(first, Before(second, w)) == Before(first + second, w)
  {
    assert first + (second + w.visits) == first + second + w.visits;
  }

  lemma WalkUnfolds(data: Buffer, size: int, off: nat)
    ensures WalkFrom(data, size, off) ==
            if off + HEADER_BYTES > |data| then Walk([], Overread)
            else
              var h := HeaderAt(data, off);
              var here := [Visit(off, h)];
              if IsFinal(h.ty) then Walk(here, Final)
              else if off + h.len >= size then Walk(here, Overflow)
              else if h.len == 0 then Walk(here, Spin)
              else Before(here, WalkFrom(data, size, off + h.len))
  {
    hide HeaderAt;
  }

  /* ---- the loop itself, step by step ---- */

  // Where the loop stands after n passes, if it has not stopped.
  datatype Position = At(off: nat) | Halted

  function Pass(data: Buffer, size: int, p: Position): Position {
    if p.Halted? then Halted
    else if p.off + HEADER_BYTES > |data| then Halted
    else
      var h := HeaderAt(data, p.off);
      if IsFinal(h.ty) || p.off + h.len >= size then Halted else At(p.off + h.len)
  }

  function Passes(data: Buffer, size: int, off: nat, n: nat): Position {
    if n == 0 then At(off) else Pass(data, size, Passes(data, size, off, n - 1))
  }

  // The walk spins exactly when the loop never stops, and otherwise the loop
  // stops after one pass for each visit.
  lemma {:induction false} SpinsForever(data: Buffer, size: int, off: nat, n: nat)
    requires WalkFrom(data, size, off).stop == Spin
    ensures Passes(data, size, off, n).At?
    decreases |data| - off, n
  {
    hide HeaderAt;
    var h := HeaderAt(data, off);
    if h.len == 0 {
      StaysPut(data, size, off, n);
    } else if n > 0 {
      SpinsForever(data, size, off + h.len, n - 1);
      PassesShift(data, size, off, n - 1);
    }
  }

  lemma {:induction false} StaysPut(data: Buffer, size: int, off: nat, n: nat)
    requires off + HEADER_BYTES <= |data| && HeaderAt(data, off).len == 0
    requires !IsFinal(HeaderAt(data, off).ty) && off < size
    ensures Passes(data, size, off, n) == At(off)
  {
    hide HeaderAt;
    if n > 0 { StaysPut(data, size, off, n - 1); }
  }

  lemma {:induction false} PassesShift(data: Buffer, size: int, off: nat, n: nat)
    requires Pass(data, size, At(off)).At?
    ensures Passes(data, size, off, n + 1) == Passes(data, size, Pass(data, size, At(off)).off, n)
  {
    hide HeaderAt;
    if n > 0 { PassesShift(data, size, off, n - 1); }
  }

  lemma {:induction false} HaltsOtherwise(data: Buffer, size: int, off: nat)
    requires WalkFrom(data, size, off).stop != Spin
    ensures Passes(data, size, off, |WalkFrom(data, size, off).visits| + 1).Halted?
    decreases |data| - off
  {
    hide HeaderAt;
    var w := WalkFrom(data, size, off);
    if w.visits != [] && Pass(data, size, At(off)).At? {
      var h := HeaderAt(data, off);
      HaltsOtherwise(data, size, off + h.len);
      PassesShift(data, size, off, |w.visits|);
    } else {
      StaysHalted(data, size, off, |w.visits|);
    }
  }

  lemma {:induction false} StaysHalted(data: Buffer, size: int, off: nat, n: nat)
    requires Pass(data, size, At(off)).Halted?
    ensures Passes(data, size, off, n + 1).Halted?
  {
    hide HeaderAt;
    if n > 0 { StaysHalted(data, size, off, n - 1); }
  }

  /** The loop terminates if and only if it meets no segment of length 0. */
  lemma TerminatesIff(data: Buffer, size: int, off: nat)
    ensures (exists n :: Passes(data, size, off, n).Halted?) <==> WalkFrom(data, size, off).stop != Spin
  {
    hide HeaderAt, Passes, WalkFrom;
    if WalkFrom(data, size, off).stop == Spin {
      forall n: nat ensures Passes(data, size, off, n).At? {
        SpinsForever(data, size, off, n);
      }
    } else {
      HaltsOtherwise(data, size, off);
    }
  }

  /* ---- serialiser ---- */

  datatype Segment = Segment(ty: nat, body: Buffer) {
    predicate Valid() {
      ty < 0x1_0000 && |body| % 4 == 0 && |body| / 4 + 1 < 0x1_0000
    }

    function Length(): nat { HEADER_BYTES + |body| }
  }

  function Serialise(s: Segment): (r: Buffer)
    ensures |r| == s.Length()
  {
    Bytes(s.Length() / 4, 2) + Bytes(s.ty, 2) + s.body
  }

  function SerialiseAll(segments: seq<Segment>): Buffer {
    if segments == [] then [] else Serialise(segments[0]) + SerialiseAll(segments[1..])
  }

  // What a walker must see of segments laid out from off on.
  function Expected(segments: seq<Segment>, off: nat): seq<Visit> {
    if segments == [] then []
    else [Visit(off, Header(segments[0].ty, segments[0].Length()))]
         + Expected(segments[1..], off + segments[0].Length())
  }

  // The header at off decodes to the segment serialised there.
  lemma HeaderOfSerialised(data: Buffer, off: nat, s: Segment)
    requires s.Valid() && off + s.Length() <= |data|
    requires data[off..off + s.Length()] == Serialise(s)
    ensures HeaderAt(data, off) == Header(s.ty, s.Length())
  {
    hide Get, Bytes;
    var d := s.Length() / 4;
    var h := Bytes(d, 2) + Bytes(s.ty, 2);
    assert data[off..off + HEADER_BYTES] == data[off..off + s.Length()][..HEADER_BYTES] == h;
    HeaderField(h, LENGTH_DW, d, 0);
    HeaderField(h, HEADER_TYPE, s.ty, 2);
  }

  // A 16-bit field that holds two bytes of the header.
  lemma HeaderField(h: Buffer, f: Field, v: nat, p: nat)
    requires |h| == HEADER_BYTES && v < 0x1_0000 && p <= 2
    requires f == Field(8 * p, 16) && h[p..p + 2] == Bytes(v, 2)
    ensures Get(h, f) == v
  {
    hide Bytes, Bit, BufferBit, ReadBits, Pow2;
    PowersOfTwo();
    forall i: nat | i < 16
      ensures Bit(v, i) <==> BufferBit(h, f.off + 15 - i)
    {
      BytesBit(v, 2, 15 - i);
      WindowAt(h, p, 15 - i);
    }
    FieldLaws.ReadBitsUnique(v, h, f.off, 16);
  }

  lemma WindowAt(h: Buffer, p: nat, i: nat)
    requires p + 2 <= |h| && i < 16
    ensures BufferBit(h[p..p + 2], i) <==> BufferBit(h, 8 * p + i)
  {
    hide BufferBit;
    FieldLaws.WindowBit(h, p, 2, i);
  }

  ghost predicate AllValid(segments: seq<Segment>) {
    forall k :: 0 <= k < |segments| ==> segments[k].Valid()
  }

  // How many segments, laid out from off on, a walk over size bytes shows: up to
  // the first that is final or reaches the size; 0 if it goes on behind the last.
  function Shown(segments: seq<Segment>, size: int, off: nat): (n: nat)
    ensures n <= |segments|
  {
    if segments == [] then 0
    else if IsFinal(segments[0].ty) || off + segments[0].Length() >= size then 1
    else
      var n := Shown(segments[1..], size, off + segments[0].Length());
      if n == 0 then 0 else n + 1
  }

  function WalkOver(segments: seq<Segment>, size: int, off: nat): Walk {
    var n := Shown(segments, size, off);
    Walk(Expected(segments[..n], off), if n > 0 && IsFinal(segments[n - 1].ty) then Final else Overflow)
  }

  lemma {:induction false} WalkOfSerialised(data: Buffer, size: int, off: nat, segments: seq<Segment>)
    requires AllValid(segments) && Shown(segments, size, off) > 0
    requires off + |SerialiseAll(segments)| <= |data|
    requires data[off..off + |SerialiseAll(segments)|] == SerialiseAll(segments)
    ensures WalkFrom(data, size, off) == WalkOver(segments, size, off)
    decreases |segments|
  {
    hide Serialise, HeaderAt, WalkFrom, SerialiseAll, Expected;
    var s, rest := segments[0], segments[1..];
    TailOf(data, off, segments);
    HeaderOfSerialised(data, off, s);
    WalkUnfolds(data, size, off);
    if IsFinal(s.ty) || off + s.Length() >= size {
      ExpectedOne(segments, off);
    } else {
      WalkOfSerialised(data, size, off + s.Length(), rest);
      ExpectedMore(segments, off, Shown(rest, size, off + s.Length()));
    }
  }

  lemma ExpectedOne(segments: seq<Segment>, off: nat)
    requires segments != []
    ensures Expected(segments[..1], off) == [Visit(off, Header(segments[0].ty, segments[0].Length()))]
  {
    assert Expected(segments[..1][1..], off + segments[0].Length()) == [];
  }

  lemma ExpectedMore(segments: seq<Segment>, off: nat, n: nat)
    requires n < |segments|
    ensures Expected(segments[..n + 1], off) ==
            [Visit(off, Header(segments[0].ty, segments[0].Length()))]
            + Expected(segments[1..][..n], off + segments[0].Length())
  {
    assert segments[..n + 1][1..] == segments[1..][..n];
  }

  lemma TailOf(data: Buffer, off: nat, segments: seq<Segment>)
    requires segments != [] && off + |SerialiseAll(segments)| <= |data|
    requires data[off..off + |SerialiseAll(segments)|] == SerialiseAll(segments)
    ensures var o, tail := off + segments[0].Length(), SerialiseAll(segments[1..]);
            o + |tail| == off + |SerialiseAll(segments)| && data[o..o + |tail|] == tail
    ensures data[off..off + segments[0].Length()] == Serialise(segments[0])
  {
    hide Serialise;
    var n, all := segments[0].Length(), SerialiseAll(segments);
    assert data[off..off + |all|][n..] == all[n..];
    assert data[off..off + |all|][..n] == all[..n];
  }

  lemma LongEnough(segments: seq<Segment>)
    requires segments != []
    ensures |SerialiseAll(segments)| >= HEADER_BYTES
  {
    hide Serialise;
  }

  /** Segments serialised behind any info and command segments, with anything
      behind them, are visited one by one, in order, at their offsets, up to the
      first that is final or reaches the size the walker is given. */
  lemma RoundTripUpTo(head: Buffer, segments: seq<Segment>, trailing: Buffer, size: int)
    requires |head| == FIRST_SEGMENT && AllValid(segments)
    requires !(0 <= size < FIRST_SEGMENT + HEADER_BYTES) && Shown(segments, size, FIRST_SEGMENT) > 0
    ensures WalkDump(head + SerialiseAll(segments) + trailing, size) == WalkOver(segments, size, FIRST_SEGMENT)
  {
    hide WalkFrom, WalkOver;
    var all := SerialiseAll(segments);
    var data := head + all + trailing;
    assert data[FIRST_SEGMENT..FIRST_SEGMENT + |all|] == all;
    WalkOfSerialised(data, size, FIRST_SEGMENT, segments);
  }

  // The segments up to the first TERMINATE or ERROR, or all.
  function UpToFinal(segments: seq<Segment>): seq<Segment> {
    if segments == [] then []
    else [segments[0]] + if IsFinal(segments[0].ty) then [] else UpToFinal(segments[1..])
  }

  predicate HasFinal(segments: seq<Segment>) {
    exists k :: 0 <= k < |segments| && IsFinal(segments[k].ty)
  }

  // What the parser must report of the segments of a dump.
  function Report(segments: seq<Segment>): Walk {
    if segments == [] then Walk([], TooShort)
    else Walk(Expected(UpToFinal(segments), FIRST_SEGMENT), if HasFinal(segments) then Final else Overflow)
  }

  /** Round trip: every list of segments is reported, cut at its first TERMINATE or
      ERROR, by the parser that is given the dump's own size; or any larger one,
      with any bytes behind the dump, if there is such a segment. */
  lemma RoundTrip(head: Buffer, segments: seq<Segment>, trailing: Buffer, size: int)
    requires |head| == FIRST_SEGMENT && AllValid(segments)
    requires size >= |head + SerialiseAll(segments)|
    requires size == |head + SerialiseAll(segments)| || HasFinal(segments)
    ensures WalkDump(head + SerialiseAll(segments) + trailing, size) == Report(segments)
  {
    hide WalkFrom, SerialiseAll, Expected, Shown, UpToFinal, IsFinal;
    if segments == [] {
      NothingLeft();
    } else {
      LongEnough(segments);
      ShownUpToFinal(segments, size, FIRST_SEGMENT);
      RoundTripUpTo(head, segments, trailing, size);
    }
  }

  // The first n segments are those up to the first final one.
  ghost predicate CutsThere(segments: seq<Segment>, n: nat) {
    hide UpToFinal, HasFinal, IsFinal;
    0 < n <= |segments| && segments[..n] == UpToFinal(segments)
    && (IsFinal(segments[n - 1].ty) <==> HasFinal(segments))
  }

  lemma {:induction false} ShownUpToFinal(segments: seq<Segment>, size: int, off: nat)
    requires segments != [] && off + |SerialiseAll(segments)| <= size
    requires off + |SerialiseAll(segments)| == size || HasFinal(segments)
    ensures CutsThere(segments, Shown(segments, size, off))
  {
    hide Serialise, IsFinal, UpToFinal, CutsThere, HasFinal;
    var s, rest := segments[0], segments[1..];
    if IsFinal(s.ty) {
      CutsFirst(segments);
    } else if rest == [] {
      NothingLeft();
      CutsFirst(segments);
    } else {
      LongEnough(rest);
      FinalBehind(segments);
      ShownUpToFinal(rest, size, off + s.Length());
      CutsBehind(segments, Shown(rest, size, off + s.Length()));
    }
  }

  lemma CutsFirst(segments: seq<Segment>)
    requires segments != [] && (IsFinal(segments[0].ty) || |segments| == 1)
    ensures CutsThere(segments, 1) && (IsFinal(segments[0].ty) <==> HasFinal(segments))
  {
    hide IsFinal;
    if IsFinal(segments[0].ty) {
      assert segments[..1] == [segments[0]] + [];
    } else {
      assert UpToFinal(segments[1..]) == [];
      assert segments[..1] == [segments[0]] + [];
      assert !HasFinal(segments);
    }
  }

  lemma CutsBehind(segments: seq<Segment>, n: nat)
    requires segments != [] && !IsFinal(segments[0].ty) && CutsThere(segments[1..], n)
    ensures n > 0 && CutsThere(segments, n + 1)
  {
    hide IsFinal, HasFinal;
    FinalBehind(segments);
    assert segments[..n + 1] == [segments[0]] + segments[1..][..n];
  }

  lemma FinalBehind(segments: seq<Segment>)
    requires segments != [] && !IsFinal(segments[0].ty)
    ensures HasFinal(segments) <==> HasFinal(segments[1..])
  {
    hide IsFinal;
    if HasFinal(segments) {
      var k :| 0 <= k < |segments| && IsFinal(segments[k].ty);
      assert IsFinal(segments[1..][k - 1].ty);
    }
    if HasFinal(segments[1..]) {
      var k :| 0 <= k < |segments[1..]| && IsFinal(segments[1..][k].ty);
      assert IsFinal(segments[k + 1].ty);
    }
  }

  /* ---- the other direction: what was visited is what is there ---- */

  // The segments that the visits delimit.
  function Cut(data: Buffer, visits: seq<Visit>): seq<Segment>
    requires Inside(data, visits)
  {
    if visits == [] then []
    else [Segment(visits[0].header.ty, data[visits[0].off + HEADER_BYTES..visits[0].off + visits[0].header.len])]
         + Cut(data, visits[1..])
  }

  lemma SerialisedHeader(data: Buffer, off: nat)
    requires off + HEADER_BYTES <= |data|
    ensures Bytes(HeaderAt(data, off).len / 4, 2) + Bytes(HeaderAt(data, off).ty, 2) == data[off..off + HEADER_BYTES]
  {
    hide Get, Bytes;
    var h := data[off..off + HEADER_BYTES];
    FieldBytes(h, LENGTH_DW, 0);
    FieldBytes(h, HEADER_TYPE, 2);
    assert h == h[0..2] + h[2..4];
  }

  lemma FieldBytes(h: Buffer, f: Field, p: nat)
    requires f == Field(8 * p, 16) && FieldLaws.Valid(f, |h|)
    ensures Bytes(Get(h, f), 2) == h[p..p + 2]
  {
    hide Bytes, Bit, BufferBit, ReadBits;
    forall i: nat | i < 16
      ensures BufferBit(Bytes(Get(h, f), 2), i) <==> BufferBit(h[p..p + 2], i)
    {
      BytesBit(Get(h, f), 2, i);
      ReadBitsBit(h, f.off, 16, 15 - i);
      WindowAt(h, p, i);
    }
    SameBufferBits(Bytes(Get(h, f), 2), h[p..p + 2]);
  }

  // The number in a 16-bit field at byte p.
  lemma TwoBytes(h: Buffer, p: nat)
    requires FieldLaws.Valid(Field(8 * p, 16), |h|)
    ensures Get(h, Field(8 * p, 16)) == 256 * (h[p] as nat) + h[p + 1] as nat
  {
    hide Get, Pow2;
    PowersOfTwo();
    FieldLaws.GetBound(h, Field(8 * p, 16));
    var v := Get(h, Field(8 * p, 16));
    FieldBytes(h, Field(8 * p, 16), p);
    assert Bytes(v, 2) == [(v / 256 % 256) as byte, (v % 256) as byte] by { assert Bytes(v / 256 / 256, 0) == []; }
    assert h[p..p + 2] == [h[p], h[p + 1]];
  }

  /** A header, byte by byte: the length in dwords, then the type. */
  lemma HeaderBytes(data: Buffer, off: nat)
    requires off + 4 <= |data|
    ensures HeaderAt(data, off).len == 4 * (256 * (data[off] as nat) + data[off + 1] as nat)
    ensures HeaderAt(data, off).ty == 256 * (data[off + 2] as nat) + data[off + 3] as nat
  {
    hide Get;
    var h := data[off..off + 4];
    TwoBytes(h, 0);
    TwoBytes(h, 2);
  }

  // End of the bytes that a walk's visits span.
  function EndOf(visits: seq<Visit>): nat
    requires visits != []
  {
    visits[|visits| - 1].off + visits[|visits| - 1].header.len
  }

  predicate Inside(data: Buffer, visits: seq<Visit>) {
    forall v :: v in visits ==> v.header.len >= HEADER_BYTES && v.off + v.header.len <= |data|
  }

  // The visits, serialised, are the bytes from off to where the last one ends.
  ghost predicate Rebuilt(data: Buffer, off: nat, visits: seq<Visit>) {
    hide Serialise, SerialiseAll, Cut;
    && visits != [] && Inside(data, visits)
    && off <= EndOf(visits) <= |data|
    && SerialiseAll(Cut(data, visits)) == data[off..EndOf(visits)]
  }

  /** Serialising what a walk visited gives back the bytes it walked: nothing was
      skipped, split or invented. */
  lemma {:induction false} WalkedBytes(data: Buffer, size: int, off: nat)
    requires WalkFrom(data, size, off).stop in {Final, Overflow} && Inside(data, WalkFrom(data, size, off).visits)
    ensures Rebuilt(data, off, WalkFrom(data, size, off).visits)
    decreases |data| - off
  {
    hide HeaderAt, WalkFrom, Rebuilt, Inside;
    var w := WalkFrom(data, size, off);
    WalkUnfolds(data, size, off);
    var h := HeaderAt(data, off);
    if IsFinal(h.ty) || off + h.len >= size {
      assert [Visit(off, h)] + [] == [Visit(off, h)];
      InsideHead(data, Visit(off, h), []);
      RebuiltOne(data, off, h);
    } else {
      var rest := WalkFrom(data, size, off + h.len);
      InsideHead(data, Visit(off, h), rest.visits);
      WalkedBytes(data, size, off + h.len);
      RebuiltMore(data, off, h, rest.visits);
    }
  }

  lemma InsideHead(data: Buffer, v: Visit, rest: seq<Visit>)
    requires Inside(data, [v] + rest)
    ensures v.header.len >= HEADER_BYTES && v.off + v.header.len <= |data| && Inside(data, rest)
  {
    assert v in [v] + rest;
    assert forall u :: u in rest ==> u in [v] + rest;
  }

  lemma RebuiltOne(data: Buffer, off: nat, h: Header)
    requires off + HEADER_BYTES <= |data| && h == HeaderAt(data, off)
    requires h.len >= HEADER_BYTES && off + h.len <= |data|
    ensures Rebuilt(data, off, [Visit(off, h)])
  {
    hide HeaderAt, Serialise, SerialiseAll;
    SegmentBytes(data, off, h);
    NothingLeft();
    assert [Visit(off, h)][1..] == [] && Cut(data, []) == [];
    SerialiseHead(Segment(h.ty, data[off + HEADER_BYTES..off + h.len]), []);
  }

  lemma NothingLeft()
    ensures SerialiseAll([]) == []
  {
  }

  lemma RebuiltMore(data: Buffer, off: nat, h: Header, rest: seq<Visit>)
    requires off + HEADER_BYTES <= |data| && h == HeaderAt(data, off)
    requires h.len >= HEADER_BYTES && off + h.len <= |data|
    requires Rebuilt(data, off + h.len, rest)
    ensures Rebuilt(data, off, [Visit(off, h)] + rest)
  {
    hide HeaderAt, Serialise, SerialiseAll, Cut;
    var visits := [Visit(off, h)] + rest;
    assert visits[1..] == rest;
    SegmentBytes(data, off, h);
    CutHead(data, visits);
    SerialiseHead(Segment(h.ty, data[off + HEADER_BYTES..off + h.len]), Cut(data, rest));
    Abutting(data, off, off + h.len, EndOf(rest));
  }

  lemma CutHead(data: Buffer, visits: seq<Visit>)
    requires Inside(data, visits)
    requires visits != []
    ensures var v := visits[0];
            Cut(data, visits) ==
            [Segment(v.header.ty, data[v.off + HEADER_BYTES..v.off + v.header.len])] + Cut(data, visits[1..])
  {
  }

  lemma SerialiseHead(s: Segment, rest: seq<Segment>)
    ensures SerialiseAll([s] + rest) == Serialise(s) + SerialiseAll(rest)
  {
    hide Serialise;
    assert ([s] + rest)[1..] == rest;
  }

  lemma SegmentBytes(data: Buffer, off: nat, h: Header)
    requires off + HEADER_BYTES <= |data| && h == HeaderAt(data, off)
    requires h.len >= HEADER_BYTES && off + h.len <= |data|
    ensures Serialise(Segment(h.ty, data[off + HEADER_BYTES..off + h.len])) == data[off..off + h.len]
  {
    hide Bytes, HeaderAt;
    SerialisedHeader(data, off);
    Abutting(data, off, off + HEADER_BYTES, off + h.len);
  }

  lemma Abutting(data: Buffer, a: nat, b: nat, c: nat)
    requires a <= b <= c <= |data|
    ensures data[a..b] + data[b..c] == data[a..c]
  {
  }

  /* ---- trailing bytes ---- */

  /** A walk that ends in a final segment, or on one of length 0, within the first
      total bytes is the same in any larger block that starts with them, however
      large its size. */
  lemma {:induction false} TrailingBytes(data: Buffer, total: nat, block: Buffer, size: int, off: nat)
    requires total <= |data| && total <= |block| && total <= size && data[..total] == block[..total]
    requires WalkFrom(data, total, off).stop in {Final, Spin}
    requires forall v :: v in WalkFrom(data, total, off).visits ==> v.off + HEADER_BYTES <= total
    ensures WalkFrom(block, size, off) == WalkFrom(data, total, off)
    decreases |data| - off
  {
    hide HeaderAt, WalkFrom;
    var w := WalkFrom(data, total, off);
    WalkUnfolds(data, total, off);
    WalkUnfolds(block, size, off);
    var h := HeaderAt(data, off);
    assert w.visits[0] == Visit(off, h);
    SameHeader(data, block, total, off);
    if !IsFinal(h.ty) && h.len != 0 {
      var rest := WalkFrom(data, total, off + h.len);
      assert forall v :: v in rest.visits ==> v in w.visits;
      TrailingBytes(data, total, block, size, off + h.len);
    }
  }

  lemma SameHeader(data: Buffer, block: Buffer, total: nat, off: nat)
    requires total <= |data| && total <= |block| && data[..total] == block[..total] && off + HEADER_BYTES <= total
    ensures HeaderAt(data, off) == HeaderAt(block, off)
  {
    hide Get;
    assert data[off..off + HEADER_BYTES] == data[..total][off..off + HEADER_BYTES];
    assert block[off..off + HEADER_BYTES] == block[..total][off..off + HEADER_BYTES];
  }

  /** The same for a whole dump: a terminated dump collected through a registered
      buffer is parsed with the buffer's size, and still seen as it is. */
  lemma TrailingDump(data: Buffer, block: Buffer, size: int)
    requires |data| <= |block| && |data| <= size && data == block[..|data|]
    requires WalkDump(data, |data|).stop == Final
    ensures WalkDump(block, size) == WalkDump(data, |data|)
  {
    hide WalkFrom;
    HeadersInBlock(data, |data|, FIRST_SEGMENT);
    TrailingBytes(data, |data|, block, size, FIRST_SEGMENT);
  }

  lemma {:induction false} HeadersInBlock(data: Buffer, size: int, off: nat)
    ensures forall v :: v in WalkFrom(data, size, off).visits ==> v.off + HEADER_BYTES <= |data|
    decreases |data| - off
  {
    hide HeaderAt, WalkFrom;
    WalkUnfolds(data, size, off);
    if off + HEADER_BYTES <= |data| && HeaderAt(data, off).len > 0 {
      HeadersInBlock(data, size, off + HeaderAt(data, off).len);
    }
  }

  /** Exactly the walks that end in a final segment or on one of length 0 do not
      depend on what follows the dump and on a larger size. */
  lemma TrailingIff(data: Buffer, off: nat)
    requires off <= |data|
    ensures (forall block, size :: data <= block && |data| <= size ==>
               WalkFrom(block, size, off) == WalkFrom(data, |data|, off))
            <==> WalkFrom(data, |data|, off).stop in {Final, Spin}
  {
    hide WalkFrom, HeaderAt;
    if WalkFrom(data, |data|, off).stop in {Final, Spin} {
      forall block, size | data <= block && |data| <= size
        ensures WalkFrom(block, size, off) == WalkFrom(data, |data|, off)
      {
        HeadersInBlock(data, |data|, off);
        TrailingBytes(data, |data|, block, size, off);
      }
    } else {
      var block := data + Machine.Zeros(LONGEST + HEADER_BYTES);
      WalkGoesOn(data, block, off);
      assert data <= block;
    }
  }

  const LONGEST: nat := 0xffff * 4

  // With enough zeros behind the dump and their size, the walk sees more of them.
  lemma {:induction false} WalkGoesOn(data: Buffer, block: Buffer, off: nat)
    requires off <= |data| && block == data + Machine.Zeros(LONGEST + HEADER_BYTES)
    requires WalkFrom(data, |data|, off).stop !in {Final, Spin}
    ensures WalkFrom(block, |block|, off) != WalkFrom(data, |data|, off)
    decreases |data| - off
  {
    hide WalkFrom, HeaderAt;
    WalkUnfolds(data, |data|, off);
    WalkUnfolds(block, |block|, off);
    if off + HEADER_BYTES <= |data| {
      SameHeader(data, block, |data|, off);
      LengthInDwords(data, off);
      var h := HeaderAt(data, off);
      if off + h.len < |data| {
        WalkGoesOn(data, block, off + h.len);
        AfterFirst(Visit(off, h), WalkFrom(block, |block|, off + h.len), WalkFrom(data, |data|, off + h.len));
      } else {
        WalkUnfolds(block, |block|, off + h.len);
        SeesMore(block, off + h.len);
        assert |[Visit(off, h)] + WalkFrom(block, |block|, off + h.len).visits| > 1;
      }
    }
  }

  lemma SeesMore(block: Buffer, off: nat)
    requires off + HEADER_BYTES <= |block|
    ensures WalkFrom(block, |block|, off).visits != []
  {
    hide HeaderAt, WalkFrom;
    WalkUnfolds(block, |block|, off);
  }

  lemma AfterFirst(v: Visit, w: Walk, w': Walk)
    requires w != w'
    ensures Before([v], w) != Before([v], w')
  {
    assert ([v] + w.visits)[1..] == w.visits && ([v] + w'.visits)[1..] == w'.visits;
  }

  // A size that does not fit an int, read as a negative one, shows one segment.
  lemma NegativeSize(data: Buffer, size: int)
    requires size < 0 && |data| >= FIRST_SEGMENT + HEADER_BYTES
    ensures |WalkDump(data, size).visits| == 1 && WalkDump(data, size).stop in {Final, Overflow}
  {
    hide HeaderAt, WalkFrom;
    WalkUnfolds(data, size, FIRST_SEGMENT);
  }

  /* ---- headers past the end ---- */

  function UpToDword(size: int): int { (size + 3) / 4 * 4 }

  // No dump of this size in a block of that length makes the walk read a header
  // past the block: its last dword, begun or not, lies inside.
  predicate HeadersFit(block: nat, size: int) {
    && FIRST_SEGMENT <= block
    && (0 <= size < FIRST_SEGMENT + HEADER_BYTES
        || (FIRST_SEGMENT + HEADER_BYTES <= block && UpToDword(size) <= block))
  }

  lemma {:induction false} StaysInBlock(data: Buffer, size: int, off: nat)
    requires off % 4 == 0 && off + HEADER_BYTES <= |data| && UpToDword(size) <= |data|
    ensures WalkFrom(data, size, off).stop != Overread
    decreases |data| - off
  {
    hide HeaderAt, WalkFrom;
    LengthInDwords(data, off);
    WalkUnfolds(data, size, off);
    var h := HeaderAt(data, off);
    if !IsFinal(h.ty) && off + h.len < size && h.len != 0 {
      StaysInBlock(data, size, off + h.len);
    }
  }

  lemma LengthInDwords(data: Buffer, off: nat)
    requires off + HEADER_BYTES <= |data|
    ensures HeaderAt(data, off).len % 4 == 0 && HeaderAt(data, off).len <= LONGEST
  {
    hide Get, Pow2;
    PowersOfTwo();
    GetBound(data[off..off + HEADER_BYTES], LENGTH_DW);
  }

  // n empty NOTICE segments, one dword each
  function Notices(n: nat): (r: Buffer)
    ensures |r| == HEADER_BYTES * n
  {
    if n == 0 then [] else Notices(n - 1) + Serialise(Segment(TYPE_NOTICE, []))
  }

  lemma {:induction false} NoticeAt(n: nat, k: nat)
    requires k < n
    ensures Notices(n)[HEADER_BYTES * k..HEADER_BYTES * k + HEADER_BYTES] == Serialise(Segment(TYPE_NOTICE, []))
  {
    hide Serialise;
    if k < n - 1 {
      NoticeAt(n - 1, k);
      assert Notices(n)[HEADER_BYTES * k..HEADER_BYTES * k + HEADER_BYTES] ==
             Notices(n - 1)[HEADER_BYTES * k..HEADER_BYTES * k + HEADER_BYTES];
    }
  }

  // A dump of such segments, as many as the block holds, and what is left of it.
  function NoticeDump(block: nat): (data: Buffer)
    requires FIRST_SEGMENT <= block
    ensures |data| == block
  {
    var n := (block - FIRST_SEGMENT) / HEADER_BYTES;
    Machine.Zeros(FIRST_SEGMENT) + Notices(n) + Machine.Zeros((block - FIRST_SEGMENT) % HEADER_BYTES)
  }

  lemma NoticeHeader(block: nat, off: nat)
    requires FIRST_SEGMENT <= off && off % 4 == 0 && off + HEADER_BYTES <= block
    ensures HeaderAt(NoticeDump(block), off) == Header(TYPE_NOTICE, HEADER_BYTES)
  {
    hide HeaderAt, Serialise, Notices;
    var n, k := (block - FIRST_SEGMENT) / HEADER_BYTES, (off - FIRST_SEGMENT) / HEADER_BYTES;
    NoticeAt(n, k);
    var data := NoticeDump(block);
    assert off == FIRST_SEGMENT + HEADER_BYTES * k;
    assert data[off..off + HEADER_BYTES] == Notices(n)[HEADER_BYTES * k..HEADER_BYTES * k + HEADER_BYTES];
    HeaderOfSerialised(data, off, Segment(TYPE_NOTICE, []));
  }

  lemma {:induction false} NoticesOverread(block: nat, size: int, off: nat)
    requires FIRST_SEGMENT <= off <= block && off % 4 == 0 && UpToDword(size) > block
    ensures WalkFrom(NoticeDump(block), size, off).stop == Overread
    decreases block - off
  {
    hide HeaderAt, WalkFrom, NoticeDump;
    var data := NoticeDump(block);
    WalkUnfolds(data, size, off);
    if off + HEADER_BYTES <= block {
      NoticeHeader(block, off);
      NoticesOverread(block, size, off + HEADER_BYTES);
    }
  }

  /** Whatever a block holds, the parser reads no header past it, exactly if the
      dump's size, rounded up to a dword, fits the block; otherwise a list of empty
      NOTICE segments makes it do so. */
  lemma OverreadIff(block: nat, size: int)
    ensures (forall data: Buffer :: |data| == block ==> WalkDump(data, size).stop != Overread)
            <==> HeadersFit(block, size)
  {
    hide WalkFrom, NoticeDump, UpToDword;
    if HeadersFit(block, size) {
      forall data: Buffer | |data| == block ensures WalkDump(data, size).stop != Overread {
        if !(0 <= size < FIRST_SEGMENT + HEADER_BYTES) { StaysInBlock(data, size, FIRST_SEGMENT); }
      }
    } else if block < FIRST_SEGMENT {
      assert WalkDump(Machine.Zeros(block), size).stop == Overread;
    } else {
      var data := NoticeDump(block);
      if FIRST_SEGMENT + HEADER_BYTES <= block {
        NoticesOverread(block, size, FIRST_SEGMENT);
      } else {
        WalkUnfolds(data, size, FIRST_SEGMENT);
      }
      assert WalkDump(data, size).stop == Overread;
    }
  }
}
