/** What parse_segment reads of a segment, and when a whole parse stays inside the
    memory block. The walk itself (module Segments) looks at headers only; here
    are the menu's records with their names, printed as strings, the texts of
    ERROR and NOTICE segments and the payload of resource segments. */
module SegmentReads {
  import opened Codec
  import opened FieldLaws
  import opened Layouts
  import opened Segments

  const LAST_RESOURCE_TYPE := 0xfeff

  /* ---- strings ---- */

  // One past the NUL that ends the string at p; past the block if there is none.
  function StringEnd(data: Buffer, p: nat): (e: nat)
    ensures e > p
    ensures e <= |data| ==> data[e - 1] == 0
    ensures forall i :: p <= i < |data| && i < e - 1 ==> data[i] != 0
    decreases |data| - p
  {
    if p >= |data| || data[p] == 0 then p + 1 else StringEnd(data, p + 1)
  }

  predicate StringInside(data: Buffer, p: nat) { StringEnd(data, p) <= |data| }

  // printf's %s: reads up to the NUL.
  method PrintString(data: array<byte>, p: nat) returns (ok: bool)
    ensures ok <==> StringInside(data[..], p)
  {
    var i := p;
    while i < data.Length && data[i] != 0
      invariant StringEnd(data[..], p) == StringEnd(data[..], i)
    {
      i := i + 1;
    }
    ok := i < data.Length;
  }

  /** A string stays inside the block exactly if a NUL follows in it. */
  lemma StringInsideIff(data: Buffer, p: nat)
    ensures StringInside(data, p) <==> exists i :: p <= i < |data| && data[i] == 0
  {
    hide StringEnd;
    if StringInside(data, p) {
      var i := StringEnd(data, p) - 1;
      assert p <= i < |data| && data[i] == 0;
    }
  }

  // The string at p of a part of the block that starts at off.
  lemma StringInPart(data: Buffer, off: nat, part: Buffer, p: nat)
    requires off + |part| <= |data| && data[off..off + |part|] == part
    ensures StringInside(part, p) ==> StringInside(data, off + p)
    ensures off + |part| == |data| ==> (StringInside(part, p) <==> StringInside(data, off + p))
  {
    StringInsideIff(part, p);
    StringInsideIff(data, off + p);
    hide StringInside;
    forall i | 0 <= i < |part| ensures part[i] == data[off + i] {
      assert data[off..off + |part|][i] == data[off + i];
    }
    if StringInside(part, p) {
      var i :| p <= i < |part| && part[i] == 0;
      assert data[off + i] == 0;
    }
    if StringInside(data, off + p) && off + |part| == |data| {
      var i :| off + p <= i < |data| && data[i] == 0;
      assert part[i - off] == 0;
    }
  }

  /* ---- menu segments ---- */

  function RecordAt(off: nat, i: nat): nat { off + MENU_HEAD_BYTES + i * MENU_RECORD_BYTES }

  predicate InRecord(off: nat, i: nat, b: nat) {
    off + 8 + 52 * i <= b < off + 8 + 52 * (i + 1)
  }

  // print_menu_record reads the record's first dword and prints three names.
  predicate RecordInside(data: Buffer, r: nat) {
    hide StringInside;
    && r + 4 <= |data|
    && StringInside(data, r + 4) && StringInside(data, r + 20) && StringInside(data, r + INDEX2_NAME_OFF)
  }

  // The number announced at bytes 6 and 7 of the menu at off.
  function RecordCount(data: Buffer, off: nat): nat {
    if off + MENU_HEAD_BYTES <= |data| then 256 * (data[off + 6] as nat) + data[off + 7] as nat else 0
  }

  lemma RecordCountIs(data: Buffer, off: nat)
    requires off + MENU_HEAD_BYTES <= |data|
    ensures Get(data[off..off + MENU_HEAD_BYTES], NUM_OF_RECORDS) == RecordCount(data, off)
  {
    hide Get;
    TwoBytes(data[off..off + MENU_HEAD_BYTES], 6);
  }

  ghost predicate MenuInside(data: Buffer, off: nat) {
    hide RecordInside, RecordCount;
    && off + MENU_HEAD_BYTES <= |data|
    && forall i: nat :: i < RecordCount(data, off) ==> RecordInside(data, RecordAt(off, i))
  }

  method PrintRecord(data: array<byte>, r: nat) returns (ok: bool)
    ensures ok <==> RecordInside(data[..], r)
  {
    hide StringInside;
    var name := PrintString(data, r + 4);
    var index1 := PrintString(data, r + 20);
    var index2 := PrintString(data, r + INDEX2_NAME_OFF);
    ok := r + 4 <= data.Length && name && index1 && index2;
  }

  // parse_menu_segment: where the records lie. ok is false when a read would
  // leave the block.
  method ParseMenu(data: array<byte>, off: nat) returns (records: seq<nat>, ok: bool)
    ensures ok <==> MenuInside(data[..], off)
    ensures ok ==> off + 8 <= data.Length && |records| == 256 * (data[off + 6] as nat) + data[off + 7] as nat
    ensures forall i :: 0 <= i < |records| ==> records[i] == off + 8 + 52 * i
  {
    hide Get, RecordInside;
    records := [];
    if off + MENU_HEAD_BYTES > data.Length { return records, false; }
    assert data[off..off + MENU_HEAD_BYTES] == data[..][off..off + MENU_HEAD_BYTES];
    var n := Load(data[off..off + MENU_HEAD_BYTES], NUM_OF_RECORDS);
    ok := true;
    ghost var d := data[..];
    RecordCountIs(d, off);
    for i := 0 to n
      invariant |records| == i
      invariant ok <==> forall k: nat :: k < i ==> RecordInside(d, RecordAt(off, k))
      invariant forall k :: 0 <= k < i ==> records[k] == off + 8 + 52 * k
    {
      var record := off + MENU_HEAD_BYTES + i * MENU_RECORD_BYTES;
      var inside := PrintRecord(data, record);
      assert inside <==> RecordInside(d, RecordAt(off, i));
      ok := ok && inside;
      records := records + [record];
    }
  }

  /** A menu is read inside the block exactly if its head is and, when it has
      records, the last name of the last record ends inside it: the names of a
      record may run into each other and into the next record. */
  lemma MenuInsideIff(data: Buffer, off: nat)
    ensures MenuInside(data, off) <==>
              && off + MENU_HEAD_BYTES <= |data|
              && (RecordCount(data, off) > 0 ==>
                    StringInside(data, RecordAt(off, RecordCount(data, off) - 1) + INDEX2_NAME_OFF))
  {
    hide RecordCount, StringInside;
    var n := RecordCount(data, off);
    if n > 0 && off + MENU_HEAD_BYTES <= |data| {
      var last := RecordAt(off, n - 1) + INDEX2_NAME_OFF;
      if StringInside(data, last) {
        forall i: nat | i < n ensures RecordInside(data, RecordAt(off, i)) {
          EarlierString(data, RecordAt(off, i) + 4, last);
          EarlierString(data, RecordAt(off, i) + 20, last);
          EarlierString(data, RecordAt(off, i) + INDEX2_NAME_OFF, last);
        }
      } else {
        assert !RecordInside(data, RecordAt(off, n - 1));
      }
    }
  }

  /** A serialised menu of n records announces n, wherever it lies, and the n records
      that the parser then takes up fill it behind its head: each byte there is in
      exactly one of them. */
  lemma MenuOfSerialised(data: Buffer, off: nat, n: nat, records: Buffer, b: nat)
    requires n < 0x1_0000 && |records| == 52 * n
    requires var s := MenuSegment(n, records);
             s.Valid() && off + s.Length() <= |data| && data[off..off + s.Length()] == Serialise(s)
    ensures HeaderAt(data, off) == Header(0xffff, 8 + 52 * n)
    ensures RecordCount(data, off) == n
    ensures off + 8 <= b < off + HeaderAt(data, off).len <==> exists i: nat :: i < n && InRecord(off, i, b)
    ensures forall i: nat, j: nat :: InRecord(off, i, b) && InRecord(off, j, b) ==> i == j
  {
    hide HeaderAt, Bytes, InRecord;
    var s := MenuSegment(n, records);
    HeaderOfSerialised(data, off, s);
    MenuTiling(off, n, b);
    TwoByteNumber(n);
    var t := Serialise(s);
    assert t[6..8] == Bytes(n, 2);
    assert data[off + 6] == data[off..off + s.Length()][6] == t[6] == t[6..8][0];
    assert data[off + 7] == data[off..off + s.Length()][7] == t[7] == t[6..8][1];
  }

  lemma TwoByteNumber(n: nat)
    requires n < 0x1_0000
    ensures 256 * (Bytes(n, 2)[0] as nat) + Bytes(n, 2)[1] as nat == n
  {
    assert Bytes(n / 256 / 256, 0) == [];
  }

  function MenuSegment(n: nat, records: Buffer): Segment {
    hide Bytes;
    Segment(0xffff, Bytes(0, 2) + Bytes(n, 2) + records)
  }

  lemma EarlierString(data: Buffer, p: nat, q: nat)
    requires p <= q && StringInside(data, q)
    ensures StringInside(data, p) && p < |data|
  {
    StringInsideIff(data, p);
    StringInsideIff(data, q);
  }

  /** The records tile the rest of a menu segment of 8 + 52n bytes: every byte
      behind the head is in exactly one record, and no record reaches further. */
  lemma MenuTiling(off: nat, n: nat, b: nat)
    ensures off + MENU_HEAD_BYTES <= b < RecordAt(off, n) <==> exists i: nat :: i < n && InRecord(off, i, b)
    ensures forall i: nat, j: nat :: InRecord(off, i, b) && InRecord(off, j, b) ==> i == j
    ensures RecordAt(off, n) == off + 8 + 52 * n
  {
    if off + MENU_HEAD_BYTES <= b < RecordAt(off, n) {
      var i := (b - off - MENU_HEAD_BYTES) / MENU_RECORD_BYTES;
      assert i < n && InRecord(off, i, b);
    }
  }

  /* ---- any segment ---- */

  // Everything parse_segment reads of the segment at v lies inside the block. The
  // payload of a resource segment is what its length announces behind the head.
  ghost predicate Contained(data: Buffer, v: Visit) {
    hide MenuInside;
    if v.header.ty == TYPE_ERROR || v.header.ty == TYPE_NOTICE then v.off + TEXT_BYTES <= |data|
    else if v.header.ty == TYPE_REFERENCE then v.off + REFERENCE_BYTES <= |data|
    else if v.header.ty == TYPE_MENU then MenuInside(data, v.off)
    else if v.header.ty > LAST_RESOURCE_TYPE then v.off + HEADER_BYTES <= |data|
    else v.off + RESOURCE_HEAD_BYTES <= |data| && v.off + v.header.len <= |data|
  }

  // parse_segment behind the header
  method ParseSegment(data: array<byte>, off: nat, h: Header) returns (ok: bool)
    requires off + HEADER_BYTES <= data.Length
    ensures ok <==> Contained(data[..], Visit(off, h))
    ensures h.ty in {0xfffc, 0xfff9} ==> (ok <==> off + 48 <= data.Length)
    ensures h.ty == 0xfffd ==> (ok <==> off + 20 <= data.Length)
    ensures h.ty == 0xffff ==> (ok <==> MenuInside(data[..], off))
    ensures h.ty <= 0xfeff ==> (ok <==> off + 16 <= data.Length && off + h.len <= data.Length)
    ensures 0xfeff < h.ty && h.ty !in {0xfff9, 0xfffc, 0xfffd, 0xffff} ==> ok
  {
    hide MenuInside;
    if h.ty == TYPE_TERMINATE { return true; }
    if h.ty == TYPE_ERROR || h.ty == TYPE_NOTICE { return off + TEXT_BYTES <= data.Length; }
    if h.ty == TYPE_REFERENCE { return off + REFERENCE_BYTES <= data.Length; }
    if h.ty == TYPE_MENU {
      var records;
      records, ok := ParseMenu(data, off);
      return ok;
    }
    if h.ty > LAST_RESOURCE_TYPE { return true; }
    if off + RESOURCE_HEAD_BYTES > data.Length { return false; }
    var inside := Hexdump(data, off + RESOURCE_HEAD_BYTES, h.len - RESOURCE_HEAD_BYTES);
    return inside;
  }

  // hexdump; a negative size shows nothing.
  method Hexdump(data: array<byte>, p: nat, size: int) returns (ok: bool)
    requires p <= data.Length
    ensures ok <==> p + size <= data.Length
  {
    var i := 0;
    while i < size && p + i < data.Length
      invariant 0 <= i && p + i <= data.Length && (i > 0 ==> i <= size)
    {
      i := i + 1;
    }
    ok := i >= size;
  }

  // The whole parse reads nothing past the block.
  ghost predicate ParsedInside(data: Buffer, size: int) {
    hide WalkDump, Contained;
    && WalkDump(data, size).stop != Overread
    && forall v :: v in WalkDump(data, size).visits ==> Contained(data, v)
  }

  // parse_resource_dump; inside says whether all its reads were.
  method ParseResourceDump(data: array<byte>, size: int)
    returns (visits: seq<Visit>, stop: Stop, inside: bool)
    ensures Walk(visits, stop) == WalkDump(data[..], size)
    ensures inside <==> ParsedInside(data[..], size)
    ensures stop == Final <==> visits != [] && visits[|visits| - 1].header.ty in {0xfffb, 0xfffc}
    ensures forall i :: 0 <= i < |visits| - 1 ==> visits[i].header.ty !in {0xfffb, 0xfffc}
    ensures inside ==> forall v :: v in visits && v.header.ty <= 0xfeff ==> v.off + v.header.len <= data.Length
  {
    hide HeaderAt, WalkFrom, Before, Contained;
    visits, inside := [], true;
    if data.Length < FIRST_SEGMENT { return visits, Overread, false; }
    if 0 <= size < FIRST_SEGMENT + HEADER_BYTES { return visits, TooShort, true; }
    ghost var d := data[..];
    var off := FIRST_SEGMENT;
    NothingBefore(WalkFrom(d, size, off));
    while true
      invariant FIRST_SEGMENT <= off
      invariant WalkFrom(d, size, FIRST_SEGMENT) == Before(visits, WalkFrom(d, size, off))
      invariant inside <==> forall v :: v in visits ==> Contained(d, v)
      invariant forall v :: v in visits ==> v.header.ty !in {0xfffb, 0xfffc}
      invariant inside ==> forall v :: v in visits && v.header.ty <= 0xfeff ==> v.off + v.header.len <= data.Length
      decreases data.Length - off
    {
      WalkUnfolds(d, size, off);
      BeforeStops(visits, WalkFrom(d, size, off));
      if off + HEADER_BYTES > data.Length { return visits, Overread, false; }
      var h := GetSegmentHeader(data, off);
      var ok := ParseSegment(data, off, h);
      BeforeBefore(visits, [Visit(off, h)], WalkFrom(d, size, off + h.len));
      visits, inside := visits + [Visit(off, h)], inside && ok;
      if IsFinal(h.ty) { return visits, Final, inside; }
      if off + h.len >= size { return visits, Overflow, inside; }
      if h.len == 0 { return visits, Spin, inside; }
      off := off + h.len;
    }
  }

  /* ---- when a parse stays inside ---- */

  // A segment that, alone in a block, is read inside it: long enough for its type.
  ghost predicate Shapely(s: Segment) {
    hide Contained, Serialise;
    Contained(Serialise(s), Visit(0, Header(s.ty, s.Length())))
  }

  // The number of records a serialised menu announces.
  function Records(s: Segment): nat {
    hide RecordCount, Serialise;
    RecordCount(Serialise(s), 0)
  }

  /** What that takes of each type; a menu must have the NUL that ends its last
      name, and needs no other. */
  lemma ShapelyIff(s: Segment)
    ensures Shapely(s) <==>
            if s.ty == 0xfffc || s.ty == 0xfff9 then s.Length() >= 48
            else if s.ty == 0xfffd then s.Length() >= 20
            else if s.ty == 0xffff then
              && s.Length() >= 8
              && (Records(s) > 0 ==>
                    exists i :: 52 * Records(s) - 8 <= i < s.Length() && Serialise(s)[i] == 0)
            else if s.ty > 0xfeff then true
            else s.Length() >= 16
  {
    hide RecordCount, StringInside, Serialise, MenuInside;
    MenuInsideIff(Serialise(s), 0);
    if Records(s) > 0 {
      StringInsideIff(Serialise(s), RecordAt(0, Records(s) - 1) + INDEX2_NAME_OFF);
    }
  }

  // Wherever a shapely segment lies, it is read inside its own bytes; the last one
  // of a block is read inside the block exactly if it is shapely.
  lemma ContainedIff(data: Buffer, off: nat, s: Segment)
    requires s.Valid() && off + s.Length() <= |data| && data[off..off + s.Length()] == Serialise(s)
    ensures var v := Visit(off, Header(s.ty, s.Length()));
            && (Shapely(s) ==> Contained(data, v))
            && (off + s.Length() == |data| ==> (Shapely(s) <==> Contained(data, v)))
  {
    hide MenuInside, Serialise;
    if s.ty == TYPE_MENU { MenuInPart(data, off, Serialise(s)); }
  }

  lemma MenuInPart(data: Buffer, off: nat, part: Buffer)
    requires off + |part| <= |data| && data[off..off + |part|] == part
    ensures MenuInside(part, 0) ==> MenuInside(data, off)
    ensures off + |part| == |data| ==> (MenuInside(part, 0) <==> MenuInside(data, off))
  {
    hide MenuInside, StringInside, Get;
    MenuInsideIff(part, 0);
    MenuInsideIff(data, off);
    if MENU_HEAD_BYTES <= |part| {
      assert part[0..MENU_HEAD_BYTES] == data[off..off + |part|][0..MENU_HEAD_BYTES]
             == data[off..off + MENU_HEAD_BYTES];
      var n := RecordCount(part, 0);
      if n > 0 { StringInPart(data, off, part, RecordAt(0, n - 1) + INDEX2_NAME_OFF); }
    }
  }

  ghost predicate AllShapely(segments: seq<Segment>) {
    hide Shapely;
    forall k :: 0 <= k < |segments| ==> Shapely(segments[k])
  }

  lemma {:induction false} ExpectedContained(data: Buffer, off: nat, segments: seq<Segment>, n: nat)
    requires AllValid(segments) && n <= |segments| && AllShapely(segments[..n])
    requires off + |SerialiseAll(segments)| <= |data|
    requires data[off..off + |SerialiseAll(segments)|] == SerialiseAll(segments)
    ensures forall v :: v in Expected(segments[..n], off) ==> Contained(data, v)
    decreases |segments|
  {
    hide Serialise, SerialiseAll, Contained, Shapely;
    if n > 0 {
      var s, rest := segments[0], segments[1..];
      TailOf(data, off, segments);
      assert Shapely(s) by { assert segments[..n][0] == s; }
      ContainedIff(data, off, s);
      assert segments[..n][1..] == rest[..n - 1];
      ShapelyBehind(segments[..n]);
      ExpectedContained(data, off + s.Length(), rest, n - 1);
    }
  }

  lemma ShapelyBehind(segments: seq<Segment>)
    requires segments != [] && AllShapely(segments)
    ensures AllShapely(segments[1..])
  {
    hide Shapely;
    var rest := segments[1..];
    forall k | 0 <= k < |rest| ensures Shapely(rest[k]) {
      assert rest[k] == segments[k + 1];
    }
  }

  /** The parser, given a dump it does not leave, reads nothing past the block if
      every segment it reports is long enough for its type. */
  lemma ParseStaysInside(head: Buffer, segments: seq<Segment>, trailing: Buffer, size: int)
    requires |head| == FIRST_SEGMENT && AllValid(segments)
    requires !(0 <= size < FIRST_SEGMENT + HEADER_BYTES) && Shown(segments, size, FIRST_SEGMENT) > 0
    requires AllShapely(segments[..Shown(segments, size, FIRST_SEGMENT)])
    ensures ParsedInside(head + SerialiseAll(segments) + trailing, size)
  {
    hide SerialiseAll, Contained, Shapely, WalkDump, Expected, Shown;
    var all := SerialiseAll(segments);
    var data := head + all + trailing;
    RoundTripUpTo(head, segments, trailing, size);
    assert data[FIRST_SEGMENT..FIRST_SEGMENT + |all|] == all;
    ExpectedContained(data, FIRST_SEGMENT, segments, Shown(segments, size, FIRST_SEGMENT));
  }

  // The same for the parser given the dump's own size, or more of a final segment.
  lemma ReportInside(head: Buffer, segments: seq<Segment>, trailing: Buffer, size: int)
    requires |head| == FIRST_SEGMENT && AllValid(segments) && AllShapely(UpToFinal(segments))
    requires size >= |head + SerialiseAll(segments)|
    requires size == |head + SerialiseAll(segments)| || HasFinal(segments)
    ensures ParsedInside(head + SerialiseAll(segments) + trailing, size)
  {
    hide SerialiseAll, Contained, AllShapely, WalkFrom, Expected, Shown, UpToFinal, IsFinal;
    if segments == [] {
      NothingLeft();
    } else {
      LongEnough(segments);
      ShownUpToFinal(segments, size, FIRST_SEGMENT);
      ParseStaysInside(head, segments, trailing, size);
    }
  }

  /** And only if the last one is, when the block ends with it. */
  lemma LastMustBeShapely(head: Buffer, segments: seq<Segment>, last: Segment)
    requires |head| == FIRST_SEGMENT && AllValid(segments + [last])
    requires forall k :: 0 <= k < |segments| ==> !IsFinal(segments[k].ty)
    requires AllShapely(segments)
    ensures var data := head + SerialiseAll(segments + [last]);
            ParsedInside(data, |data|) <==> Shapely(last)
  {
    hide SerialiseAll, Contained, Shapely, WalkDump, Serialise, Shown, IsFinal, Expected;
    var all := segments + [last];
    var data := head + SerialiseAll(all);
    assert data == head + SerialiseAll(all) + [];
    LongEnough(all);
    AllShown(segments, last, FIRST_SEGMENT);
    assert all[..|all|] == all;
    RoundTripUpTo(head, all, [], |data|);
    ExpectedSnoc(segments, last, FIRST_SEGMENT);
    var v := Visit(FIRST_SEGMENT + |SerialiseAll(segments)|, Header(last.ty, last.Length()));
    SerialiseSnoc(segments, last);
    assert data[v.off..v.off + last.Length()] == Serialise(last);
    ContainedIff(data, v.off, last);
    assert data[FIRST_SEGMENT..FIRST_SEGMENT + |SerialiseAll(all)|] == SerialiseAll(all);
    assert all[..|segments|] == segments;
    ExpectedContained(data, FIRST_SEGMENT, all, |segments|);
    assert v in Expected(all, FIRST_SEGMENT);
  }

  lemma {:induction false} AllShown(segments: seq<Segment>, last: Segment, off: nat)
    requires forall k :: 0 <= k < |segments| ==> !IsFinal(segments[k].ty)
    ensures Shown(segments + [last], off + |SerialiseAll(segments + [last])|, off) == |segments| + 1
  {
    hide Serialise, IsFinal;
    var all := segments + [last];
    if segments == [] {
      NothingLeft();
    } else {
      assert all[1..] == segments[1..] + [last];
      LongEnough(all[1..]);
      AllShown(segments[1..], last, off + segments[0].Length());
    }
  }

  lemma {:induction false} SerialiseSnoc(segments: seq<Segment>, last: Segment)
    ensures SerialiseAll(segments + [last]) == SerialiseAll(segments) + Serialise(last)
  {
    hide Serialise;
    if segments == [] {
      NothingLeft();
      assert ([] + [last])[1..] == [];
    } else {
      assert (segments + [last])[1..] == segments[1..] + [last];
      SerialiseSnoc(segments[1..], last);
    }
  }

  lemma ExpectedHead(s: Segment, rest: seq<Segment>, off: nat)
    ensures Expected([s] + rest, off) == [Visit(off, Header(s.ty, s.Length()))] + Expected(rest, off + s.Length())
  {
    assert ([s] + rest)[1..] == rest;
  }

  lemma {:induction false} ExpectedSnoc(segments: seq<Segment>, last: Segment, off: nat)
    ensures Expected(segments + [last], off) ==
            Expected(segments, off) + [Visit(off + |SerialiseAll(segments)|, Header(last.ty, last.Length()))]
  {
    hide Serialise, SerialiseAll, Expected;
    if segments == [] {
      NothingLeft();
      ExpectedHead(last, [], off);
      NothingExpected(off);
      NothingExpected(off + last.Length());
      assert segments + [last] == [last] + [];
    } else {
      var s, rest := segments[0], segments[1..];
      assert segments + [last] == [s] + (rest + [last]) && segments == [s] + rest;
      ExpectedHead(s, rest + [last], off);
      ExpectedHead(s, rest, off);
      SerialiseHead(s, rest);
      ExpectedSnoc(rest, last, off + s.Length());
    }
  }

  lemma NothingExpected(off: nat)
    ensures Expected([], off) == []
  {
  }
}
