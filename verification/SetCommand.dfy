/** The `set` command (do_set in diag_cnt.c) behind its flags and numbers: parse the
    counter list, then hand it to the device with the rest of the record. */
module SetCommand {
  import Bits
  import opened Codec
  import opened FieldLaws
  import opened Layouts
  import opened Machine
  import opened DiagCnt
  import opened Wire
  import opened CounterList

  // The array the command sends: its first entries are the tokens' numbers, the
  // rest is what malloc left.
  ghost predicate IsCounterArray(ids: seq<nat>, text: string, strtoul: string -> nat) {
    hide Tokens, Commas;
    && |ids| == Commas(text) + 1 && |Tokens(text)| <= |ids|
    && forall i :: 0 <= i < |Tokens(text)| ==> ids[i] == strtoul(Tokens(text)[i]) % 0x1_0000_0000
  }

  // freq is what get_dev_freq found, negative if it failed: then the array is never
  // freed.
  method DoSet(host: Host, flags: Params, text: string, strtoul: string -> nat, freq: int)
    returns (err: int, ghost ids: seq<nat>, ghost block: Buffer)
    modifies host`world, host.window
    ensures host.env.grant(old(host.world.allocs)) == 0 ==>
              err == 12 && host.world == Allocated(host.env, old(host.world))
    ensures host.env.grant(old(host.world.allocs)) != 0 ==>
              && IsCounterArray(ids, text, strtoul)
              && if freq < 0 then err == freq && host.world == Allocated(host.env, old(host.world))
                 else if host.env.grant(old(host.world.allocs) + 1) == 0 then err == 12
                 else
                   var p := flags.(enable := 1, counters := ids);
                   && |block| == HEAD_BYTES + COUNTER_BYTES * |ids|
                   && var question := Machine.Command(SetFrame(block, p));
                      && err == Perform(host.env, old(host.world.dev), question, Zeros(16)).err
                      && host.world.dev == old(host.world.dev).(log := old(host.world.dev.log) + [question])
    ensures freq >= 0 ==> Settled(old(host.world.heap), host.world.heap)
  {
    hide Perform, SetFrame, Tokens, Commas, Word, Settled;
    ghost var h := host.world.heap;
    TakeDrop(h, 0);
    ids, block := [], [];
    var n, words, used, ptr;
    err, n, words, used, ptr := ParseCounters(host, text, strtoul);
    if err != 0 { return; }
    ids := words[..];
    if freq < 0 {
      err := freq;
      return;
    }
    err, block := SetParam(host, flags.(enable := 1, counters := words[..]));
    if |block| == HEAD_BYTES + COUNTER_BYTES * |ids| {
      DiagMovesNoHandle(host.env, old(host.world.dev), block, flags.(enable := 1, counters := ids), Zeros(16));
    }
    TakeSettledDrop(h, ptr, host.world.heap);
    host.Free(ptr);
  }

  /** The frame that the command sends is a SET_DIAGNOSTIC_PARAMS with enable 1, and its
      counters are exactly the numbers between the commas, in order, cut to 16 bits, if
      no piece is empty. */
  lemma PiecesAreSent(ids: seq<nat>, text: string, strtoul: string -> nat, block: Buffer, flags: Params, i: nat)
    requires IsCounterArray(ids, text, strtoul)
    requires |block| == HEAD_BYTES + COUNTER_BYTES * |ids|
    requires [] !in Pieces(text) && i < |ids|
    ensures |Pieces(text)| == |ids|
    ensures Sends(SetFrame(block, flags.(enable := 1, counters := ids)), |Pieces(text)|, i, strtoul(Pieces(text)[i]))
  {
    hide SetFrame, IsSetFrame, IsCounterArray, Pieces, Sends;
    ArrayIsPieces(ids, text, strtoul, i);
    var p := flags.(enable := 1, counters := ids);
    var f := SetFrame(block, p);
    DiagFrames(block, p);
    SetFrameSends(f, p, i);
    SendsSame(f, |ids|, i, ids[i], strtoul(Pieces(text)[i]));
  }

  lemma ArrayIsPieces(ids: seq<nat>, text: string, strtoul: string -> nat, i: nat)
    requires IsCounterArray(ids, text, strtoul) && [] !in Pieces(text) && i < |ids|
    ensures |Pieces(text)| == |ids| && ids[i] % 0x1_0000 == strtoul(Pieces(text)[i]) % 0x1_0000
  {
    hide Tokens, Commas, Pieces;
    TokensFit(text);
    LowWord(strtoul(Pieces(text)[i]));
  }

  lemma LowWord(v: nat)
    ensures Word(v) % 0x1_0000 == v % 0x1_0000
  {
    Bits.PowersOfTwo();
    Bits.ModOfMod(v, 32, 16);
  }

  /** The text determines the whole array exactly if no piece is empty; otherwise
      the device is sent, at the end, whatever malloc left there. */
  lemma ArrayDeterminedIff(text: string, strtoul: string -> nat)
    ensures (forall ids, ids' :: IsCounterArray(ids, text, strtoul) && IsCounterArray(ids', text, strtoul) ==>
               ids == ids') <==> [] !in Pieces(text)
  {
    hide Tokens, Commas, Pieces, Word;
    TokensFit(text);
    if [] in Pieces(text) {
      ArrayWithRest(text, strtoul, 0);
      ArrayWithRest(text, strtoul, 1);
    }
  }

  function EntryAt(text: string, strtoul: string -> nat, rest: nat, i: nat): nat {
    hide Tokens, Word;
    if i < |Tokens(text)| then Word(strtoul(Tokens(text)[i])) else rest
  }

  function Filled(text: string, strtoul: string -> nat, rest: nat): seq<nat> {
    hide Commas, EntryAt;
    seq(Commas(text) + 1, i requires 0 <= i => EntryAt(text, strtoul, rest, i))
  }

  lemma ArrayWithRest(text: string, strtoul: string -> nat, rest: nat)
    requires [] in Pieces(text)
    ensures IsCounterArray(Filled(text, strtoul, rest), text, strtoul)
    ensures Filled(text, strtoul, rest)[Commas(text)] == rest
  {
    hide Tokens, Commas, Pieces;
    TokensFit(text);
  }
}
