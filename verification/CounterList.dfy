/** The counter-list argument of `set` (do_set in diag_cnt.c): the array is sized
    by counting commas and filled by strtok, section 7.24.5.8 of C11. */
module CounterList {
  import opened Machine

  datatype Token = NoToken | Token(text: string)

  /* ---- strtok with "," ---- */

  // Leading commas, and leading characters that are not commas.
  function Skip(s: string): (n: nat)
    ensures n <= |s|
    ensures forall k :: 0 <= k < n ==> s[k] == ','
    ensures n < |s| ==> s[n] != ','
  {
    if s == [] || s[0] != ',' then 0 else 1 + Skip(s[1..])
  }

  function Span(s: string): (n: nat)
    ensures n <= |s|
    ensures forall k :: 0 <= k < n ==> s[k] != ','
    ensures n < |s| ==> s[n] == ','
  {
    if s == [] || s[0] == ',' then 0 else 1 + Span(s[1..])
  }

  // What is left after the token that ends at e, and the comma that ended it.
  function After(s: string, e: nat): string
    requires e <= |s|
  {
    if e < |s| then s[e + 1..] else []
  }

  // The tokens strtok returns one call after the other.
  function Tokens(s: string): seq<string>
    decreases |s|
  {
    var a := Skip(s);
    if a == |s| then []
    else
      var b := a + Span(s[a..]);
      [s[a..b]] + Tokens(After(s, b))
  }

  class Tokenizer {
    const text: string
    var save: nat   // where the next call resumes

    ghost predicate Valid() reads this { save <= |text| }

    constructor (text: string)
      ensures this.text == text && save == 0 && Valid()
    {
      this.text, save := text, 0;
    }

    method SkipCommas(from: nat) returns (a: nat)
      requires from <= |text|
      ensures from <= a <= |text| && a == from + Skip(text[from..])
    {
      a := from;
      while a < |text| && text[a] == ','
        invariant from <= a <= |text| && Skip(text[from..]) == a - from + Skip(text[a..])
      {
        assert text[a..][1..] == text[a + 1..];
        a := a + 1;
      }
    }

    method SpanToken(from: nat) returns (b: nat)
      requires from <= |text|
      ensures from <= b <= |text| && b == from + Span(text[from..])
    {
      b := from;
      while b < |text| && text[b] != ','
        invariant from <= b <= |text| && Span(text[from..]) == b - from + Span(text[b..])
      {
        assert text[b..][1..] == text[b + 1..];
        b := b + 1;
      }
    }

    method Next() returns (t: Token)
      requires Valid()
      modifies this
      ensures Valid() && save >= old(save)
      ensures t.NoToken? ==> Tokens(text[old(save)..]) == []
      ensures t.Token? ==> save > old(save)
                           && Tokens(text[old(save)..]) == [t.text] + Tokens(text[save..])
    {
      hide Tokens, Skip, Span;
      var a := SkipCommas(save);
      if a == |text| {
        NoMoreTokens(text, save);
        save := a;
        return NoToken;
      }
      var b := SpanToken(a);
      TokensUnfold(text, save, a);
      t := Token(text[a..b]);
      save := Resume(text, b);
    }
  }

  function Resume(text: string, b: nat): nat {
    if b < |text| then b + 1 else b
  }

  // From position `from` on, the first token is text[a..b].
  ghost predicate FirstToken(text: string, from: nat, a: nat, b: nat) {
    hide Tokens;
    && from <= a < b <= |text|
    && Tokens(text[from..]) == [text[a..b]] + Tokens(text[Resume(text, b)..])
  }

  lemma NoMoreTokens(text: string, from: nat)
    requires from <= |text| && from + Skip(text[from..]) == |text|
    ensures Tokens(text[from..]) == []
  {
    hide Skip, Span;
  }

  lemma TokensUnfold(text: string, from: nat, a: nat)
    requires from <= |text| && a == from + Skip(text[from..]) && a < |text|
    ensures FirstToken(text, from, a, a + Span(text[a..]))
  {
    hide Skip, Span, Tokens, After;
    SpanPositive(text, from, a);
    var b := a + Span(text[a..]);
    SliceOfSlice(text, from, a, b);
    TokensStep(text[from..], a - from, b - from);
  }

  lemma TokensStep(s: string, a: nat, b: nat)
    requires a == Skip(s) < |s| && b == a + Span(s[a..])
    ensures a <= b <= |s| && Tokens(s) == [s[a..b]] + Tokens(After(s, b))
  {
    hide Skip, Span;
  }

  lemma SliceOfSlice(text: string, from: nat, a: nat, b: nat)
    requires from <= a <= b <= |text|
    ensures text[from..][a - from..] == text[a..]
    ensures text[from..][a - from..b - from] == text[a..b]
    ensures After(text[from..], b - from) == text[Resume(text, b)..]
  {
  }

  lemma SpanPositive(text: string, from: nat, a: nat)
    requires from <= |text| && a == from + Skip(text[from..]) && a < |text|
    ensures 0 < Span(text[a..]) <= |text| - a
  {
    assert text[from..][a - from] == text[a] == text[a..][0];
  }

  /* ---- do_set ---- */

  function Commas(s: string): nat {
    if s == [] then 0 else (if s[0] == ',' then 1 else 0) + Commas(s[1..])
  }

  method CountCommas(text: string) returns (n: nat)
    ensures n == Commas(text)
  {
    n := 0;
    for k := 0 to |text|
      invariant n + Commas(text[k..]) == Commas(text)
    {
      assert text[k..][1..] == text[k + 1..];
      n := n + if text[k] == ',' then 1 else 0;
    }
  }

  // n is num_of_counters and ids the array of u32, of which the first `used` entries
  // were written; strtoul stands for the library's number parser.
  method ParseCounters(host: Host, text: string, strtoul: string -> nat)
    returns (err: int, n: nat, ids: array?<nat>, used: nat, ptr: nat)
    modifies host`world
    ensures host.world == Allocated(host.env, old(host.world)) && ptr == host.env.grant(old(host.world.allocs))
    ensures n == Commas(text) + 1
    ensures if ptr == 0 then err == 12 && ids == null
            else err == 0 && ids != null && fresh(ids) && ids.Length == n
    ensures ids != null ==> used == |Tokens(text)| <= n
    ensures ids != null ==> forall i :: 0 <= i < used ==> ids[i] == strtoul(Tokens(text)[i]) % 0x1_0000_0000
  {
    hide Tokens, Commas, Pieces;
    n := CountCommas(text);
    n := n + 1;
    used := 0;
    ptr := host.Malloc();
    if ptr == 0 { return ENOMEM, n, null, used, ptr; }
    err := 0;
    var words := new nat[n];
    TokensFit(text);
    used := StoreTokens(text, words, strtoul);
    ids := words;
  }

  // The strtok loop, into an array with room for all tokens.
  method StoreTokens(text: string, words: array<nat>, strtoul: string -> nat) returns (used: nat)
    requires |Tokens(text)| <= words.Length
    modifies words
    ensures used == |Tokens(text)|
    ensures forall i :: 0 <= i < used ==> words[i] == Word(strtoul(Tokens(text)[i]))
  {
    hide Tokens, Word;
    ghost var all := Tokens(text);
    var strtok := new Tokenizer(text);
    assert text[0..] == text;
    used := 0;
    var tok := strtok.Next();
    while tok.Token?
      invariant fresh(strtok) && strtok.Valid() && strtok.text == text && used <= |all| <= words.Length
      invariant Pending(all, used, tok, Tokens(text[strtok.save..]))
      invariant forall i :: 0 <= i < used ==> words[i] == Word(strtoul(all[i]))
      decreases |all| - used
    {
      FirstLeft(all, used, tok, Tokens(text[strtok.save..]));
      words[used] := Word(strtoul(tok.text));
      used := used + 1;
      tok := strtok.Next();
    }
  }

  // Stored in a u32
  function Word(v: nat): nat { v % 0x1_0000_0000 }

  // Of all tokens, `used` were stored; tok comes next, and rest after it.
  ghost predicate Pending(all: seq<string>, used: nat, tok: Token, rest: seq<string>) {
    used <= |all| && all[used..] == if tok.Token? then [tok.text] + rest else []
  }

  lemma FirstLeft(all: seq<string>, used: nat, tok: Token, rest: seq<string>)
    requires tok.Token? && Pending(all, used, tok, rest)
    ensures used < |all| && all[used] == tok.text && all[used + 1..] == rest
  {
    assert all[used..][0] == tok.text && all[used..][1..] == rest;
  }

  /* ---- the list as a user means it ---- */

  // The pieces between commas, empty ones included.
  function Pieces(s: string): (r: seq<string>)
    ensures r != []
  {
    if s == [] then [[]]
    else
      var rest := Pieces(s[1..]);
      if s[0] == ',' then [[]] + rest else [[s[0]] + rest[0]] + rest[1..]
  }

  function NonEmpty(pieces: seq<string>): seq<string> {
    if pieces == [] then []
    else (if pieces[0] == [] then [] else [pieces[0]]) + NonEmpty(pieces[1..])
  }

  lemma {:induction false} OnePieceMore(s: string)
    ensures |Pieces(s)| == Commas(s) + 1
  {
    if s != [] { OnePieceMore(s[1..]); }
  }

  lemma {:induction false} SkippedPieces(s: string)
    ensures NonEmpty(Pieces(s)) == NonEmpty(Pieces(s[Skip(s)..]))
  {
    if s != [] && s[0] == ',' {
      SkippedPieces(s[1..]);
      assert s[1..][Skip(s[1..])..] == s[Skip(s)..];
      assert Pieces(s)[1..] == Pieces(s[1..]);
    }
  }

  lemma {:induction false} FirstPiece(s: string)
    ensures Span(s) == |s| ==> Pieces(s) == [s]
    ensures Span(s) < |s| ==> Pieces(s) == [s[..Span(s)]] + Pieces(s[Span(s) + 1..])
  {
    if s != [] && s[0] != ',' {
      FirstPiece(s[1..]);
      var n := Span(s);
      if n < |s| {
        assert [s[0]] + s[1..][..n - 1] == s[..n];
        assert s[1..][n..] == s[n + 1..];
      } else {
        assert [s[0]] + s[1..] == s;
      }
    }
  }

  lemma NonEmptyHead(p: string, rest: seq<string>)
    ensures NonEmpty([p] + rest) == (if p == [] then [] else [p]) + NonEmpty(rest)
  {
    assert ([p] + rest)[1..] == rest;
  }

  /** strtok returns the pieces that are not empty, in order. */
  lemma {:induction false} TokensArePieces(s: string)
    ensures Tokens(s) == NonEmpty(Pieces(s))
    decreases |s|
  {
    hide NonEmpty, Skip, Span, Pieces, Tokens;
    var a := Skip(s);
    SkippedPieces(s);
    assert s[0..] == s;
    var t := s[a..];
    if t == [] {
      NoMoreTokens(s, 0);
      NoPieces();
    } else {
      TokensUnfold(s, 0, a);
      var n := Span(t);
      var rest := s[Resume(s, a + n)..];
      TokensArePieces(rest);
      FirstPieceKept(t);
      assert rest == After(t, n) && s[a..a + n] == t[..n];
    }
  }

  lemma NoPieces()
    ensures NonEmpty(Pieces([])) == []
  {
    NonEmptyHead([], []);
    assert Pieces([]) == [[]] + [];
  }

  lemma FirstPieceKept(t: string)
    requires t != [] && t[0] != ','
    ensures NonEmpty(Pieces(t)) == [t[..Span(t)]] + NonEmpty(Pieces(After(t, Span(t))))
  {
    var n := Span(t);
    FirstPiece(t);
    hide NonEmpty, Pieces;
    if n < |t| {
      NonEmptyHead(t[..n], Pieces(t[n + 1..]));
    } else {
      assert t[..n] == t && [t] + [] == [t];
      NonEmptyHead(t, []);
      NoPieces();
      NothingKept();
    }
  }

  lemma NothingKept()
    ensures NonEmpty([]) == []
  {
  }

  lemma {:induction false} NonEmptyCount(pieces: seq<string>)
    ensures |NonEmpty(pieces)| <= |pieces|
    ensures |NonEmpty(pieces)| == |pieces| <==> [] !in pieces
    ensures |NonEmpty(pieces)| == |pieces| ==> NonEmpty(pieces) == pieces
  {
    if pieces != [] {
      NonEmptyCount(pieces[1..]);
      assert pieces == [pieces[0]] + pieces[1..];
      assert [] in pieces <==> pieces[0] == [] || [] in pieces[1..];
    }
  }

  /** The array is never overrun, and it is filled, with the pieces in order,
      exactly when no piece is empty. */
  lemma TokensFit(s: string)
    ensures |Tokens(s)| <= Commas(s) + 1
    ensures |Tokens(s)| == Commas(s) + 1 <==> [] !in Pieces(s)
    ensures |Tokens(s)| == Commas(s) + 1 ==> Tokens(s) == Pieces(s)
  {
    TokensArePieces(s);
    OnePieceMore(s);
    NonEmptyCount(Pieces(s));
  }
}
