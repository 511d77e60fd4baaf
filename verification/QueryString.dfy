/** Query strings: the tokenizer, the parser that collects decoded names and values in one growing buffer, and
    the law that a query string built from names and values parses back to them. */
module QueryString {
  import opened Bytes
  import opened StringBuilder
  import opened UrlCodec

  const AMP: byte := 38
  const EQUALS: byte := 61

  // ---------------------------------------------------------------- specification

  /** The pieces between delimiters; a delimiter at the very end starts no further piece. */
  function Tokens(s: seq<byte>, delim: byte): seq<seq<byte>>
    decreases |s|
  {
    if s == [] then []
    else
      match FindChar(s, 0, delim)
      case None => [s]
      case Some(i) => [s[..i]] + Tokens(s[i + 1..], delim)
  }

  datatype Pair = Pair(name: seq<byte>, value: seq<byte>)

  /** A name without '=' has an empty value. */
  function PairOf(token: seq<byte>): Pair {
    match FindChar(token, 0, EQUALS)
    case None => Pair(Decode(token), [])
    case Some(i) => Pair(Decode(token[..i]), Decode(token[i + 1..]))
  }

  /** Empty tokens count for nothing. */
  function PairsOf(tokens: seq<seq<byte>>): seq<Pair> {
    if tokens == [] then []
    else (if tokens[0] == [] then [] else [PairOf(tokens[0])]) + PairsOf(tokens[1..])
  }

  function QueryPairs(s: seq<byte>): seq<Pair> { PairsOf(Tokens(s, AMP)) }

  // ---------------------------------------------------------------- round trip

  function EncodePair(p: Pair): seq<byte> { Encode(p.name) + [EQUALS] + Encode(p.value) }

  function Join(ps: seq<Pair>): seq<byte> {
    if ps == [] then []
    else if |ps| == 1 then EncodePair(ps[0])
    else EncodePair(ps[0]) + [AMP] + Join(ps[1..])
  }

  lemma PairRoundTrip(p: Pair)
    ensures PairOf(EncodePair(p)) == p && AMP !in EncodePair(p)
  {
    hide Encode, Decode;
    var n, v := Encode(p.name), Encode(p.value);
    EncodeHasNoSeparator(p.name, EQUALS);
    EncodeHasNoSeparator(p.name, AMP);
    EncodeHasNoSeparator(p.value, AMP);
    var s := EncodePair(p);
    assert forall j :: 0 <= j < |n| ==> s[j] == n[j];
    FindCharIs(s, 0, EQUALS, |n|);
    assert s[..|n|] == n && s[|n| + 1..] == v;
    DecodeEncode(p.name);
    DecodeEncode(p.value);
  }

  /** Any list of names and values, encoded and joined, parses back to itself. */
  lemma {:induction false} QueryRoundTrip(ps: seq<Pair>)
    ensures QueryPairs(Join(ps)) == ps
    decreases |ps|
  {
    if ps != [] {
      var s, e := Join(ps), EncodePair(ps[0]);
      PairRoundTrip(ps[0]);
      hide EncodePair, PairOf;
      if |ps| == 1 {
        FindCharSpec(s, 0, AMP);
        assert s[0..] == e && e != [] by { EncodePairIsNotEmpty(ps[0]); }
        assert Tokens(s, AMP) == [e];
        assert PairsOf([e][1..]) == [] && ps == [ps[0]];
      } else {
        assert forall j :: 0 <= j < |e| ==> s[j] == e[j];
        FindCharIs(s, 0, AMP, |e|);
        assert s[..|e|] == e && s[|e| + 1..] == Join(ps[1..]);
        EncodePairIsNotEmpty(ps[0]);
        QueryRoundTrip(ps[1..]);
      }
    }
  }

  lemma EncodePairIsNotEmpty(p: Pair)
    ensures EncodePair(p) != []
  {
  }

  // ---------------------------------------------------------------- any spelling

  /** What may stand between two '&': nothing, a name, or a name, '=' and a value, in any spelling. */
  datatype Piece = Nothing | Bare(name: seq<seq<byte>>) | Named(name: seq<seq<byte>>, value: seq<seq<byte>>)

  function PieceText(p: Piece): seq<byte> {
    match p
    case Nothing => []
    case Bare(name) => Flatten(name)
    case Named(name, value) => Flatten(name) + [61] + Flatten(value)
  }

  /** The piece stands for these pairs: none, or one. */
  ghost predicate Means(p: Piece, ps: seq<Pair>) {
    && 38 !in PieceText(p)
    && match p
       case Nothing => ps == []
       case Bare(name) =>
         PieceText(p) != [] && 61 !in PieceText(p) && |ps| == 1 && Spelling(name, ps[0].name) && ps[0].value == []
       case Named(name, value) =>
         61 !in Flatten(name) && |ps| == 1 && Spelling(name, ps[0].name) && Spelling(value, ps[0].value)
  }

  function JoinPieces(pieces: seq<Piece>): seq<byte> {
    if pieces == [] then []
    else if |pieces| == 1 then PieceText(pieces[0])
    else PieceText(pieces[0]) + [38] + JoinPieces(pieces[1..])
  }

  function AllPairs(meanings: seq<seq<Pair>>): seq<Pair> {
    if meanings == [] then [] else meanings[0] + AllPairs(meanings[1..])
  }

  /** A query string gives exactly the names and values its pieces spell, in order. */
  lemma {:induction false} QuerySpelling(pieces: seq<Piece>, meanings: seq<seq<Pair>>)
    requires |pieces| == |meanings| && forall i :: 0 <= i < |pieces| ==> Means(pieces[i], meanings[i])
    ensures QueryPairs(JoinPieces(pieces)) == AllPairs(meanings)
    decreases |pieces|
  {
    if pieces != [] {
      var t, rest := PieceText(pieces[0]), pieces[1..];
      PieceMeans(pieces[0], meanings[0]);
      assert 38 !in t;
      hide Means, PieceText, PairsOf, Tokens;
      QuerySpelling(rest, meanings[1..]);
      if |pieces| == 1 {
        LastToken(t);
        assert AllPairs(meanings[1..]) == [] && meanings[0] + [] == meanings[0];
      } else {
        FirstToken(t, JoinPieces(rest));
      }
    }
  }

  /** What one token gives: nothing when it is empty. */
  function TokenPairs(t: seq<byte>): seq<Pair> { if t == [] then [] else [PairOf(t)] }

  lemma PieceMeans(p: Piece, ps: seq<Pair>)
    requires Means(p, ps)
    ensures TokenPairs(PieceText(p)) == ps
  {
    var t := PieceText(p);
    match p
    case Nothing =>
    case Bare(name) =>
      FindCharSpec(t, 0, 61);
      assert t[0..] == t;
      SpellingDecodes(name, ps[0].name);
      hide Spelling, Flatten, Decode;
      assert ps == [ps[0]];
    case Named(name, value) =>
      var n := Flatten(name);
      assert forall j :: 0 <= j < |n| ==> t[j] == n[j];
      FindCharIs(t, 0, 61, |n|);
      assert t[..|n|] == n && t[|n| + 1..] == Flatten(value);
      SpellingDecodes(name, ps[0].name);
      SpellingDecodes(value, ps[0].value);
      hide Spelling, Flatten, Decode;
      assert ps == [ps[0]];
  }

  lemma SpellingDecodes(ts: seq<seq<byte>>, s: seq<byte>)
    requires Spelling(ts, s)
    ensures Decode(Flatten(ts)) == s
  {
    DecodeSpelling(ts, s, []);
    assert Flatten(ts) + [] == Flatten(ts) && s + [] == s;
  }

  lemma LastToken(t: seq<byte>)
    requires 38 !in t
    ensures QueryPairs(t) == TokenPairs(t)
  {
    hide PairOf;
    FindCharSpec(t, 0, 38);
    assert t[0..] == t;
    if t != [] { assert Tokens(t, 38) == [t] && PairsOf([t][1..]) == []; }
  }

  lemma FirstToken(t: seq<byte>, rest: seq<byte>)
    requires 38 !in t
    ensures QueryPairs(t + [38] + rest) == TokenPairs(t) + QueryPairs(rest)
  {
    hide PairOf;
    var s := t + [38] + rest;
    assert forall j :: 0 <= j < |t| ==> s[j] == t[j];
    FindCharIs(s, 0, 38, |t|);
    assert s[..|t|] == t && s[|t| + 1..] == rest;
    assert ([t] + Tokens(rest, 38))[1..] == Tokens(rest, 38);
  }

  // ---------------------------------------------------------------- the tokenizer

  /** A cursor over a text; `s` is None when the last piece has been read up to the end. */
  class Split {
    const text: seq<byte>
    const delim: byte
    var s: Option<nat>
    var value: seq<byte>

    ghost predicate Valid()
      reads this
    {
      s.Some? ==> s.value <= |text|
    }

    ghost function Remaining(): seq<seq<byte>>
      requires Valid()
      reads this
    {
      if s.None? then [] else Tokens(text[s.value..], delim)
    }

    constructor (text: seq<byte>, delim: byte)
      ensures Valid() && Remaining() == Tokens(text, delim)
    {
      this.text, this.delim := text, delim;
      s, value := Some(0), [];
      new;
      assert text[0..] == text;
    }

    /** Read the next piece into `value`, if there is one. */
    method Read() returns (ok: bool)
      requires Valid()
      modifies this
      ensures Valid() && ok == (old(Remaining()) != [])
      ensures ok ==> value == old(Remaining())[0] && Remaining() == old(Remaining())[1..]
      ensures !ok ==> Remaining() == []
    {
      if s.None? || s.value == |text| { return false; }
      var s1 := s.value;
      var rest := text[s1..];
      match FindChar(rest, 0, delim) {
        case None =>
          s, value := None, rest;
        case Some(i) =>
          value := rest[..i];
          s := Some(s1 + i + 1);
          assert text[s1 + i + 1..] == rest[i + 1..];
      }
      return true;
    }
  }

  // ---------------------------------------------------------------- the parser

  /** Where a decoded name and value lie in the output buffer; (-1, -1) for a value that is not there. */
  datatype Indices = Indices(nS: int, nE: int, vS: int, vE: int)

  function View(buffer: seq<byte>, s: int, e: int): seq<byte> {
    if 0 <= s <= e <= |buffer| then buffer[s..e] else []
  }

  predicate Within(q: Indices, len: nat) {
    0 <= q.nS <= q.nE <= len && ((q.vS == -1 && q.vE == -1) || 0 <= q.vS <= q.vE <= len)
  }

  /** The names and values as the connection handler reads them through the indices. */
  function ReadPairs(buffer: seq<byte>, qs: seq<Indices>): seq<Pair> {
    if qs == [] then []
    else
      var q := qs[|qs| - 1];
      ReadPairs(buffer, qs[..|qs| - 1]) + [Pair(View(buffer, q.nS, q.nE), View(buffer, q.vS, q.vE))]
  }

  predicate AllWithin(qs: seq<Indices>, len: nat) { forall q :: q in qs ==> Within(q, len) }

  /** What is appended to the buffer later does not change what the indices show. */
  lemma {:induction false} ReadPairsGrows(buffer: seq<byte>, more: seq<byte>, qs: seq<Indices>)
    requires AllWithin(qs, |buffer|)
    ensures ReadPairs(buffer + more, qs) == ReadPairs(buffer, qs) && AllWithin(qs, |buffer + more|)
    decreases |qs|
  {
    if qs != [] {
      var q := qs[|qs| - 1];
      assert q in qs && forall p :: p in qs[..|qs| - 1] ==> p in qs;
      ReadPairsGrows(buffer, more, qs[..|qs| - 1]);
      SliceGrows(buffer, more, q.nS, q.nE);
      if q.vS != -1 { SliceGrows(buffer, more, q.vS, q.vE); }
    }
  }

  lemma ReadPairsAppend(buffer: seq<byte>, qs: seq<Indices>, q: Indices)
    ensures ReadPairs(buffer, qs + [q])
         == ReadPairs(buffer, qs) + [Pair(View(buffer, q.nS, q.nE), View(buffer, q.vS, q.vE))]
  {
    assert (qs + [q])[..|qs|] == qs;
  }

  /** Decode one token behind what the buffer holds and say where its parts are. */
  method ParsePair(token: seq<byte>, out: StringBuilder) returns (q: Indices)
    requires out.Valid()
    modifies out, out.data
    ensures out.Valid() && old(out.Contents()) <= out.Contents() && Within(q, out.len)
    ensures Pair(View(out.Contents(), q.nS, q.nE), View(out.Contents(), q.vS, q.vE)) == PairOf(token)
    ensures out.data == old(out.data) || fresh(out.data)
  {
    hide Decode;
    var nS := out.len;
    match FindChar(token, 0, EQUALS)
    case None =>
      var n := UrlDecode(token, out);
      q := Indices(nS, out.len, -1, -1);
    case Some(i) =>
      ghost var before := out.Contents();
      var n := UrlDecode(token[..i], out);
      var nE := out.len;
      ghost var middle := out.Contents();
      var v := UrlDecode(token[i + 1..], out);
      SliceGrows(middle, Decode(token[i + 1..]), nS, nE);
      q := Indices(nS, nE, nE, out.len);
  }

  /** Parse a query string: the decoded names and values are appended to `out`, whatever it holds, and found
      through the indices appended to `indices`; what was found through the old ones stays. */
  method ParseQueryString(input: seq<byte>, out: StringBuilder, indices: seq<Indices>)
    returns (count: nat, indices': seq<Indices>)
    requires out.Valid() && AllWithin(indices, out.len)
    modifies out, out.data
    ensures out.Valid() && old(out.Contents()) <= out.Contents() && AllWithin(indices', out.len)
    ensures ReadPairs(out.Contents(), indices') == ReadPairs(old(out.Contents()), indices) + QueryPairs(input)
    ensures indices <= indices' && |indices'| == |indices| + count
    ensures out.data == old(out.data) || fresh(out.data)
  {
    hide *;
    var spl := new Split(input, AMP);
    count, indices' := 0, indices;
    ghost var start, tokens := out.Contents(), Tokens(input, AMP);
    NoneParsed(start, indices, input);
    var more := spl.Read();
    while more
      invariant spl.Valid() && fresh(spl) && out.Valid()
      invariant out.data == old(out.data) || fresh(out.data)
      invariant Parsed(start, indices, input, out.Contents(), indices', count, tokens)
      invariant tokens == if more then [spl.value] + spl.Remaining() else []
      decreases |tokens|
    {
      var n;
      ghost var s, before := out.Contents(), indices';
      ParsedParts(start, indices, input, s, before, count, tokens);
      indices', n := TakeToken(spl.value, out, indices', tokens);
      MoreParsed(start, indices, input, s, before, count, tokens, out.Contents(), indices', n);
      count, tokens := count + n, tokens[1..];
      more := spl.Read();
    }
    ParsedParts(start, indices, input, out.Contents(), indices', count, tokens);
    NextToken(ReadPairs(out.Contents(), indices'), []);
  }

  /** What has been parsed of the input, with these tokens to come, on top of what the buffer and the indices held. */
  ghost predicate Parsed(start: seq<byte>, indices: seq<Indices>, input: seq<byte>, s: seq<byte>, found: seq<Indices>,
                         count: nat, tokens: seq<seq<byte>>)
  {
    && start <= s && AllWithin(found, |s|) && indices <= found && |found| == |indices| + count
    && ReadPairs(start, indices) + QueryPairs(input) == ReadPairs(s, found) + PairsOf(tokens)
  }

  lemma NoneParsed(start: seq<byte>, indices: seq<Indices>, input: seq<byte>)
    requires AllWithin(indices, |start|)
    ensures Parsed(start, indices, input, start, indices, 0, Tokens(input, AMP))
  {
    hide ReadPairs, PairsOf, Tokens, AllWithin;
  }

  lemma ParsedParts(start: seq<byte>, indices: seq<Indices>, input: seq<byte>, s: seq<byte>, found: seq<Indices>,
                    count: nat, tokens: seq<seq<byte>>)
    requires Parsed(start, indices, input, s, found, count, tokens)
    ensures start <= s && AllWithin(found, |s|) && indices <= found && |found| == |indices| + count
    ensures ReadPairs(start, indices) + QueryPairs(input) == ReadPairs(s, found) + PairsOf(tokens)
  {
    hide ReadPairs, PairsOf, QueryPairs, AllWithin;
  }

  lemma MoreParsed(start: seq<byte>, indices: seq<Indices>, input: seq<byte>, s: seq<byte>, found: seq<Indices>,
                   count: nat, tokens: seq<seq<byte>>, s': seq<byte>, found': seq<Indices>, n: nat)
    requires Parsed(start, indices, input, s, found, count, tokens) && tokens != []
    requires s <= s' && AllWithin(found', |s'|) && found <= found' && |found'| == |found| + n
    requires ReadPairs(s', found') + PairsOf(tokens[1..]) == ReadPairs(s, found) + PairsOf(tokens)
    ensures Parsed(start, indices, input, s', found', count + n, tokens[1..])
  {
    hide ReadPairs, PairsOf, QueryPairs, AllWithin;
  }

  /** One round of the loop: an empty token adds nothing. */
  method TakeToken(token: seq<byte>, out: StringBuilder, indices: seq<Indices>, ghost tokens: seq<seq<byte>>)
    returns (indices': seq<Indices>, n: nat)
    requires out.Valid() && AllWithin(indices, out.len) && tokens != [] && tokens[0] == token
    modifies out, out.data
    ensures out.Valid() && old(out.Contents()) <= out.Contents() && AllWithin(indices', out.len)
    ensures ReadPairs(out.Contents(), indices') + PairsOf(tokens[1..])
         == ReadPairs(old(out.Contents()), indices) + PairsOf(tokens)
    ensures indices <= indices' && |indices'| == |indices| + n
    ensures out.data == old(out.data) || fresh(out.data)
  {
    hide *;
    NextToken(ReadPairs(out.Contents(), indices), tokens);
    indices', n := indices, 0;
    if |token| != 0 {
      indices' := AppendToken(token, out, indices);
      n := 1;
    }
  }

  lemma NextToken(found: seq<Pair>, tokens: seq<seq<byte>>)
    ensures tokens == [] ==> found + PairsOf(tokens) == found
    ensures tokens != [] ==>
              found + PairsOf(tokens)
              == (if tokens[0] == [] then found else found + [PairOf(tokens[0])]) + PairsOf(tokens[1..])
  {
  }

  /** One token that is not empty: its pair is the next one to be found through the indices. */
  method AppendToken(token: seq<byte>, out: StringBuilder, indices: seq<Indices>) returns (indices': seq<Indices>)
    requires out.Valid() && AllWithin(indices, out.len)
    modifies out, out.data
    ensures out.Valid() && old(out.Contents()) <= out.Contents() && AllWithin(indices', out.len)
    ensures ReadPairs(out.Contents(), indices') == ReadPairs(old(out.Contents()), indices) + [PairOf(token)]
    ensures indices <= indices' && |indices'| == |indices| + 1
    ensures out.data == old(out.data) || fresh(out.data)
  {
    hide PairOf, Within, View;
    ghost var buffer := out.Contents();
    var q := ParsePair(token, out);
    ReadPairsGrows(buffer, out.Contents()[|buffer|..], indices);
    assert buffer + out.Contents()[|buffer|..] == out.Contents();
    ReadPairsAppend(out.Contents(), indices, q);
    indices' := indices + [q];
  }
}
