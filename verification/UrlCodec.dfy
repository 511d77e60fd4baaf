/** Percent-encoding of section 2.1 of RFC 3986 as the library writes and reads it. */
module UrlCodec {
  import opened Bytes
  import opened Bits
  import opened StringBuilder

  const PERCENT: byte := 37
  const PLUS: byte := 43

  /** Whether char is signed is up to the C++ implementation: this constant has no value here, so every law below holds
      for both kinds. */
  const CHAR_IS_SIGNED: bool

  // ---------------------------------------------------------------- hexadecimal digits

  /** The value of a digit; any other byte gives what the subtraction leaves in eight bits. */
  function HexCharToInt(ch: byte): byte {
    if ch <= 57 || (CHAR_IS_SIGNED && ch >= 128) then (ch - 48) % 256
    else if ch <= 90 then (ch - 65 + 10) % 256
    else (ch - 97 + 10) % 256
  }

  function IntToHexChar(i: byte): byte {
    if i < 10 || (CHAR_IS_SIGNED && i >= 128) then (i + 48) % 256 else (i - 10 + 65) % 256
  }

  /** c >> 4, which keeps the sign. */
  function HighHalf(b: byte): byte { if CHAR_IS_SIGNED && b >= 128 then b / 16 + 240 else b / 16 }

  /** hi << 4 | lo, stored into eight bits. */
  function HexByte(hi: byte, lo: byte): byte {
    Or(HexCharToInt(hi) * 16, HexCharToInt(lo), 12) % 256
  }

  lemma HexRoundTrip(b: byte)
    ensures HexByte(IntToHexChar(HighHalf(b)), IntToHexChar(b % 16)) == b
  {
    hide Or, HexCharToInt, IntToHexChar;
    var hi, lo := HighHalf(b), b % 16;
    DigitRoundTrip(hi);
    DigitRoundTrip(lo);
    Nibbles(hi, lo);
  }

  lemma DigitRoundTrip(i: byte)
    requires i < 16 || (CHAR_IS_SIGNED && i >= 248)
    ensures HexCharToInt(IntToHexChar(i)) == i
  {
  }

  lemma Nibbles(hi: nat, lo: nat)
    requires hi < 256 && lo < 16
    ensures Or(hi * 16, lo, 12) == hi * 16 + lo
  {
    assert Pow2(4) == 16;
    assert Pow2(8) == 16 * Pow2(4);
    OrIsSum(hi, lo, 4, 12);
  }

  // ---------------------------------------------------------------- specification

  function PlusToSpace(b: byte): byte { if b == PLUS then SPACE else b }

  function Plain(s: seq<byte>): (r: seq<byte>)
    ensures |r| == |s|
  {
    if s == [] then [] else [PlusToSpace(s[0])] + Plain(s[1..])
  }

  /** Byte by byte: '+' is a space, '%' and the two bytes behind it one byte; a '%' too close to the end stands
      for itself, and so does what follows it. */
  function Decode(s: seq<byte>): (r: seq<byte>)
    ensures |r| <= |s|
  {
    if s == [] then []
    else if s[0] != PERCENT then [PlusToSpace(s[0])] + Decode(s[1..])
    else if |s| <= 2 then Plain(s)
    else [HexByte(s[1], s[2])] + Decode(s[3..])
  }

  /** The bytes urlEncode leaves alone: digits, letters, and ~ ! * ( ) '. */
  predicate Unreserved(b: byte) {
    48 <= b <= 57 || 65 <= b <= 90 || 97 <= b <= 122
    || b == 126 || b == 33 || b == 42 || b == 40 || b == 41 || b == 39
  }

  function EncodeByte(b: byte): seq<byte> {
    if Unreserved(b) then [b] else [PERCENT, IntToHexChar(HighHalf(b)), IntToHexChar(b % 16)]
  }

  function Encode(s: seq<byte>): seq<byte> {
    if s == [] then [] else Encode(s[..|s| - 1]) + EncodeByte(s[|s| - 1])
  }

  // ---------------------------------------------------------------- laws

  lemma {:induction false} EncodeConcat(s: seq<byte>, t: seq<byte>)
    ensures Encode(s + t) == Encode(s) + Encode(t)
    decreases |t|
  {
    if t == [] {
      assert s + t == s;
    } else {
      var n := |t| - 1;
      assert (s + t)[..|s + t| - 1] == s + t[..n];
      EncodeConcat(s, t[..n]);
    }
  }

  /** Decoding undoes encoding, on every byte string. */
  lemma {:induction false} DecodeEncode(s: seq<byte>)
    ensures Decode(Encode(s)) == s
    decreases |s|
  {
    if s != [] {
      var b := s[0];
      assert s == [b] + s[1..];
      EncodeConcat([b], s[1..]);
      assert [b][..0] == [] && Encode([b]) == EncodeByte(b);
      hide *;
      DecodeEncode(s[1..]);
      DecodeFirst(b, Encode(s[1..]));
    }
  }

  lemma DecodeFirst(b: byte, rest: seq<byte>)
    ensures Decode(EncodeByte(b) + rest) == [b] + Decode(rest)
  {
    HexRoundTrip(b);
    hide HexByte, IntToHexChar;
    assert (EncodeByte(b) + rest)[|EncodeByte(b)|..] == rest;
  }

  /** Where char is signed, a byte c from 128 on is escaped with c / 16 + 32 in place of its first digit. */
  predicate Strays(s: seq<byte>, b: byte) {
    CHAR_IS_SIGNED && exists c :: c in s && c >= 128 && b == c / 16 + 32
  }

  /** An encoded string holds no reserved byte but the percent sign, exactly when no such byte strays into it; those are
      among ( ) * + , - . / and never the separators of a query string. */
  lemma {:induction false} EncodeHasNoSeparator(s: seq<byte>, b: byte)
    requires !Unreserved(b) && b != PERCENT
    ensures b !in Encode(s) <==> !Strays(s, b)
    ensures b < 40 || b > 47 ==> b !in Encode(s)
    decreases |s|
  {
    if s != [] {
      var c, before := s[|s| - 1], s[..|s| - 1];
      EncodeHasNoSeparator(before, b);
      EncodedByteHas(c, b);
      StraysAppend(before, c, b);
      assert s == before + [c];
      assert Encode(s) == Encode(before) + EncodeByte(c);
      hide *;
    }
  }

  lemma EncodedByteHas(c: byte, b: byte)
    requires !Unreserved(b) && b != PERCENT
    ensures b in EncodeByte(c) <==> CHAR_IS_SIGNED && c >= 128 && b == c / 16 + 32
    ensures CHAR_IS_SIGNED && c >= 128 && b == c / 16 + 32 ==> 40 <= b <= 47
  {
    EncodeByteIs(c);
    UpperDigitIs(c % 16);
    if c < 128 || !CHAR_IS_SIGNED { UpperDigitIs(c / 16); }
    hide EncodeByte, IntToHexChar, UPPER_DIGITS;
  }

  lemma UpperDigitIs(i: nat)
    requires i < 16
    ensures UPPER_DIGITS[i] == IntToHexChar(i) == if i < 10 then 48 + i else 55 + i
  {
  }

  lemma StraysAppend(s: seq<byte>, c: byte, b: byte)
    ensures Strays(s + [c], b) <==> Strays(s, b) || (CHAR_IS_SIGNED && c >= 128 && b == c / 16 + 32)
  {
    assert forall x :: x in s + [c] <==> x in s || x == c;
    if CHAR_IS_SIGNED && c >= 128 && b == c / 16 + 32 { assert c in s + [c]; }
  }

  /** Every byte grows to one or to three. */
  lemma {:induction false} EncodeLength(s: seq<byte>)
    ensures |Encode(s)| == |s| + 2 * Escaped(s)
    decreases |s|
  {
    if s != [] { EncodeLength(s[..|s| - 1]); }
  }

  function Escaped(s: seq<byte>): nat {
    if s == [] then 0 else Escaped(s[..|s| - 1]) + if Unreserved(s[|s| - 1]) then 0 else 1
  }

  // ---------------------------------------------------------------- any spelling

  /** The digits of 0 to 15, in upper and in lower case. */
  const UPPER_DIGITS: seq<byte> := [48, 49, 50, 51, 52, 53, 54, 55, 56, 57, 65, 66, 67, 68, 69, 70]
  const LOWER_DIGITS: seq<byte> := [48, 49, 50, 51, 52, 53, 54, 55, 56, 57, 97, 98, 99, 100, 101, 102]

  /** The ways to write a byte: as it is, a space as '+', any byte as '%' and two digits. */
  predicate Spells(t: seq<byte>, b: byte) {
    || (t == [b] && b != 37 && b != 43)
    || (t == [43] && b == 32)
    || (|t| == 3 && t[0] == 37 && t[1] in [UPPER_DIGITS[b / 16], LOWER_DIGITS[b / 16]]
        && t[2] in [UPPER_DIGITS[b % 16], LOWER_DIGITS[b % 16]])
  }

  ghost predicate Spelling(ts: seq<seq<byte>>, s: seq<byte>) {
    |ts| == |s| && forall i :: 0 <= i < |s| ==> Spells(ts[i], s[i])
  }

  /** Decoding reads every spelling of every byte; a last '%' with fewer than two bytes behind it stays. */
  lemma {:induction false} DecodeSpelling(ts: seq<seq<byte>>, s: seq<byte>, tail: seq<byte>)
    requires Spelling(ts, s) && |tail| <= 2 && (tail == [] || tail[0] == 37)
    ensures Decode(Flatten(ts) + tail) == s + if |tail| == 2 && tail[1] == 43 then [37, 32] else tail
    decreases |ts|
  {
    if ts == [] {
      assert Flatten(ts) + tail == tail;
      DecodeTail(tail);
    } else {
      FirstSpelled(ts, s);
      hide *;
      DecodeSpelling(ts[1..], s[1..], tail);
      DecodeSpelled(ts[0], s[0], Flatten(ts[1..]) + tail);
      Associative(ts[0], Flatten(ts[1..]), tail);
      Associative([s[0]], s[1..], if |tail| == 2 && tail[1] == 43 then [37, 32] else tail);
      assert s == [s[0]] + s[1..];
    }
  }

  lemma FirstSpelled(ts: seq<seq<byte>>, s: seq<byte>)
    requires Spelling(ts, s) && ts != []
    ensures s != [] && Spells(ts[0], s[0]) && Spelling(ts[1..], s[1..]) && Flatten(ts) == ts[0] + Flatten(ts[1..])
  {
    hide Spells;
  }

  lemma DecodeTail(tail: seq<byte>)
    requires |tail| <= 2 && (tail == [] || tail[0] == 37)
    ensures Decode(tail) == if |tail| == 2 && tail[1] == 43 then [37, 32] else tail
  {
    if |tail| == 2 {
      assert tail[1..][1..] == [] && Plain([]) == [];
      assert Plain(tail) == [37] + Plain(tail[1..]);
    }
  }

  lemma DecodeSpelled(t: seq<byte>, b: byte, rest: seq<byte>)
    requires Spells(t, b)
    ensures Decode(t + rest) == [b] + Decode(rest)
  {
    if |t| == 3 { EscapeSpelled(t[1], t[2], b); }
    hide HexByte, UPPER_DIGITS, LOWER_DIGITS;
    assert (t + rest)[|t|..] == rest;
  }

  lemma EscapeSpelled(d: byte, e: byte, b: byte)
    requires d in [UPPER_DIGITS[b / 16], LOWER_DIGITS[b / 16]] && e in [UPPER_DIGITS[b % 16], LOWER_DIGITS[b % 16]]
    ensures HexByte(d, e) == b
  {
    SpelledDigit(d, b / 16);
    SpelledDigit(e, b % 16);
    hide *;
    HexByteIs(d, e);
  }

  lemma HexByteIs(d: byte, e: byte)
    requires HexCharToInt(d) < 16 && HexCharToInt(e) < 16
    ensures HexByte(d, e) == HexCharToInt(d) * 16 + HexCharToInt(e)
  {
    hide Or, HexCharToInt, Pow2;
    var hi, lo := HexCharToInt(d), HexCharToInt(e);
    Nibbles(hi, lo);
    assert HexByte(d, e) == Or(hi * 16, lo, 12) % 256;
    hide HexByte;
  }

  lemma SpelledDigit(d: byte, i: nat)
    requires i < 16 && d in [UPPER_DIGITS[i], LOWER_DIGITS[i]]
    ensures HexCharToInt(d) == i
  {
  }

  /** What an encoding looks like: letters, digits and ~ ! * ( ) ' as they are, every other byte as '%' and two
      upper-case digits, except that where char is signed the first digit of a byte from 128 on is the stray one. */
  lemma EncodeByteIs(b: byte)
    ensures var bare := 48 <= b <= 57 || 65 <= b <= 90 || 97 <= b <= 122 || b in [126, 33, 42, 40, 41, 39];
            var high := if CHAR_IS_SIGNED && b >= 128 then b / 16 + 32 else UPPER_DIGITS[b / 16];
            EncodeByte(b) == if bare then [b] else [37, high, UPPER_DIGITS[b % 16]]
  {
    UpperDigitIs(b % 16);
    UpperDigitIs(b / 16);
    hide UPPER_DIGITS;
    if CHAR_IS_SIGNED && b >= 128 {
      assert IntToHexChar(HighHalf(b)) == b / 16 + 32;
    } else {
      assert HighHalf(b) == b / 16;
    }
    hide IntToHexChar, HighHalf;
  }

  lemma {:induction false} DecodePlainPrefix(s: seq<byte>, n: nat)
    requires n <= |s| && PERCENT !in s[..n]
    ensures Decode(s) == Plain(s[..n]) + Decode(s[n..])
    decreases n
  {
    if n > 0 {
      assert s[0] == s[..n][0];
      assert s[1..][..n - 1] == s[..n][1..] && s[1..][n - 1..] == s[n..];
      DecodePlainPrefix(s[1..], n - 1);
    }
  }

  // ---------------------------------------------------------------- the loops

  /** `was` with the bytes `s` written over it at `at`. */
  ghost function Over(was: seq<byte>, at: nat, s: seq<byte>): seq<byte>
    requires at + |s| <= |was|
  {
    was[..at] + s + was[at + |s|..]
  }

  lemma OverTwice(was: seq<byte>, at: nat, s: seq<byte>, t: seq<byte>)
    requires at + |s| + |t| <= |was|
    ensures Over(Over(was, at, s), at + |s|, t) == Over(was, at, s + t)
  {
  }

  /** Copy `src` to out[at..], turning each '+' into a space. */
  method CopyPlain(src: seq<byte>, out: array<byte>, at: nat)
    requires at + |src| <= out.Length
    modifies out
    ensures out[..] == Over(old(out[..]), at, Plain(src))
  {
    ghost var was, all := out[..], Plain(src);
    PlainAt(src);
    for i := 0 to |src|
      invariant forall j :: 0 <= j < i ==> out[at + j] == PlusToSpace(src[j])
      invariant forall j :: 0 <= j < out.Length && !(at <= j < at + i) ==> out[j] == was[j]
    {
      out[at + i] := if src[i] == PLUS then SPACE else src[i];
    }
    assert out[at..at + |src|] == all;
    assert out[..] == out[..at] + out[at..at + |src|] + out[at + |src|..];
  }

  lemma {:induction false} PlainAt(s: seq<byte>)
    ensures forall i :: 0 <= i < |s| ==> Plain(s)[i] == PlusToSpace(s[i])
  {
    if s != [] {
      PlainAt(s[1..]);
      forall i | 0 < i < |s| ensures Plain(s)[i] == PlusToSpace(s[i]) {
        assert Plain(s)[i] == Plain(s[1..])[i - 1] && s[1..][i - 1] == s[i];
      }
    }
  }

  /** Decoding up to the next '%', and at it. */
  lemma NextEscape(s: seq<byte>)
    ensures match FindChar(s, 0, PERCENT)
            case None => Decode(s) == Plain(s)
            case Some(k) => s[k] == PERCENT && Decode(s) == Plain(s[..k]) + Decode(s[k..])
  {
    hide Decode, Plain;
    FindCharSpec(s, 0, PERCENT);
    match FindChar(s, 0, PERCENT)
    case None =>
      assert s[..|s|] == s && s[|s|..] == [] && s[0..] == s;
      DecodePlainPrefix(s, |s|);
      DecodeEmpty();
    case Some(k) =>
      assert s[0..k] == s[..k];
      DecodePlainPrefix(s, k);
  }

  lemma DecodeEmpty()
    ensures Decode([]) == []
  {
  }

  lemma DecodeAtPercent(t: seq<byte>)
    requires t != [] && t[0] == PERCENT
    ensures Decode(t) == if |t| <= 2 then Plain(t) else [HexByte(t[1], t[2])] + Decode(t[3..])
  {
  }

  /** Write the plain bytes `src` behind what is already written. */
  method WritePlain(src: seq<byte>, out: array<byte>, c: nat, ghost was: seq<byte>, ghost at: nat,
                    ghost done: seq<byte>)
    returns (c': nat)
    requires |was| == out.Length && at + |done| + |src| <= |was| && c == at + |done|
    requires out[..] == Over(was, at, done)
    modifies out
    ensures c' == at + |done| + |src| && out[..] == Over(was, at, done + Plain(src))
  {
    CopyPlain(src, out, c);
    OverTwice(was, at, done, Plain(src));
    c' := c + |src|;
  }

  /** One round of the loop: everything before the next '%' as it is, then the escape. */
  method DecodeRound(rest: seq<byte>, out: array<byte>, c: nat, ghost was: seq<byte>, ghost at: nat,
                     ghost done: seq<byte>)
    returns (used: nat, c': nat, ghost piece: seq<byte>)
    requires rest != []
    requires |was| == out.Length && at + |done| + |rest| <= |was| && c == at + |done|
    requires out[..] == Over(was, at, done)
    modifies out
    ensures 0 < used <= |rest| && |piece| <= used && c' == c + |piece|
    ensures Decode(rest) == piece + Decode(rest[used..])
    ensures out[..] == Over(was, at, done + piece)
  {
    hide Decode, Plain, HexByte, Over;
    NextEscape(rest);
    DecodeEmpty();
    match FindChar(rest, 0, PERCENT)
    case None =>
      c' := WritePlain(rest, out, c, was, at, done);
      used, piece := |rest|, Plain(rest);
    case Some(k) =>
      var tail := rest[k..];
      DecodeAtPercent(tail);
      c' := WritePlain(rest[..k], out, c, was, at, done);
      piece := Plain(rest[..k]);
      if |tail| <= 2 {
        c' := WritePlain(tail, out, c', was, at, done + piece);
        assert done + piece + Plain(tail) == done + (piece + Plain(tail));
        used, piece := |rest|, piece + Plain(tail);
      } else {
        var b := HexByte(tail[1], tail[2]);
        WriteByte(b, out, c', was, at, done + piece);
        c' := c' + 1;
        assert done + piece + [b] == done + (piece + [b]);
        assert tail[3..] == rest[k + 3..];
        used, piece := k + 3, piece + [b];
      }
  }

  method WriteByte(b: byte, out: array<byte>, c: nat, ghost was: seq<byte>, ghost at: nat, ghost done: seq<byte>)
    requires |was| == out.Length && at + |done| < |was| && c == at + |done|
    requires out[..] == Over(was, at, done)
    modifies out
    ensures out[..] == Over(was, at, done + [b])
  {
    out[c] := b;
  }

  /** Decode into out[at..]; nothing outside the bytes written changes, and they are no more than the input has. */
  method DoURLDecode(input: seq<byte>, out: array<byte>, at: nat) returns (n: nat)
    requires at + |input| <= out.Length
    modifies out
    ensures n == |Decode(input)| <= |input|
    ensures out[..] == Over(old(out[..]), at, Decode(input))
  {
    hide Decode;
    ghost var was, done := out[..], [];
    var c, ptr := at, 0;
    assert input[0..] == input;
    while ptr < |input|
      invariant 0 <= ptr <= |input| && c == at + |done| && |done| <= ptr
      invariant Decode(input) == done + Decode(input[ptr..])
      invariant out[..] == Over(was, at, done)
      decreases |input| - ptr
    {
      var used;
      ghost var piece;
      used, c, piece := DecodeRound(input[ptr..], out, c, was, at, done);
      assert input[ptr..][used..] == input[ptr + used..];
      ptr, done := ptr + used, done + piece;
    }
    DecodeEmpty();
    n := c - at;
  }

  /** Append the decoded input to `out`; returns how many bytes that is. */
  method UrlDecode(input: seq<byte>, out: StringBuilder) returns (n: nat)
    requires out.Valid()
    modifies out, out.data
    ensures out.Valid() && out.Contents() == old(out.Contents()) + Decode(input)
    ensures n == |Decode(input)|
    ensures out.data == old(out.data) || fresh(out.data)
  {
    hide Decode;
    var oldLen := out.len;
    out.Resize(oldLen + |input|);
    assert out.data[..oldLen] == out.Contents()[..oldLen];
    n := DoURLDecode(input, out.data, oldLen);
    assert out.data[..][..oldLen + n] == old(out.Contents()) + Decode(input);
    out.Resize(oldLen + n);
  }

  predicate AllUnreserved(s: seq<byte>) { forall b :: b in s ==> Unreserved(b) }

  lemma {:induction false} EncodeUnreserved(s: seq<byte>)
    requires AllUnreserved(s)
    ensures Encode(s) == s
    decreases |s|
  {
    if s != [] {
      var n := |s| - 1;
      assert Encode(s) == Encode(s[..n]) + EncodeByte(s[n]);
      hide *;
      LastUnreserved(s);
      EncodeUnreserved(s[..n]);
      assert s == s[..n] + [s[n]];
    }
  }

  lemma LastUnreserved(s: seq<byte>)
    requires s != [] && AllUnreserved(s)
    ensures AllUnreserved(s[..|s| - 1]) && EncodeByte(s[|s| - 1]) == [s[|s| - 1]]
  {
    hide IntToHexChar;
    assert s[|s| - 1] in s;
    hide Unreserved;
    forall b | b in s[..|s| - 1] ensures Unreserved(b) {
      assert b in s;
    }
  }

  /** Append the encoded input to `out`: runs of unreserved bytes as they are, every other byte as an escape. */
  method UrlEncode(input: seq<byte>, out: StringBuilder) returns (n: nat)
    requires out.Valid()
    modifies out, out.data
    ensures out.Valid() && out.Contents() == old(out.Contents()) + Encode(input)
    ensures n == |Encode(input)|
    ensures out.data == old(out.data) || fresh(out.data)
  {
    hide Encode, Escaped, AllUnreserved;
    var last, extra := 0, 0;
    ghost var before := out.Contents();
    EncodeStep([], 0);
    NoneReserved(input, 0);
    for i := 0 to |input|
      invariant 0 <= last <= i && AllUnreserved(input[last..i])
      invariant out.Valid() && out.Contents() == before + Encode(input[..last])
      invariant extra == 2 * Escaped(input[..i])
      invariant out.data == old(out.data) || fresh(out.data)
    {
      EncodeStep(input, i);
      if Unreserved(input[i]) {
        OneMoreUnreserved(input, last, i);
        continue;
      }
      AppendRun(input, last, i, out, before);
      last := i + 1;
      out.Append([PERCENT, IntToHexChar(HighHalf(input[i])), IntToHexChar(input[i] % 16)]);
      extra := extra + 2;
      NoneReserved(input, last);
    }
    AppendRun(input, last, |input|, out, before);
    assert input[..|input|] == input;
    EncodeLength(input);
    n := |input| + extra;
  }

  /** Append the run of unreserved bytes input[last..i], if there is one. */
  method AppendRun(input: seq<byte>, last: nat, i: nat, out: StringBuilder, ghost before: seq<byte>)
    requires last <= i <= |input| && AllUnreserved(input[last..i])
    requires out.Valid() && out.Contents() == before + Encode(input[..last])
    modifies out, out.data
    ensures out.Valid() && out.Contents() == before + Encode(input[..i])
    ensures out.data == old(out.data) || fresh(out.data)
  {
    hide Encode;
    EncodeRun(input, last, i);
    if i > last { out.Append(input[last..i]); }
  }

  lemma EncodeStep(s: seq<byte>, i: nat)
    ensures Encode([]) == [] && Escaped([]) == 0
    ensures i < |s| ==> Encode(s[..i + 1]) == Encode(s[..i]) + EncodeByte(s[i])
    ensures i < |s| ==> Escaped(s[..i + 1]) == Escaped(s[..i]) + if Unreserved(s[i]) then 0 else 1
  {
    if i < |s| { assert s[..i + 1][..i] == s[..i]; }
  }

  lemma NoneReserved(s: seq<byte>, i: nat)
    ensures i <= |s| ==> AllUnreserved(s[i..i])
  {
  }

  lemma OneMoreUnreserved(s: seq<byte>, last: nat, i: nat)
    requires last <= i < |s| && AllUnreserved(s[last..i]) && Unreserved(s[i])
    ensures AllUnreserved(s[last..i + 1])
  {
    assert s[last..i + 1] == s[last..i] + [s[i]];
  }

  lemma EncodeRun(s: seq<byte>, last: nat, i: nat)
    requires last <= i <= |s| && AllUnreserved(s[last..i])
    ensures Encode(s[..i]) == Encode(s[..last]) + s[last..i]
  {
    assert s[..i] == s[..last] + s[last..i];
    EncodeConcat(s[..last], s[last..i]);
    EncodeUnreserved(s[last..i]);
  }
}
