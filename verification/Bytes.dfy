/** Bytes, text literals, and the two memory searches (memchr, memmem) every parser here uses. */
module Bytes {

  type byte = x: int | 0 <= x < 256

  datatype Option<+T> = None | Some(value: T)

  const TAB: byte := 9
  const LF: byte := 10
  const CR: byte := 13
  const SPACE: byte := 32

  /** The bytes of an ASCII literal. */
  function Ascii(s: string): (b: seq<byte>)
    ensures |b| == |s|
  {
    seq(|s|, i requires 0 <= i < |s| => s[i] as int % 256)
  }

  /** memchr: the first position at or after `from` that holds `ch`; FindCharSpec says so. */
  function FindChar(s: seq<byte>, from: nat, ch: byte): (r: Option<nat>)
    requires from <= |s|
    ensures r.Some? ==> from <= r.value < |s|
    decreases |s| - from
  {
    if from == |s| then None
    else if s[from] == ch then Some(from)
    else FindChar(s, from + 1, ch)
  }

  lemma {:induction false} FindCharSpec(s: seq<byte>, from: nat, ch: byte)
    requires from <= |s|
    ensures FindChar(s, from, ch).None? <==> ch !in s[from..]
    ensures FindChar(s, from, ch).Some? ==>
              var i := FindChar(s, from, ch).value; s[i] == ch && ch !in s[from..i]
    decreases |s| - from
  {
    if from < |s| && s[from] != ch {
      FindCharSpec(s, from + 1, ch);
      assert s[from..] == [s[from]] + s[from + 1..];
      match FindChar(s, from, ch)
      case None =>
      case Some(i) => assert s[from..i] == [s[from]] + s[from + 1..i];
    }
  }

  lemma {:induction false} FindCharIs(s: seq<byte>, from: nat, ch: byte, i: nat)
    requires from <= i < |s| && s[i] == ch && forall j :: from <= j < i ==> s[j] != ch
    ensures FindChar(s, from, ch) == Some(i)
    decreases i - from
  {
    if from < i { FindCharIs(s, from + 1, ch, i); }
  }

  predicate CrlfAt(s: seq<byte>, i: int) {
    0 <= i && i + 1 < |s| && s[i] == CR && s[i + 1] == LF
  }

  /** memmem for CR LF: the first position at or after `from` where the pair starts. */
  function FindCRLF(s: seq<byte>, from: nat): (r: Option<nat>)
    requires from <= |s|
    ensures r.Some? ==> from <= r.value && CrlfAt(s, r.value)
    decreases |s| - from
  {
    if from == |s| then None
    else if CrlfAt(s, from) then Some(from)
    else FindCRLF(s, from + 1)
  }

  lemma {:induction false} FindCRLFSpec(s: seq<byte>, from: nat)
    requires from <= |s|
    ensures match FindCRLF(s, from)
            case None => forall j :: from <= j ==> !CrlfAt(s, j)
            case Some(i) => CrlfAt(s, i) && forall j :: from <= j < i ==> !CrlfAt(s, j)
    decreases |s| - from
  {
    if from < |s| && !CrlfAt(s, from) { FindCRLFSpec(s, from + 1); }
  }

  /** The first pair is the only one with no pair before it. */
  lemma {:induction false} FindCRLFIs(s: seq<byte>, from: nat, i: nat)
    requires from <= i && CrlfAt(s, i) && forall j :: from <= j < i ==> !CrlfAt(s, j)
    ensures FindCRLF(s, from) == Some(i)
    decreases i - from
  {
    if from < i { FindCRLFIs(s, from + 1, i); }
  }

  /** A search only sees the bytes from its starting point on, wherever they lie in the buffer. */
  lemma FindCRLFMoves(a: seq<byte>, i: nat, b: seq<byte>, j: nat)
    requires i <= |a| && j <= |b|
    requires a[i..] == b[j..]
    ensures FindCRLF(a, i).Some? == FindCRLF(b, j).Some?
    ensures FindCRLF(a, i).Some? ==> FindCRLF(a, i).value - i == FindCRLF(b, j).value - j
    decreases |a| - i
  {
    assert |a| - i == |b| - j;
    if i < |a| {
      assert a[i] == a[i..][0] == b[j..][0] == b[j];
      if i + 1 < |a| { assert a[i + 1] == a[i..][1] == b[j..][1] == b[j + 1]; }
      assert a[i + 1..] == a[i..][1..] == b[j..][1..] == b[j + 1..];
      FindCRLFMoves(a, i + 1, b, j + 1);
    }
  }

  /** Bytes that arrive later do not move a pair that was already found. */
  lemma FindCRLFGrows(s: seq<byte>, t: seq<byte>, from: nat)
    requires from <= |s|
    requires FindCRLF(s, from).Some?
    ensures FindCRLF(s + t, from) == FindCRLF(s, from)
    decreases |s| - from
  {
    var i := FindCRLF(s, from).value;
    FindCRLFSpec(s, from);
    assert CrlfAt(s + t, i);
    assert forall j :: from <= j < i ==> CrlfAt(s + t, j) == CrlfAt(s, j);
    FindCRLFIs(s + t, from, i);
  }

  lemma SliceGrows<T>(s: seq<T>, t: seq<T>, i: nat, j: nat)
    requires i <= j <= |s|
    ensures (s + t)[i..j] == s[i..j]
  {
  }

  lemma Middle<T>(a: seq<T>, b: seq<T>, c: seq<T>)
    ensures (a + b + c)[|a|..|a| + |b|] == b
  {
  }

  lemma Associative<T>(a: seq<T>, b: seq<T>, c: seq<T>)
    ensures a + b + c == a + (b + c)
  {
  }

  lemma Regroup<T>(a: seq<T>, b: seq<T>, c: seq<T>, d: seq<T>)
    ensures a + b + c + d == a + (b + c + d) == a + b + (c + d)
  {
  }

  lemma SubSlice<T>(s: seq<T>, i: nat, j: nat, k: nat, l: nat)
    requires i <= j <= |s| && k <= l <= j - i
    ensures s[i..j][k..l] == s[i + k..i + l]
  {
    var a := s[i..j];
    assert |a[k..l]| == |s[i + k..i + l]|;
    forall x | 0 <= x < l - k ensures a[k..l][x] == s[i + k..i + l][x] {
      assert a[k..l][x] == a[k + x] == s[i + k + x];
    }
  }

  /** Concatenation of a list of byte strings. */
  function Flatten(parts: seq<seq<byte>>): seq<byte> {
    if parts == [] then [] else parts[0] + Flatten(parts[1..])
  }

  /** memcpy and memmove: n bytes from `from` on to the front of `dst`, which may be `src` itself. */
  method MemMove(dst: array<byte>, src: array<byte>, from: nat, n: nat)
    requires from + n <= src.Length && n <= dst.Length
    modifies dst
    ensures dst[..n] == old(src[from..from + n])
    ensures dst[n..] == old(dst[n..])
  {
    forall i | 0 <= i < n { dst[i] := src[from + i]; }
  }

  /** memcpy: the bytes `s` over what `dst` holds at `at`. */
  method MemCpy(dst: array<byte>, at: nat, s: seq<byte>) returns (end: nat)
    requires at + |s| <= dst.Length
    modifies dst
    ensures end == at + |s|
    ensures dst[..end] == old(dst[..at]) + s && dst[end..] == old(dst[end..])
  {
    forall i | 0 <= i < |s| { dst[at + i] := s[i]; }
    end := at + |s|;
  }

  /** How many bytes a read brings: at least one, no more than are left or fit. */
  function Clamp(wish: nat, left: nat, room: nat): (n: nat)
    requires left > 0 && room > 0
    ensures 0 < n <= left && n <= room
    ensures 0 < wish <= left && wish <= room ==> n == wish
  {
    var most := if left < room then left else room;
    if wish == 0 then 1 else if wish > most then most else wish
  }
}
