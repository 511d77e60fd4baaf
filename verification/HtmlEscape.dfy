/** The two HTML escapers: one counts, then fills the reserved space in place; the other appends runs. */
module HtmlEscape {
  import opened Bytes
  import opened StringBuilder

  const AMP: byte := 38
  const LT: byte := 60
  const GT: byte := 62
  const QUOT: byte := 34
  const APOS: byte := 39

  // ---------------------------------------------------------------- specification

  /** Which bytes are replaced: & < >, and for attribute values also both quotes. */
  predicate Special(b: byte, attribute: bool) {
    b == AMP || b == LT || b == GT || (attribute && (b == QUOT || b == APOS))
  }

  function Entity(b: byte): seq<byte> {
    if b == AMP then [38, 97, 109, 112, 59]
    else if b == LT then [38, 108, 116, 59]
    else if b == GT then [38, 103, 116, 59]
    else if b == QUOT then [38, 113, 117, 111, 116, 59]
    else [38, 97, 112, 111, 115, 59]
  }

  function EscapeByte(b: byte, attribute: bool): seq<byte> {
    if Special(b, attribute) then Entity(b) else [b]
  }

  function Escape(s: seq<byte>, attribute: bool): seq<byte> {
    if s == [] then [] else Escape(s[..|s| - 1], attribute) + EscapeByte(s[|s| - 1], attribute)
  }

  /** The character reference a text starts with: the byte it stands for, and how long it is. */
  datatype Reference = NoReference | Reference(b: byte, length: nat)

  /** &amp; &lt; &gt; &quot; and &apos; as a reader of HTML knows them. */
  function ReferenceAt(s: seq<byte>): (r: Reference)
    ensures r.Reference? ==> 0 < r.length <= |s|
  {
    if [38, 97, 109, 112, 59] <= s then Reference(38, 5)
    else if [38, 108, 116, 59] <= s then Reference(60, 4)
    else if [38, 103, 116, 59] <= s then Reference(62, 4)
    else if [38, 113, 117, 111, 116, 59] <= s then Reference(34, 6)
    else if [38, 97, 112, 111, 115, 59] <= s then Reference(39, 6)
    else NoReference
  }

  /** What a reader of HTML makes of a text. */
  function Unescape(s: seq<byte>): seq<byte>
    decreases |s|
  {
    if s == [] then []
    else
      match ReferenceAt(s)
      case Reference(b, length) => [b] + Unescape(s[length..])
      case NoReference => [s[0]] + Unescape(s[1..])
  }

  // ---------------------------------------------------------------- laws

  lemma {:induction false} EscapeBound(s: seq<byte>, attribute: bool)
    ensures |Escape(s, attribute)| <= 6 * |s|
    decreases |s|
  {
    if s != [] { EscapeBound(s[..|s| - 1], attribute); }
  }

  lemma {:induction false} EscapeConcat(s: seq<byte>, t: seq<byte>, attribute: bool)
    ensures Escape(s + t, attribute) == Escape(s, attribute) + Escape(t, attribute)
    decreases |t|
  {
    hide EscapeByte;
    if t == [] {
      assert s + t == s;
    } else {
      var n := |t| - 1;
      EscapeSnoc(s + t[..n], t[n], attribute);
      EscapeSnoc(t[..n], t[n], attribute);
      assert s + t == (s + t[..n]) + [t[n]] && t == t[..n] + [t[n]];
      hide *;
      EscapeConcat(s, t[..n], attribute);
    }
  }

  lemma EscapeSnoc(s: seq<byte>, b: byte, attribute: bool)
    ensures Escape(s + [b], attribute) == Escape(s, attribute) + EscapeByte(b, attribute)
  {
    hide EscapeByte;
    assert (s + [b])[..|s|] == s;
  }

  /** The reader gets back what was escaped, in text and in attribute values. */
  lemma {:induction false} UnescapeEscape(s: seq<byte>, attribute: bool)
    ensures Unescape(Escape(s, attribute)) == s
    decreases |s|
  {
    if s != [] {
      var b, rest := s[0], Escape(s[1..], attribute);
      assert s == [b] + s[1..];
      EscapeConcat([b], s[1..], attribute);
      assert [b][..0] == [] && Escape([b], attribute) == EscapeByte(b, attribute);
      UnescapeEscape(s[1..], attribute);
      FirstReference(b, attribute, rest);
      hide Unescape, Escape, ReferenceAt, Entity;
      UnescapeStep(b, attribute, rest);
    }
  }

  lemma FirstReference(b: byte, attribute: bool, rest: seq<byte>)
    ensures ReferenceAt(EscapeByte(b, attribute) + rest)
         == if Special(b, attribute) then Reference(b, |Entity(b)|) else NoReference
  {
    var s := EscapeByte(b, attribute) + rest;
    if Special(b, attribute) {
      assert Entity(b) <= s;
      assert s[1] == Entity(b)[1] && s[2] == Entity(b)[2] && s[3] == Entity(b)[3];
    } else {
      assert s[0] == b != AMP;
    }
  }

  lemma UnescapeStep(b: byte, attribute: bool, rest: seq<byte>)
    requires ReferenceAt(EscapeByte(b, attribute) + rest)
          == if Special(b, attribute) then Reference(b, |Entity(b)|) else NoReference
    ensures Unescape(EscapeByte(b, attribute) + rest) == [b] + Unescape(rest)
  {
    hide ReferenceAt, Entity;
    assert (EscapeByte(b, attribute) + rest)[|EscapeByte(b, attribute)|..] == rest;
    EntityIsNotEmpty(b);
  }

  lemma EntityIsNotEmpty(b: byte)
    ensures Entity(b) != []
  {
  }

  lemma EntityHasNoMarkup(c: byte, attribute: bool, b: byte)
    requires b == 60 || b == 62 || (attribute && (b == 34 || b == 39))
    ensures b !in EscapeByte(c, attribute)
  {
  }

  /** No markup survives: the output has no < or >, and for attribute values no quote either. */
  lemma {:induction false} EscapeHasNoMarkup(s: seq<byte>, attribute: bool, b: byte)
    requires b == 60 || b == 62 || (attribute && (b == 34 || b == 39))
    ensures b !in Escape(s, attribute)
    decreases |s|
  {
    if s != [] {
      EntityHasNoMarkup(s[|s| - 1], attribute, b);
      hide EscapeByte;
      EscapeHasNoMarkup(s[..|s| - 1], attribute, b);
    }
  }

  /** Without & < >, and in an attribute value without quotes either. */
  predicate Markupless(s: seq<byte>, attribute: bool) {
    forall i :: 0 <= i < |s| ==> s[i] != 38 && s[i] != 60 && s[i] != 62 && (attribute ==> s[i] != 34 && s[i] != 39)
  }

  /** Such a text is left alone. */
  lemma {:induction false} EscapeKeeps(s: seq<byte>, attribute: bool)
    requires Markupless(s, attribute)
    ensures Escape(s, attribute) == s
    decreases |s|
  {
    if s != [] {
      var n := |s| - 1;
      MarkuplessPrefix(s, attribute);
      EscapeSnoc(s[..n], s[n], attribute);
      hide *;
      EscapeKeeps(s[..n], attribute);
      assert s == s[..n] + [s[n]];
    }
  }

  lemma MarkuplessPrefix(s: seq<byte>, attribute: bool)
    requires Markupless(s, attribute) && s != []
    ensures Markupless(s[..|s| - 1], attribute) && EscapeByte(s[|s| - 1], attribute) == [s[|s| - 1]]
  {
    assert !Special(s[|s| - 1], attribute);
  }

  lemma EscapeStep(s: seq<byte>, i: nat, attribute: bool)
    ensures Escape([], attribute) == []
    ensures i < |s| ==> Escape(s[..i + 1], attribute) == Escape(s[..i], attribute) + EscapeByte(s[i], attribute)
  {
    if i < |s| { assert s[..i + 1][..i] == s[..i]; }
  }

  lemma {:induction false} EscapeGrows(s: seq<byte>, i: nat, attribute: bool)
    requires i <= |s|
    ensures |Escape(s[..i], attribute)| <= |Escape(s, attribute)|
    decreases |s| - i
  {
    if i < |s| {
      EscapeStep(s, i, attribute);
      EscapeGrows(s, i + 1, attribute);
    } else {
      assert s[..i] == s;
    }
  }

  // ---------------------------------------------------------------- the loops

  /** Count the escaped length, reserve it, and fill it in. */
  method Text(input: seq<byte>, out: StringBuilder) returns (sz: nat)
    requires out.Valid()
    modifies out, out.data
    ensures out.Valid() && out.Contents() == old(out.Contents()) + Escape(input, false)
    ensures sz == |Escape(input, false)|
    ensures out.data == old(out.data) || fresh(out.data)
  {
    sz := EscapedLength(input);
    var oldLen := out.len;
    out.Resize(oldLen + sz);
    assert out.data[..oldLen] == out.Contents()[..oldLen] == old(out.Contents());
    Fill(input, out.data, oldLen);
  }

  method EscapedLength(input: seq<byte>) returns (sz: nat)
    ensures sz == |Escape(input, false)|
  {
    hide Escape;
    sz := 0;
    EscapeStep(input, 0, false);
    for i := 0 to |input|
      invariant sz == |Escape(input[..i], false)|
    {
      EscapeStep(input, i, false);
      if input[i] == AMP { sz := sz + 5; }
      else if input[i] == LT || input[i] == GT { sz := sz + 4; }
      else { sz := sz + 1; }
    }
    assert input[..|input|] == input;
  }

  method Fill(input: seq<byte>, data: array<byte>, at: nat)
    requires at + |Escape(input, false)| <= data.Length
    modifies data
    ensures data[..at + |Escape(input, false)|] == old(data[..at]) + Escape(input, false)
    ensures data[at + |Escape(input, false)|..] == old(data[at + |Escape(input, false)|..])
  {
    hide Escape;
    var c := at;
    ghost var end := at + |Escape(input, false)|;
    EscapeStep(input, 0, false);
    EscapeGrows(input, 0, false);
    for i := 0 to |input|
      invariant c == at + |Escape(input[..i], false)| <= end <= data.Length
      invariant data[..c] == old(data[..at]) + Escape(input[..i], false)
      invariant data[end..] == old(data[end..])
    {
      EscapeStep(input, i, false);
      EscapeGrows(input, i + 1, false);
      ghost var tail := data[c + |EscapeByte(input[i], false)|..];
      c := MemCpy(data, c, EscapeByte(input[i], false));
      assert data[end..] == tail[end - c..];
    }
    assert input[..|input|] == input;
  }

  predicate NoneSpecial(s: seq<byte>) { forall b :: b in s ==> !Special(b, true) }

  lemma {:induction false} EscapeNoneSpecial(s: seq<byte>)
    requires NoneSpecial(s)
    ensures Escape(s, true) == s
    decreases |s|
  {
    if s != [] {
      var n := |s| - 1;
      NoneSpecialPrefix(s);
      EscapeSnoc(s[..n], s[n], true);
      hide *;
      EscapeNoneSpecial(s[..n]);
      assert s == s[..n] + [s[n]];
    }
  }

  lemma NoneSpecialPrefix(s: seq<byte>)
    requires NoneSpecial(s) && s != []
    ensures NoneSpecial(s[..|s| - 1]) && EscapeByte(s[|s| - 1], true) == [s[|s| - 1]]
  {
    assert s[|s| - 1] in s;
    assert forall b :: b in s[..|s| - 1] ==> b in s;
  }

  lemma EscapeRun(s: seq<byte>, last: nat, i: nat)
    requires last <= i <= |s| && NoneSpecial(s[last..i])
    ensures Escape(s[..i], true) == Escape(s[..last], true) + s[last..i]
  {
    assert s[..i] == s[..last] + s[last..i];
    EscapeConcat(s[..last], s[last..i], true);
    EscapeNoneSpecial(s[last..i]);
  }

  /** Append runs of ordinary bytes, and an entity for every special one. */
  method Attribute(input: seq<byte>, out: StringBuilder) returns (n: nat)
    requires out.Valid()
    modifies out, out.data
    ensures out.Valid() && out.Contents() == old(out.Contents()) + Escape(input, true)
    ensures n == |Escape(input, true)|
  {
    hide Escape, Entity;
    var last, oldLen := 0, out.len;
    ghost var before := out.Contents();
    EscapeStep(input, 0, true);
    for i := 0 to |input|
      invariant 0 <= last <= i && NoneSpecial(input[last..i])
      invariant out.Valid() && out.Contents() == before + Escape(input[..last], true)
      invariant out.data == old(out.data) || fresh(out.data)
    {
      if !Special(input[i], true) {
        assert input[last..i + 1] == input[last..i] + [input[i]];
        continue;
      }
      AppendRun(input, last, i, out, before);
      EscapeStep(input, i, true);
      last := i + 1;
      out.Append(Entity(input[i]));
    }
    AppendRun(input, last, |input|, out, before);
    assert input[..|input|] == input;
    n := out.len - oldLen;
  }

  method AppendRun(input: seq<byte>, last: nat, i: nat, out: StringBuilder, ghost before: seq<byte>)
    requires last <= i <= |input| && NoneSpecial(input[last..i])
    requires out.Valid() && out.Contents() == before + Escape(input[..last], true)
    modifies out, out.data
    ensures out.Valid() && out.Contents() == before + Escape(input[..i], true)
    ensures out.data == old(out.data) || fresh(out.data)
  {
    hide Escape;
    EscapeRun(input, last, i);
    if i > last { out.Append(input[last..i]); }
  }
}
