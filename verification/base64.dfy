/** Base64 with the standard alphabet and `=` padding (section 4 of RFC 4648),
    as decoded by Go's `base64.StdEncoding.DecodeString`: carriage returns and
    line feeds anywhere in the input are skipped, the remaining text must be
    whole four-character quanta, padding may only close the last quantum, and
    the unused low bits of a padded quantum are not checked. The encoder is
    the reference the decoder is proved against. */
module Base64 {
  import opened Wrappers

  type byte = x: int | 0 <= x < 256

  /** The alphabet character of a 6-bit value. */
  function IndexChar(i: int): (c: char)
    requires 0 <= i < 64
    ensures CharIndex(c) == Some(i)
  {
    if i < 26 then (65 + i) as char
    else if i < 52 then (97 + i - 26) as char
    else if i < 62 then (48 + i - 52) as char
    else if i == 62 then '+'
    else '/'
  }

  /** The 6-bit value of an alphabet character; `None` for anything else,
      the padding character included. */
  function CharIndex(c: char): (r: Option<int>)
    ensures r.Some? ==> 0 <= r.value < 64
    ensures c == '=' || c == '\r' || c == '\n' ==> r.None?
  {
    if 'A' <= c <= 'Z' then Some(c as int - 65)
    else if 'a' <= c <= 'z' then Some(c as int - 97 + 26)
    else if '0' <= c <= '9' then Some(c as int - 48 + 52)
    else if c == '+' then Some(62)
    else if c == '/' then Some(63)
    else None
  }

  /** The input with every carriage return and line feed removed. */
  function StripLineBreaks(s: string): (r: string)
    ensures '\r' !in r && '\n' !in r
    ensures '\r' !in s && '\n' !in s ==> r == s
  {
    if |s| == 0 then []
    else if s[0] == '\r' || s[0] == '\n' then StripLineBreaks(s[1..])
    else [s[0]] + StripLineBreaks(s[1..])
  }

  /** A single character is dropped exactly when it is a line break. */
  lemma StripLineBreaksChar(c: char)
    ensures c == '\r' || c == '\n' ==> StripLineBreaks([c]) == []
    ensures c != '\r' && c != '\n' ==> StripLineBreaks([c]) == [c]
  {
    assert [c][1..] == [];
  }

  /** Stripping works character by character: it distributes over
      concatenation, so every other character is kept, in order. */
  lemma {:induction false} StripLineBreaksAppend(a: string, b: string)
    ensures StripLineBreaks(a + b) == StripLineBreaks(a) + StripLineBreaks(b)
    decreases |a|
  {
    if |a| > 0 {
      assert (a + b)[0] == a[0];
      assert (a + b)[1..] == a[1..] + b;
      StripLineBreaksAppend(a[1..], b);
    } else {
      assert a + b == b;
    }
  }

  /** The decoder ignores a carriage return or line feed wherever it
      appears in the input. */
  lemma LineBreakIgnored(a: string, c: char, b: string)
    requires c == '\r' || c == '\n'
    ensures DecodeString(a + [c] + b) == DecodeString(a + b)
  {
    StripLineBreaksAppend(a + [c], b);
    StripLineBreaksAppend(a, [c]);
    StripLineBreaksAppend(a, b);
    StripLineBreaksChar(c);
    assert StripLineBreaks(a) + [] == StripLineBreaks(a);
  }

  /** One four-character quantum; `last` says no quantum follows it. */
  function DecodeQuantum(q: string, last: bool): (r: Option<seq<byte>>)
    requires |q| == 4
    ensures r.Some? ==> 1 <= |r.value| <= 3
    ensures r.Some? ==> (|r.value| == 3 <==> q[3] != '=')
    ensures r.Some? && !last ==> |r.value| == 3
  {
    var i0, i1, i2, i3 := CharIndex(q[0]), CharIndex(q[1]), CharIndex(q[2]), CharIndex(q[3]);
    if i0.None? || i1.None? then None
    else
      var a, b := i0.value, i1.value;
      if q[2] == '=' then
        if q[3] == '=' && last then Some([a * 4 + b / 16]) else None
      else if i2.None? then None
      else
        var c := i2.value;
        if q[3] == '=' then
          if last then Some([a * 4 + b / 16, (b % 16) * 16 + c / 4]) else None
        else if i3.None? then None
        else Some([a * 4 + b / 16, (b % 16) * 16 + c / 4, (c % 4) * 64 + i3.value])
  }

  /** A sequence of quanta, decoded one after another. */
  function DecodeQuanta(s: string): (r: Option<seq<byte>>)
    ensures r.Some? ==> |s| % 4 == 0
    ensures r.Some? ==> 4 * |r.value| <= 3 * |s| && 3 * |s| <= 4 * |r.value| + 8
    decreases |s|
  {
    if |s| == 0 then Some([])
    else if |s| < 4 then None
    else
      match DecodeQuantum(s[..4], |s| == 4)
      case None => None
      case Some(head) =>
        match DecodeQuanta(s[4..])
        case None => None
        case Some(tail) => Some(head + tail)
  }

  /** `base64.StdEncoding.DecodeString`, `None` standing for a decoding error. */
  function DecodeString(s: string): (r: Option<seq<byte>>)
    ensures var t := StripLineBreaks(s);
      r.Some? ==> |t| % 4 == 0 && 4 * |r.value| <= 3 * |t| && 3 * |t| <= 4 * |r.value| + 8
  {
    DecodeQuanta(StripLineBreaks(s))
  }

  /** A character the encoder can emit. */
  predicate IsEncodedChar(c: char)
  {
    CharIndex(c).Some? || c == '='
  }

  /** The first three bytes as four alphabet characters. */
  function EncodeTriple(b0: byte, b1: byte, b2: byte): string
  {
    [IndexChar(b0 / 4), IndexChar((b0 % 4) * 16 + b1 / 16),
     IndexChar((b1 % 16) * 4 + b2 / 64), IndexChar(b2 % 64)]
  }

  /** A final single byte: two alphabet characters, then two `=`. */
  function EncodeSingle(b0: byte): (s: string)
    ensures |s| == 4 && s[2] == '=' && s[3] == '='
    ensures forall i :: 0 <= i < |s| ==> IsEncodedChar(s[i])
  {
    [IndexChar(b0 / 4), IndexChar((b0 % 4) * 16), '=', '=']
  }

  /** A final pair of bytes: three alphabet characters, then one `=`. */
  function EncodePair(b0: byte, b1: byte): (s: string)
    ensures |s| == 4 && s[2] != '=' && s[3] == '='
    ensures forall i :: 0 <= i < |s| ==> IsEncodedChar(s[i])
  {
    [IndexChar(b0 / 4), IndexChar((b0 % 4) * 16 + b1 / 16), IndexChar((b1 % 16) * 4), '=']
  }

  /** Standard padded encoding: four characters for every three bytes, the
      last quantum padded with `=`. */
  function Encode(b: seq<byte>): (s: string)
    ensures |s| == 4 * ((|b| + 2) / 3)
    ensures forall i :: 0 <= i < |s| ==> IsEncodedChar(s[i])
    decreases |b|
  {
    if |b| == 0 then ""
    else if |b| == 1 then EncodeSingle(b[0])
    else if |b| == 2 then EncodePair(b[0], b[1])
    else
      var head, rest := EncodeTriple(b[0], b[1], b[2]), Encode(b[3..]);
      assert (|b| + 2) / 3 == (|b| - 3 + 2) / 3 + 1;
      assert forall i :: 0 <= i < |head| ==> IsEncodedChar(head[i]);
      head + rest
  }

  /** A full quantum decodes back to its three bytes. */
  lemma DecodeTriple(b0: byte, b1: byte, b2: byte, last: bool)
    ensures DecodeQuantum(EncodeTriple(b0, b1, b2), last) == Some([b0, b1, b2])
  {
    var b := (b0 % 4) * 16 + b1 / 16;
    var c := (b1 % 16) * 4 + b2 / 64;
    assert b / 16 == b0 % 4 && b % 16 == b1 / 16;
    assert c / 4 == b1 % 16 && c % 4 == b2 / 64;
  }

  /** Round trip: decoding an encoding gives the bytes back. */
  lemma {:induction false} DecodeEncode(b: seq<byte>)
    ensures DecodeString(Encode(b)) == Some(b)
  {
    var s := Encode(b);
    assert '\r' !in s && '\n' !in s by {
      forall i | 0 <= i < |s| ensures s[i] != '\r' && s[i] != '\n' {
        assert IsEncodedChar(s[i]);
      }
    }
    DecodeQuantaEncode(b);
  }

  /** A quantum holding one byte decodes back to it. */
  lemma DecodeSingle(b0: byte)
    ensures DecodeQuanta(Encode([b0])) == Some([b0])
  {
    var s := Encode([b0]);
    assert s == EncodeSingle(b0);
    assert DecodeQuantum(s, true) == Some([b0]) by {
      var x := (b0 % 4) * 16;
      assert x / 16 == b0 % 4;
    }
    assert s[..4] == s && s[4..] == [];
    assert DecodeQuanta(s[4..]) == Some([]);
    assert [b0] + [] == [b0];
  }

  /** A quantum holding two bytes decodes back to them. */
  lemma DecodePair(b0: byte, b1: byte)
    ensures DecodeQuanta(Encode([b0, b1])) == Some([b0, b1])
  {
    var s := Encode([b0, b1]);
    assert s == EncodePair(b0, b1);
    assert DecodeQuantum(s, true) == Some([b0, b1]) by {
      var x := (b0 % 4) * 16 + b1 / 16;
      var y := (b1 % 16) * 4;
      assert x / 16 == b0 % 4 && x % 16 == b1 / 16 && y / 4 == b1 % 16;
    }
    assert s[..4] == s && s[4..] == [];
    assert DecodeQuanta(s[4..]) == Some([]);
    assert [b0, b1] + [] == [b0, b1];
  }

  lemma {:induction false} DecodeQuantaEncode(b: seq<byte>)
    ensures DecodeQuanta(Encode(b)) == Some(b)
    decreases |b|
  {
    if |b| == 1 {
      assert b == [b[0]];
      DecodeSingle(b[0]);
    } else if |b| == 2 {
      assert b == [b[0], b[1]];
      DecodePair(b[0], b[1]);
    } else if |b| >= 3 {
      DecodeQuantaEncode(b[3..]);
      assert b == [b[0], b[1], b[2]] + b[3..];
      DecodeFullQuantum(b[0], b[1], b[2], b[3..]);
    }
  }

  /** A full leading quantum decodes back to its three bytes in front of
      whatever the rest decodes to. */
  lemma DecodeFullQuantum(b0: byte, b1: byte, b2: byte, rest: seq<byte>)
    requires DecodeQuanta(Encode(rest)) == Some(rest)
    ensures DecodeQuanta(Encode([b0, b1, b2] + rest)) == Some([b0, b1, b2] + rest)
  {
    var b := [b0, b1, b2] + rest;
    var s := Encode(b);
    assert b[3..] == rest;
    assert s == EncodeTriple(b0, b1, b2) + Encode(rest);
    assert s[..4] == EncodeTriple(b0, b1, b2) && s[4..] == Encode(rest);
    DecodeTriple(b0, b1, b2, |s| == 4);
  }
}
