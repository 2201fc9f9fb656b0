/** UTF-8 as in section 3 of RFC 3629, over strings of code points. */
module Utf8 {
  import opened ByteStrings
  import opened Wrappers

  /** A code point of a text value; surrogates occur but have no encoding. */
  type CodePoint = c: int | 0 <= c <= 0x10FFFF

  type Text = seq<CodePoint>

  predicate Encodable(c: CodePoint) {
    !(0xD800 <= c <= 0xDFFF)
  }

  function EncodePoint(c: CodePoint): (b: Bytes)
    ensures 1 <= |b| <= 4
  {
    if c < 0x80 then [c]
    else if c < 0x800 then [0xC0 + c / 64, 0x80 + c % 64]
    else if c < 0x10000 then [0xE0 + c / 4096, 0x80 + c / 64 % 64, 0x80 + c % 64]
    else [0xF0 + c / 262144, 0x80 + c / 4096 % 64, 0x80 + c / 64 % 64, 0x80 + c % 64]
  }

  predicate Tail(b: byte) {
    0x80 <= b <= 0xBF
  }

  /** The value a two-, three- or four-byte form carries. */
  function Two(a: int, b: int): int {
    (a - 0xC0) * 64 + (b - 0x80)
  }

  function Three(a: int, b: int, c: int): int {
    (a - 0xE0) * 4096 + (b - 0x80) * 64 + (c - 0x80)
  }

  function Four(a: int, b: int, c: int, d: int): int {
    (a - 0xF0) * 262144 + (b - 0x80) * 4096 + (c - 0x80) * 64 + (d - 0x80)
  }

  /** The first code point of b and the number of bytes it takes, following the
      syntax of UTF-8 byte sequences: no overlong form, no surrogate, nothing
      above U+10FFFF. */
  function DecodePoint(b: Bytes): (r: Option<(CodePoint, nat)>)
    ensures r.Some? ==> 1 <= r.value.1 <= |b|
  {
    if |b| >= 1 && b[0] < 0x80 then Some((b[0], 1))
    else if |b| >= 2 && 0xC2 <= b[0] <= 0xDF && Tail(b[1]) then
      Some((Two(b[0], b[1]), 2))
    else if |b| >= 3 && 0xE0 <= b[0] <= 0xEF && Tail(b[1]) && Tail(b[2])
            && (b[0] == 0xE0 ==> b[1] >= 0xA0) && (b[0] == 0xED ==> b[1] <= 0x9F) then
      Some((Three(b[0], b[1], b[2]), 3))
    else if |b| >= 4 && 0xF0 <= b[0] <= 0xF4 && Tail(b[1]) && Tail(b[2]) && Tail(b[3])
            && (b[0] == 0xF0 ==> b[1] >= 0x90) && (b[0] == 0xF4 ==> b[1] <= 0x8F) then
      Some((Four(b[0], b[1], b[2], b[3]), 4))
    else None
  }

  lemma Sextets(c: int)
    requires 0 <= c <= 0x10FFFF
    ensures c / 64 / 64 == c / 4096 && c / 4096 / 64 == c / 262144
    ensures c == c / 64 * 64 + c % 64
    ensures c / 64 == c / 4096 * 64 + c / 64 % 64
    ensures c / 4096 == c / 262144 * 64 + c / 4096 % 64
  {
  }

  lemma PointRoundTrip(c: CodePoint, rest: Bytes)
    requires Encodable(c)
    ensures DecodePoint(EncodePoint(c) + rest) == Some((c, |EncodePoint(c)|))
  {
    var e := EncodePoint(c);
    var b := e + rest;
    assert forall i :: 0 <= i < |e| ==> b[i] == e[i];
    Sextets(c);
  }

  lemma ThreeParts(a: int, b: int, c: int)
    requires 0xE0 <= a <= 0xEF && 0x80 <= b <= 0xBF && 0x80 <= c <= 0xBF
    ensures var v := Three(a, b, c);
            v / 4096 == a - 0xE0 && v / 64 % 64 == b - 0x80 && v % 64 == c - 0x80
  {
    var v := Three(a, b, c);
    assert v / 64 == (a - 0xE0) * 64 + (b - 0x80);
  }

  lemma FourParts(a: int, b: int, c: int, d: int)
    requires 0xF0 <= a <= 0xF4 && 0x80 <= b <= 0xBF && 0x80 <= c <= 0xBF && 0x80 <= d <= 0xBF
    ensures var v := Four(a, b, c, d);
            v / 262144 == a - 0xF0 && v / 4096 % 64 == b - 0x80 && v / 64 % 64 == c - 0x80 && v % 64 == d - 0x80
  {
    var v := Four(a, b, c, d);
    assert v / 64 == (a - 0xF0) * 4096 + (b - 0x80) * 64 + (c - 0x80);
    assert v / 4096 == (a - 0xF0) * 64 + (b - 0x80);
  }

  lemma DecodedPoint(b: Bytes)
    requires DecodePoint(b).Some?
    ensures var (c, n) := DecodePoint(b).value; Encodable(c) && EncodePoint(c) == b[..n]
  {
    var (c, n) := DecodePoint(b).value;
    if n == 3 {
      ThreeParts(b[0], b[1], b[2]);
    } else if n == 4 {
      FourParts(b[0], b[1], b[2], b[3]);
    }
  }

  /** `text.encode("utf-8")`; None is the encoding error. */
  function Encode(s: Text): Option<Bytes> {
    if |s| == 0 then Some([])
    else if !Encodable(s[0]) then None
    else match Encode(s[1..])
      case None => None
      case Some(rest) => Some(EncodePoint(s[0]) + rest)
  }

  /** `raw.decode("utf-8")`; None is the decoding error. */
  function Decode(b: Bytes): Option<Text> {
    if |b| == 0 then Some([])
    else match DecodePoint(b)
      case None => None
      case Some((c, n)) =>
        match Decode(b[n..])
        case None => None
        case Some(rest) => Some([c] + rest)
  }

  lemma {:induction false} EncodeThenDecode(s: Text)
    requires Encode(s).Some?
    ensures Decode(Encode(s).value) == Some(s)
  {
    hide DecodePoint, EncodePoint;
    if |s| > 0 {
      var rest := Encode(s[1..]).value;
      EncodeThenDecode(s[1..]);
      PointRoundTrip(s[0], rest);
      assert (EncodePoint(s[0]) + rest)[|EncodePoint(s[0])|..] == rest;
      assert s == [s[0]] + s[1..];
    }
  }

  lemma {:induction false} DecodeThenEncode(b: Bytes)
    requires Decode(b).Some?
    ensures Encode(Decode(b).value) == Some(b)
  {
    hide DecodePoint, EncodePoint;
    if |b| > 0 {
      var (c, n) := DecodePoint(b).value;
      var rest := Decode(b[n..]).value;
      DecodedPoint(b);
      DecodeThenEncode(b[n..]);
      var s := [c] + rest;
      assert s[0] == c && s[1..] == rest;
      assert b == b[..n] + b[n..];
    }
  }

  lemma EncodeInjective(s: Text, t: Text)
    requires Encode(s).Some? && Encode(s) == Encode(t)
    ensures s == t
  {
    EncodeThenDecode(s);
    EncodeThenDecode(t);
  }

  // ---------------------------------------------------------------- boundaries

  lemma {:induction false} EncodeConcat(s: Text, t: Text)
    requires Encode(s).Some? && Encode(t).Some?
    ensures Encode(s + t) == Some(Encode(s).value + Encode(t).value)
    decreases |s|
  {
    hide EncodePoint, Encodable;
    if |s| == 0 {
      assert s + t == t && Encode(s).value + Encode(t).value == Encode(t).value;
    } else {
      EncodeConcat(s[1..], t);
      assert (s + t)[1..] == s[1..] + t;
      Associates(EncodePoint(s[0]), Encode(s[1..]).value, Encode(t).value);
    }
  }

  /** Only the first byte of a code point can stand at its beginning. */
  lemma PointTail(c: CodePoint, i: nat)
    requires 0 < i < |EncodePoint(c)|
    ensures Tail(EncodePoint(c)[i]) && !Tail(EncodePoint(c)[0]) && EncodePoint(c)[0] >= 0x80
  {
  }

  lemma PointStart(c: CodePoint)
    ensures !Tail(EncodePoint(c)[0]) && (EncodePoint(c)[0] < 0x80 ==> |EncodePoint(c)| == 1)
  {
  }

  lemma TextStart(u: Text)
    requires Encode(u).Some? && |Encode(u).value| > 0
    ensures !Tail(Encode(u).value[0])
  {
    PointStart(u[0]);
  }

  /** After an ASCII byte an encoding goes on with an encoding. */
  lemma {:induction false} AfterAscii(t: Text, p: Bytes, x: byte, q: Bytes)
    requires x < 0x80 && Encode(t) == Some(p + [x] + q)
    ensures Decode(q).Some?
    decreases |t|
  {
    hide EncodePoint, Tail, Decode;
    var whole := p + [x] + q;
    assert whole[|p|] == x && |whole| > 0;
    var e := EncodePoint(t[0]);
    assert whole[..|e|] == e && whole[|e|..] == Encode(t[1..]).value;
    if |p| >= |e| {
      assert whole[|e|..] == p[|e|..] + [x] + q;
      AfterAscii(t[1..], p[|e|..], x, q);
    } else if |p| == 0 {
      PointStart(t[0]);
      assert e[0] == x;
      assert whole[1..] == q;
      EncodeThenDecode(t[1..]);
    } else {
      assert e[|p|] == whole[|p|];
      AsciiIsNoTail(x);
      PointTail(t[0], |p|);
    }
  }

  lemma AsciiIsNoTail(x: byte)
    requires x < 0x80
    ensures !Tail(x)
  {
  }

  /** Before an encoding at the end of an encoding stands an encoding. */
  lemma {:induction false} BeforeText(t: Text, c: Bytes, u: Text)
    requires Encode(t).Some? && Encode(u).Some? && Encode(t).value == c + Encode(u).value
    ensures Decode(c).Some?
    decreases |t|
  {
    hide EncodePoint, Tail, DecodePoint;
    if |c| > 0 {
      var whole, e := Encode(t).value, EncodePoint(t[0]);
      assert whole[..|e|] == e && whole[|e|..] == Encode(t[1..]).value;
      if |e| <= |c| {
        assert whole[|e|..] == c[|e|..] + Encode(u).value && c == e + c[|e|..];
        BeforeText(t[1..], c[|e|..], u);
        PointRoundTrip(t[0], c[|e|..]);
      } else {
        assert e[|c|] == whole[|c|] == Encode(u).value[0];
        TextStart(u);
        PointTail(t[0], |c|);
      }
    }
  }

  // -------------------------------------------------------------------- order

  /** The order of strings by code point. */
  predicate TextLess(a: Text, b: Text) {
    |b| > 0 && (|a| == 0 || a[0] < b[0] || (a[0] == b[0] && TextLess(a[1..], b[1..])))
  }

  /** a is a proper beginning of b, or has the smaller code point where they first
      differ. */
  ghost predicate Precedes(a: Text, b: Text) {
    exists k :: 0 <= k <= |a| && k < |b| && a[..k] == b[..k] && (k == |a| || a[k] < b[k])
  }

  lemma {:induction false} TextLessExactly(a: Text, b: Text)
    ensures TextLess(a, b) <==> Precedes(a, b)
    decreases |a|
  {
    if |a| > 0 && |b| > 0 {
      TextLessExactly(a[1..], b[1..]);
      if a[0] == b[0] {
        PrecedesTail(a, b);
      } else {
        assert a[..0] == b[..0];
      }
    } else if |b| > 0 {
      assert a[..0] == b[..0];
    }
  }

  lemma PrecedesTail(a: Text, b: Text)
    requires |a| > 0 && |b| > 0 && a[0] == b[0]
    ensures Precedes(a, b) <==> Precedes(a[1..], b[1..])
  {
    if k :| 0 <= k <= |a| && k < |b| && a[..k] == b[..k] && (k == |a| || a[k] < b[k]) {
      assert a[..k][1..] == a[1..][..k - 1] && b[..k][1..] == b[1..][..k - 1];
    }
    if k :| 0 <= k <= |a[1..]| && k < |b[1..]| && a[1..][..k] == b[1..][..k] && (k == |a[1..]| || a[1..][k] < b[1..][k]) {
      assert a[..k + 1] == [a[0]] + a[1..][..k] && b[..k + 1] == [b[0]] + b[1..][..k];
    }
  }

  lemma {:induction false} TextTrichotomy(a: Text, b: Text)
    ensures a == b || TextLess(a, b) || TextLess(b, a)
    ensures !(TextLess(a, b) && TextLess(b, a))
    ensures !TextLess(a, a)
    decreases |a|
  {
    if |a| > 0 {
      TextTrichotomy(a[1..], a[1..]);
      if |b| > 0 {
        TextTrichotomy(a[1..], b[1..]);
        if a[0] == b[0] && a[1..] == b[1..] {
          assert a == [a[0]] + a[1..] && b == [b[0]] + b[1..];
        }
      }
    }
  }

  lemma {:induction false} TextTransitive(a: Text, b: Text, c: Text)
    requires TextLess(a, b) && TextLess(b, c)
    ensures TextLess(a, c)
    decreases |a|
  {
    if |a| > 0 && a[0] == b[0] == c[0] {
      TextTransitive(a[1..], b[1..], c[1..]);
    }
  }
}
