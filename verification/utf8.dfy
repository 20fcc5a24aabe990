/** UTF-8 (RFC 3629) as Rust's `String::from_utf8` applies it to the bytes of a
    view-call result: a decoder that either yields the text or reports where the
    first ill-formed sequence starts, the encoder it inverts, and the wording of
    the error. */
module Utf8 {
  import opened Wrappers

  type byte = x: int | 0 <= x < 0x100

  /** Rust's `Utf8Error`: the first `validUpTo` bytes decode cleanly; at that
      index starts an ill-formed sequence of `errorLen` bytes, or, when
      `errorLen` is None, a sequence the input ends in the middle of. */
  datatype Utf8Error = Utf8Error(validUpTo: nat, errorLen: Option<nat>)

  /** What the decoder finds at the head of its input: one scalar value encoded
      in `width` bytes, or an ill-formed (or truncated) sequence. */
  datatype Step = Scalar(c: char, width: nat) | Invalid(errorLen: Option<nat>)

  predicate IsContinuation(b: byte) {
    0x80 <= b < 0xC0
  }

  /** The second byte of a three-byte sequence, as restricted by RFC 3629,
      section 4: no overlong forms after E0, no surrogates after ED. */
  predicate ValidSecondOfThree(b0: byte, b1: byte) {
    || (b0 == 0xE0 && 0xA0 <= b1 <= 0xBF)
    || (0xE1 <= b0 <= 0xEC && IsContinuation(b1))
    || (b0 == 0xED && 0x80 <= b1 <= 0x9F)
    || (0xEE <= b0 <= 0xEF && IsContinuation(b1))
  }

  /** The second byte of a four-byte sequence: no overlong forms after F0,
      nothing above U+10FFFF after F4. */
  predicate ValidSecondOfFour(b0: byte, b1: byte) {
    || (b0 == 0xF0 && 0x90 <= b1 <= 0xBF)
    || (0xF1 <= b0 <= 0xF3 && IsContinuation(b1))
    || (b0 == 0xF4 && 0x80 <= b1 <= 0x8F)
  }

  /** Examines the sequence at the head of `b`, byte by byte, in the order the
      Rust validator does: running out of input before a byte is examined is a
      truncated sequence; a wrong byte ends the sequence just before it. */
  function DecodeFirst(b: seq<byte>): (st: Step)
    requires |b| > 0
    ensures st.Scalar? ==> 1 <= st.width <= 4 && st.width <= |b|
    ensures st.Invalid? && st.errorLen.Some? ==> 1 <= st.errorLen.value <= 3 && st.errorLen.value <= |b|
    ensures st.Invalid? && st.errorLen.None? ==> |b| < 4
  {
    var b0: int := b[0];
    if b0 < 0x80 then
      Scalar(b0 as char, 1)
    else if 0xC2 <= b0 <= 0xDF then
      if |b| < 2 then Invalid(None)
      else if !IsContinuation(b[1]) then Invalid(Some(1))
      else Scalar(((b0 - 0xC0) * 0x40 + (b[1] as int - 0x80)) as char, 2)
    else if 0xE0 <= b0 <= 0xEF then
      if |b| < 2 then Invalid(None)
      else if !ValidSecondOfThree(b0, b[1]) then Invalid(Some(1))
      else if |b| < 3 then Invalid(None)
      else if !IsContinuation(b[2]) then Invalid(Some(2))
      else Scalar(((b0 - 0xE0) * 0x1000 + (b[1] as int - 0x80) * 0x40 + (b[2] as int - 0x80)) as char, 3)
    else if 0xF0 <= b0 <= 0xF4 then
      if |b| < 2 then Invalid(None)
      else if !ValidSecondOfFour(b0, b[1]) then Invalid(Some(1))
      else if |b| < 3 then Invalid(None)
      else if !IsContinuation(b[2]) then Invalid(Some(2))
      else if |b| < 4 then Invalid(None)
      else if !IsContinuation(b[3]) then Invalid(Some(3))
      else Scalar(((b0 - 0xF0) * 0x40000 + (b[1] as int - 0x80) * 0x1000 + (b[2] as int - 0x80) * 0x40 + (b[3] as int - 0x80)) as char, 4)
    else
      Invalid(Some(1))
  }

  /** `String::from_utf8`: the decoded text, or the position and length of the
      first ill-formed sequence. */
  function Decode(b: seq<byte>): (r: Result<string, Utf8Error>)
    ensures r.Ok? ==> |r.value| <= |b|
    ensures r.Err? ==> r.error.validUpTo < |b|
    ensures r.Err? && r.error.errorLen.Some? ==> r.error.validUpTo + r.error.errorLen.value <= |b|
    ensures r.Err? && r.error.errorLen.None? ==> |b| - r.error.validUpTo < 4
    decreases |b|
  {
    if b == [] then Ok([])
    else
      match DecodeFirst(b)
      case Invalid(len) => Err(Utf8Error(0, len))
      case Scalar(c, w) =>
        match Decode(b[w..])
        case Ok(s) => Ok([c] + s)
        case Err(e) => Err(Utf8Error(e.validUpTo + w, e.errorLen))
  }

  /** The shortest UTF-8 form of one scalar value (RFC 3629, section 3). */
  function EncodeChar(c: char): (bs: seq<byte>)
    ensures 1 <= |bs| <= 4
  {
    var n := c as int;
    if n < 0x80 then [n]
    else if n < 0x800 then [0xC0 + n / 0x40, 0x80 + n % 0x40]
    else if n < 0x10000 then [0xE0 + n / 0x1000, 0x80 + (n / 0x40) % 0x40, 0x80 + n % 0x40]
    else [0xF0 + n / 0x40000, 0x80 + (n / 0x1000) % 0x40, 0x80 + (n / 0x40) % 0x40, 0x80 + n % 0x40]
  }

  function Encode(s: string): (bs: seq<byte>)
    ensures |s| <= |bs| <= 4 * |s|
  {
    if s == [] then [] else EncodeChar(s[0]) + Encode(s[1..])
  }

  /** The number a string of decimal digits stands for. */
  function DigitsValue(s: string): nat
    requires forall i :: 0 <= i < |s| ==> '0' <= s[i] <= '9'
  {
    if s == [] then 0 else DigitsValue(s[..|s| - 1]) * 10 + (s[|s| - 1] as int - '0' as int)
  }

  /** Decimal digits of `n`, as Rust's `Display` for an unsigned integer
      writes them: no leading zero (`0` is the one digit `0`).
      `NatToStringValue` shows they stand for `n`. */
  function NatToString(n: nat): (s: string)
    ensures |s| >= 1
    ensures forall i :: 0 <= i < |s| ==> '0' <= s[i] <= '9'
    ensures |s| == 1 || s[0] != '0'
  {
    var d := "0123456789";
    if n < 10 then [d[n]] else NatToString(n / 10) + [d[n % 10]]
  }

  /** The decimal digits of `n` stand for `n`. */
  lemma {:induction false} NatToStringValue(n: nat)
    ensures DigitsValue(NatToString(n)) == n
  {
    var s := NatToString(n);
    assert forall k :: 0 <= k < 10 ==> "0123456789"[k] as int - '0' as int == k;
    if n < 10 {
      assert DigitsValue(s) == DigitsValue([]) * 10 + n;
    } else {
      NatToStringValue(n / 10);
      assert s[..|s| - 1] == NatToString(n / 10);
    }
  }

  const Incomplete := "incomplete utf-8 byte sequence from index "
  const InvalidSequence := "invalid utf-8 sequence of "

  /** The text of Rust's `Display` for `Utf8Error` (and for `FromUtf8Error`,
      which defers to it): it ends with the decimal `validUpTo`, and starts
      with the words for a truncated input exactly when `errorLen` is None. */
  function ErrorText(e: Utf8Error): (t: string)
    ensures |NatToString(e.validUpTo)| < |t| && t[|t| - |NatToString(e.validUpTo)|..] == NatToString(e.validUpTo)
    ensures |Incomplete| < |t| && (t[..|Incomplete|] == Incomplete <==> e.errorLen.None?)
    ensures e.errorLen.Some? ==>
      var prefix := InvalidSequence + NatToString(e.errorLen.value) + " bytes from index ";
      |prefix| < |t| && t[..|prefix|] == prefix
  {
    var index := NatToString(e.validUpTo);
    match e.errorLen
    case Some(n) =>
      var prefix := InvalidSequence + NatToString(n) + " bytes from index ";
      var t := prefix + index;
      ConcatParts(prefix, index);
      assert t[..|Incomplete|] != Incomplete by { assert t[2] != Incomplete[2]; }
      t
    case None =>
      ConcatParts(Incomplete, index);
      Incomplete + index
  }

  /** The two parts of a concatenation are its prefix and its suffix. */
  lemma ConcatParts(a: string, b: string)
    ensures |a + b| == |a| + |b|
    ensures (a + b)[..|a|] == a && (a + b)[|a|..] == b
  {
  }

  lemma DivMod64(x: int, hi: int, lo: int)
    requires 0 <= lo < 0x40 && x == hi * 0x40 + lo
    ensures x / 0x40 == hi && x % 0x40 == lo
  {
  }

  lemma DecodeFirstEncodeTwo(c: char, rest: seq<byte>)
    requires 0x80 <= c as int < 0x800
    ensures DecodeFirst(EncodeChar(c) + rest) == Scalar(c, 2)
  {
    var n := c as int;
    var b := EncodeChar(c) + rest;
    DivMod64(n, n / 0x40, n % 0x40);
    assert b[0] == 0xC0 + n / 0x40 && b[1] == 0x80 + n % 0x40;
  }

  lemma DecodeFirstEncodeThree(c: char, rest: seq<byte>)
    requires 0x800 <= c as int < 0x10000
    ensures DecodeFirst(EncodeChar(c) + rest) == Scalar(c, 3)
  {
    var n := c as int;
    var b := EncodeChar(c) + rest;
    var q := n / 0x40;
    DivMod64(n, q, n % 0x40);
    DivMod64(q, q / 0x40, q % 0x40);
    assert n / 0x1000 == q / 0x40;
    assert b[0] == 0xE0 + q / 0x40 && b[1] == 0x80 + q % 0x40 && b[2] == 0x80 + n % 0x40;
    assert (q / 0x40) * 0x1000 + (q % 0x40) * 0x40 + n % 0x40 == n;
    assert ValidSecondOfThree(b[0], b[1]);
  }

  lemma DecodeFirstEncodeFour(c: char, rest: seq<byte>)
    requires 0x10000 <= c as int
    ensures DecodeFirst(EncodeChar(c) + rest) == Scalar(c, 4)
  {
    var n := c as int;
    var b := EncodeChar(c) + rest;
    var q := n / 0x40;
    var q2 := q / 0x40;
    DivMod64(n, q, n % 0x40);
    DivMod64(q, q2, q % 0x40);
    DivMod64(q2, q2 / 0x40, q2 % 0x40);
    assert n / 0x1000 == q2;
    assert n / 0x40000 == q2 / 0x40;
    assert b[0] == 0xF0 + q2 / 0x40 && b[1] == 0x80 + q2 % 0x40 && b[2] == 0x80 + q % 0x40 && b[3] == 0x80 + n % 0x40;
    assert (q2 / 0x40) * 0x40000 + (q2 % 0x40) * 0x1000 + (q % 0x40) * 0x40 + n % 0x40 == n;
    assert ValidSecondOfFour(b[0], b[1]);
  }

  /** The decoder reads back exactly the character that was encoded, whatever follows it. */
  lemma DecodeFirstEncodeChar(c: char, rest: seq<byte>)
    ensures DecodeFirst(EncodeChar(c) + rest) == Scalar(c, |EncodeChar(c)|)
  {
    var n := c as int;
    if n < 0x80 {
    } else if n < 0x800 {
      DecodeFirstEncodeTwo(c, rest);
    } else if n < 0x10000 {
      DecodeFirstEncodeThree(c, rest);
    } else {
      DecodeFirstEncodeFour(c, rest);
    }
  }

  /** Decoding inverts encoding: every string survives the round trip. */
  lemma {:induction false} DecodeEncode(s: string)
    ensures Decode(Encode(s)) == Ok(s)
  {
    if s != [] {
      var head := EncodeChar(s[0]);
      var b := Encode(s);
      DecodeFirstEncodeChar(s[0], Encode(s[1..]));
      assert b[|head|..] == Encode(s[1..]);
      DecodeEncode(s[1..]);
      assert [s[0]] + s[1..] == s;
    }
  }

  lemma TwoByteIsEncoding(b: seq<byte>)
    requires |b| >= 2 && 0xC2 <= b[0] <= 0xDF && IsContinuation(b[1])
    ensures EncodeChar(DecodeFirst(b).c) == b[..2]
  {
    var n := (b[0] as int - 0xC0) * 0x40 + (b[1] as int - 0x80);
    assert DecodeFirst(b) == Scalar(n as char, 2);
    DivMod64(n, b[0] as int - 0xC0, b[1] as int - 0x80);
  }

  lemma ThreeByteIsEncoding(b: seq<byte>)
    requires |b| >= 3 && 0xE0 <= b[0] <= 0xEF && ValidSecondOfThree(b[0], b[1]) && IsContinuation(b[2])
    ensures EncodeChar(DecodeFirst(b).c) == b[..3]
  {
    var q := (b[0] as int - 0xE0) * 0x40 + (b[1] as int - 0x80);
    var n := q * 0x40 + (b[2] as int - 0x80);
    assert n == (b[0] as int - 0xE0) * 0x1000 + (b[1] as int - 0x80) * 0x40 + (b[2] as int - 0x80);
    assert DecodeFirst(b) == Scalar(n as char, 3);
    DivMod64(n, q, b[2] as int - 0x80);
    DivMod64(q, b[0] as int - 0xE0, b[1] as int - 0x80);
    assert n / 0x1000 == q / 0x40;
  }

  lemma FourByteIsEncoding(b: seq<byte>)
    requires |b| >= 4 && 0xF0 <= b[0] <= 0xF4 && ValidSecondOfFour(b[0], b[1])
    requires IsContinuation(b[2]) && IsContinuation(b[3])
    ensures EncodeChar(DecodeFirst(b).c) == b[..4]
  {
    var q2 := (b[0] as int - 0xF0) * 0x40 + (b[1] as int - 0x80);
    var q := q2 * 0x40 + (b[2] as int - 0x80);
    var n := q * 0x40 + (b[3] as int - 0x80);
    assert n == (b[0] as int - 0xF0) * 0x40000 + (b[1] as int - 0x80) * 0x1000 + (b[2] as int - 0x80) * 0x40 + (b[3] as int - 0x80);
    assert DecodeFirst(b) == Scalar(n as char, 4);
    DivMod64(n, q, b[3] as int - 0x80);
    DivMod64(q, q2, b[2] as int - 0x80);
    DivMod64(q2, b[0] as int - 0xF0, b[1] as int - 0x80);
    assert n / 0x1000 == q2;
    assert n / 0x40000 == q2 / 0x40;
  }

  /** A well-formed sequence at the head of `b` is the encoding of the character read from it. */
  lemma DecodeFirstIsEncoding(b: seq<byte>)
    requires |b| > 0 && DecodeFirst(b).Scalar?
    ensures b[..DecodeFirst(b).width] == EncodeChar(DecodeFirst(b).c)
  {
    var b0 := b[0];
    if 0xC2 <= b0 <= 0xDF {
      TwoByteIsEncoding(b);
    } else if 0xE0 <= b0 <= 0xEF {
      ThreeByteIsEncoding(b);
    } else if 0xF0 <= b0 <= 0xF4 {
      FourByteIsEncoding(b);
    }
  }

  lemma EncodeCons(c: char, s: string)
    ensures Encode([c] + s) == EncodeChar(c) + Encode(s)
  {
    assert ([c] + s)[1..] == s;
  }

  /** Accepted input starts with the encoding of a character, and the rest is accepted too. */
  lemma DecodeHead(b: seq<byte>) returns (c: char, w: nat)
    requires b != [] && Decode(b).Ok?
    ensures 1 <= w <= |b| && b[..w] == EncodeChar(c)
    ensures Decode(b[w..]).Ok? && Decode(b).value == [c] + Decode(b[w..]).value
  {
    c, w := DecodeFirst(b).c, DecodeFirst(b).width;
    DecodeFirstIsEncoding(b);
  }

  /** Encoding inverts successful decoding: accepted bytes are exactly the
      encoding of the text they decode to, so nothing is dropped or altered. */
  lemma {:induction false} EncodeDecode(b: seq<byte>)
    requires Decode(b).Ok?
    ensures Encode(Decode(b).value) == b
    decreases |b|
  {
    if b != [] {
      var c, w := DecodeHead(b);
      var tail := b[w..];
      EncodeDecode(tail);
      EncodeCons(c, Decode(tail).value);
      assert b == b[..w] + tail;
    }
  }

  /** Bytes are rejected exactly when they are not the encoding of any text. */
  lemma DecodeFailsIffNotEncoding(b: seq<byte>)
    ensures Decode(b).Err? <==> forall s :: Encode(s) != b
  {
    if Decode(b).Ok? {
      EncodeDecode(b);
    } else {
      forall s ensures Encode(s) != b {
        DecodeEncode(s);
      }
    }
  }

  /** A sequence read in full at the head is read the same from any prefix that still holds it. */
  lemma DecodeFirstOfPrefixScalar(b: seq<byte>, j: nat)
    requires |b| > 0 && DecodeFirst(b).Scalar? && DecodeFirst(b).width <= j <= |b|
    ensures DecodeFirst(b[..j]) == DecodeFirst(b)
  {
  }

  /** An ill-formed or truncated head stays ill-formed or truncated in every non-empty prefix. */
  lemma DecodeFirstOfPrefixInvalid(b: seq<byte>, j: nat)
    requires 0 < j <= |b| && DecodeFirst(b).Invalid?
    ensures DecodeFirst(b[..j]).Invalid?
  {
  }

  /** No prefix of rejected input longer than `validUpTo` decodes. */
  lemma {:induction false} ValidUpToIsLongest(b: seq<byte>, j: nat)
    requires Decode(b).Err? && Decode(b).error.validUpTo < j <= |b|
    ensures Decode(b[..j]).Err?
    decreases |b|
  {
    var st := DecodeFirst(b);
    if st.Invalid? {
      DecodeFirstOfPrefixInvalid(b, j);
    } else {
      var w := st.width;
      DecodeFirstOfPrefixScalar(b, j);
      assert b[..j][w..] == b[w..][..j - w];
      ValidUpToIsLongest(b[w..], j - w);
    }
  }

  lemma {:induction false} ValidPrefixOk(b: seq<byte>)
    requires Decode(b).Err?
    ensures Decode(b[..Decode(b).error.validUpTo]).Ok?
    decreases |b|
  {
    var st := DecodeFirst(b);
    if st.Scalar? {
      var v := Decode(b).error.validUpTo;
      var p := b[..v];
      ValidPrefixOk(b[st.width..]);
      assert p[st.width..] == b[st.width..][..v - st.width];
      DecodeFirstIsEncoding(b);
      assert p == EncodeChar(st.c) + p[st.width..];
      DecodeFirstEncodeChar(st.c, p[st.width..]);
    }
  }

  /** `valid_up_to` is the length of the longest prefix of rejected input
      that decodes: the bytes before it decode on their own, and no longer
      prefix does. */
  lemma ValidPrefixDecodes(b: seq<byte>)
    requires Decode(b).Err?
    ensures Decode(b[..Decode(b).error.validUpTo]).Ok?
    ensures forall j :: Decode(b).error.validUpTo < j <= |b| ==> Decode(b[..j]).Err?
  {
    ValidPrefixOk(b);
    forall j | Decode(b).error.validUpTo < j <= |b|
      ensures Decode(b[..j]).Err?
    {
      ValidUpToIsLongest(b, j);
    }
  }
}
