/** Well-formed UTF-8, as section 4 of RFC 3629 lays out its byte sequences. */
module Utf8 {
  import opened Bytes

  predicate Tail(b: byte) {
    0x80 <= b <= 0xBF
  }

  /** Length of the well-formed character at the front of `s`, zero when there is none. */
  function CharLen(s: bytes): (n: nat)
    ensures n <= |s|
  {
    if |s| >= 1 && s[0] <= 0x7F then 1
    else if |s| >= 2 && 0xC2 <= s[0] <= 0xDF && Tail(s[1]) then 2
    else if |s| >= 3 && ThreeByteLead(s[0], s[1]) && Tail(s[2]) then 3
    else if |s| >= 4 && FourByteLead(s[0], s[1]) && Tail(s[2]) && Tail(s[3]) then 4
    else 0
  }

  predicate ThreeByteLead(a: byte, b: byte) {
    (a == 0xE0 && 0xA0 <= b <= 0xBF)
    || (0xE1 <= a <= 0xEC && Tail(b))
    || (a == 0xED && 0x80 <= b <= 0x9F)
    || (0xEE <= a <= 0xEF && Tail(b))
  }

  predicate FourByteLead(a: byte, b: byte) {
    (a == 0xF0 && 0x90 <= b <= 0xBF)
    || (0xF1 <= a <= 0xF3 && Tail(b))
    || (a == 0xF4 && 0x80 <= b <= 0x8F)
  }

  predicate ValidUtf8(s: bytes)
    decreases |s|
  {
    s == [] || (CharLen(s) > 0 && ValidUtf8(s[CharLen(s)..]))
  }

  // --------------------------------------------------------- scalar values

  /** A Unicode scalar value: a code point that is not a surrogate. */
  predicate Scalar(c: int) {
    0 <= c <= 0x10FFFF && !(0xD800 <= c <= 0xDFFF)
  }

  /** The bytes of a scalar value: the fewest that hold its bits, six to a trailing byte. */
  function CharBytes(c: int): (b: bytes)
    requires Scalar(c)
    ensures b != []
  {
    var high := c / 0x40;
    if c < 0x80 then [c]
    else if c < 0x800 then [0xC0 + high, 0x80 + c % 0x40]
    else if c < 0x1_0000 then [0xE0 + high / 0x40, 0x80 + high % 0x40, 0x80 + c % 0x40]
    else [0xF0 + high / 0x40 / 0x40, 0x80 + high / 0x40 % 0x40, 0x80 + high % 0x40, 0x80 + c % 0x40]
  }

  predicate AllScalars(cs: seq<int>) {
    forall i :: 0 <= i < |cs| ==> Scalar(cs[i])
  }

  function TextBytes(cs: seq<int>): bytes
    requires AllScalars(cs)
  {
    if cs == [] then [] else CharBytes(cs[0]) + TextBytes(cs[1..])
  }

  /** Six more bits behind those already read. */
  function Shifted(high: int, trailing: byte): int {
    high * 0x40 + (trailing as int - 0x80)
  }

  /** The character at the front of `s`. */
  function CharAt(s: bytes): int
    requires CharLen(s) > 0
  {
    var lead := s[0] as int;
    match CharLen(s)
    case 1 => lead
    case 2 => Shifted(lead - 0xC0, s[1])
    case 3 => Shifted(Shifted(lead - 0xE0, s[1]), s[2])
    case _ => Shifted(Shifted(Shifted(lead - 0xF0, s[1]), s[2]), s[3])
  }

  lemma ShiftedSplits(high: int, trailing: byte)
    requires Tail(trailing)
    ensures Shifted(high, trailing) / 0x40 == high && 0x80 + Shifted(high, trailing) % 0x40 == trailing
  {
  }

  lemma CharIsWritten(s: bytes)
    requires CharLen(s) > 0
    ensures Scalar(CharAt(s)) && CharBytes(CharAt(s)) == s[..CharLen(s)]
  {
    hide Shifted;
    var lead := s[0] as int;
    match CharLen(s)
    case 1 =>
    case 2 =>
      TwoBytes(lead, s[1]);
    case 3 =>
      ThreeBytes(lead, s[1], s[2]);
    case _ =>
      FourBytes(lead, s[1], s[2], s[3]);
  }

  lemma TwoBytes(lead: int, a: byte)
    requires 0xC2 <= lead <= 0xDF && Tail(a)
    ensures var c := Shifted(lead - 0xC0, a); 0x80 <= c < 0x800 && CharBytes(c) == [lead, a]
  {
    ShiftedSplits(lead - 0xC0, a);
  }

  lemma ThreeBytes(lead: byte, a: byte, b: byte)
    requires ThreeByteLead(lead, a) && Tail(b)
    ensures var c := Shifted(Shifted(lead as int - 0xE0, a), b);
            0x800 <= c < 0x1_0000 && Scalar(c) && CharBytes(c) == [lead, a, b]
  {
    var high := Shifted(lead as int - 0xE0, a);
    ShiftedSplits(lead as int - 0xE0, a);
    ShiftedSplits(high, b);
  }

  lemma FourBytes(lead: byte, a: byte, b: byte, d: byte)
    requires FourByteLead(lead, a) && Tail(b) && Tail(d)
    ensures var c := Shifted(Shifted(Shifted(lead as int - 0xF0, a), b), d);
            0x1_0000 <= c <= 0x10FFFF && CharBytes(c) == [lead, a, b, d]
  {
    var high := Shifted(lead as int - 0xF0, a);
    ShiftedSplits(lead as int - 0xF0, a);
    ShiftedSplits(high, b);
    ShiftedSplits(Shifted(high, b), d);
  }

  lemma CharIsRead(c: int, rest: bytes)
    requires Scalar(c)
    ensures CharLen(CharBytes(c) + rest) == |CharBytes(c)|
  {
    var b := CharBytes(c);
    assert forall i :: 0 <= i < |b| ==> (b + rest)[i] == b[i];
    if 0x800 <= c < 0x1_0000 {
      assert ThreeByteLead(b[0], b[1]);
    } else if c >= 0x1_0000 {
      assert FourByteLead(b[0], b[1]);
    }
  }

  /** Well-formed UTF-8 is exactly what scalar values are written as. */
  lemma {:induction false} TextIsValid(cs: seq<int>)
    requires AllScalars(cs)
    ensures ValidUtf8(TextBytes(cs))
    decreases |cs|
  {
    hide CharBytes, CharLen;
    if cs != [] {
      var rest := TextBytes(cs[1..]);
      TextIsValid(cs[1..]);
      CharIsRead(cs[0], rest);
      assert (CharBytes(cs[0]) + rest)[|CharBytes(cs[0])|..] == rest;
    }
  }

  lemma {:induction false} ValidIsText(s: bytes) returns (cs: seq<int>)
    requires ValidUtf8(s)
    ensures AllScalars(cs) && s == TextBytes(cs)
    decreases |s|
  {
    hide CharBytes, CharLen, CharAt;
    if s == [] {
      cs := [];
    } else {
      CharIsWritten(s);
      var more := ValidIsText(s[CharLen(s)..]);
      cs := [CharAt(s)] + more;
      assert cs[1..] == more;
      assert s == s[..CharLen(s)] + s[CharLen(s)..];
    }
  }

  lemma ValidIff(s: bytes)
    ensures ValidUtf8(s) <==> exists cs: seq<int> :: AllScalars(cs) && s == TextBytes(cs)
  {
    if ValidUtf8(s) {
      var cs := ValidIsText(s);
    }
    if cs: seq<int> :| AllScalars(cs) && s == TextBytes(cs) {
      TextIsValid(cs);
    }
  }
}
