/** Bytes, bounded integers and the big-endian encodings of the wire format. */
module Bytes {

  type byte = b: int | 0 <= b < 0x100
  type u16 = v: int | 0 <= v < 0x1_0000
  type u32 = v: int | 0 <= v < 0x1_0000_0000
  type u64 = v: int | 0 <= v < 0x1_0000_0000_0000_0000
  type i32 = v: int | -0x8000_0000 <= v < 0x8000_0000
  type bytes = seq<byte>

  datatype Option<+T> = None | Some(value: T)

  datatype Result<+T, +E> = Ok(value: T) | Err(error: E) {
    predicate IsFailure() {
      Err?
    }

    function PropagateFailure<U>(): Result<U, E>
      requires Err?
    {
      Err(error)
    }

    function Extract(): T
      requires Ok?
    {
      value
    }
  }

  function U16Bytes(v: u16): (b: bytes)
    ensures |b| == 2
  {
    [v / 0x100, v % 0x100]
  }

  function U16Of(b: bytes): u16
    requires |b| == 2
  {
    b[0] as int * 0x100 + b[1] as int
  }

  function U32Bytes(v: u32): (b: bytes)
    ensures |b| == 4
  {
    U16Bytes(v / 0x1_0000) + U16Bytes(v % 0x1_0000)
  }

  function U32Of(b: bytes): u32
    requires |b| == 4
  {
    U16Of(b[..2]) as int * 0x1_0000 + U16Of(b[2..]) as int
  }

  function U64Bytes(v: u64): (b: bytes)
    ensures |b| == 8
  {
    U32Bytes(v / 0x1_0000_0000) + U32Bytes(v % 0x1_0000_0000)
  }

  function U64Of(b: bytes): u64
    requires |b| == 8
  {
    U32Of(b[..4]) as int * 0x1_0000_0000 + U32Of(b[4..]) as int
  }

  lemma U16RoundTrip(v: u16, b: bytes)
    requires |b| == 2
    ensures U16Of(U16Bytes(v)) == v
    ensures U16Bytes(U16Of(b)) == b
  {
  }

  lemma U32RoundTrip(v: u32, b: bytes)
    requires |b| == 4
    ensures U32Of(U32Bytes(v)) == v
    ensures U32Bytes(U32Of(b)) == b
  {
    hide U16Bytes, U16Of;
    assert U32Bytes(v)[..2] == U16Bytes(v / 0x1_0000);
    assert U32Bytes(v)[2..] == U16Bytes(v % 0x1_0000);
    U16RoundTrip(v / 0x1_0000, b[..2]);
    U16RoundTrip(v % 0x1_0000, b[2..]);
    assert b == b[..2] + b[2..];
  }

  lemma U64RoundTrip(v: u64, b: bytes)
    requires |b| == 8
    ensures U64Of(U64Bytes(v)) == v
    ensures U64Bytes(U64Of(b)) == b
  {
    hide U32Bytes, U32Of;
    assert U64Bytes(v)[..4] == U32Bytes(v / 0x1_0000_0000);
    assert U64Bytes(v)[4..] == U32Bytes(v % 0x1_0000_0000);
    U32RoundTrip(v / 0x1_0000_0000, b[..4]);
    U32RoundTrip(v % 0x1_0000_0000, b[4..]);
    assert b == b[..4] + b[4..];
  }

  /** The number a byte string spells with its most significant byte first. */
  function BigEndian(b: bytes): nat {
    if b == [] then 0 else BigEndian(b[..|b| - 1]) * 0x100 + b[|b| - 1] as int
  }

  lemma ReadBigEndian(b: bytes)
    ensures |b| == 2 ==> U16Of(b) == BigEndian(b)
    ensures |b| == 4 ==> U32Of(b) == BigEndian(b)
  {
    if |b| == 2 {
      TwoBigEndian(b);
    }
    if |b| == 4 {
      hide U16Of;
      TwoBigEndian(b[..2]);
      TwoBigEndian(b[2..]);
      assert b[..3][..2] == b[..2];
      assert BigEndian(b) == BigEndian(b[..3]) * 0x100 + b[3] as int;
      assert BigEndian(b[..3]) == BigEndian(b[..2]) * 0x100 + b[2] as int;
      assert BigEndian(b[2..]) == b[2] as int * 0x100 + b[3] as int;
    }
  }

  lemma TwoBigEndian(b: bytes)
    requires |b| == 2
    ensures BigEndian(b) == b[0] as int * 0x100 + b[1] as int == U16Of(b)
  {
    assert b[..1][..0] == [];
    assert BigEndian(b[..1]) == b[0] as int;
  }

  /** Concatenation of a list of byte strings. */
  function Flatten(chunks: seq<bytes>): bytes {
    if chunks == [] then [] else chunks[0] + Flatten(chunks[1..])
  }
}
