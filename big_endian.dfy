/** Bytes, unsigned 32-bit words, and the big-endian (network byte order)
    conversion between them that the message codec writes and reads with
    binary.BigEndian.PutUint32 and binary.BigEndian.Uint32. */
module BigEndian {

  newtype byte = x: int | 0 <= x < 0x100

  newtype uint32 = x: int | 0 <= x < 0x1_0000_0000

  /** The four bytes of `v`, most significant first: byte(v >> 24),
      byte(v >> 16), byte(v >> 8), byte(v), each `byte(...)` truncating. */
  function PutUint32(v: uint32): (b: seq<byte>)
    ensures |b| == 4
  {
    [(v / 0x100_0000) as byte,
     (v / 0x1_0000 % 0x100) as byte,
     (v / 0x100 % 0x100) as byte,
     (v % 0x100) as byte]
  }

  /** The word whose big-endian bytes are the first four of `b`
      (Go panics when fewer than four are given). */
  function Uint32(b: seq<byte>): (v: uint32)
    requires |b| >= 4
  {
    (b[0] as int * 0x100_0000 + b[1] as int * 0x1_0000 + b[2] as int * 0x100 + b[3] as int) as uint32
  }

  /** Reading back what was put gives the original word. */
  lemma Uint32PutUint32(v: uint32)
    ensures Uint32(PutUint32(v)) == v
  {
    var x := v as int;
    var b := PutUint32(v);
    assert x == (x / 0x100) * 0x100 + x % 0x100;
    assert x / 0x100 == (x / 0x1_0000) * 0x100 + x / 0x100 % 0x100;
    assert x / 0x1_0000 == (x / 0x100_0000) * 0x100 + x / 0x1_0000 % 0x100;
    assert x / 0x100_0000 < 0x100;
  }

  /** Putting what was read gives back the four bytes it was read from. */
  lemma PutUint32Uint32(b: seq<byte>)
    requires |b| >= 4
    ensures PutUint32(Uint32(b)) == b[..4]
  {
    var b0, b1, b2, b3 := b[0] as int, b[1] as int, b[2] as int, b[3] as int;
    var hi := b0 * 0x100 + b1;
    var mid := hi * 0x100 + b2;
    var x := mid * 0x100 + b3;
    assert Uint32(b) as int == x;
    ShiftByte(mid, b3);
    ShiftByte(hi, b2);
    ShiftByte(b0, b1);
    assert x / 0x1_0000 == (x / 0x100) / 0x100;
    assert x / 0x100_0000 == (x / 0x1_0000) / 0x100;
  }

  /** Appending one byte below `a` and dividing by 256 recovers both. */
  lemma ShiftByte(a: int, r: int)
    requires 0 <= a && 0 <= r < 0x100
    ensures (a * 0x100 + r) / 0x100 == a && (a * 0x100 + r) % 0x100 == r
  {
  }

  /** Two words with the same big-endian bytes are equal, so the encoding
      loses nothing. */
  lemma PutUint32Injective(v: uint32, w: uint32)
    requires PutUint32(v) == PutUint32(w)
    ensures v == w
  {
    Uint32PutUint32(v);
    Uint32PutUint32(w);
  }
}
