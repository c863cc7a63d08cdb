/** Little-endian encoding of 32-bit unsigned integers, the byte order that
    `binary.LittleEndian` reads; the probe writes host byte order, which is
    this order on the little-endian hosts (x86-64, arm64) the model assumes. */
module LittleEndian {
  import opened Common

  /** The four bytes of `x`, least significant first. */
  function FromU32(x: u32): (b: seq<byte>)
    ensures |b| == 4
    ensures b[0] == x % 0x100
  {
    [x % 0x100, (x / 0x100) % 0x100, (x / 0x1_0000) % 0x100, x / 0x100_0000]
  }

  /** The value of four bytes read least significant first. */
  function ToU32(b: seq<byte>): (x: u32)
    requires |b| == 4
    ensures x % 0x100 == b[0]
  {
    var b0: int, b1: int, b2: int, b3: int := b[0], b[1], b[2], b[3];
    b0 + 0x100 * b1 + 0x1_0000 * b2 + 0x100_0000 * b3
  }

  /** Decoding an encoded value gives the value back. */
  lemma ToFromU32(x: u32)
    ensures ToU32(FromU32(x)) == x
  {
    var q1 := x / 0x100;
    var q2 := q1 / 0x100;
    var q3 := q2 / 0x100;
    assert x == x % 0x100 + 0x100 * q1;
    assert q1 == q1 % 0x100 + 0x100 * q2;
    assert q2 == q2 % 0x100 + 0x100 * q3;
    assert q2 == x / 0x1_0000;
    assert q3 == x / 0x100_0000;
  }

  /** Encoding a decoded value gives the same four bytes back. */
  lemma FromToU32(b: seq<byte>)
    requires |b| == 4
    ensures FromU32(ToU32(b)) == b
  {
    var b0: int, b1: int, b2: int, b3: int := b[0], b[1], b[2], b[3];
    var x := ToU32(b);
    var r1 := b1 + 0x100 * b2 + 0x1_0000 * b3;
    var r2 := b2 + 0x100 * b3;
    assert x == b0 + 0x100 * r1;
    assert x / 0x100 == r1;
    assert r1 == b1 + 0x100 * r2;
    assert r1 / 0x100 == r2;
    assert x / 0x1_0000 == r2 by {
      assert x == b0 + 0x100 * b1 + 0x1_0000 * r2;
    }
    assert x / 0x100_0000 == b3 by {
      assert x == (b0 + 0x100 * b1 + 0x1_0000 * b2) + 0x100_0000 * b3;
    }
  }

  /** Two values with the same encoding are equal: the encoding loses nothing. */
  lemma FromU32Injective(x: u32, y: u32)
    requires FromU32(x) == FromU32(y)
    ensures x == y
  {
    ToFromU32(x);
    ToFromU32(y);
  }
}
