/** Java's 32-bit `int` where the older tree keeps an IPv4 address in one:
    the wrap-around of `<<`, the arithmetic shift `>>` and masks of the form
    `(1 << w) - 1`. An `int` is modelled by its signed value. */
module JavaInts {
  import opened Bits

  /** `2^32`, the number of `int` values. */
  const IntSpan: nat := 0x1_0000_0000
  /** `Integer.MIN_VALUE`. */
  const IntMin: int := -0x8000_0000

  /** The `int` an exact result wraps to. */
  function Int32(x: int): (r: int)
    ensures IntMin <= r < -IntMin
  {
    (x - IntMin) % IntSpan + IntMin
  }

  /** `(x >> shift) & ((1 << width) - 1)`. Java reads both shift counts
      modulo 32; `>>` on a signed value is division rounding down, and the
      low `w` bits of a two's-complement value are its remainder modulo
      `2^w`, so `& 0xFF` is `width` 8 and `& 0xFFFF` is `width` 16. */
  function Field(x: int, shift: int, width: int): (r: nat)
    ensures r < Pow2(width % 32)
  {
    (x / Pow2(shift % 32)) % Pow2(width % 32)
  }

  /** The unsigned number a big-endian byte string spells. */
  function BigEndian(bytes: seq<Byte>): nat
  {
    if |bytes| == 0 then 0 else BigEndian(bytes[..|bytes| - 1]) * 256 + bytes[|bytes| - 1]
  }

  /** The `int` `lookup(byte[])` packs a 4-byte address into. */
  function PackedIp(key: seq<Byte>): int {
    Int32(BigEndian(key))
  }

  /** Adding whole turns of `2^32` does not change the `int`. */
  lemma Int32Turns(x: int, j: int)
    ensures Int32(x + j * IntSpan) == Int32(x)
  {
    var q, r := (x - IntMin) / IntSpan, (x - IntMin) % IntSpan;
    DivModUnique(x + j * IntSpan - IntMin, IntSpan, q + j, r);
  }

  /** One round of the packing loop, `ip = (ip << 8) | (b & 0xFF)`: the low
      byte of `ip << 8` is zero, so the `|` adds the byte, and wrapping
      before the shift wraps the same. */
  lemma PackStep(x: int, b: Byte)
    ensures Int32(Int32(x) * 256 + b) == Int32(x * 256 + b)
  {
    var q := (x - IntMin) / IntSpan;
    assert Int32(x) == x - q * IntSpan;
    assert Int32(x) * 256 + b == x * 256 + b + (-256 * q) * IntSpan;
    Int32Turns(x * 256 + b, -256 * q);
  }

  lemma BigEndianSnoc(bytes: seq<Byte>, i: nat)
    requires i < |bytes|
    ensures BigEndian(bytes[..i + 1]) == BigEndian(bytes[..i]) * 256 + bytes[i]
  {
    assert bytes[..i + 1][..i] == bytes[..i];
  }

  /** A 4-byte address spelled out. */
  lemma BigEndianFour(key: seq<Byte>)
    requires |key| == 4
    ensures BigEndian(key) == 16777216 * (key[0] as int) + 65536 * (key[1] as int) + 256 * (key[2] as int) + key[3] as int
  {
    BigEndianSnoc(key, 3);
    BigEndianSnoc(key, 2);
    BigEndianSnoc(key, 1);
    BigEndianSnoc(key, 0);
    assert key[..4] == key;
    assert key[..3][..2] == key[..2];
    assert key[..2][..1] == key[..1];
    assert key[..1][..0] == [];
  }

  /** The packed address is the unsigned one, less `2^32` when its top bit
      is set. */
  lemma PackedSign(key: seq<Byte>)
    requires |key| == 4
    ensures PackedIp(key) == BigEndian(key) - (if key[0] >= 128 then IntSpan else 0)
  {
    BigEndianFour(key);
    var u := BigEndian(key);
    if key[0] >= 128 {
      DivModUnique(u - IntMin, IntSpan, 1, u - IntMin - IntSpan);
    } else {
      DivModUnique(u - IntMin, IntSpan, 0, u - IntMin);
    }
  }

  /** `(ip >> 16) & 0xFFFF` is the first two bytes, `(ip >> 8) & 0xFF` the
      third and `ip & 0xFF` the fourth, whatever the sign. */
  lemma PackedFields(key: seq<Byte>)
    requires |key| == 4
    ensures Field(PackedIp(key), 16, 16) == (key[0] as int) * 256 + key[1] as int
    ensures Field(PackedIp(key), 8, 8) == key[2]
    ensures Field(PackedIp(key), 0, 8) == key[3]
  {
    Pow2Byte();
    Pow2Short();
    BigEndianFour(key);
    PackedSign(key);
    var x := PackedIp(key);
    var b0, b1, b2, b3: int := key[0], key[1], key[2], key[3];
    var neg: int := if b0 >= 128 then 1 else 0;
    var top: int := b1 + 256 * b0 - 65536 * neg;
    var mid: int := b2 + 256 * top;
    assert x == b3 + 256 * mid;
    DivModUnique(x, 256, mid, b3);
    DivModUnique(mid, 256, top, b2);
    assert x == (b3 + 256 * b2) + 65536 * top;
    DivModUnique(x, 65536, top, b3 + 256 * b2);
    DivModUnique(top, 65536, -neg, b1 + 256 * b0);
  }
}
