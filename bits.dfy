/** Bit-level vocabulary shared by every stage: bytes as 0..255 (Java's signed
    bytes are always read through `& 0xFF` or a shift-and-mask that gives the
    same bit), MSB-first bit strings, powers of two and population counts. */
module Bits {

  type Byte = x: int | 0 <= x < 256

  function Pow2(n: nat): (r: nat)
    ensures r >= 1
  {
    if n == 0 then 1 else 2 * Pow2(n - 1)
  }

  /** One more bit doubles. */
  lemma Pow2Succ(n: nat)
    ensures Pow2(n + 1) == 2 * Pow2(n)
  {
  }

  lemma {:induction false} Pow2Add(a: nat, b: nat)
    ensures Pow2(a + b) == Pow2(a) * Pow2(b)
  {
    if a > 0 {
      Pow2Add(a - 1, b);
    }
  }

  lemma {:induction false} Pow2Monotone(a: nat, b: nat)
    requires a <= b
    ensures Pow2(a) <= Pow2(b)
  {
    if a < b {
      Pow2Monotone(a, b - 1);
    }
  }

  lemma Pow2Byte()
    ensures Pow2(8) == 256
  {
    assert Pow2(4) == 16;
    Pow2Add(4, 4);
  }

  lemma Pow2Short()
    ensures Pow2(16) == 65536
  {
    Pow2Byte();
    Pow2Add(8, 8);
  }

  /** Bit `i` (MSB first) of a byte string: bit `7 - i % 8` of byte `i / 8`,
      exactly the `(bytes[i / 8] >> (7 - i % 8)) & 1` of the trie walks. */
  function BitAt(bytes: seq<Byte>, i: nat): bool
    requires i < 8 * |bytes|
  {
    (bytes[i / 8] / Pow2(7 - i % 8)) % 2 == 1
  }

  /** All `8 * |bytes|` bits of a byte string, MSB first: each byte's 8-bit
      spelling in turn. */
  function BytesToBits(bytes: seq<Byte>): (r: seq<bool>)
    ensures |r| == 8 * |bytes|
    decreases |bytes|
  {
    if |bytes| == 0 then [] else NatToBits(bytes[0], 8) + BytesToBits(bytes[1..])
  }

  /** The unsigned number an MSB-first bit string spells. */
  function BitsToNat(s: seq<bool>): nat
  {
    if |s| == 0 then 0 else 2 * BitsToNat(s[..|s| - 1]) + (if s[|s| - 1] then 1 else 0)
  }

  /** Appending a bit doubles and adds it. */
  lemma BitsSnoc(s: seq<bool>, b: bool)
    ensures BitsToNat(s + [b]) == 2 * BitsToNat(s) + (if b then 1 else 0)
  {
    assert (s + [b])[..|s|] == s;
  }

  lemma {:induction false} BitsToNatBound(s: seq<bool>)
    ensures BitsToNat(s) < Pow2(|s|)
  {
    if |s| > 0 {
      BitsToNatBound(s[..|s| - 1]);
    }
  }

  lemma {:induction false} BitsToNatAppend(s: seq<bool>, t: seq<bool>)
    ensures BitsToNat(s + t) == BitsToNat(s) * Pow2(|t|) + BitsToNat(t)
    decreases |t|
  {
    if |t| == 0 {
      assert s + t == s;
    } else {
      var t' := t[..|t| - 1];
      assert (s + t)[..|s + t| - 1] == s + t';
      assert (s + t)[|s + t| - 1] == t[|t| - 1];
      BitsToNatAppend(s, t');
      var a, p := BitsToNat(s), Pow2(|t'|);
      assert Pow2(|t|) == 2 * p;
      MulDouble(a, p);
    }
  }

  lemma MulDouble(a: int, p: int)
    ensures a * (2 * p) == 2 * (a * p)
  {
  }

  /** The first `k` bits of a bit string are its value shifted right by the
      number of bits dropped: `v >>> (|s| - k)`. */
  lemma HighBits(s: seq<bool>, k: nat)
    requires k <= |s|
    ensures BitsToNat(s) / Pow2(|s| - k) == BitsToNat(s[..k])
    ensures BitsToNat(s) % Pow2(|s| - k) == BitsToNat(s[k..])
  {
    assert s == s[..k] + s[k..];
    BitsToNatAppend(s[..k], s[k..]);
    BitsToNatBound(s[k..]);
    DivModUnique(BitsToNat(s), Pow2(|s| - k), BitsToNat(s[..k]), BitsToNat(s[k..]));
  }

  /** Euclidean division has one quotient and one remainder, for negative
      dividends too. */
  lemma DivModUnique(n: int, d: nat, q: int, r: nat)
    requires d > 0 && r < d && n == q * d + r
    ensures n / d == q && n % d == r
  {
    var q0, r0 := n / d, n % d;
    assert q0 * d + r0 == n;
    if q > q0 {
      MulAtLeast(q - q0, d);
      assert false;
    } else if q < q0 {
      MulAtLeast(q0 - q, d);
      assert false;
    }
  }

  lemma DivModDef(n: nat, d: nat)
    requires d > 0
    ensures n == (n / d) * d + n % d && n % d < d
  {
  }

  lemma {:induction false} MulAtLeast(a: nat, d: nat)
    requires a >= 1
    ensures a * d >= d
  {
    if a > 1 {
      MulAtLeast(a - 1, d);
      assert a * d == (a - 1) * d + d;
    }
  }

  /** The `d`-bit MSB-first spelling of `n` (the path of slot `n` in a table
      of `2^d` slots). */
  function NatToBits(n: nat, d: nat): (r: seq<bool>)
    ensures |r| == d
  {
    if d == 0 then [] else NatToBits(n / 2, d - 1) + [n % 2 == 1]
  }

  lemma {:induction false} NatToBitsToNat(n: nat, d: nat)
    requires n < Pow2(d)
    ensures BitsToNat(NatToBits(n, d)) == n
  {
    if d > 0 {
      NatToBitsToNat(n / 2, d - 1);
      var s := NatToBits(n, d);
      assert s[..d - 1] == NatToBits(n / 2, d - 1);
    }
  }

  lemma {:induction false} BitsToNatToBits(s: seq<bool>)
    ensures NatToBits(BitsToNat(s), |s|) == s
  {
    if |s| > 0 {
      var p := s[..|s| - 1];
      BitsToNatToBits(p);
      var n := BitsToNat(s);
      assert n / 2 == BitsToNat(p);
      assert s == p + [s[|s| - 1]];
    }
  }

  /** The first `d` bits of the `D`-bit spelling of `n` spell `n >>> (D - d)`:
      slot `n` of a table lies under the prefix `n / 2^(D - d)`. */
  lemma {:induction false} NatToBitsPrefix(n: nat, big: nat, d: nat)
    requires d <= big
    ensures NatToBits(n, big)[..d] == NatToBits(n / Pow2(big - d), d)
    decreases big - d
  {
    if d == big {
      assert Pow2(0) == 1;
    } else {
      NatToBitsPrefix(n / 2, big - 1, d);
      ModDouble(n, Pow2(big - 1 - d));
      assert Pow2(big - d) == 2 * Pow2(big - 1 - d);
      assert NatToBits(n, big)[..d] == NatToBits(n / 2, big - 1)[..d];
    }
  }

  /** The two children of prefix `x` are `2x` and `2x + 1`. */
  lemma NatToBitsChild(x: nat, d: nat, b: bool)
    ensures NatToBits(2 * x + (if b then 1 else 0), d + 1) == NatToBits(x, d) + [b]
  {
  }

  /** Where `s` lies relative to multiples of `p`, `s / p` lies relative to
      their factors. */
  lemma DivBounds(s: nat, p: nat, a: nat)
    requires p > 0
    ensures a * p <= s ==> a <= s / p
    ensures s < a * p ==> s / p < a
  {
    var q := s / p;
    DivModDef(s, p);
    if q < a {
      MulLe(q + 1, a, p);
      assert (q + 1) * p == q * p + p;
    } else {
      MulLe(a, q, p);
    }
  }

  lemma MulLe(a: nat, b: nat, p: nat)
    requires a <= b
    ensures a * p <= b * p
  {
    assert b * p == a * p + (b - a) * p;
  }

  lemma BitsToNatInjective(s: seq<bool>, t: seq<bool>)
    requires |s| == |t| && BitsToNat(s) == BitsToNat(t)
    ensures s == t
  {
    BitsToNatToBits(s);
    BitsToNatToBits(t);
  }

  /** Number of `true` entries of a bit string. */
  function CountTrue(s: seq<bool>): (r: nat)
    ensures r <= |s|
  {
    if |s| == 0 then 0 else CountTrue(s[..|s| - 1]) + (if s[|s| - 1] then 1 else 0)
  }

  lemma {:induction false} CountTrueAppend(s: seq<bool>, t: seq<bool>)
    ensures CountTrue(s + t) == CountTrue(s) + CountTrue(t)
    decreases |t|
  {
    if |t| == 0 {
      assert s + t == s;
    } else {
      assert (s + t)[..|s + t| - 1] == s + t[..|t| - 1];
      CountTrueAppend(s, t[..|t| - 1]);
    }
  }

  /** `Integer.bitCount`, the contents of every `INDEX_TABLE`. */
  function PopCount(n: nat): nat
  {
    if n == 0 then 0 else n % 2 + PopCount(n / 2)
  }

  /** The population count of a spelled number is the number of ones in its
      spelling: what the rank-before and in-cluster rank computations rely on. */
  lemma {:induction false} PopCountOfBits(s: seq<bool>)
    ensures PopCount(BitsToNat(s)) == CountTrue(s)
  {
    if |s| > 0 {
      var p := s[..|s| - 1];
      PopCountOfBits(p);
      var n := BitsToNat(s);
      if n == 0 {
        assert BitsToNat(p) == 0 && !s[|s| - 1];
      } else {
        assert n / 2 == BitsToNat(p);
        assert n % 2 == (if s[|s| - 1] then 1 else 0);
      }
    }
  }

  /** Java's `>>>` on a non-negative `int`, one place at a time. */
  function Shr(x: nat, k: nat): nat {
    if k == 0 then x else Shr(x / 2, k - 1)
  }

  /** ... which is division by `2^k`. */
  lemma {:induction false} ShrIsDiv(x: nat, k: nat)
    ensures Shr(x, k) == x / Pow2(k)
  {
    if k > 0 {
      ShrIsDiv(x / 2, k - 1);
      ModDouble(x, Pow2(k - 1));
    }
  }

  /** Java's `<<` on a non-negative `int` whose result stays below `2^31`. */
  function Shl(x: nat, k: nat): nat {
    x * Pow2(k)
  }

  /** `x` doubled `k` times: `x << k` spelled without a product, so that
      proofs about a growing cluster byte stay linear. */
  function Doubled(x: nat, k: nat): nat {
    if k == 0 then x else 2 * Doubled(x, k - 1)
  }

  lemma {:induction false} DoubledIsShl(x: nat, k: nat)
    ensures Doubled(x, k) == Shl(x, k)
  {
    if k > 0 {
      DoubledIsShl(x, k - 1);
      MulDouble(x, Pow2(k - 1));
    }
  }

  lemma {:induction false} DoubledAdd(x: nat, y: nat, k: nat)
    ensures Doubled(x + y, k) == Doubled(x, k) + Doubled(y, k)
  {
    if k > 0 {
      DoubledAdd(x, y, k - 1);
    }
  }

  lemma {:induction false} DoubledTwice(x: nat, k: nat)
    ensures Doubled(2 * x, k) == Doubled(x, k + 1)
  {
    if k > 0 {
      DoubledTwice(x, k - 1);
    }
  }

  lemma {:induction false} DoubledOne(k: nat)
    ensures Doubled(1, k) == Pow2(k)
  {
    if k > 0 {
      DoubledOne(k - 1);
    }
  }

  lemma {:induction false} DoubledZero(k: nat)
    ensures Doubled(0, k) == 0
  {
    if k > 0 {
      DoubledZero(k - 1);
    }
  }

  /** Java's `&` on non-negative `int`s, one bit at a time from the bottom. */
  function And(x: nat, y: nat): nat
    decreases x
  {
    if x == 0 || y == 0 then 0 else 2 * And(x / 2, y / 2) + (if x % 2 == 1 && y % 2 == 1 then 1 else 0)
  }

  /** Java's `|` on non-negative `int`s. */
  function Or(x: nat, y: nat): nat
    decreases x
  {
    if x == 0 then y
    else if y == 0 then x
    else 2 * Or(x / 2, y / 2) + (if x % 2 == 1 || y % 2 == 1 then 1 else 0)
  }

  /** Masking with `(1 << k) - 1` keeps the low `k` bits. */
  lemma {:induction false} AndLowMask(x: nat, k: nat)
    ensures And(x, Pow2(k) - 1) == x % Pow2(k)
  {
    if k == 0 {
      assert Pow2(k) - 1 == 0;
      assert And(x, 0) == 0;
      assert x % 1 == 0;
    } else if x == 0 {
      assert And(x, Pow2(k) - 1) == 0;
      DivModUnique(0, Pow2(k), 0, 0);
    } else {
      var p := Pow2(k - 1);
      var m := Pow2(k) - 1;
      assert Pow2(k) == 2 * p;
      assert m / 2 == p - 1 && m % 2 == 1;
      AndLowMask(x / 2, k - 1);
      ModDouble(x, p);
      var a := And(x / 2, m / 2);
      assert a == (x / 2) % p;
      assert And(x, m) == 2 * a + x % 2;
      assert And(x, m) == x % (2 * p);
    }
  }

  lemma ModDouble(x: nat, p: nat)
    requires p > 0
    ensures x / (2 * p) == (x / 2) / p
    ensures x % (2 * p) == 2 * ((x / 2) % p) + x % 2
  {
    var h := x / 2;
    var q, r := h / p, h % p;
    DivModDef(h, p);
    assert q * (2 * p) == 2 * (q * p);
    DivModUnique(x, 2 * p, q, 2 * r + x % 2);
  }

  /** `(a << k) | y` is `(a << k) + y` when `y` fits in the `k` low bits left
      free: how a shifted field and the next field are packed side by side. */
  lemma {:induction false} OrShifted(a: nat, y: nat, k: nat)
    requires y < Pow2(k)
    ensures Or(a * Pow2(k), y) == a * Pow2(k) + y
  {
    if k > 0 {
      var p := Pow2(k - 1);
      var ap := a * p;
      assert Pow2(k) == 2 * p;
      MulDouble(a, p);
      assert a * Pow2(k) == 2 * ap;
      OrShifted(a, y / 2, k - 1);
    }
  }

  /** Scaling both operands by `2^k` scales `|`: the bits move up together. */
  lemma {:induction false} OrScaled(a: nat, b: nat, k: nat)
    ensures Or(a * Pow2(k), b * Pow2(k)) == Or(a, b) * Pow2(k)
  {
    if k > 0 {
      var p := Pow2(k - 1);
      var q := Or(a, b);
      assert Pow2(k) == 2 * p;
      MulDouble(a, p);
      MulDouble(b, p);
      MulDouble(q, p);
      var ap, bp := a * p, b * p;
      assert a * Pow2(k) == 2 * ap && b * Pow2(k) == 2 * bp && q * Pow2(k) == 2 * (q * p);
      OrLowBit(ap, bp, 0);
      OrScaled(a, b, k - 1);
    }
  }

  /** Or-ing into the bits above a low field leaves the field alone. */
  lemma {:induction false} OrAbove(a: nat, b: nat, y: nat, k: nat)
    requires y < Pow2(k)
    ensures Or(a * Pow2(k) + y, b * Pow2(k)) == Or(a, b) * Pow2(k) + y
  {
    if k > 0 {
      var p := Pow2(k - 1);
      var q := Or(a, b);
      assert Pow2(k) == 2 * p;
      MulDouble(a, p);
      MulDouble(b, p);
      MulDouble(q, p);
      var ap, bp, qp := a * p, b * p, q * p;
      assert a * Pow2(k) + y == 2 * (ap + y / 2) + y % 2;
      assert b * Pow2(k) == 2 * bp;
      assert q * Pow2(k) + y == 2 * (qp + y / 2) + y % 2;
      OrLowBit(ap + y / 2, bp, y % 2);
      OrAbove(a, b, y / 2, k - 1);
    }
  }

  /** `|` on two numbers with their low bits split off. */
  lemma OrLowBit(x: nat, z: nat, r: nat)
    requires r < 2
    ensures Or(2 * x + r, 2 * z) == 2 * Or(x, z) + r
  {
  }

  /** `|` is symmetric. */
  lemma {:induction false} OrComm(x: nat, y: nat)
    ensures Or(x, y) == Or(y, x)
    decreases x + y
  {
    if x != 0 && y != 0 {
      OrComm(x / 2, y / 2);
    }
  }

  lemma OrDouble(x: nat, y: nat)
    ensures Or(2 * x, 2 * y) == 2 * Or(x, y)
  {
  }

  /** Bit `i` (MSB first) of the `d`-bit spelling of `n`. */
  lemma {:induction false} NatToBitsIndex(n: nat, d: nat, i: nat)
    requires i < d
    ensures NatToBits(n, d)[i] == ((n / Pow2(d - 1 - i)) % 2 == 1)
  {
    if i < d - 1 {
      NatToBitsIndex(n / 2, d - 1, i);
      ModDouble(n, Pow2(d - 2 - i));
      assert Pow2(d - 1 - i) == 2 * Pow2(d - 2 - i);
    }
  }

  /** The eight bits of byte `j` spell the byte. */
  lemma {:induction false} ByteBits(bytes: seq<Byte>, j: nat)
    requires j < |bytes|
    ensures BytesToBits(bytes)[8 * j..8 * j + 8] == NatToBits(bytes[j], 8)
  {
    var head, tail := NatToBits(bytes[0], 8), BytesToBits(bytes[1..]);
    assert BytesToBits(bytes) == head + tail;
    if j > 0 {
      ByteBits(bytes[1..], j - 1);
      assert (head + tail)[8 * j..8 * j + 8] == tail[8 * (j - 1)..8 * (j - 1) + 8];
    } else {
      assert (head + tail)[..8] == head;
    }
  }

  /** ... and have the byte's value. */
  lemma ByteValue(bytes: seq<Byte>, j: nat)
    requires j < |bytes|
    ensures BitsToNat(BytesToBits(bytes)[8 * j..8 * j + 8]) == bytes[j]
  {
    ByteBits(bytes, j);
    assert Pow2(8) == 256;
    NatToBitsToNat(bytes[j], 8);
  }

  /** The `i`-th bit of the spelling is the bit the trie walks test. */
  lemma BitAtIsBit(bytes: seq<Byte>, i: nat)
    requires i < 8 * |bytes|
    ensures BytesToBits(bytes)[i] == BitAt(bytes, i)
  {
    BitOfByte(bytes, i / 8, i % 8, i);
  }

  lemma BitOfByte(bytes: seq<Byte>, j: nat, k: nat, i: nat)
    requires j < |bytes| && k < 8 && i == 8 * j + k
    ensures BytesToBits(bytes)[i] == ((bytes[j] / Pow2(7 - k)) % 2 == 1)
  {
    ByteBits(bytes, j);
    NatToBitsIndex(bytes[j], 8, k);
  }

  /** `(b >>> (8 - o - n)) % 2^n`, for a byte `b` spelled by the eight bits
      from `p` on, is the value of the `n` bits starting `o` bits into it. */
  lemma ByteSlice(bits: seq<bool>, p: nat, b: nat, o: nat, n: nat)
    requires p + 8 <= |bits| && o + n <= 8
    requires BitsToNat(bits[p..p + 8]) == b
    ensures (b / Pow2(8 - o - n)) % Pow2(n) == BitsToNat(bits[p + o..p + o + n])
  {
    var s := bits[p..p + 8];
    HighBits(s, o + n);
    var t := s[..o + n];
    HighBits(t, o);
    SliceSlice(bits, p, p + 8, o, o + n);
  }

  lemma SliceSlice<T>(a: seq<T>, i: nat, j: nat, k: nat, l: nat)
    requires i <= j <= |a| && k <= l <= j - i
    ensures a[i..j][..l][k..] == a[i + k..i + l]
  {
    var x := a[i..j][..l][k..];
    assert |x| == l - k;
    forall m | 0 <= m < l - k ensures x[m] == a[i + k + m] {
    }
  }
}
