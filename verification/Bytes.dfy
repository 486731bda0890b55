/** Machine integers, little-endian words and the arithmetic of cyclic cursors. */
module Bytes {

  type byte = b: int | 0 <= b < 256
  type u32 = w: int | 0 <= w < 0x1_0000_0000

  const TWO_32: int := 0x1_0000_0000
  const TWO_64: int := 0x1_0000_0000_0000_0000

  /** One audio frame: two channels of two bytes. */
  const FRAME_BYTES: int := 4

  datatype Option<+T> = None | Some(value: T)

  function Min(a: int, b: int): int {
    if a < b then a else b
  }

  /** Unsigned 32-bit and two's-complement 32-bit readings of an integer. */
  function U32(x: int): u32 {
    x % TWO_32
  }

  function S32(x: int): int {
    var w := x % TWO_32;
    if w < 0x8000_0000 then w else w - TWO_32
  }

  lemma SmallWord(x: nat)
    ensures x < TWO_32 ==> U32(x) == x
  {
  }

  /** A signed 32-bit offset adds up modulo 2^32 like the number it came from. */
  lemma SignedOffset(x: int, y: int)
    ensures U32(S32(x) + y) == U32(x + y)
  {
  }

  ghost predicate Distinct<T(!new)>(s: seq<T>) {
    forall i, j :: 0 <= i < j < |s| ==> s[i] != s[j]
  }

  function Flatten(parts: seq<seq<byte>>): seq<byte> {
    if parts == [] then [] else Flatten(parts[..|parts| - 1]) + parts[|parts| - 1]
  }

  function Pow256(width: nat): (p: nat)
    ensures p > 0
  {
    if width == 0 then 1 else 256 * Pow256(width - 1)
  }

  /** The `width` low bytes of `n`, least significant first. */
  function LittleEndian(n: nat, width: nat): (s: seq<byte>)
    ensures |s| == width
  {
    if width == 0 then [] else [n % 256] + LittleEndian(n / 256, width - 1)
  }

  function FromLittleEndian(s: seq<byte>): nat {
    if s == [] then 0 else s[0] + 256 * FromLittleEndian(s[1..])
  }

  lemma {:induction false} LittleEndianRoundTrip(n: nat, width: nat)
    requires n < Pow256(width)
    ensures FromLittleEndian(LittleEndian(n, width)) == n
  {
    if width == 0 {
    } else {
      LittleEndianRoundTrip(n / 256, width - 1);
      assert LittleEndian(n, width)[1..] == LittleEndian(n / 256, width - 1);
    }
  }

  lemma {:induction false} FromLittleEndianBound(s: seq<byte>)
    ensures FromLittleEndian(s) < Pow256(|s|)
  {
    if s == [] {
    } else {
      FromLittleEndianBound(s[1..]);
    }
  }

  /** A word is read back from the bytes that were stored, wherever the next bytes come from. */
  lemma {:induction false} LittleEndianPrefix(n: nat, width: nat, rest: seq<byte>)
    requires n < Pow256(width)
    ensures FromLittleEndian((LittleEndian(n, width) + rest)[..width]) == n
    ensures (LittleEndian(n, width) + rest)[width..] == rest
  {
    assert (LittleEndian(n, width) + rest)[..width] == LittleEndian(n, width);
    LittleEndianRoundTrip(n, width);
  }

  lemma Pow256Values()
    ensures Pow256(1) == 0x100
    ensures Pow256(2) == 0x1_0000
    ensures Pow256(4) == TWO_32
    ensures Pow256(8) == TWO_64
  {
    assert Pow256(2) == 256 * Pow256(1);
    assert Pow256(4) == 256 * Pow256(3) && Pow256(3) == 256 * Pow256(2);
    assert Pow256(8) == 256 * Pow256(7) && Pow256(7) == 256 * Pow256(6);
    assert Pow256(6) == 256 * Pow256(5) && Pow256(5) == 256 * Pow256(4);
  }
}

/** Remainders by a symbolic capacity, as used by ring-buffer cursors. */
module Cyclic {

  lemma MulStep(q: int, c: int)
    ensures (q + 1) * c == q * c + c
  {
  }

  /** A remainder is determined by any decomposition with a remainder in range. */
  lemma ModUnique(x: int, c: int, q: int, r: int)
    requires c > 0
    requires x == q * c + r
    requires 0 <= r < c
    ensures x % c == r
  {
    var p := x / c;
    var s := x % c;
    assert x == p * c + s && 0 <= s < c;
    if p < q {
      assert (p + 1) * c <= q * c by { MulMono(p + 1, q, c); }
      MulStep(p, c);
    } else if q < p {
      assert (q + 1) * c <= p * c by { MulMono(q + 1, p, c); }
      MulStep(q, c);
    }
  }

  lemma MulMono(a: int, b: int, c: int)
    requires a <= b && 0 <= c
    ensures a * c <= b * c
  {
    assert 0 <= (b - a) * c;
    assert b * c - a * c == (b - a) * c;
  }

  lemma ModSmall(x: int, c: int)
    requires 0 <= x < c
    ensures x % c == x
  {
    ModUnique(x, c, 0, x);
  }

  lemma ModWrap(x: int, c: int)
    requires c <= x < c + c
    ensures x % c == x - c
  {
    ModUnique(x, c, 1, x - c);
  }

  /** Advancing a reduced cursor by less than a turn. */
  lemma ModAdvance(a: int, k: int, c: int)
    requires c > 0 && 0 <= k <= c
    ensures 0 <= a % c < c
    ensures (a + k) % c == (if a % c + k < c then a % c + k else a % c + k - c)
    ensures (a % c + k) % c == (a + k) % c
  {
    var q := a / c;
    assert a == q * c + a % c;
    if a % c + k < c {
      ModUnique(a + k, c, q, a % c + k);
      ModSmall(a % c + k, c);
    } else if a % c + k < c + c {
      MulStep(q, c);
      ModUnique(a + k, c, q + 1, a % c + k - c);
      ModWrap(a % c + k, c);
    }
  }

  /** The slot of stream position `p`: `p` reduced one lap at a time. */
  function Slot(p: nat, cap: nat): (s: nat)
    requires cap > 0
    ensures s < cap
    decreases p
  {
    if p < cap then p else Slot(p - cap, cap)
  }

  lemma {:induction false} SlotIsRemainder(p: nat, cap: nat)
    requires cap > 0
    ensures Slot(p, cap) == p % cap
    decreases p
  {
    if p < cap {
      ModSmall(p, cap);
    } else {
      SlotIsRemainder(p - cap, cap);
      ModAdvance(p - cap, cap, cap);
    }
  }

  lemma {:induction false} SlotAdvance(p: nat, k: nat, cap: nat)
    requires 0 < cap && k <= cap
    ensures Slot(p + k, cap) == (if Slot(p, cap) + k < cap then Slot(p, cap) + k else Slot(p, cap) + k - cap)
    decreases p
  {
    if p < cap {
    } else {
      SlotAdvance(p - cap, k, cap);
    }
  }

  lemma SlotReduce(x: nat, cap: nat)
    requires cap > 0 && x < cap + cap
    ensures Slot(x, cap) == (if x < cap then x else x - cap)
  {
    if x >= cap {
      assert Slot(x - cap, cap) == x - cap;
    }
  }

  lemma SlotDistinct(a: nat, b: nat, cap: nat)
    requires cap > 0 && a < b < a + cap
    ensures Slot(a, cap) != Slot(b, cap)
  {
    SlotAdvance(a, b - a, cap);
  }

  /** Forward distance from one slot to another. */
  function Gap(from: nat, to: nat, cap: nat): int {
    if from <= to then to - from else to - from + cap
  }

  lemma SlotGap(a: nat, b: nat, cap: nat)
    requires cap > 0 && a <= b < a + cap
    ensures Gap(Slot(a, cap), Slot(b, cap), cap) == b - a
  {
    SlotAdvance(a, b - a, cap);
  }
}
