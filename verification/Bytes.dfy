/** Byte strings and the fixed-width integer encodings used by every binary format of the repository. */
module Bytes {

  type byte = b: int | 0 <= b < 256

  datatype Option<+T> = None | Some(value: T)

  function Min(a: int, b: int): int { if a < b then a else b }

  /** 256 to the power `n`: the number of values an `n`-byte integer can take. */
  function Pow256(n: nat): (p: nat)
    ensures p > 0
  {
    if n == 0 then 1 else 256 * Pow256(n - 1)
  }

  /** Python's `int.from_bytes(s, "little")`. */
  function FromLE(s: seq<byte>): (v: nat)
    ensures v < Pow256(|s|)
  {
    if s == [] then 0 else s[0] + 256 * FromLE(s[1..])
  }

  /** Python's `v.to_bytes(n, "little")`, for `v` below `Pow256(n)`. */
  function ToLE(v: nat, n: nat): (s: seq<byte>)
    ensures |s| == n
  {
    if n == 0 then [] else [v % 256] + ToLE(v / 256, n - 1)
  }

  lemma {:induction false} LittleEndianRoundTrip(v: nat, n: nat)
    requires v < Pow256(n)
    ensures FromLE(ToLE(v, n)) == v
  {
    if n == 0 {
    } else {
      LittleEndianRoundTrip(v / 256, n - 1);
      assert ToLE(v, n)[1..] == ToLE(v / 256, n - 1);
    }
  }

  /** The bytes in the other order. */
  function Reversed(s: seq<byte>): (r: seq<byte>)
    ensures |r| == |s|
  {
    if s == [] then [] else Reversed(s[1..]) + [s[0]]
  }

  /** Reading least significant byte first is reading the reversed bytes most significant byte first. */
  lemma {:induction false} EndianReversed(s: seq<byte>)
    ensures FromLE(s) == FromBE(Reversed(s))
  {
    if s != [] {
      EndianReversed(s[1..]);
      assert Reversed(s)[..|s| - 1] == Reversed(s[1..]);
    }
  }

  /** The big-endian fold `reduce(0) { ($0 << 8) | $1 }`. */
  function FromBE(s: seq<byte>): (v: nat)
    ensures v < Pow256(|s|)
  {
    if s == [] then 0 else 256 * FromBE(s[..|s| - 1]) + s[|s| - 1]
  }

  function ToBE(v: nat, n: nat): (s: seq<byte>)
    ensures |s| == n
  {
    if n == 0 then [] else ToBE(v / 256, n - 1) + [v % 256]
  }

  lemma {:induction false} BigEndianRoundTrip(v: nat, n: nat)
    requires v < Pow256(n)
    ensures FromBE(ToBE(v, n)) == v
  {
    if n == 0 {
    } else {
      BigEndianRoundTrip(v / 256, n - 1);
      assert ToBE(v, n)[..n - 1] == ToBE(v / 256, n - 1);
    }
  }

  lemma Pow256Small()
    ensures Pow256(1) == 0x100
    ensures Pow256(2) == 0x1_0000
    ensures Pow256(4) == 0x1_0000_0000
    ensures Pow256(8) == 0x1_0000_0000_0000_0000
  {
    assert Pow256(3) == 256 * Pow256(2);
    assert Pow256(5) == 256 * Pow256(4);
    assert Pow256(6) == 256 * Pow256(5);
    assert Pow256(7) == 256 * Pow256(6);
  }

  lemma {:induction false} Pow256Monotone(m: nat, n: nat)
    requires m <= n
    ensures Pow256(m) <= Pow256(n)
  {
    if m < n {
      Pow256Monotone(m, n - 1);
    }
  }

  /** The byte string `e` stands in `d` at offset `i`. */
  predicate At(d: seq<byte>, i: nat, e: seq<byte>) {
    i + |e| <= |d| && d[i..i + |e|] == e
  }

  /** A concatenation stands at `i` exactly when its two halves stand one after the other. */
  lemma AtSplit(d: seq<byte>, i: nat, a: seq<byte>, b: seq<byte>)
    ensures At(d, i, a + b) <==> At(d, i, a) && At(d, i + |a|, b)
  {
    if At(d, i, a + b) {
      var w := d[i..i + |a| + |b|];
      assert w[..|a|] == d[i..i + |a|] && w[|a|..] == d[i + |a|..i + |a| + |b|];
      assert (a + b)[..|a|] == a && (a + b)[|a|..] == b;
    }
    if At(d, i, a) && At(d, i + |a|, b) {
      assert d[i..i + |a| + |b|] == d[i..i + |a|] + d[i + |a|..i + |a| + |b|];
    }
  }

  lemma AtFront(e: seq<byte>, suffix: seq<byte>)
    ensures At(e + suffix, 0, e)
  {
    assert (e + suffix)[0..|e|] == e;
  }

  /** Splitting a slice that was copied to another place. */
  lemma SliceSplit(d: seq<byte>, i: nat, m: nat, k: nat)
    requires i <= m <= k <= |d|
    ensures d[i..k] == d[i..m] + d[m..k]
  {}

  /** A slice of a slice is a slice. */
  lemma SliceOfSlice<T>(d: seq<T>, p: nat, q: nat, i: nat, j: nat)
    requires p <= q <= |d| && i <= j <= q - p
    ensures d[p..q][i..j] == d[p + i..p + j]
  {
    var s := d[p..q];
    var a, b := s[i..j], d[p + i..p + j];
    forall x | 0 <= x < j - i ensures a[x] == b[x] { assert a[x] == s[i + x] == d[p + i + x]; }
    assert a == b;
  }

  /** A big-endian number from its upper and its lower part. */
  lemma {:induction false} SplitBE(x: seq<byte>, y: seq<byte>)
    ensures FromBE(x + y) == FromBE(x) * Pow256(|y|) + FromBE(y)
    decreases |y|
  {
    if y == [] {
      assert x + y == x;
    } else {
      var z := y[..|y| - 1];
      assert (x + y)[..|x + y| - 1] == x + z;
      SplitBE(x, z);
      Regroup(FromBE(x), Pow256(|z|), FromBE(z), y[|y| - 1]);
    }
  }

  lemma Regroup(a: nat, q: nat, c: nat, e: nat)
    ensures 256 * (a * q + c) + e == a * (256 * q) + (256 * c + e)
  {}

  lemma FourBytes(s: seq<byte>)
    requires |s| == 4
    ensures FromBE(s) == ((s[0] as int * 256 + s[1]) * 256 + s[2]) * 256 + s[3]
  {
    assert s[..3][..2] == s[..2] && s[..2][..1] == s[..1] && s[..1][..0] == [];
    assert FromBE(s[..1]) == s[0];
    assert FromBE(s[..2]) == s[0] as int * 256 + s[1];
    assert FromBE(s[..3]) == 256 * FromBE(s[..2]) + s[2];
  }

  lemma FourAt(f: seq<byte>, p: nat)
    requires p + 4 <= |f|
    ensures f[p..p + 4] == [f[p], f[p + 1], f[p + 2], f[p + 3]]
  {}

  lemma EightBytes(s: seq<byte>, hi: seq<byte>, lo: seq<byte>)
    requires |hi| == |lo| == 4 && s == hi + lo
    ensures FromBE(s) == FromBE(hi) * 0x1_0000_0000 + FromBE(lo)
  {
    Pow256Small();
    SplitBE(hi, lo);
  }
}
