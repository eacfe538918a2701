/**
 * Bytes, powers of two and fixed-width bit strings (most significant bit
 * first), with the division and remainder facts the packing proofs use.
 */
module Bits {

  type byte = x: int | 0 <= x < 256

  function Pow2(k: nat): (r: nat)
    ensures r >= 1
  {
    if k == 0 then 1 else 2 * Pow2(k - 1)
  }

  lemma {:induction false} Pow2Add(a: nat, b: nat)
    ensures Pow2(a + b) == Pow2(a) * Pow2(b)
  {
    if b > 0 {
      var x, y := Pow2(a), Pow2(b - 1);
      assert Pow2(a + b) == 2 * (x * y) by {
        Pow2Add(a, b - 1);
      }
      assert Pow2(b) == 2 * y;
      assert 2 * (x * y) == x * (2 * y) by {
        MulAssoc(2, x, y);
        MulAssoc(x, 2, y);
      }
    }
  }

  lemma {:induction false} Pow2Monotone(a: nat, b: nat)
    requires a <= b
    ensures Pow2(a) <= Pow2(b)
  {
    if a < b {
      Pow2Monotone(a, b - 1);
    }
  }

  /** Euclidean division is determined by any decomposition x == m * q + r with 0 <= r < m. */
  lemma {:induction false} DivModUnique(x: int, m: int, q: int, r: int)
    requires m > 0 && 0 <= r < m && x == m * q + r
    ensures x / m == q && x % m == r
  {
    var q0, r0 := x / m, x % m;
    assert x == m * q0 + r0;
    MulDistinct(m, q, q0, r, r0);
  }

  lemma {:induction false} MulGrow(m: int, d: nat)
    requires m > 0
    ensures d >= 1 ==> m * d >= m
    decreases d
  {
    if d > 1 {
      MulGrow(m, d - 1);
      assert m * d == m * (d - 1) + m;
    }
  }

  lemma {:induction false} MulDistinct(m: int, q: int, q0: int, r: int, r0: int)
    requires m > 0 && 0 <= r < m && 0 <= r0 < m
    requires m * q + r == m * q0 + r0
    ensures q == q0 && r == r0
  {
    var d := q - q0;
    assert m * d == r0 - r;
    MulSign(m, d);
  }

  lemma {:induction false} MulSign(m: int, d: int)
    requires m > 0
    ensures d >= 1 ==> m * d >= m
    ensures d <= -1 ==> m * d <= -m
  {
    if d >= 1 {
      MulGrow(m, d);
    } else if d <= -1 {
      MulGrow(m, -d);
      assert m * d == -(m * (-d));
    }
  }

  lemma {:induction false} AddMultiple(m: int, q: int, r: int)
    requires m > 0
    ensures (m * q + r) / m == q + r / m
    ensures (m * q + r) % m == r % m
  {
    DivModUnique(m * q + r, m, q + r / m, r % m);
  }

  /** A remainder modulo a * b still determines the remainder modulo a. */
  lemma {:induction false} ModMod(x: int, a: int, b: int)
    requires a > 0 && b > 0
    ensures (x % (a * b)) % a == x % a
  {
    var q := x / (a * b);
    assert x == (a * b) * q + x % (a * b);
    assert (a * b) * q == a * (b * q);
    AddMultiple(a, b * q, x % (a * b));
  }

  lemma {:induction false} DivBound(r: int, a: int, b: int)
    requires a > 0 && b > 0 && 0 <= r < a * b
    ensures 0 <= r / a < b
  {
    assert r == a * (r / a) + r % a;
  }

  /** The bits `k .. k + 7` of x, counted from the least significant, depend only on x modulo 2^(k+8). */
  lemma {:induction false} ByteAt(x: int, k: nat)
    ensures (x / Pow2(k)) % 256 == (x % Pow2(k + 8)) / Pow2(k)
  {
    assert Pow2(k + 8) == Pow2(k) * 256 by {
      Pow2Add(k, 8);
    }
    ByteAtScaled(x, Pow2(k), Pow2(k + 8));
  }

  lemma {:induction false} ByteAtScaled(x: int, p: int, m: int)
    requires p > 0 && m == p * 256
    ensures (x / p) % 256 == (x % m) / p
  {
    var q, r := x / m, x % m;
    assert x == p * (256 * q) + r by {
      DivMod(x, m);
      MulAssoc(p, 256, q);
    }
    assert x / p == 256 * q + r / p by {
      AddMultiple(p, 256 * q, r);
    }
    assert 0 <= r / p < 256 by {
      DivMod(x, m);
      DivBound(r, p, 256);
    }
    AddMultiple(256, q, r / p);
  }

  /** Congruence modulo 2^c survives multiplication by 2^k, modulo 2^(c+k). */
  lemma {:induction false} ShiftCongruent(x: int, y: int, c: nat, k: nat)
    requires x % Pow2(c) == y % Pow2(c)
    ensures (x * Pow2(k)) % Pow2(c + k) == (y * Pow2(k)) % Pow2(c + k)
  {
    var r := x % Pow2(c);
    ShiftDecompose(x, c, k);
    ShiftDecompose(y, c, k);
    AddMultiple(Pow2(c + k), x / Pow2(c), r * Pow2(k));
    AddMultiple(Pow2(c + k), y / Pow2(c), r * Pow2(k));
  }

  lemma {:induction false} ShiftDecompose(x: int, c: nat, k: nat)
    ensures x * Pow2(k) == Pow2(c + k) * (x / Pow2(c)) + (x % Pow2(c)) * Pow2(k)
  {
    Pow2Add(c, k);
    var p, q, r := Pow2(c), x / Pow2(c), x % Pow2(c);
    assert x == p * q + r;
    Distribute(p, q, r, Pow2(k));
  }

  lemma {:induction false} MulAssoc(a: int, b: int, c: int)
    ensures a * (b * c) == (a * b) * c && a * b == b * a
  {
  }

  lemma {:induction false} Distribute(p: int, q: int, r: int, f: int)
    ensures (p * q + r) * f == (p * f) * q + r * f
  {
  }

  lemma {:induction false} LowerModulus(x: int, c: nat, d: nat)
    requires d <= c
    ensures (x % Pow2(c)) % Pow2(d) == x % Pow2(d)
  {
    Pow2Add(d, c - d);
    ModMod(x, Pow2(d), Pow2(c - d));
  }

  lemma {:induction false} ConcatAssoc<T>(a: seq<T>, b: seq<T>, c: seq<T>)
    ensures a + (b + c) == (a + b) + c
  {
  }

  lemma {:induction false} SplitLast<T>(s: seq<T>)
    requires s != []
    ensures s == s[..|s| - 1] + [s[|s| - 1]]
  {
  }

  /** A suffix of a suffix is a suffix. */
  lemma {:induction false} SuffixOfSuffix<T>(s: seq<T>, t: seq<T>, w: seq<T>)
    requires |t| <= |s| && t == s[|s| - |t|..]
    requires |w| <= |t| && w == t[|t| - |w|..]
    ensures w == s[|s| - |w|..]
  {
    forall i | 0 <= i < |w|
      ensures w[i] == s[|s| - |w| + i]
    {
      assert w[i] == t[|t| - |w| + i];
    }
  }

  lemma {:induction false} SliceLeft<T>(a: seq<T>, b: seq<T>, i: nat, j: nat)
    requires i <= j <= |a|
    ensures (a + b)[i..j] == a[i..j]
  {
  }

  lemma {:induction false} SliceRight<T>(a: seq<T>, b: seq<T>)
    ensures (a + b)[|a|..] == b && (a + b)[..|a|] == a
  {
  }

  /** The low `width` bits of n, most significant first; a negative n reads as two's complement. */
  function ToBits(n: int, width: nat): (r: seq<bool>)
    ensures |r| == width
    decreases width
  {
    if width == 0 then [] else ToBits(n / 2, width - 1) + [n % 2 == 1]
  }

  /** The unsigned value of a bit string read most significant first. */
  function FromBits(bits: seq<bool>): (r: nat)
    ensures r < Pow2(|bits|)
  {
    if bits == [] then 0
    else 2 * FromBits(bits[..|bits| - 1]) + (if bits[|bits| - 1] then 1 else 0)
  }

  function Zeros(n: nat): (r: seq<bool>)
    ensures |r| == n && forall i :: 0 <= i < n ==> !r[i]
  {
    if n == 0 then [] else Zeros(n - 1) + [false]
  }

  lemma {:induction false} ZerosAreToBitsOfZero(n: nat)
    ensures ToBits(0, n) == Zeros(n)
  {
    if n > 0 {
      ZerosAreToBitsOfZero(n - 1);
    }
  }

  /** Writing a and then the n-bit b is writing a * 2^n + b. */
  lemma {:induction false} ToBitsConcat(a: int, b: int, m: nat, n: nat)
    requires 0 <= b < Pow2(n)
    ensures ToBits(a, m) + ToBits(b, n) == ToBits(a * Pow2(n) + b, m + n)
  {
    if n > 0 {
      var p := Pow2(n - 1);
      var y := a * p;
      var x := a * Pow2(n) + b;
      assert x == 2 * y + b by {
        assert Pow2(n) == 2 * p;
        MulAssoc(a, 2, p);
      }
      assert x / 2 == y + b / 2 && x % 2 == b % 2 by {
        AddMultiple(2, y, b);
      }
      assert 0 <= b / 2 < p by {
        DivBound(b, 2, p);
      }
      var front, lo, bit := ToBits(a, m), ToBits(b / 2, n - 1), [b % 2 == 1];
      assert front + lo == ToBits(x / 2, m + n - 1) by {
        ToBitsConcat(a, b / 2, m, n - 1);
      }
      assert ToBits(b, n) == lo + bit;
      assert ToBits(x, m + n) == ToBits(x / 2, m + n - 1) + bit;
      ConcatAssoc(front, lo, bit);
    }
  }

  /** Shifting the value of a bit string left by w and adding a w-bit v appends the bits of v. */
  lemma {:induction false} AppendBits(bits: seq<bool>, v: int, w: nat, m: int)
    requires m == Pow2(w) && 0 <= v < m
    ensures ToBits(FromBits(bits) * m + v, |bits| + w) == bits + ToBits(v, w)
  {
    ToBitsConcat(FromBits(bits), v, |bits|, w);
    ToFromBits(bits);
  }

  /** The bit string is determined by the value modulo 2^width. */
  lemma {:induction false} ToBitsMod(n: int, width: nat)
    ensures ToBits(n % Pow2(width), width) == ToBits(n, width)
    decreases width
  {
    if width > 0 {
      var m, p := Pow2(width), Pow2(width - 1);
      var q, r := n / m, n % m;
      assert n == 2 * (p * q) + r by {
        DivMod(n, m);
        MulAssoc(2, p, q);
      }
      assert n / 2 == p * q + r / 2 && n % 2 == r % 2 by {
        AddMultiple(2, p * q, r);
      }
      assert (n / 2) % p == (r / 2) % p by {
        AddMultiple(p, q, r / 2);
      }
      assert ToBits(n / 2, width - 1) == ToBits(r / 2, width - 1) by {
        ToBitsMod(n / 2, width - 1);
        ToBitsMod(r / 2, width - 1);
      }
    }
  }

  /** Numbers congruent modulo 2^width have the same low `width` bits. */
  lemma {:induction false} ToBitsCongruent(x: int, y: int, width: nat)
    requires x % Pow2(width) == y % Pow2(width)
    ensures ToBits(x, width) == ToBits(y, width)
  {
    ToBitsMod(x, width);
    ToBitsMod(y, width);
  }

  lemma {:induction false} FromToBits(n: int, width: nat)
    ensures FromBits(ToBits(n, width)) == n % Pow2(width)
    decreases width
  {
    if width > 0 {
      var bits := ToBits(n, width);
      var half, p := n / 2, Pow2(width - 1);
      var g, h := half / p, half % p;
      assert bits == ToBits(half, width - 1) + [n % 2 == 1];
      assert bits[..width - 1] == ToBits(half, width - 1);
      FromToBits(half, width - 1);
      assert FromBits(bits) == 2 * h + (if n % 2 == 1 then 1 else 0);
      assert Pow2(width) == 2 * p;
      DivMod(half, p);
      HalfDecompose(n, p, g, h);
      DivModUnique(n, 2 * p, g, 2 * h + n % 2);
    }
  }

  /** A number below 2^width reads back from its bits unchanged. */
  lemma {:induction false} FromToBitsSmall(n: int, width: nat)
    requires 0 <= n < Pow2(width)
    ensures FromBits(ToBits(n, width)) == n
  {
    FromToBits(n, width);
    DivModUnique(n, Pow2(width), 0, n);
  }

  lemma {:induction false} DivMod(x: int, m: int)
    requires m > 0
    ensures x == m * (x / m) + x % m && 0 <= x % m < m
  {
  }

  lemma {:induction false} HalfDecompose(n: int, p: int, g: int, h: int)
    requires p > 0 && n / 2 == p * g + h && 0 <= h < p
    ensures n == (2 * p) * g + (2 * h + n % 2) && 0 <= 2 * h + n % 2 < 2 * p
  {
  }

  lemma {:induction false} ToFromBits(bits: seq<bool>)
    ensures ToBits(FromBits(bits), |bits|) == bits
  {
    if bits != [] {
      var init, last := bits[..|bits| - 1], bits[|bits| - 1];
      var b := if last then 1 else 0;
      var v := FromBits(bits);
      assert v == 2 * FromBits(init) + b;
      assert v / 2 == FromBits(init) && v % 2 == b by {
        AddMultiple(2, FromBits(init), b);
      }
      assert ToBits(v / 2, |init|) == init by {
        ToFromBits(init);
      }
      assert ToBits(v, |bits|) == init + [last];
      SplitLast(bits);
    }
  }
}
