/**
 * `bech32To8BitArray`: the characters of a bech32 data part are looked up
 * in the bech32 alphabet, each giving a 5-bit group, and the groups are
 * repacked into bytes through a shift register, the last byte padded with
 * zero bits.
 *
 * The packing is specified by a fold over the groups (`Feed`, `Flush`,
 * `Packed`) that keeps only the bits not yet emitted; the method keeps the
 * source's whole 32-bit register and is proved to agree with the fold.
 */
module Bech32 {
  import opened Wrappers
  import opened Bits
  import opened JsBuiltins

  /** The bech32 alphabet: the character at index v stands for the 5-bit value v. */
  const Alphabet: string := "qpzry9x8gf2tvdw0s3jn54khce6mua7l"

  /** `bech32CharValues.indexOf(char)`: the value of c, or -1 when c is not in the alphabet. */
  function CharIndex(c: char): (r: int)
    ensures -1 <= r < 32
    ensures r == -1 <==> c !in Alphabet
    ensures r >= 0 ==> Alphabet[r] == c && forall j :: 0 <= j < r ==> Alphabet[j] != c
  {
    IndexOfChar(Alphabet, c, 0);
    match IndexOf(Alphabet, [c], 0)
    case None => -1
    case Some(k) => k
  }

  /**
   * `str.split('').map(char => bech32CharValues.indexOf(char))`: the values
   * are 5-bit groups exactly when s is a bech32 string, and then they spell s.
   */
  function Indices(s: string): (r: seq<int>)
    ensures |r| == |s|
    ensures IsBech32(s) <==> AreGroups(r)
    ensures forall i :: 0 <= i < |s| && s[i] in Alphabet ==> 0 <= r[i] < 32 && Alphabet[r[i]] == s[i]
  {
    var r := seq(|s|, i requires 0 <= i < |s| => CharIndex(s[i]));
    assert forall i :: 0 <= i < |s| ==> (s[i] in Alphabet <==> 0 <= r[i] < 32);
    r
  }

  /** Every character of s is in the bech32 alphabet. */
  predicate IsBech32(s: string)
  {
    forall i :: 0 <= i < |s| ==> s[i] in Alphabet
  }

  /** Every value is a 5-bit group. */
  predicate AreGroups(values: seq<int>)
  {
    forall i :: 0 <= i < |values| ==> 0 <= values[i] < 32
  }

  // ---------------------------------------------------------------------
  // The packing, specified on the bits not yet emitted
  // ---------------------------------------------------------------------

  /**
   * The state of the repacking: the low `count` bits of the buffer that are
   * not yet emitted, most significant first, and the bytes emitted so far.
   */
  datatype Packer = Packer(pending: seq<bool>, out: seq<byte>)

  /**
   * `buffer = (buffer << 5) + value; count += 5`, on the bits not yet
   * emitted. The value is added, not appended: a value outside 0 .. 31
   * carries into (or borrows from) the bits before it.
   */
  function Push(p: Packer, v: int): (r: Packer)
    ensures |r.pending| == |p.pending| + 5 && r.out == p.out
  {
    Packer(ToBits(FromBits(p.pending) * 32 + v, |p.pending| + 5), p.out)
  }

  /** One turn of `while (count >= 8)`: the top eight pending bits become a byte. */
  function Emit(p: Packer): (r: Packer)
    requires |p.pending| >= 8
    ensures |r.pending| == |p.pending| - 8 && |r.out| == |p.out| + 1
  {
    Packer(p.pending[8..], p.out + [FromBits(p.pending[..8])])
  }

  /** `while (count >= 8)`: emit bytes until fewer than eight bits are pending. */
  function Drain(p: Packer): (r: Packer)
    ensures |r.pending| < 8
    decreases |p.pending|
  {
    if |p.pending| < 8 then p else Drain(Emit(p))
  }

  /** Draining emits one byte per eight pending bits and keeps the rest. */
  lemma {:induction false} DrainLength(p: Packer)
    ensures |Drain(p).pending| == |p.pending| % 8
    ensures |Drain(p).out| == |p.out| + |p.pending| / 8
    decreases |p.pending|
  {
    if |p.pending| >= 8 {
      var k := |p.pending|;
      DrainLength(Emit(p));
      assert (k - 8) % 8 == k % 8 && 1 + (k - 8) / 8 == k / 8 by {
        AddMultiple(8, 1, k - 8);
      }
    }
  }

  /** One value of the `forEach` loop. */
  function Step(p: Packer, v: int): Packer
  {
    Drain(Push(p, v))
  }

  /** The state after the `forEach` loop has consumed `values`. */
  function Feed(values: seq<int>): (r: Packer)
    ensures |r.pending| < 8
  {
    if values == [] then Packer([], [])
    else Step(Feed(values[..|values| - 1]), values[|values| - 1])
  }

  /** After n values, 5n mod 8 bits are pending and 5n div 8 bytes have been emitted. */
  lemma {:induction false} FeedLength(values: seq<int>)
    ensures |Feed(values).pending| == 5 * |values| % 8
    ensures |Feed(values).out| == 5 * |values| / 8
  {
    if values != [] {
      var n := |values| - 1;
      var p := Feed(values[..n]);
      var q := Push(p, values[n]);
      var r := Drain(q);
      assert Feed(values) == r;
      var k, m := |q.pending|, |q.out|;
      assert k == 5 * n % 8 + 5 && m == 5 * n / 8 by {
        FeedLength(values[..n]);
      }
      assert |r.pending| == k % 8 && |r.out| == m + k / 8 by {
        DrainLength(q);
      }
      GroupCount(n);
    }
  }

  /** Five more bits: the count of bits left over and the number of whole bytes after n + 1 groups. */
  lemma {:induction false} GroupCount(n: nat)
    ensures (5 * n % 8 + 5) % 8 == 5 * (n + 1) % 8
    ensures 5 * n / 8 + (5 * n % 8 + 5) / 8 == 5 * (n + 1) / 8
  {
    var q, r := 5 * n / 8, 5 * n % 8;
    assert 5 * (n + 1) == 8 * q + (r + 5);
    AddMultiple(8, q, r + 5);
  }

  /** `if (count > 0)`: the remaining bits, shifted to the top of one more byte. */
  function Flush(p: Packer): (r: seq<byte>)
    requires |p.pending| < 8
    ensures |r| == |p.out| + (if |p.pending| > 0 then 1 else 0)
  {
    if |p.pending| > 0 then p.out + [PadByte(p.pending)] else p.out
  }

  /** Fewer than eight bits, moved to the top of a byte. */
  function PadByte(bits: seq<bool>): byte
    requires |bits| < 8
  {
    assert Pow2(8) == 256;
    FromBits(bits + Zeros(8 - |bits|))
  }

  lemma {:induction false} PadByteBits(bits: seq<bool>)
    requires |bits| < 8
    ensures ToBits(PadByte(bits), 8) == bits + Zeros(8 - |bits|)
  {
    ToFromBits(bits + Zeros(8 - |bits|));
  }

  /** The bytes `bech32To8BitArray` returns for the values of the characters. */
  function Packed(values: seq<int>): seq<byte>
  {
    Flush(Feed(values))
  }

  /** n values give ceil(5n / 8) bytes, whatever the values. */
  lemma {:induction false} PackedLength(values: seq<int>)
    ensures |Packed(values)| == (5 * |values| + 7) / 8
  {
    FeedLength(values);
  }

  // ---------------------------------------------------------------------
  // The method, with the source's 32-bit register
  // ---------------------------------------------------------------------

  /** `bech32To8BitArray(str)`. */
  method Bech32To8BitArray(str: string) returns (byteArray: seq<byte>)
    ensures byteArray == Packed(Indices(str))
  {
    var int5Array := Indices(str);
    var count: nat := 0;
    var buffer := 0;
    byteArray := [];
    for i := 0 to |int5Array|
      invariant count < 8
      invariant Packer(ToBits(buffer, count), byteArray) == Feed(int5Array[..i])
    {
      buffer, count, byteArray := Consume(buffer, count, byteArray, int5Array[i]);
      FeedNext(int5Array, i);
    }
    assert int5Array[..|int5Array|] == int5Array;
    if count > 0 {
      FlushMatches(buffer, count);
      byteArray := byteArray + [And255(ShiftLeft(buffer, 8 - count))];
    }
  }

  /** The callback of `int5Array.forEach`: push one value, then emit whole bytes. */
  method Consume(buffer: int, count: nat, byteArray: seq<byte>, value: int)
    returns (buffer': int, count': nat, byteArray': seq<byte>)
    requires count < 8
    ensures count' < 8
    ensures Packer(ToBits(buffer', count'), byteArray') == Step(Packer(ToBits(buffer, count), byteArray), value)
  {
    ghost var target := Step(Packer(ToBits(buffer, count), byteArray), value);
    PushState(buffer, count, byteArray, value);
    buffer', count', byteArray' := ShiftLeft(buffer, 5) + value, count + 5, byteArray;
    while count' >= 8
      invariant count' <= 12
      invariant Drain(Packer(ToBits(buffer', count'), byteArray')) == target
      decreases count'
    {
      EmitState(buffer', count', byteArray');
      byteArray' := byteArray' + [And255(ShiftRight(buffer', count' - 8))];
      count' := count' - 8;
    }
  }

  /** The state after one more value of the loop. */
  lemma {:induction false} FeedNext(values: seq<int>, i: nat)
    requires i < |values|
    ensures Feed(values[..i + 1]) == Step(Feed(values[..i]), values[i])
  {
    assert values[..i + 1][..i] == values[..i];
  }

  /** The register after `buffer = (buffer << 5) + value; count += 5` holds the pushed state. */
  lemma {:induction false} PushState(buffer: int, count: nat, out: seq<byte>, v: int)
    requires count < 8
    ensures Push(Packer(ToBits(buffer, count), out), v) == Packer(ToBits(ShiftLeft(buffer, 5) + v, count + 5), out)
  {
    var bits := ToBits(buffer, count);
    var pushed := Push(Packer(bits, []), v).pending;
    assert Push(Packer(bits, out), v) == Packer(pushed, out);
    assert pushed == ToBits(ShiftLeft(buffer, 5) + v, count + 5) by {
      PushMatches(buffer, count, v);
    }
  }

  /** One turn of the inner loop on the register is one Emit. */
  lemma {:induction false} EmitState(buffer: int, count: nat, out: seq<byte>)
    requires 8 <= count <= 12
    ensures Emit(Packer(ToBits(buffer, count), out))
         == Packer(ToBits(buffer, count - 8), out + [And255(ShiftRight(buffer, count - 8))])
  {
    EmitMatches(buffer, count);
  }

  /** `(buffer << 5) + value` holds the pushed bits in its low count + 5 bits. */
  lemma {:induction false} PushMatches(buffer: int, count: nat, v: int)
    requires count < 8
    ensures ToBits(ShiftLeft(buffer, 5) + v, count + 5) == Push(Packer(ToBits(buffer, count), []), v).pending
  {
    PushCongruent(buffer, count, v);
    PushLowBits(buffer, count, v);
  }

  /** Pushing v onto the low count bits of buffer gives the bits of those low bits shifted, plus v. */
  lemma {:induction false} PushLowBits(buffer: int, count: nat, v: int)
    ensures Push(Packer(ToBits(buffer, count), []), v).pending == ToBits((buffer % Pow2(count)) * 32 + v, count + 5)
  {
    var pending := buffer % Pow2(count);
    var bits := ToBits(buffer, count);
    assert FromBits(bits) == pending by {
      FromToBits(buffer, count);
    }
    PushPending(bits, v, pending, count);
  }

  /** `(buffer << 5) + v` and the low count bits of buffer, shifted, agree in their low count + 5 bits. */
  lemma {:induction false} PushCongruent(buffer: int, count: nat, v: int)
    requires count < 8
    ensures ToBits(ShiftLeft(buffer, 5) + v, count + 5) == ToBits((buffer % Pow2(count)) * 32 + v, count + 5)
  {
    ShiftAddCongruent(buffer, count, v);
    ToBitsCongruent(ShiftLeft(buffer, 5) + v, (buffer % Pow2(count)) * 32 + v, count + 5);
  }

  /** Pushing onto bits worth n gives the bits of n * 32 + v. */
  lemma {:induction false} PushPending(bits: seq<bool>, v: int, n: int, width: nat)
    requires FromBits(bits) == n && |bits| == width
    ensures Push(Packer(bits, []), v).pending == ToBits(n * 32 + v, width + 5)
  {
  }

  /** Modulo 2^(count + 5), `(buffer << 5) + v` only sees the low count bits of buffer. */
  lemma {:induction false} ShiftAddCongruent(buffer: int, count: nat, v: int)
    requires count < 8
    ensures (ShiftLeft(buffer, 5) + v) % Pow2(count + 5) == ((buffer % Pow2(count)) * 32 + v) % Pow2(count + 5)
  {
    var p, m := Pow2(count), Pow2(count + 5);
    var pending := buffer % p;
    var x := ToInt32(buffer);
    assert ShiftLeft(buffer, 5) == ToInt32(x * 32);
    assert x % p == pending % p by {
      ToInt32Low(buffer, count);
      LowerModulus(buffer, count, count);
    }
    assert (x * 32) % m == (pending * 32) % m by {
      ShiftCongruent(x, pending, count, 5);
    }
    assert ToInt32(x * 32) % m == (x * 32) % m by {
      ToInt32Low(x * 32, count + 5);
    }
    ModAdd(ToInt32(x * 32), x * 32, v, m);
    ModAdd(x * 32, pending * 32, v, m);
  }

  /**
   * `(buffer >> (count - 8)) & 255` is the byte made of the top eight of
   * the low count bits, and the low count - 8 bits are the rest.
   */
  lemma {:induction false} EmitMatches(buffer: int, count: nat)
    requires 8 <= count <= 12
    ensures And255(ShiftRight(buffer, count - 8)) == FromBits(ToBits(buffer, count)[..8])
    ensures ToBits(buffer, count)[8..] == ToBits(buffer, count - 8)
  {
    var k := count - 8;
    var q, r := buffer / Pow2(k), buffer % Pow2(k);
    assert ToBits(buffer, count) == ToBits(q, 8) + ToBits(r, k) by {
      DivMod(buffer, Pow2(k));
      assert buffer == q * Pow2(k) + r;
      ToBitsConcat(q, r, 8, k);
    }
    ToBitsMod(buffer, k);
    FromToBits(q, 8);
    assert FromBits(ToBits(q, 8)) == q % 256;
    TopByte(buffer, count);
  }

  /** `(buffer >> (count - 8)) & 255` is bits count - 8 .. count - 1 of buffer. */
  lemma {:induction false} TopByte(buffer: int, count: nat)
    requires 8 <= count <= 12
    ensures And255(ShiftRight(buffer, count - 8)) == (buffer / Pow2(count - 8)) % 256
  {
    var k := count - 8;
    var x := ToInt32(buffer);
    var y := x / Pow2(k);
    Pow2Monotone(0, k);
    ToInt32Low(y, 8);
    ByteAt(x, k);
    ByteAt(buffer, k);
    ToInt32Low(buffer, count);
  }

  /** `(buffer << (8 - count)) & 255` is the low count bits of buffer followed by zeros. */
  lemma {:induction false} FlushMatches(buffer: int, count: nat)
    requires 0 < count < 8
    ensures And255(ShiftLeft(buffer, 8 - count)) == PadByte(ToBits(buffer, count))
  {
    var k := 8 - count;
    var x, m := ToInt32(buffer), Pow2(8);
    assert m == 256;
    assert PadByte(ToBits(buffer, count)) == (buffer * Pow2(k)) % m by {
      ZerosAreToBitsOfZero(k);
      ToBitsConcat(buffer, 0, count, k);
      FromToBits(buffer * Pow2(k), 8);
    }
    assert And255(ShiftLeft(buffer, k)) == (x * Pow2(k)) % m by {
      ToInt32Low(x * Pow2(k), 8);
    }
    assert (x * Pow2(k)) % m == (buffer * Pow2(k)) % m by {
      ToInt32Low(buffer, count);
      ShiftCongruent(x, buffer, count, k);
    }
  }

  /** Congruent numbers stay congruent after adding the same v. */
  lemma {:induction false} ModAdd(x: int, y: int, v: int, m: int)
    requires m > 0 && x % m == y % m
    ensures (x + v) % m == (y + v) % m
  {
    DivMod(x, m);
    DivMod(y, m);
    AddMultiple(m, x / m, x % m + v);
    AddMultiple(m, y / m, y % m + v);
  }

  // ---------------------------------------------------------------------
  // What the packing means: the bits of the groups, in order
  // ---------------------------------------------------------------------

  /** The 5-bit groups written one after another, most significant bit first. */
  function GroupBits(values: seq<int>): (r: seq<bool>)
    ensures |r| == 5 * |values|
  {
    if values == [] then [] else GroupBits(values[..|values| - 1]) + ToBits(values[|values| - 1], 5)
  }

  /** The bytes written one after another, most significant bit first. */
  function ByteBits(bytes: seq<byte>): (r: seq<bool>)
    ensures |r| == 8 * |bytes|
  {
    if bytes == [] then [] else ByteBits(bytes[..|bytes| - 1]) + ToBits(bytes[|bytes| - 1], 8)
  }

  lemma {:induction false} ByteBitsAppend(bytes: seq<byte>, b: byte)
    ensures ByteBits(bytes + [b]) == ByteBits(bytes) + ToBits(b, 8)
  {
    SliceRight(bytes, [b]);
  }

  /** A byte can move between the end of the output and the front of the bits after it. */
  lemma {:induction false} ByteBitsShift(bytes: seq<byte>, b: byte, tail: seq<bool>)
    ensures ByteBits(bytes + [b]) + tail == ByteBits(bytes) + (ToBits(b, 8) + tail)
  {
    ByteBitsAppend(bytes, b);
    ConcatAssoc(ByteBits(bytes), ToBits(b, 8), tail);
  }

  /** A 5-bit group is appended to the pending bits as it is. */
  lemma {:induction false} PushGroup(p: Packer, v: int)
    requires 0 <= v < 32
    ensures Push(p, v).pending == p.pending + ToBits(v, 5)
  {
    AppendBits(p.pending, v, 5, 32);
  }

  /** Draining moves whole bytes from the pending bits to the output, losing nothing and keeping the order. */
  lemma {:induction false} DrainBits(p: Packer)
    ensures ByteBits(Drain(p).out) + Drain(p).pending == ByteBits(p.out) + p.pending
    decreases |p.pending|
  {
    if |p.pending| >= 8 {
      var e := Emit(p);
      EmitBits(p);
      DrainBits(e);
      assert Drain(p) == Drain(e);
    }
  }

  /** One emitted byte carries exactly the eight pending bits it was read from. */
  lemma {:induction false} EmitBits(p: Packer)
    requires |p.pending| >= 8
    ensures ByteBits(Emit(p).out) + Emit(p).pending == ByteBits(p.out) + p.pending
  {
    var head, rest := p.pending[..8], p.pending[8..];
    var b := FromBits(head);
    assert Emit(p) == Packer(rest, p.out + [b]);
    ByteBitsShift(p.out, b, rest);
    assert ToBits(b, 8) == head by {
      ToFromBits(head);
    }
    assert head + rest == p.pending;
  }

  /** The emitted bytes followed by the pending bits are the bits of the groups fed so far. */
  lemma {:induction false} FeedBits(values: seq<int>)
    requires AreGroups(values)
    ensures ByteBits(Feed(values).out) + Feed(values).pending == GroupBits(values)
  {
    if values != [] {
      var init, v := values[..|values| - 1], values[|values| - 1];
      var p := Feed(init);
      var q := Push(p, v);
      var A, B, C := ByteBits(p.out), p.pending, ToBits(v, 5);
      assert ByteBits(Feed(values).out) + Feed(values).pending == A + q.pending by {
        DrainBits(q);
      }
      assert q.pending == B + C by {
        PushGroup(p, v);
      }
      assert A + B == GroupBits(init) by {
        FeedBits(init);
      }
      ConcatAssoc(A, B, C);
    }
  }

  /**
   * The packed bytes are the bits of the groups, in order, followed by
   * fewer than eight zero bits of padding.
   */
  lemma {:induction false} PackedBits(values: seq<int>)
    requires AreGroups(values)
    ensures 5 * |values| <= 8 * |Packed(values)| < 5 * |values| + 8
    ensures ByteBits(Packed(values)) == GroupBits(values) + Zeros(8 * |Packed(values)| - 5 * |values|)
  {
    var p := Feed(values);
    FeedLength(values);
    FeedBits(values);
    FlushBits(p);
  }

  /** Flushing appends the pending bits, padded with zeros to a whole byte. */
  lemma {:induction false} FlushBits(p: Packer)
    requires |p.pending| < 8
    ensures ByteBits(Flush(p)) == ByteBits(p.out) + p.pending + Zeros(8 * |Flush(p)| - 8 * |p.out| - |p.pending|)
  {
    if |p.pending| > 0 {
      var b := PadByte(p.pending);
      assert Flush(p) == p.out + [b];
      var k := 8 - |p.pending|;
      assert 8 * |Flush(p)| - 8 * |p.out| - |p.pending| == k;
      assert ByteBits(Flush(p)) == ByteBits(p.out) + (p.pending + Zeros(k)) by {
        ByteBitsAppend(p.out, b);
        PadByteBits(p.pending);
      }
      ConcatAssoc(ByteBits(p.out), p.pending, Zeros(k));
    } else {
      assert Flush(p) == p.out;
      assert Zeros(0) == [];
    }
  }

  /** Reading n 5-bit groups back from the front of a bit string. */
  function Regroup(bits: seq<bool>, n: nat): (r: seq<int>)
    requires 5 * n <= |bits|
    ensures |r| == n && AreGroups(r)
  {
    if n == 0 then [] else Regroup(bits, n - 1) + [FromBits(bits[5 * (n - 1)..5 * n])]
  }

  /** Unpacking: the first n groups held by the bytes. */
  function Unpack(bytes: seq<byte>, n: nat): (r: seq<int>)
    requires 5 * n <= 8 * |bytes|
    ensures |r| == n
  {
    Regroup(ByteBits(bytes), n)
  }

  /** Regrouping reads only the first 5n bits. */
  lemma {:induction false} RegroupPrefix(bits: seq<bool>, tail: seq<bool>, n: nat)
    requires 5 * n <= |bits|
    ensures Regroup(bits + tail, n) == Regroup(bits, n)
  {
    if n > 0 {
      RegroupPrefix(bits, tail, n - 1);
      SliceLeft(bits, tail, 5 * (n - 1), 5 * n);
    }
  }

  /** Regrouping the bits of 5-bit groups gives the groups back. */
  lemma {:induction false} RegroupGroupBits(values: seq<int>)
    requires AreGroups(values)
    ensures Regroup(GroupBits(values), |values|) == values
  {
    if values != [] {
      var n := |values|;
      var init, v := values[..n - 1], values[n - 1];
      RegroupGroupBits(init);
      RegroupStep(GroupBits(init), init, v);
      SplitLast(values);
    }
  }

  /** Regrouping after the bits of one more group gives that group back after the others. */
  lemma {:induction false} RegroupStep(g: seq<bool>, init: seq<int>, v: int)
    requires 0 <= v < 32 && |g| == 5 * |init| && Regroup(g, |init|) == init
    ensures Regroup(g + ToBits(v, 5), |init| + 1) == init + [v]
  {
    var bits := g + ToBits(v, 5);
    assert Regroup(bits, |init|) == init by {
      RegroupPrefix(g, ToBits(v, 5), |init|);
    }
    LastGroup(g, v);
  }

  lemma {:induction false} LastGroup(g: seq<bool>, v: int)
    requires 0 <= v < 32
    ensures FromBits((g + ToBits(v, 5))[|g|..|g| + 5]) == v
  {
    var t := ToBits(v, 5);
    assert (g + t)[|g|..|g| + 5] == t by {
      SliceRight(g, t);
      assert (g + t)[|g|..|g| + 5] == (g + t)[|g|..];
    }
    assert FromBits(t) == v by {
      FromToBitsSmall(v, 5);
    }
  }

  /** Round trip: unpacking the packed bytes gives the groups back. */
  lemma {:induction false} UnpackPacked(values: seq<int>)
    requires AreGroups(values)
    ensures 5 * |values| <= 8 * |Packed(values)|
    ensures Unpack(Packed(values), |values|) == values
  {
    PackedBits(values);
    RegroupPrefix(GroupBits(values), Zeros(8 * |Packed(values)| - 5 * |values|), |values|);
    RegroupGroupBits(values);
  }

  // ---------------------------------------------------------------------
  // Characters outside the alphabet
  // ---------------------------------------------------------------------

  /**
   * A character outside the alphabet is read as -1, which borrows from the
   * bits already pending: "qb" packs to the same bytes as "ll".
   */
  lemma {:induction false} InvalidCharacterAliases()
    ensures !IsBech32("qb") && IsBech32("ll")
    ensures Packed(Indices("qb")) == Packed(Indices("ll"))
  {
    AliasIndices();
    FeedPairAlias(0, -1, 31, 31);
  }

  lemma {:induction false} AliasIndices()
    ensures !IsBech32("qb") && IsBech32("ll")
    ensures Indices("qb") == [0, -1] && Indices("ll") == [31, 31]
  {
    QbIndices();
    LlIndices();
  }

  lemma {:induction false} QbIndices()
    ensures !IsBech32("qb") && Indices("qb") == [0, -1]
  {
    NotInAlphabet();
    CharIndexAt('q', 0);
    var qb := Indices("qb");
    assert qb[0] == 0 && qb[1] == -1;
  }

  lemma {:induction false} LlIndices()
    ensures IsBech32("ll") && Indices("ll") == [31, 31]
  {
    LastLetter();
    var ll := Indices("ll");
    assert ll[0] == 31 && ll[1] == 31;
  }

  /** 'b', which bech32 leaves out of its alphabet so as not to be read as '6'. */
  lemma {:induction false} NotInAlphabet()
    ensures 'b' !in Alphabet
  {
    forall j | 0 <= j < |Alphabet|
      ensures Alphabet[j] != 'b'
    {
      assert Alphabet[j] in "qpzry9x8gf2tvdw0s3jn54khce6mua7l";
    }
  }

  /** 'l', the last letter of the alphabet, stands for 31. */
  lemma {:induction false} LastLetter()
    ensures CharIndex('l') == 31
  {
    var front := Alphabet[..31];
    assert front == "qpzry9x8gf2tvdw0s3jn54khce6mua7";
    assert 'l' !in front;
    forall j | 0 <= j < 31
      ensures Alphabet[j] != 'l'
    {
      assert Alphabet[j] == front[j];
    }
    CharIndexAt('l', 31);
  }

  /** The index of c is the first position holding c. */
  lemma {:induction false} CharIndexAt(c: char, k: nat)
    requires k < |Alphabet| && Alphabet[k] == c
    requires forall j :: 0 <= j < k ==> Alphabet[j] != c
    ensures CharIndex(c) == k
  {
  }

  /**
   * After a first group, only the sum `a * 32 + b` modulo 2^10 matters: the
   * second value may borrow from the first.
   */
  lemma {:induction false} FeedPairAlias(a: int, b: int, c: int, d: int)
    requires 0 <= a < 32 && 0 <= c < 32
    requires (a * 32 + b) % 1024 == (c * 32 + d) % 1024
    ensures Feed([a, b]) == Feed([c, d])
  {
    var t := ToBits(a * 32 + b, 10);
    assert t == ToBits(c * 32 + d, 10) by {
      ToBitsCongruent(a * 32 + b, c * 32 + d, 10);
    }
    FeedPair(a, b, t);
    FeedPair(c, d, t);
  }

  /** Two values after a group: the ten bits of `a * 32 + b`, before any byte is emitted. */
  lemma {:induction false} FeedPair(a: int, b: int, t: seq<bool>)
    requires 0 <= a < 32 && t == ToBits(a * 32 + b, 10)
    ensures Feed([a, b]) == Drain(Packer(t, []))
  {
    var p := Feed([a]);
    assert Push(p, b) == Packer(ToBits(a * 32 + b, 10), []) by {
      FeedSingle(a);
      GroupValue(a);
      PushAfterGroup(p, a, b);
    }
    assert [a, b][..1] == [a];
  }

  lemma {:induction false} FeedSingle(a: int)
    ensures Feed([a]) == Packer(ToBits(a, 5), [])
  {
    assert [a][..0] == [];
    assert FromBits([]) == 0;
  }

  lemma {:induction false} PushAfterGroup(p: Packer, a: int, b: int)
    requires p.out == [] && |p.pending| == 5 && FromBits(p.pending) == a
    ensures Push(p, b) == Packer(ToBits(a * 32 + b, 10), [])
  {
    assert p == Packer(p.pending, []);
    PushPending(p.pending, b, a, 5);
  }

  lemma {:induction false} GroupValue(a: int)
    requires 0 <= a < 32
    ensures FromBits(ToBits(a, 5)) == a
  {
    FromToBitsSmall(a, 5);
  }

  /**
   * The data part decoded as the bech32 rules intend: None when a character
   * is outside the alphabet, otherwise the packed groups.
   */
  function Bech32ToBytes(s: string): (r: Option<seq<byte>>)
    ensures r.Some? <==> IsBech32(s)
  {
    if IsBech32(s) then Some(Packed(Indices(s))) else None
  }

  /** Decoded bytes hold the groups of s, bit by bit, padded with fewer than eight zeros. */
  lemma {:induction false} Bech32ToBytesBits(s: string)
    requires Bech32ToBytes(s).Some?
    ensures 5 * |s| <= 8 * |Bech32ToBytes(s).value| < 5 * |s| + 8
    ensures ByteBits(Bech32ToBytes(s).value) == GroupBits(Indices(s)) + Zeros(8 * |Bech32ToBytes(s).value| - 5 * |s|)
  {
    var v := Indices(s);
    assert Bech32ToBytes(s).value == Packed(v) && |v| == |s|;
    assert AreGroups(v) by {
      assert IsBech32(s);
    }
    PackedBits(v);
  }

  /** Two data parts of the same length that decode to the same bytes are the same string. */
  lemma {:induction false} Bech32ToBytesInjective(s: string, t: string)
    requires |s| == |t| && Bech32ToBytes(s).Some? && Bech32ToBytes(s) == Bech32ToBytes(t)
    ensures s == t
  {
    UnpackPacked(Indices(s));
    UnpackPacked(Indices(t));
    assert Indices(s) == Indices(t);
    forall i | 0 <= i < |s|
      ensures s[i] == t[i]
    {
      assert Alphabet[Indices(s)[i]] == s[i];
    }
  }
}
