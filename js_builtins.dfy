/**
 * The JavaScript built-ins the invoice code leans on, stated over unbounded
 * integers and Dafny strings, whose characters are Unicode scalar values
 * and so agree with JavaScript's code units only up to U+FFFF: 32-bit
 * integer conversion and the shift and mask operators,
 * `Number.prototype.toString(16)`, `parseInt(_, 16)`, and the
 * `indexOf`/`split` searches for a substring.
 */
module JsBuiltins {
  import opened Wrappers
  import opened Bits

  // ---------------------------------------------------------------------
  // 32-bit integer operators
  // ---------------------------------------------------------------------

  /** ECMAScript ToInt32: the integer congruent to x modulo 2^32 in [-2^31, 2^31). */
  function ToInt32(x: int): (r: int)
    ensures -0x8000_0000 <= r < 0x8000_0000
    ensures (r - x) % 0x1_0000_0000 == 0
  {
    var m := x % 0x1_0000_0000;
    if m >= 0x8000_0000 then m - 0x1_0000_0000 else m
  }

  /** `x << k` for a shift count k below 32. */
  function ShiftLeft(x: int, k: nat): (r: int)
    requires k < 32
    ensures -0x8000_0000 <= r < 0x8000_0000
    ensures r % Pow2(k) == 0
  {
    ShiftLeftLow(x, k);
    ToInt32(ToInt32(x) * Pow2(k))
  }

  /** Shifting left by k fills the low k bits with zeros, and the int32 wrap keeps them. */
  lemma {:induction false} ShiftLeftLow(x: int, k: nat)
    requires k < 32
    ensures ToInt32(ToInt32(x) * Pow2(k)) % Pow2(k) == 0
  {
    var p, a := Pow2(k), ToInt32(x);
    var y := a * p;
    assert ToInt32(y) % p == y % p by {
      ToInt32Low(y, k);
    }
    assert y == p * a + 0 by {
      MulAssoc(p, a, 1);
    }
    assert y % p == 0 by {
      AddMultiple(p, a, 0);
    }
  }

  /** `x >> k` (sign-propagating) for a shift count k below 32. */
  function ShiftRight(x: int, k: nat): int
    requires k < 32
  {
    ToInt32(x) / Pow2(k)
  }

  /** `x & 255`: the low eight bits of the 32-bit two's complement of x. */
  function And255(x: int): (r: int)
    ensures 0 <= r < 256
    ensures r == x % 256
  {
    ToInt32Low(x, 8);
    assert Pow2(8) == 256;
    ToInt32(x) % 256
  }

  /** ToInt32 keeps every bit below bit 32. */
  lemma {:induction false} ToInt32Low(x: int, c: nat)
    requires c <= 32
    ensures ToInt32(x) % Pow2(c) == x % Pow2(c)
  {
    var r := ToInt32(x);
    var q := (r - x) / 0x1_0000_0000;
    DivMod(r - x, 0x1_0000_0000);
    assert r == 0x1_0000_0000 * q + x;
    Pow2Add(c, 32 - c);
    Pow2At32();
    var a, b := Pow2(c), Pow2(32 - c);
    assert a * b == 0x1_0000_0000;
    MulAssoc(a, b, q);
    AddMultiple(a, b * q, x);
  }

  lemma {:induction false} Pow2At32()
    ensures Pow2(32) == 0x1_0000_0000
  {
    Pow2Add(16, 16);
    Pow2Add(8, 8);
    Pow2Add(4, 4);
  }

  // ---------------------------------------------------------------------
  // Hexadecimal digits
  // ---------------------------------------------------------------------

  const LowerHexDigits: string := "0123456789abcdef"

  predicate IsHexDigit(c: char)
  {
    '0' <= c <= '9' || 'a' <= c <= 'f' || 'A' <= c <= 'F'
  }

  predicate IsLowerHexDigit(c: char)
  {
    '0' <= c <= '9' || 'a' <= c <= 'f'
  }

  /** The value of one hexadecimal digit, in either case. */
  function HexValue(c: char): (v: nat)
    requires IsHexDigit(c)
    ensures v < 16
  {
    if '0' <= c <= '9' then c as int - '0' as int
    else if 'a' <= c <= 'f' then c as int - 'a' as int + 10
    else c as int - 'A' as int + 10
  }

  /** The lower-case digit for a value below 16. */
  function HexDigit(d: nat): (c: char)
    requires d < 16
    ensures IsLowerHexDigit(c) && HexValue(c) == d
  {
    LowerHexDigits[d]
  }

  /** The value of a string of hexadecimal digits, most significant first. */
  function HexNumber(s: string): nat
    requires forall i :: 0 <= i < |s| ==> IsHexDigit(s[i])
  {
    if s == [] then 0 else 16 * HexNumber(s[..|s| - 1]) + HexValue(s[|s| - 1])
  }

  /**
   * `n.toString(16)` for a non-negative integer n: lower-case digits, no
   * leading zero, and reading the digits back gives n.
   */
  function NatToHex(n: nat): (r: string)
    ensures |r| >= 1 && forall i :: 0 <= i < |r| ==> IsLowerHexDigit(r[i])
    ensures forall i :: 0 <= i < |r| ==> IsHexDigit(r[i])
    ensures HexNumber(r) == n
    ensures |r| > 1 ==> r[0] != '0'
    ensures n < 16 <==> |r| == 1
  {
    if n < 16 then [HexDigit(n)]
    else
      var init := NatToHex(n / 16);
      var r := init + [HexDigit(n % 16)];
      assert r[..|r| - 1] == init;
      r
  }

  // ---------------------------------------------------------------------
  // parseInt(s, 16)
  // ---------------------------------------------------------------------

  /** The white space and line terminators that `parseInt` skips at the start. */
  predicate IsJsWhitespace(c: char)
  {
    var k := c as int;
    || 0x09 <= k <= 0x0D || k == 0x20 || k == 0xA0 || k == 0x1680
    || 0x2000 <= k <= 0x200A || k == 0x2028 || k == 0x2029 || k == 0x202F
    || k == 0x205F || k == 0x3000 || k == 0xFEFF
  }

  /** `s` without its leading white space. */
  function TrimStart(s: string): (r: string)
    ensures |r| <= |s|
  {
    if s != [] && IsJsWhitespace(s[0]) then TrimStart(s[1..]) else s
  }

  /** TrimStart drops exactly the white space at the start of s. */
  lemma {:induction false} TrimStartDrops(s: string)
    ensures TrimStart(s) == s[|s| - |TrimStart(s)|..]
    ensures forall i :: 0 <= i < |s| - |TrimStart(s)| ==> IsJsWhitespace(s[i])
    ensures TrimStart(s) == [] || !IsJsWhitespace(TrimStart(s)[0])
  {
    if s != [] && IsJsWhitespace(s[0]) {
      TrimStartDrops(s[1..]);
    }
  }

  /** The number of hexadecimal digits at the start of s. */
  function HexRun(s: string): (n: nat)
    ensures n <= |s|
  {
    if s != [] && IsHexDigit(s[0]) then 1 + HexRun(s[1..]) else 0
  }

  /** HexRun counts the longest run of digits at the start of s. */
  lemma {:induction false} HexRunDigits(s: string)
    ensures forall i :: 0 <= i < HexRun(s) ==> IsHexDigit(s[i])
    ensures HexRun(s) == |s| || !IsHexDigit(s[HexRun(s)])
  {
    if s != [] && IsHexDigit(s[0]) {
      HexRunDigits(s[1..]);
    }
  }

  /**
   * `parseInt(s, 16)`, with None standing for NaN: leading white space is
   * skipped, then one sign, then a "0x"/"0X" prefix, then the longest run
   * of hexadecimal digits is read; no digit at all gives NaN.
   */
  function ParseInt16(s: string): Option<int>
  {
    var t := TrimStart(s);
    match LeadingDigits(DigitsStart(s))
    case None => None
    case Some(m) => Some(if |t| > 0 && t[0] == '-' then -m else m)
  }

  /** The text after one leading '+' or '-'. */
  function AfterSign(t: string): string
  {
    if |t| > 0 && (t[0] == '-' || t[0] == '+') then t[1..] else t
  }

  /** The text after a leading "0x" or "0X". */
  function AfterHexPrefix(u: string): string
  {
    if |u| >= 2 && u[0] == '0' && (u[1] == 'x' || u[1] == 'X') then u[2..] else u
  }

  /** The value of the digits at the start of w; None when there are none. */
  function LeadingDigits(w: string): Option<int>
  {
    var n := HexRun(w);
    if n == 0 then None
    else
      HexRunDigits(w);
      Some(HexNumber(w[..n]))
  }

  /** A non-empty string of digits (in either case) parses to its value. */
  lemma {:induction false} ParseInt16Digits(s: string)
    requires |s| > 0 && forall i :: 0 <= i < |s| ==> IsHexDigit(s[i])
    ensures ParseInt16(s) == Some(HexNumber(s))
  {
    assert IsHexDigit(s[0]) && !IsJsWhitespace(s[0]);
    assert TrimStart(s) == s;
    assert AfterSign(s) == s;
    assert |s| >= 2 ==> IsHexDigit(s[1]);
    assert AfterHexPrefix(s) == s;
    HexRunAll(s);
    assert s[..|s|] == s;
    assert LeadingDigits(s) == Some(HexNumber(s));
  }

  /** Two digits, the shape the invoice code hands to parseInt, give 16 * first + second. */
  lemma {:induction false} ParseInt16Pair(c1: char, c2: char)
    requires IsHexDigit(c1) && IsHexDigit(c2)
    ensures ParseInt16([c1, c2]) == Some(16 * HexValue(c1) + HexValue(c2))
  {
    ParseInt16Digits([c1, c2]);
    assert [c1, c2][..1] == [c1];
    assert [c1][..0] == [];
    assert HexNumber([c1]) == HexValue(c1);
    assert HexNumber([c1, c2]) == 16 * HexNumber([c1]) + HexValue(c2);
  }

  /** A string without any hexadecimal digit is NaN. */
  lemma {:induction false} ParseInt16NoDigits(s: string)
    requires forall i :: 0 <= i < |s| ==> !IsHexDigit(s[i])
    ensures ParseInt16(s).None?
  {
    var w := DigitsStart(s);
    DigitsStartSuffix(s);
    if w != [] {
      assert !IsHexDigit(w[0]) by {
        assert w[0] == s[|s| - |w|];
      }
    }
    assert HexRun(w) == 0;
  }

  /** Where parseInt starts looking for digits: after white space, a sign and a "0x" prefix. */
  function DigitsStart(s: string): (w: string)
    ensures |w| <= |s|
  {
    AfterHexPrefix(AfterSign(TrimStart(s)))
  }

  lemma {:induction false} DigitsStartSuffix(s: string)
    ensures DigitsStart(s) == s[|s| - |DigitsStart(s)|..]
  {
    var t := TrimStart(s);
    var u := AfterSign(t);
    var w := DigitsStart(s);
    assert t == s[|s| - |t|..] by {
      TrimStartDrops(s);
    }
    assert u == t[|t| - |u|..] by {
      AfterSignSuffix(t);
    }
    assert w == u[|u| - |w|..] by {
      AfterHexPrefixSuffix(u);
    }
    SuffixOfSuffix(t, u, w);
    SuffixOfSuffix(s, t, w);
  }

  /** Dropping a sign leaves a suffix. */
  lemma AfterSignSuffix(t: string)
    ensures AfterSign(t) == t[|t| - |AfterSign(t)|..]
  {
  }

  /** Dropping a "0x" prefix leaves a suffix. */
  lemma AfterHexPrefixSuffix(u: string)
    ensures AfterHexPrefix(u) == u[|u| - |AfterHexPrefix(u)|..]
  {
  }

  /** A string made only of digits is one run. */
  lemma {:induction false} HexRunAll(s: string)
    requires forall i :: 0 <= i < |s| ==> IsHexDigit(s[i])
    ensures HexRun(s) == |s|
  {
    if s != [] {
      HexRunAll(s[1..]);
    }
  }

  /** Storing a number into a `Uint8Array` element: NaN becomes 0, everything else is taken modulo 256. */
  function ToUint8(v: Option<int>): (b: byte)
    ensures v.Some? && 0 <= v.value < 256 ==> b == v.value
  {
    match v
    case None => 0
    case Some(x) => x % 256
  }

  // ---------------------------------------------------------------------
  // Substring search and the pieces of String.prototype.split
  // ---------------------------------------------------------------------

  predicate OccursAt(s: string, pat: string, i: nat)
  {
    i + |pat| <= |s| && s[i..i + |pat|] == pat
  }

  ghost predicate Contains(s: string, pat: string)
  {
    exists i: nat :: OccursAt(s, pat, i)
  }

  ghost predicate FirstOccurrence(s: string, pat: string, i: nat)
  {
    OccursAt(s, pat, i) && forall j: nat :: j < i ==> !OccursAt(s, pat, j)
  }

  /** The front of a part that occurs at `start` occurs there too. */
  lemma {:induction false} OccursAtFront(s: string, start: nat, part: string, front: string)
    requires OccursAt(s, part, start) && OccursAt(part, front, 0)
    ensures OccursAt(s, front, start)
  {
    assert s[start..start + |front|] == s[start..start + |part|][..|front|];
  }

  /**
   * `p` occurs in `s` at `start`, no occurrence of `sep` in `s` starts
   * inside it (so none lies in it), and it is followed by an occurrence of
   * `sep` or by the end of `s`: one piece of `s.split(sep)`.
   */
  ghost predicate Piece(s: string, start: nat, p: string, sep: string)
  {
    && OccursAt(s, p, start)
    && (forall j: nat :: start <= j < start + |p| ==> !OccursAt(s, sep, j))
    && !Contains(p, sep)
    && (start + |p| == |s| || OccursAt(s, sep, start + |p|))
  }

  /** A piece is determined by where it starts: it runs up to the first occurrence of `sep` from there, or the end. */
  lemma {:induction false} PieceUnique(s: string, start: nat, p: string, q: string, sep: string)
    requires Piece(s, start, p, sep) && Piece(s, start, q, sep)
    ensures p == q
  {
    assert |p| == |q|;
  }

  /** `s.indexOf(pat, from)`, with None standing for -1. */
  function IndexOf(s: string, pat: string, from: nat): (r: Option<nat>)
    ensures r.Some? ==> from <= r.value && OccursAt(s, pat, r.value)
    ensures r.Some? ==> forall j: nat :: from <= j < r.value ==> !OccursAt(s, pat, j)
    ensures r.None? ==> forall j: nat :: from <= j ==> !OccursAt(s, pat, j)
    decreases |s| - from
  {
    if from + |pat| > |s| then None
    else if OccursAt(s, pat, from) then Some(from)
    else IndexOf(s, pat, from + 1)
  }

  /** Searching for one character: the first position from `from` on that holds it. */
  lemma {:induction false} IndexOfChar(s: string, c: char, from: nat)
    ensures IndexOf(s, [c], from).Some? ==>
      var k := IndexOf(s, [c], from).value;
      k < |s| && s[k] == c && forall j :: from <= j < k ==> s[j] != c
    ensures IndexOf(s, [c], from).None? ==> forall j :: from <= j < |s| ==> s[j] != c
  {
    match IndexOf(s, [c], from)
    case None =>
      forall j | from <= j < |s|
        ensures s[j] != c
      {
        assert !OccursAt(s, [c], j);
        assert s[j..j + 1] == [s[j]];
      }
    case Some(k) =>
      assert s[k..k + 1] == [c];
      forall j | from <= j < k
        ensures s[j] != c
      {
        assert !OccursAt(s, [c], j);
        assert s[j..j + 1] == [s[j]];
      }
  }

  lemma {:induction false} NoOccurrenceInside(s: string, pat: string, start: nat, end: nat)
    requires |pat| > 0 && start <= end <= |s|
    requires forall j: nat :: start <= j < end ==> !OccursAt(s, pat, j)
    ensures !Contains(s[start..end], pat)
  {
    var p := s[start..end];
    forall i: nat
      ensures !OccursAt(p, pat, i)
    {
      if i + |pat| <= |p| {
        assert start + i < end;
        assert !OccursAt(s, pat, start + i);
        var inP, inS := p[i..i + |pat|], s[start + i..start + i + |pat|];
        forall k | 0 <= k < |pat|
          ensures inP[k] == inS[k]
        {
          assert inP[k] == p[i + k] == s[start + i + k];
        }
        assert inP == inS;
      }
    }
  }

  /** `s.split(sep)[0]` for a non-empty separator: the text before the first occurrence. */
  function SplitFirst(s: string, sep: string): (r: string)
    requires |sep| > 0
    ensures Piece(s, 0, r, sep)
    ensures Contains(s, sep) <==> |r| < |s|
    ensures Contains(s, sep) ==> FirstOccurrence(s, sep, |r|)
  {
    match IndexOf(s, sep, 0)
    case None =>
      NoOccurrenceInside(s, sep, 0, |s|);
      assert s[0..|s|] == s;
      s
    case Some(i) =>
      NoOccurrenceInside(s, sep, 0, i);
      s[..i]
  }

  /**
   * `s.split(sep)[1]` for a non-empty separator: the text between the first
   * and the second occurrence (or the end); None stands for `undefined`,
   * when `sep` does not occur.
   */
  function SplitSecond(s: string, sep: string): (r: Option<string>)
    requires |sep| > 0
    ensures r.None? <==> !Contains(s, sep)
    ensures r.Some? ==> exists i: nat :: FirstOccurrence(s, sep, i) && Piece(s, i + |sep|, r.value, sep)
  {
    match IndexOf(s, sep, 0)
    case None => None
    case Some(i) =>
      var start := i + |sep|;
      var end := match IndexOf(s, sep, start) case Some(j) => j case None => |s|;
      NoOccurrenceInside(s, sep, start, end);
      assert FirstOccurrence(s, sep, i);
      Some(s[start..end])
  }

  /** Any piece that starts at 0 is `s.split(sep)[0]`. */
  lemma {:induction false} SplitFirstExact(s: string, sep: string, p: string)
    requires |sep| > 0 && Piece(s, 0, p, sep)
    ensures SplitFirst(s, sep) == p
  {
    PieceUnique(s, 0, SplitFirst(s, sep), p, sep);
  }

  /** Any piece that starts right after the first occurrence of `sep` is `s.split(sep)[1]`. */
  lemma {:induction false} SplitSecondExact(s: string, sep: string, i: nat, p: string)
    requires |sep| > 0 && FirstOccurrence(s, sep, i) && Piece(s, i + |sep|, p, sep)
    ensures SplitSecond(s, sep) == Some(p)
  {
    SplitSecondAt(s, sep, i);
    SomePieceUnique(s, i + |sep|, SplitSecond(s, sep), p, sep);
  }

  /** An optional piece that is present and starts where p does is Some(p). */
  lemma {:induction false} SomePieceUnique(s: string, start: nat, r: Option<string>, p: string, sep: string)
    requires r.Some? && Piece(s, start, r.value, sep) && Piece(s, start, p, sep)
    ensures r == Some(p)
  {
    PieceUnique(s, start, r.value, p, sep);
  }

  /** When `sep` first occurs at i, `s.split(sep)[1]` is the piece that starts right after it. */
  lemma {:induction false} SplitSecondAt(s: string, sep: string, i: nat)
    requires |sep| > 0 && FirstOccurrence(s, sep, i)
    ensures SplitSecond(s, sep).Some? && Piece(s, i + |sep|, SplitSecond(s, sep).value, sep)
  {
    var k := IndexOf(s, sep, 0);
    assert k == Some(i) by {
      assert OccursAt(s, sep, i);
    }
  }
}
