/** Little-endian bytes, and hexadecimal digits as JavaScript's toString(16) and parseInt see them. */
module Bytes {
  import opened PrimeField

  /** The n low bytes of x, least significant first. */
  function LeBytes(x: nat, n: nat): (bytes: seq<nat>)
    ensures |bytes| == n
  {
    if n == 0 then [] else [x % 256] + LeBytes(x / 256, n - 1)
  }

  lemma LowByte(hi: nat, lo: nat, p: nat)
    ensures hi * (256 * p) >= 0 && hi * p >= 0
    ensures (hi * (256 * p) + lo) % 256 == lo % 256 && (hi * (256 * p) + lo) / 256 == hi * p + lo / 256
  {
    var y := hi * p;
    assert hi * (256 * p) == 256 * y;
  }

  lemma Reassociate(a: seq<nat>, b: seq<nat>, c: seq<nat>)
    ensures a + b + c == a + (b + c)
  {
  }

  /** The bytes of a number in two parts are the bytes of the low part, then those of the high part. */
  lemma {:induction false} LeBytesSplit(hi: nat, lo: nat, m: nat, n: nat)
    requires lo < Pow(256, m)
    ensures hi * Pow(256, m) >= 0
    ensures LeBytes(hi * Pow(256, m) + lo, m + n) == LeBytes(lo, m) + LeBytes(hi, n)
    decreases m
  {
    if m == 0 {
      assert LeBytes(hi, 0 + n) == [] + LeBytes(hi, n);
    } else {
      LowByte(hi, lo, Pow(256, m - 1));
      LeBytesSplit(hi, lo / 256, m - 1, n);
      Reassociate([lo % 256], LeBytes(lo / 256, m - 1), LeBytes(hi, n));
    }
  }

  /** Different numbers that fit have different bytes. */
  lemma {:induction false} LeBytesInjective(x: nat, y: nat, n: nat)
    requires x < Pow(256, n) && y < Pow(256, n) && LeBytes(x, n) == LeBytes(y, n)
    ensures x == y
  {
    if n > 0 {
      assert LeBytes(x, n)[0] == LeBytes(y, n)[0];
      assert LeBytes(x, n)[1..] == LeBytes(x / 256, n - 1) && LeBytes(y, n)[1..] == LeBytes(y / 256, n - 1);
      LeBytesInjective(x / 256, y / 256, n - 1);
    }
  }

  // ----- Hexadecimal -----

  /** The digits of toString(16), most significant first and no leading zeros; zero is "0". */
  function ToHex(n: nat): (digits: seq<nat>)
    ensures |digits| > 0 && forall i :: 0 <= i < |digits| ==> digits[i] < 16
  {
    if n < 16 then [n] else ToHex(n / 16) + [n % 16]
  }

  function HexValue(digits: seq<nat>): nat {
    if digits == [] then 0 else HexValue(digits[..|digits| - 1]) * 16 + digits[|digits| - 1]
  }

  /** slice(from, to), which clamps both ends to the length. */
  function Slice(digits: seq<nat>, from: nat, to: nat): seq<nat>
    requires from <= to
  {
    if |digits| <= from then [] else if |digits| <= to then digits[from..] else digits[from..to]
  }

  /** parseInt stored in a 32-bit element: the empty string parses to NaN, which is stored as zero. */
  function ParsedWord(digits: seq<nat>): nat {
    HexValue(digits) % 0x1_0000_0000
  }

  lemma {:induction false} HexRoundTrip(n: nat)
    ensures HexValue(ToHex(n)) == n
  {
    if n >= 16 {
      HexRoundTrip(n / 16);
      assert ToHex(n)[..|ToHex(n)| - 1] == ToHex(n / 16);
    } else {
      assert [n][..0] == [];
    }
  }

  lemma {:induction false} HexLength(n: nat, k: nat)
    requires k > 0
    ensures |ToHex(n)| <= k <==> n < Pow(16, k)
  {
    if n < 16 {
      assert Pow(16, k) >= 16;
    } else if k > 1 {
      HexLength(n / 16, k - 1);
    }
  }

  /** Cutting the digits of a number cuts the number. */
  lemma {:induction false} HexSplit(digits: seq<nat>, k: nat)
    requires k <= |digits| && forall i :: 0 <= i < |digits| ==> digits[i] < 16
    ensures HexValue(digits) == HexValue(digits[..k]) * Pow(16, |digits| - k) + HexValue(digits[k..])
    ensures HexValue(digits[k..]) < Pow(16, |digits| - k)
    decreases |digits| - k
  {
    if k == |digits| {
      assert digits[..k] == digits && digits[k..] == [];
    } else {
      HexSplit(digits, k + 1);
      var m := |digits| - k - 1;
      assert digits[..k + 1][..k] == digits[..k];
      HexHead(digits[k..]);
      assert digits[k..][1..] == digits[k + 1..];
      Regroup(Pow(16, m), 16, HexValue(digits[..k]), digits[k], HexValue(digits[k + 1..]));
      TwoDigitBound(Pow(16, m), 16, digits[k], HexValue(digits[k + 1..]));
    }
  }

  lemma {:induction false} HexHead(digits: seq<nat>)
    requires |digits| > 0
    ensures HexValue(digits) == digits[0] * Pow(16, |digits| - 1) + HexValue(digits[1..])
  {
    var n := |digits| - 1;
    if n > 0 {
      HexHead(digits[..n]);
      assert digits[..n][1..] == digits[1..][..n - 1];
      assert (digits[0] * Pow(16, n - 1) + HexValue(digits[1..][..n - 1])) * 16
          == digits[0] * (16 * Pow(16, n - 1)) + HexValue(digits[1..][..n - 1]) * 16;
    } else {
      assert digits[..0] == [] && digits[1..] == [];
    }
  }

  lemma Pow16Values()
    ensures Pow(16, 8) == 0x1_0000_0000 && Pow(16, 16) == 0x1_0000_0000_0000_0000 && Pow(16, 9) == 0x10_0000_0000
    ensures Pow(16, 1) == 16
  {
    assert Pow(16, 4) == 0x1_0000;
    PowSum(16, 4, 4);
    PowSum(16, 8, 8);
    PowSum(16, 1, 8);
  }

  /** Both halves of a length field, as the JavaScript writer computes them from the hexadecimal digits. */
  function FirstSlice(n: nat): nat { ParsedWord(Slice(ToHex(n), 0, 8)) }

  function SecondSlice(n: nat): nat { ParsedWord(Slice(ToHex(n), 8, 16)) }

  /** Up to eight digits the first half is the number and the second is empty. */
  lemma SlicesOfShort(n: nat)
    requires n < 0x1_0000_0000
    ensures FirstSlice(n) == n && SecondSlice(n) == 0
  {
    Pow16Values();
    HexLength(n, 8);
    HexRoundTrip(n);
    assert ToHex(n)[0..] == ToHex(n);
  }

  /** From nine to sixteen digits the slices cut the number after its eighth digit, not before its last eight. */
  lemma SlicesOfLong(n: nat)
    requires 0x1_0000_0000 <= n < 0x1_0000_0000_0000_0000
    ensures 8 < |ToHex(n)| <= 16
    ensures FirstSlice(n) == n / Pow(16, |ToHex(n)| - 8) && SecondSlice(n) == n % Pow(16, |ToHex(n)| - 8)
  {
    Pow16Values();
    HexLength(n, 8);
    HexLength(n, 16);
    HexRoundTrip(n);
    var digits := ToHex(n);
    HexSplit(digits, 8);
    HexSplit(digits[..8], 0);
    assert digits[..8][..0] == [] && digits[..8][0..] == digits[..8];
    assert HexValue(digits[..8]) < Pow(16, 8);
    TailFits(digits, 8);
    assert Slice(digits, 0, 8) == digits[..8] && Slice(digits, 8, 16) == digits[8..];
    RemainderUnique(n, HexValue(digits[..8]), HexValue(digits[8..]), Pow(16, |digits| - 8));
  }

  /** The last eight digits or fewer fit a word. */
  lemma TailFits(digits: seq<nat>, k: nat)
    requires k <= |digits| <= k + 8 && forall i :: 0 <= i < |digits| ==> digits[i] < 16
    ensures HexValue(digits[k..]) < 0x1_0000_0000
  {
    Pow16Values();
    HexSplit(digits, k);
    PowSum(16, |digits| - k, k + 8 - |digits|);
    var a, b := Pow(16, |digits| - k), Pow(16, k + 8 - |digits|);
    assert a * b >= a;
  }
}
