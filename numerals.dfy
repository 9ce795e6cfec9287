/**
 * Number formatting of the kernel console: `itoa`, which writes the digits
 * of an unsigned value least significant first into a character buffer and
 * then reverses the run up to the buffer's first NUL in place, and the
 * zero padding kprintf gets by pre-filling that buffer with '0's.
 */
module Numerals {
  const Nul: char := 0 as char
  const Charset: string := "0123456789abcdef"

  /** The value of one digit of Charset. */
  function DigitValue(ch: char): nat
  {
    if '0' <= ch <= '9' then ch as int - '0' as int
    else if 'a' <= ch <= 'f' then ch as int - 'a' as int + 10
    else 0
  }

  /** The digit of value k, which is the character at index k of Charset. */
  function Digit(k: nat): (ch: char)
    requires k < 16
    ensures ch != Nul && DigitValue(ch) == k
  {
    if k < 10 then ('0' as int + k) as char else ('a' as int + k - 10) as char
  }

  lemma CharsetDigits()
    ensures |Charset| == 16
    ensures forall k :: 0 <= k < 16 ==> Charset[k] == Digit(k)
  {
    assert Charset == ['0', '1', '2', '3', '4', '5', '6', '7', '8', '9', 'a', 'b', 'c', 'd', 'e', 'f'];
  }

  /** The characters of the C string held at the start of s. */
  function CString(s: string): (r: string)
    ensures r <= s && Nul !in r
    ensures |r| < |s| ==> s[|r|] == Nul
  {
    if s == [] || s[0] == Nul then [] else [s[0]] + CString(s[1..])
  }

  /** The index of the first NUL of s. */
  function FirstNul(s: string): (e: nat)
    requires Nul in s
    ensures e < |s| && s[e] == Nul
    ensures forall k :: 0 <= k < e ==> s[k] != Nul
  {
    if s[0] == Nul then 0
    else
      assert s == [s[0]] + s[1..];
      FirstNul(s[1..]) + 1
  }

  function Reverse(s: string): (r: string)
    ensures |r| == |s|
    ensures forall k :: 0 <= k < |s| ==> r[k] == s[|s| - 1 - k]
  {
    if s == [] then [] else Reverse(s[1..]) + [s[0]]
  }

  function Zeros(n: nat): (r: string)
    ensures |r| == n && forall k :: 0 <= k < n ==> r[k] == '0'
  {
    seq(n, _ => '0')
  }

  /**
   * The digits of c in the given base as the first loop of itoa emits them:
   * least significant first, and none at all for 0.
   */
  function DigitsLS(c: nat, base: nat): (r: string)
    requires 2 <= base <= 16
    ensures c == 0 <==> r == []
    ensures Nul !in r
    ensures forall k :: 0 <= k < |r| ==> DigitValue(r[k]) < base
    decreases c
  {
    if c == 0 then [] else [Digit(c % base)] + DigitsLS(c / base, base)
  }

  /** The value of a digit string read least significant first. */
  function ValueLS(ds: string, base: nat): nat
  {
    if ds == [] then 0 else DigitValue(ds[0]) + base * ValueLS(ds[1..], base)
  }

  /** The value of a digit string read most significant first, as printed. */
  function ValueMS(ds: string, base: nat): nat
  {
    if ds == [] then 0 else ValueMS(ds[..|ds| - 1], base) * base + DigitValue(ds[|ds| - 1])
  }

  /** Reading the digits back gives the number: no digit is lost or altered. */
  lemma {:induction false} DigitsRoundTrip(c: nat, base: nat)
    requires 2 <= base <= 16
    ensures ValueLS(DigitsLS(c, base), base) == c
    decreases c
  {
    if c > 0 {
      DivMod(c, base);
      var q, d := c / base, c % base;
      DigitsRoundTrip(q, base);
      var ds := DigitsLS(c, base);
      assert ds[0] == Digit(d) && ds[1..] == DigitsLS(q, base);
    }
  }

  lemma DivMod(c: nat, base: nat)
    requires base > 1
    ensures 0 <= c / base && 0 <= c % base < base
    ensures c == c % base + base * (c / base)
    ensures c > 0 ==> c / base < c
  {
    var q := c / base;
    NatProduct(base - 2, q);
    assert base * q == (base - 2) * q + 2 * q;
  }

  lemma NatProduct(a: nat, b: nat)
    ensures a * b >= 0
  {
  }

  /** The most significant digit of a non-zero number is not '0'. */
  lemma {:induction false} LeadingDigit(c: nat, base: nat)
    requires 2 <= base <= 16 && c > 0
    ensures var ds := DigitsLS(c, base); ds[|ds| - 1] != '0'
    decreases c
  {
    var ds := DigitsLS(c, base);
    DivMod(c, base);
    var q, d := c / base, c % base;
    assert ds == [Digit(d)] + DigitsLS(q, base);
    if q == 0 {
      assert ds == [Digit(d)] && d == c;
      assert DigitValue('0') == 0;
    } else {
      LeadingDigit(q, base);
    }
  }

  lemma {:induction false} ReverseValue(ds: string, base: nat)
    ensures ValueMS(Reverse(ds), base) == ValueLS(ds, base)
    decreases |ds|
  {
    if ds != [] {
      var r := Reverse(ds);
      assert r[..|r| - 1] == Reverse(ds[1..]);
      ReverseValue(ds[1..], base);
    }
  }

  lemma {:induction false} LeadingZerosValue(n: nat, ds: string, base: nat)
    ensures ValueMS(Zeros(n) + ds, base) == ValueMS(ds, base)
    decreases |ds|
  {
    if ds == [] {
      ZerosValue(n, base);
      assert Zeros(n) + ds == Zeros(n);
    } else {
      var s := Zeros(n) + ds;
      assert s[..|s| - 1] == Zeros(n) + ds[..|ds| - 1];
      LeadingZerosValue(n, ds[..|ds| - 1], base);
    }
  }

  lemma {:induction false} ZerosValue(n: nat, base: nat)
    ensures ValueMS(Zeros(n), base) == 0
  {
    if n > 0 {
      assert Zeros(n)[..n - 1] == Zeros(n - 1);
      ZerosValue(n - 1, base);
    }
  }

  /** The digits kprintf prints for `%<width>d` (base 10) or `%<width>h` (base 16). */
  function Padded(c: nat, base: nat, width: nat): (r: string)
    requires 2 <= base <= 16
  {
    var ds := DigitsLS(c, base);
    Zeros(if width > |ds| then width - |ds| else 0) + Reverse(ds)
  }

  /**
   * A padded number is its digits most significant first behind just enough
   * '0's to reach the width: it is max(width, digit count) long, reads back
   * as the number, and has no '0' in front of its digits beyond the padding.
   */
  lemma PaddedMeans(c: nat, base: nat, width: nat)
    requires 2 <= base <= 16
    ensures var n := |DigitsLS(c, base)|; var r := Padded(c, base, width);
      |r| == (if width > n then width else n)
      && ValueMS(r, base) == c
      && Nul !in r
      && (c > 0 && width <= n ==> r[0] != '0')
  {
    var ds := DigitsLS(c, base);
    LeadingZerosValue(if width > |ds| then width - |ds| else 0, Reverse(ds), base);
    ReverseValue(ds, base);
    DigitsRoundTrip(c, base);
    if c > 0 {
      LeadingDigit(c, base);
    }
  }

  /** `itoa(0)` emits no digit, so a zero printed with no width prints nothing. */
  lemma ZeroPrintsNothing(base: nat)
    requires 2 <= base <= 16
    ensures Padded(0, base, 0) == []
  {
  }

  /**
   * The buffer after itoa: the digits written over its start, then the run up
   * to the buffer's first NUL reversed in place.
   */
  function ItoaResult(m: string, c: nat, base: nat): (r: string)
    requires 2 <= base <= 16
    requires |DigitsLS(c, base)| <= |m| && Nul in m[|DigitsLS(c, base)|..]
    ensures |r| == |m|
  {
    var ds := DigitsLS(c, base);
    var s := ds + m[|ds|..];
    var e := FirstNul(s);
    Reverse(s[..e]) + s[e..]
  }

  /**
   * itoa(buf, c, base). The caller's buffer must hold a NUL at or after the
   * last digit, otherwise the scan for the first NUL runs off its end.
   */
  method Itoa(buf: array<char>, c: nat, base: nat)
    requires 2 <= base <= 16
    requires |DigitsLS(c, base)| <= buf.Length && Nul in buf[|DigitsLS(c, base)|..]
    modifies buf
    ensures buf[..] == ItoaResult(old(buf[..]), c, base)
  {
    ghost var digits := DigitsLS(c, base);
    ghost var s := digits + buf[|digits|..];
    WriteDigits(buf, c, base);
    var e := FindNul(buf);
    ReverseRun(buf, e);
  }

  /** The first loop of itoa: the digits, least significant first, over the start of buf. */
  method WriteDigits(buf: array<char>, c: nat, base: nat)
    requires 2 <= base <= 16 && |DigitsLS(c, base)| <= buf.Length
    modifies buf
    ensures buf[..] == DigitsLS(c, base) + old(buf[|DigitsLS(c, base)|..])
  {
    ghost var digits := DigitsLS(c, base);
    var v: nat := c;
    var p: nat := 0;
    CharsetDigits();
    while v != 0
      invariant p + |DigitsLS(v, base)| == |digits|
      invariant digits[p..] == DigitsLS(v, base)
      invariant forall k :: 0 <= k < p ==> buf[k] == digits[k]
      invariant forall k :: p <= k < buf.Length ==> buf[k] == old(buf[k])
      decreases v
    {
      DivMod(v, base);
      assert DigitsLS(v, base) == [Digit(v % base)] + DigitsLS(v / base, base);
      buf[p] := Charset[v % base];
      v := v / base;
      p := p + 1;
    }
    assert buf[..] == digits + old(buf[|digits|..]);
  }

  /** The second loop of itoa: the index of the first NUL of buf. */
  method FindNul(buf: array<char>) returns (e: nat)
    requires Nul in buf[..]
    ensures e == FirstNul(buf[..])
  {
    ghost var e0 := FirstNul(buf[..]);
    e := 0;
    while buf[e] != Nul
      invariant e <= e0
      decreases e0 - e
    {
      e := e + 1;
    }
  }

  /** The last loop of itoa: the two-pointer reversal of buf[..e]. */
  method ReverseRun(buf: array<char>, e: nat)
    requires e <= buf.Length
    modifies buf
    ensures buf[..] == Reverse(old(buf[..e])) + old(buf[e..])
  {
    ghost var s := buf[..];
    var lo: int, hi: int := 0, e - 1;
    while lo < hi
      invariant 0 <= lo <= hi + 1 && lo + hi == e - 1
      invariant forall k :: 0 <= k < lo ==> buf[k] == s[e - 1 - k]
      invariant forall k :: hi < k < e && 0 <= k ==> buf[k] == s[e - 1 - k]
      invariant forall k :: lo <= k <= hi ==> buf[k] == s[k]
      invariant forall k :: e <= k < buf.Length ==> buf[k] == s[k]
    {
      buf[lo], buf[hi] := buf[hi], buf[lo];
      lo, hi := lo + 1, hi - 1;
    }
    ghost var r := Reverse(s[..e]) + s[e..];
    forall k | 0 <= k < buf.Length
      ensures buf[k] == r[k]
    {
      if k < e {
        assert r[k] == Reverse(s[..e])[k] == s[..e][e - 1 - k];
      } else {
        assert r[k] == s[e..][k - e];
      }
    }
    assert buf[..] == r;
  }

  /** The buffer kprintf hands to itoa: `width` '0's, then NULs. */
  function Prefilled(width: nat, size: nat): (r: string)
    requires width <= size
    ensures |r| == size
  {
    Zeros(width) + seq(size - width, _ => Nul)
  }

  /**
   * The zero-padding trick: itoa over a buffer pre-filled with `width` '0's
   * leaves, as a C string, the number zero-padded to the width.
   */
  lemma ItoaPads(c: nat, base: nat, width: nat, size: nat)
    requires 2 <= base <= 16 && width < size && |DigitsLS(c, base)| < size
    ensures Nul in Prefilled(width, size)[|DigitsLS(c, base)|..]
    ensures CString(ItoaResult(Prefilled(width, size), c, base)) == Padded(c, base, width)
  {
    var m := Prefilled(width, size);
    var ds := DigitsLS(c, base);
    var n := |ds|;
    var e := if width > n then width else n;
    var s := ds + m[n..];
    PrefilledRun(ds, m, width, size);
    assert m[n..][e - n] == Nul;
    var r := ItoaResult(m, c, base);
    assert r == Reverse(s[..e]) + s[e..];
    ReverseAppend(ds, Zeros(e - n));
    assert Reverse(s[..e]) == Padded(c, base, width);
    CStringOfPrefix(Reverse(s[..e]), s[e..]);
  }

  /** Digits over a pre-filled buffer: the run before the first NUL is the digits and the '0's past them. */
  lemma PrefilledRun(ds: string, m: string, width: nat, size: nat)
    requires width < size && |ds| < size && Nul !in ds && m == Prefilled(width, size)
    ensures var n := |ds|; var e := if width > n then width else n; var s := ds + m[n..];
      e < |s| && s[e] == Nul && FirstNul(s) == e && s[..e] == ds + Zeros(e - n)
  {
    var n := |ds|;
    var e := if width > n then width else n;
    var s := ds + m[n..];
    assert s[e] == m[e] == Nul;
    forall k | 0 <= k < e
      ensures s[k] != Nul && s[k] == (ds + Zeros(e - n))[k]
    {
      if k < n {
        assert s[k] == ds[k];
      } else {
        assert s[k] == m[k] == '0';
      }
    }
    assert s[..e] == ds + Zeros(e - n);
  }

  lemma ReverseAppend(a: string, z: string)
    requires forall k :: 0 <= k < |z| ==> z[k] == '0'
    ensures Reverse(a + z) == Zeros(|z|) + Reverse(a)
  {
    var r, w := Reverse(a + z), Zeros(|z|) + Reverse(a);
    forall k | 0 <= k < |r|
      ensures r[k] == w[k]
    {
      if k < |z| {
        assert r[k] == (a + z)[|a| + |z| - 1 - k] == '0';
      } else {
        assert w[k] == Reverse(a)[k - |z|] == a[|a| - 1 - (k - |z|)];
      }
    }
  }

  lemma {:induction false} CStringOfPrefix(w: string, rest: string)
    requires Nul !in w && rest != [] && rest[0] == Nul
    ensures CString(w + rest) == w
    decreases |w|
  {
    if w != [] {
      assert (w + rest)[1..] == w[1..] + rest;
      CStringOfPrefix(w[1..], rest);
    } else {
      assert w + rest == rest;
    }
  }
}
