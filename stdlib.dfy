/**
 * The freestanding C library of the kernel: byte copy and fill with the
 * optional page-permission guard, binary search and `min`.
 *
 * Memory is an array of cells addressed by index; `dst` and `src` are indices
 * into the same array, so overlapping copies are modelled as the ascending
 * byte loop performs them.
 */
module StdLib {
  import opened Words

  /** The memory after the first k steps of the ascending copy loop. */
  function Copied<T>(m: seq<T>, dst: nat, src: nat, k: nat): (r: seq<T>)
    requires dst + k <= |m| && src + k <= |m|
    ensures |r| == |m|
  {
    if k == 0 then m
    else
      var prev := Copied(m, dst, src, k - 1);
      prev[dst + k - 1 := prev[src + k - 1]]
  }

  /**
   * The copy never touches memory outside [dst, dst + k), and when the
   * destination does not start inside the source range the destination ends
   * up holding exactly the old source bytes.
   */
  lemma {:induction false} CopiedFaithful<T>(m: seq<T>, dst: nat, src: nat, k: nat)
    requires dst + k <= |m| && src + k <= |m|
    ensures forall j :: 0 <= j < |m| && !(dst <= j < dst + k) ==> Copied(m, dst, src, k)[j] == m[j]
    ensures dst <= src || src + k <= dst ==>
      forall j :: dst <= j < dst + k ==> Copied(m, dst, src, k)[j] == m[src + (j - dst)]
  {
    if k > 0 {
      CopiedFaithful(m, dst, src, k - 1);
      var prev := Copied(m, dst, src, k - 1);
      if dst <= src || src + k <= dst {
        assert prev[src + k - 1] == m[src + k - 1];
      }
    }
  }

  /** The bare ascending copy loop `while (size--) *d++ = *s++;`. */
  method Copy<T>(a: array<T>, dst: nat, src: nat, n: nat)
    requires dst + n <= a.Length && src + n <= a.Length
    modifies a
    ensures a[..] == Copied(old(a[..]), dst, src, n)
  {
    var i := 0;
    while i < n
      invariant 0 <= i <= n
      invariant a[..] == Copied(old(a[..]), dst, src, i)
    {
      a[dst + i] := a[src + i];
      i := i + 1;
    }
  }

  /** The memory after a fill of n cells with v from dst. */
  function Filled<T>(m: seq<T>, dst: nat, n: nat, v: T): (r: seq<T>)
    requires dst + n <= |m|
    ensures |r| == |m|
    ensures forall j :: 0 <= j < |m| ==> r[j] == if dst <= j < dst + n then v else m[j]
  {
    m[..dst] + seq(n, _ => v) + m[dst + n..]
  }

  /** The bare fill loop `while (size--) *p++ = c;`. */
  method Fill<T>(a: array<T>, dst: nat, n: nat, v: T)
    requires dst + n <= a.Length
    modifies a
    ensures a[..] == Filled(old(a[..]), dst, n, v)
  {
    var i := 0;
    while i < n
      invariant 0 <= i <= n
      invariant forall j :: 0 <= j < a.Length ==>
        a[j] == if dst <= j < dst + i then v else old(a[j])
    {
      a[dst + i] := v;
      i := i + 1;
    }
  }

  /** `(unsigned char)chr`: the low byte of an int, also for negative values. */
  function LowByte(chr: int): (r: u8)
    ensures (r - chr) % 256 == 0
  {
    chr % 256
  }

  /**
   * memcpy. When the guard is on (`unsafe` false) and the destination fails the
   * writable-page check or the source fails the readable-page check, nothing is
   * written and 0 is returned; otherwise the ascending copy runs and dst is
   * returned.
   */
  method Memcpy(mem: array<u8>, dst: u32, src: u32, size: nat, unsafe: bool, dstRejected: bool, srcRejected: bool)
    returns (r: u32)
    requires dst as nat + size <= mem.Length && src as nat + size <= mem.Length
    modifies mem
    ensures !unsafe && (dstRejected || srcRejected) ==> r == 0 && mem[..] == old(mem[..])
    ensures unsafe || !(dstRejected || srcRejected) ==> r == dst && mem[..] == Copied(old(mem[..]), dst, src, size)
  {
    if !unsafe && (dstRejected || srcRejected) {
      return 0;
    }
    Copy(mem, dst, src, size);
    return dst;
  }

  /**
   * memset. When the guard is on and the destination fails the page check,
   * nothing is written and 0 is returned; otherwise `size` bytes from dst take
   * the low byte of chr and dst is returned.
   */
  method Memset(mem: array<u8>, dst: u32, chr: int, size: nat, unsafe: bool, dstRejected: bool)
    returns (r: u32)
    requires dst as nat + size <= mem.Length
    modifies mem
    ensures !unsafe && dstRejected ==> r == 0 && mem[..] == old(mem[..])
    ensures unsafe || !dstRejected ==> r == dst && mem[..] == Filled(old(mem[..]), dst, size, LowByte(chr))
  {
    if !unsafe && dstRejected {
      return 0;
    }
    Fill(mem, dst, size, LowByte(chr));
    return dst;
  }

  /**
   * The elements of a are ordered with respect to key under cmp: every element
   * after one that key sorts below also sorts above key, and every element
   * before one that key sorts above also sorts below key.
   */
  ghost predicate SortedFor<K, T>(key: K, a: seq<T>, cmp: (K, T) -> int)
  {
    forall i, j :: 0 <= i <= j < |a| ==>
      (cmp(key, a[i]) < 0 ==> cmp(key, a[j]) < 0) && (cmp(key, a[j]) > 0 ==> cmp(key, a[i]) > 0)
  }

  /**
   * bsearch_s with signed bounds: the index of an element that compares equal
   * to key, or None. On input ordered for key, None means no element compares
   * equal. Every step that does not match moves a bound strictly past middle.
   */
  method BSearch<K, T>(key: K, a: seq<T>, cmp: (K, T) -> int) returns (r: Option<nat>)
    ensures r.Some? ==> r.value < |a| && cmp(key, a[r.value]) == 0
    ensures SortedFor(key, a, cmp) && r.None? ==> forall i :: 0 <= i < |a| ==> cmp(key, a[i]) != 0
  {
    var left, right := 0, |a| - 1;
    while left <= right
      invariant 0 <= left <= right + 1 <= |a|
      invariant SortedFor(key, a, cmp) ==>
        forall i :: 0 <= i < |a| && (i < left || right < i) ==> cmp(key, a[i]) != 0
      decreases right - left
    {
      var middle := (left + right) / 2;
      var c := cmp(key, a[middle]);
      if c > 0 {
        left := middle + 1;
      } else if c < 0 {
        right := middle - 1;
      } else {
        return Some(middle);
      }
    }
    return None;
  }

  /** Outcome of bsearch_s as written: a match, null, or a read past the array. */
  datatype Probe = Found(index: nat) | Missing | OutOfBounds(index: nat)

  /**
   * bsearch_s exactly as written, with `uint32_t` bounds: `rigth = num - 1`
   * wraps to 0xFFFFFFFF when num is 0 or when a step below middle 0 is taken,
   * after which middle lands far beyond the array (a read out of bounds).
   */
  method BSearchAsWritten<K, T>(key: K, a: seq<T>, cmp: (K, T) -> int) returns (r: Probe)
    requires |a| < 0x8000_0000
    ensures r.Found? ==> r.index < |a| && cmp(key, a[r.index]) == 0
    ensures r.OutOfBounds? ==> r.index >= |a|
    ensures |a| == 0 ==> r.OutOfBounds?
    ensures (forall i :: 0 <= i < |a| ==> cmp(key, a[i]) < 0) ==> r.OutOfBounds?
  {
    var left: u32 := 0;
    var rigth: u32 := Wrap(|a| - 1);
    while left <= rigth
      invariant left <= |a|
      invariant rigth < |a| || (rigth == Modulus - 1 && left == 0)
      invariant rigth < |a| ==> left <= rigth + 1
      invariant (forall i :: 0 <= i < |a| ==> cmp(key, a[i]) < 0) ==> left == 0
      decreases if rigth < |a| then rigth + 1 - left else 0
    {
      var middle: u32 := Wrap(left + rigth) / 2;
      if middle >= |a| {
        return OutOfBounds(middle);
      }
      var c := cmp(key, a[middle]);
      if c > 0 {
        left := middle + 1;
      } else if c < 0 {
        rigth := Wrap(middle - 1);
      } else {
        return Found(middle);
      }
    }
    return Missing;
  }

  /** min: b when a > b, otherwise a; so the smaller of the two. */
  function Min(a: u32, b: u32): (r: u32)
    ensures r <= a && r <= b
    ensures r == a || r == b
  {
    if a > b then b else a
  }
}
