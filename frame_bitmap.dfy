/**
 * The physical frame allocator: one bit per 4 KiB frame in a 4096-byte
 * bitmap, so 32768 frames (128 MiB). A 1 bit means the frame is free, a 0
 * bit that it is used. The bitmap is a global array updated in place.
 */
module FrameBitmap {
  import opened Words
  import StdLib

  /** `unsigned char bitmap[PAGE_SIZE]`. */
  const BitmapBytes: nat := 4096
  const FrameCount: nat := BitmapBytes * 8

  /** The frame holding physical address p: `p / PAGE_SIZE`, the low 12 bits dropped. */
  function FrameOf(p: u32): nat
  {
    p / PageSize
  }

  /** The bitmap has a bit for p's frame (otherwise the C code indexes past the array). */
  predicate Covered(p: u32)
  {
    FrameOf(p) < FrameCount
  }

  /** `1 << j` for a bit number below 8. */
  function Bit(j: nat): bv8
    requires j < 8
  {
    match j
    case 0 => 0x01 case 1 => 0x02 case 2 => 0x04 case 3 => 0x08
    case 4 => 0x10 case 5 => 0x20 case 6 => 0x40 case _ => 0x80
  }

  /** Frame f is free in bitmap s: bit f % 8 of byte f / 8 is set. */
  predicate IsFree(s: seq<bv8>, f: nat)
    requires f / 8 < |s|
  {
    s[f / 8] & Bit(f % 8) != 0
  }

  /** The bitmap after `bitmap[f/8] &= ~(1 << f%8)`. */
  function WithUsed(s: seq<bv8>, f: nat): (r: seq<bv8>)
    requires f / 8 < |s|
    ensures |r| == |s|
  {
    s[f / 8 := s[f / 8] & !Bit(f % 8)]
  }

  /** The bitmap after `bitmap[f/8] |= 1 << f%8`. */
  function WithFree(s: seq<bv8>, f: nat): (r: seq<bv8>)
    requires f / 8 < |s|
    ensures |r| == |s|
  {
    s[f / 8 := s[f / 8] | Bit(f % 8)]
  }

  lemma BitsDiffer(j: nat, k: nat)
    requires j < 8 && k < 8 && j != k
    ensures Bit(j) & Bit(k) == 0
  {
  }

  /** Marking f used clears f's bit and leaves every other frame's bit as it was. */
  lemma WithUsedExact(s: seq<bv8>, f: nat, g: nat)
    requires f / 8 < |s| && g / 8 < |s|
    ensures IsFree(WithUsed(s, f), g) <==> g != f && IsFree(s, g)
  {
    if g / 8 == f / 8 && g != f {
      assert g % 8 != f % 8;
      BitsDiffer(g % 8, f % 8);
    }
  }

  /** Marking f free sets f's bit and leaves every other frame's bit as it was. */
  lemma WithFreeExact(s: seq<bv8>, f: nat, g: nat)
    requires f / 8 < |s| && g / 8 < |s|
    ensures IsFree(WithFree(s, f), g) <==> g == f || IsFree(s, g)
  {
    if g / 8 == f / 8 && g != f {
      assert g % 8 != f % 8;
      BitsDiffer(g % 8, f % 8);
    }
  }

  /** The frames bitmap s records as free. */
  ghost function FreeSet(s: seq<bv8>): set<nat>
    requires |s| == BitmapBytes
  {
    set f | 0 <= f < FrameCount && IsFree(s, f)
  }

  /** Marking f used takes exactly f out of the free set. */
  lemma FreeSetWithUsed(s: seq<bv8>, f: nat)
    requires |s| == BitmapBytes && f < FrameCount
    ensures FreeSet(WithUsed(s, f)) == FreeSet(s) - {f}
  {
    forall g | 0 <= g < FrameCount ensures IsFree(WithUsed(s, f), g) <==> g != f && IsFree(s, g) {
      WithUsedExact(s, f, g);
    }
  }

  /** Marking f free adds exactly f to the free set. */
  lemma FreeSetWithFree(s: seq<bv8>, f: nat)
    requires |s| == BitmapBytes && f < FrameCount
    ensures FreeSet(WithFree(s, f)) == FreeSet(s) + {f}
  {
    forall g | 0 <= g < FrameCount ensures IsFree(WithFree(s, f), g) <==> g == f || IsFree(s, g) {
      WithFreeExact(s, f, g);
    }
  }

  /**
   * The lowest free frame at or above `from`, or |s| * 8 when there is none:
   * the order in which the byte-then-bit scan visits frames.
   */
  function FirstFree(s: seq<bv8>, from: nat): (f: nat)
    requires from <= |s| * 8
    ensures from <= f <= |s| * 8
    ensures f < |s| * 8 ==> IsFree(s, f)
    ensures forall g :: from <= g < f ==> !IsFree(s, g)
    decreases |s| * 8 - from
  {
    if from == |s| * 8 then from
    else if IsFree(s, from) then from
    else FirstFree(s, from + 1)
  }

  /** Any frame that is free and has no free frame below it is the scan's answer. */
  lemma FirstFreeUnique(s: seq<bv8>, f: nat)
    requires f < |s| * 8 && IsFree(s, f)
    requires forall g :: 0 <= g < f ==> !IsFree(s, g)
    ensures FirstFree(s, 0) == f
  {
  }

  /** Frame `8 * index + j` is bit j of byte index. */
  lemma ByteAndBit(s: seq<bv8>, index: nat, j: nat)
    requires index < |s| && j < 8
    ensures (index * 8 + j) / 8 == index && (index * 8 + j) % 8 == j
    ensures IsFree(s, index * 8 + j) <==> s[index] & Bit(j) != 0
  {
  }

  /** With no free frame at all the scan runs off the end. */
  lemma FirstFreeNone(s: seq<bv8>)
    requires forall g :: 0 <= g < |s| * 8 ==> !IsFree(s, g)
    ensures FirstFree(s, 0) == |s| * 8
  {
  }

  /** The address bitmap_find_free_page reports for bitmap s: lowest free frame, or 0. */
  function FreePageAddress(s: seq<bv8>): (p: nat)
    ensures p % PageSize == 0
    ensures p != 0 ==> p / PageSize == FirstFree(s, 0) && p + PageSize <= |s| * 8 * PageSize
  {
    var f := FirstFree(s, 0);
    if f < |s| * 8 then f * PageSize else 0
  }

  /**
   * Once the frame just reported is marked used, the next scan reports a
   * strictly higher frame or nothing: the same frame never comes back.
   */
  lemma {:induction false} NextFreeAfterUse(s: seq<bv8>)
    requires |s| > 0 && FirstFree(s, 0) < |s| * 8
    ensures FirstFree(WithUsed(s, FirstFree(s, 0)), 0) > FirstFree(s, 0)
  {
    var f := FirstFree(s, 0);
    var t := WithUsed(s, f);
    var f' := FirstFree(t, 0);
    WithUsedExact(s, f, f);
    if f' <= f {
      if f' < |t| * 8 {
        WithUsedExact(s, f, f');
      }
    }
  }

  /** Two addresses in the same 4 KiB page name the same frame, hence share a status. */
  lemma SamePageSameFrame(p: u32, q: u32)
    requires PageBase(p) == PageBase(q)
    ensures FrameOf(p) == FrameOf(q)
  {
  }

  class Bitmap {
    var bits: array<bv8>

    ghost predicate Valid()
      reads this
    {
      bits.Length == BitmapBytes
    }

    /** Frames are free exactly where the bitmap's bits are set. */
    ghost function Free(): set<nat>
      reads this, bits
      requires Valid()
    {
      FreeSet(bits[..])
    }

    /** The zero-initialised global: every frame starts used. */
    constructor ()
      ensures Valid() && fresh(bits) && Free() == {}
    {
      bits := new bv8[BitmapBytes](_ => 0);
      new;
      forall f | 0 <= f < FrameCount ensures !IsFree(bits[..], f) {
        assert bits[f / 8] == 0;
      }
    }

    /** bitmap_clear: every frame becomes used. */
    method Clear()
      requires Valid()
      modifies bits
      ensures Valid() && Free() == {}
      ensures forall f :: 0 <= f < FrameCount ==> !IsFree(bits[..], f)
    {
      StdLib.Fill(bits, 0, BitmapBytes, 0);
      forall f | 0 <= f < FrameCount ensures !IsFree(bits[..], f) {
        assert bits[f / 8] == 0;
      }
    }

    /** bitmap_mark_as_used: clears p's bit, nothing else. */
    method MarkUsed(p: u32)
      requires Valid() && Covered(p)
      modifies bits
      ensures Valid()
      ensures bits[..] == WithUsed(old(bits[..]), FrameOf(p))
      ensures Free() == old(Free()) - {FrameOf(p)}
    {
      var page := p / PageSize;
      var a := page / 8;
      bits[a] := bits[a] & !Bit(page % 8);
      assert bits[..] == WithUsed(old(bits[..]), page);
      FreeSetWithUsed(old(bits[..]), page);
    }

    /** bitmap_mark_as_free: sets p's bit, nothing else. */
    method MarkFree(p: u32)
      requires Valid() && Covered(p)
      modifies bits
      ensures Valid()
      ensures bits[..] == WithFree(old(bits[..]), FrameOf(p))
      ensures Free() == old(Free()) + {FrameOf(p)}
    {
      var page := p / PageSize;
      var index := page / 8;
      bits[index] := bits[index] | Bit(page % 8);
      assert bits[..] == WithFree(old(bits[..]), page);
      FreeSetWithFree(old(bits[..]), page);
    }

    /** bitmap_page_status: 1 when p's frame is used, 0 when it is free. */
    function Status(p: u32): (r: int)
      requires Valid() && Covered(p)
      reads this, bits
      ensures r == 0 || r == 1
      ensures r == 1 <==> FrameOf(p) !in Free()
    {
      var page := p / PageSize;
      if bits[page / 8] & Bit(page % 8) == 0 then 1 else 0
    }

    /**
     * bitmap_find_free_page: scans bytes, then bits within a byte, and returns
     * the address of the first free frame, or 0 when every frame is used.
     * The bitmap is only read.
     */
    method FindFreePage() returns (p: u32)
      requires Valid()
      ensures p == FreePageAddress(bits[..])
      ensures p % PageSize == 0
      ensures p != 0 ==> FrameOf(p) in Free()
    {
      ghost var s := bits[..];
      var index := 0;
      while index < BitmapBytes
        invariant 0 <= index <= BitmapBytes
        invariant forall g :: 0 <= g < index * 8 ==> !IsFree(s, g)
      {
        var jndex := 0;
        while jndex < 8
          invariant 0 <= jndex <= 8
          invariant forall g :: 0 <= g < index * 8 + jndex ==> !IsFree(s, g)
        {
          ByteAndBit(s, index, jndex);
          if bits[index] & Bit(jndex) != 0 {
            FirstFreeUnique(s, index * 8 + jndex);
            return (index * 8 + jndex) * PageSize;
          }
          jndex := jndex + 1;
        }
        index := index + 1;
      }
      FirstFreeNone(s);
      return 0;
    }
  }
}
