/**
 * The FAT volume probe of fat.c (fat_init): the BIOS Parameter Block (BPB)
 * of sector 0 is decoded, the sizes of section 3.5 of the Microsoft FAT
 * Specification are computed, the volume is classified by its cluster count
 * and validated, and the first sector of the root directory is read and its
 * entries listed, each with the first sector of its data.
 *
 * Disk reads (ide_read_sectors) are a map from sector number to the 512
 * bytes read; a sector missing from the map is a failed read.
 */
module Fat {
  import opened Words

  const SectorSize: nat := 512
  const EntrySize: nat := 32
  const RootEntries: nat := 16
  const BootSignature: nat := 0xAA55
  const JumpOpcode: nat := 0xEB

  /** Sector contents available to the driver; absent sectors fail to read. */
  type Disk = map<u32, seq<u8>>

  predicate WholeSectors(disk: Disk)
  {
    forall s :: s in disk ==> |disk[s]| == SectorSize
  }

  /** The fields of struct fat_bpb that fat_init reads. */
  datatype Bpb = Bpb(
    jmpBoot0: u8, bytsPerSec: u16, secPerClus: u8, rsvdSecCnt: u16, numFATs: u8,
    rootEntCnt: u16, totSec16: u16, fatSz16: u16, totSec32: u32, fatSz32: u32, signature: u16)

  /**
   * The packed BPB at the start of sector 0: BS_jmpBoot at 0, BPB_BytsPerSec
   * at 11, BPB_SecPerClus at 13, BPB_RsvdSecCnt at 14, BPB_NumFATs at 16,
   * BPB_RootEntCnt at 17, BPB_TotSec16 at 19, BPB_FATz16 at 22, BPB_TotSec32
   * at 32, BPB_FATz32 at 36 and the signature word at 510 in both the FAT16
   * and the FAT32 layout of the extended part.
   */
  function ParseBpb(b: seq<u8>): Bpb
    requires |b| == SectorSize
  {
    Bpb(b[0], Le16(b, 11), b[13], Le16(b, 14), b[16], Le16(b, 17), Le16(b, 19), Le16(b, 22),
        Le32(b, 32), Le32(b, 36), Le16(b, 510))
  }

  lemma MulMono(a: int, b: int, d: nat)
    requires a <= b
    ensures a * d <= b * d
  {
  }

  /** A multiple of d strictly between -d and d is zero. */
  lemma MulZero(k: int, d: nat)
    requires d > 0 && 0 <= k * d < d
    ensures k == 0
  {
    if k >= 1 {
      MulMono(1, k, d);
    } else if k <= -1 {
      MulMono(k, -1, d);
    }
  }

  /** Ceiling division: (a + d - 1) / d is the least count of d-sized blocks that covers a. */
  lemma CeilDiv(a: nat, d: nat)
    requires d > 0
    ensures (a + d - 1) / d * d >= a
    ensures ((a + d - 1) / d - 1) * d < a || a == 0
    ensures a % d == 0 ==> (a + d - 1) / d * d == a
  {
    var x := a + d - 1;
    var q, m := x / d, x % d;
    assert x == q * d + m;
    assert (q - 1) * d == q * d - d;
    if a % d == 0 {
      var k := a / d;
      assert a == k * d;
      assert (q - k) * d == q * d - k * d;
      MulZero(q - k, d);
    }
  }

  /** A quotient by a positive divisor is no larger than the dividend. */
  lemma DivNoLarger(a: nat, d: nat)
    requires d > 0
    ensures a / d <= a
  {
    var q := a / d;
    assert a == q * d + a % d;
    MulMono(1, d, q);
  }

  /** The product of two bounded factors is bounded by the product of the bounds. */
  lemma MulBounded(a: nat, b: nat, x: nat, y: nat)
    requires a <= x && b <= y
    ensures a * b <= x * y
  {
    MulMono(a, x, b);
    MulMono(b, y, x);
  }

  /** RootDirSectors: the sectors the fixed root directory occupies, rounded up. */
  function RootDirSectors(p: Bpb): (r: u32)
    requires p.bytsPerSec > 0
    ensures r * p.bytsPerSec >= p.rootEntCnt * EntrySize
    ensures r == 0 || (r - 1) * p.bytsPerSec < p.rootEntCnt * EntrySize
    ensures p.rootEntCnt * EntrySize % p.bytsPerSec == 0 ==> r * p.bytsPerSec == p.rootEntCnt * EntrySize
    ensures r == 0 <==> p.rootEntCnt == 0
  {
    CeilDiv(p.rootEntCnt * EntrySize, p.bytsPerSec);
    (p.rootEntCnt * EntrySize + (p.bytsPerSec - 1)) / p.bytsPerSec
  }

  /** FATz: the 16-bit FAT size unless it is zero, then the FAT32 one. */
  function FatSize(p: Bpb): (r: u32)
    ensures r == if p.fatSz16 != 0 then p.fatSz16 else p.fatSz32
  {
    if p.fatSz16 != 0 then p.fatSz16 else p.fatSz32
  }

  /** TotSec: the 16-bit sector count unless it is zero, then the 32-bit one. */
  function TotalSectors(p: Bpb): (r: u32)
    ensures r == if p.totSec16 != 0 then p.totSec16 else p.totSec32
  {
    if p.totSec16 != 0 then p.totSec16 else p.totSec32
  }

  /** The sectors in front of the data region: reserved, FAT copies and fixed root directory. */
  function Overhead(p: Bpb): nat
    requires p.bytsPerSec > 0
  {
    p.rsvdSecCnt + p.numFATs * FatSize(p) + RootDirSectors(p)
  }

  /** DataSec, a 32-bit difference: it wraps when the overhead exceeds the volume. */
  function DataSectors(p: Bpb): (r: u32)
    requires p.bytsPerSec > 0
    ensures Overhead(p) <= TotalSectors(p) ==> r == TotalSectors(p) - Overhead(p)
  {
    Wrap(TotalSectors(p) - Overhead(p))
  }

  /** CountofClusters. */
  function Clusters(p: Bpb): u32
    requires p.bytsPerSec > 0 && p.secPerClus > 0
  {
    DivNoLarger(DataSectors(p), p.secPerClus);
    DataSectors(p) / p.secPerClus
  }

  datatype FatType = Fat12 | Fat16 | Fat32

  /** The FAT type is decided by the cluster count alone. */
  function Classify(count: u32): (t: FatType)
    ensures t == Fat12 <==> count < 4085
    ensures t == Fat16 <==> 4085 <= count < 65525
    ensures t == Fat32 <==> 65525 <= count
  {
    if count < 4085 then Fat12 else if count < 65525 then Fat16 else Fat32
  }

  /** More clusters never mean a smaller FAT type. */
  lemma ClassifyMonotone(a: u32, b: u32)
    requires a <= b
    ensures Classify(a) == Fat12 || Classify(b) != Fat12
    ensures Classify(b) == Fat32 || Classify(a) != Fat32
  {
  }

  /**
   * Why fat_init gives up on a volume. A zero BPB_BytsPerSec or
   * BPB_SecPerClus is a division by zero, a processor exception.
   */
  datatype Rejection = DivideError | Fat12Unsupported | BadJump | BadSignature | BadRootEntCnt | BadRootDirSectors

  datatype Verdict = Rejected(why: Rejection) | Accepted(kind: FatType)

  /**
   * The validation of fat.c, in its order: sizes and classification first
   * (FAT12 is not supported), then the jump opcode, then the signature and
   * the root-directory constraints of the type found. An accepted FAT16
   * volume has a root directory that fills whole sectors exactly; an
   * accepted FAT32 volume has none.
   */
  function Check(p: Bpb): (v: Verdict)
    ensures v == Rejected(DivideError) <==> p.bytsPerSec == 0 || p.secPerClus == 0
    ensures v.Accepted? ==> p.bytsPerSec > 0 && p.secPerClus > 0 && v.kind == Classify(Clusters(p))
    ensures v.Accepted? ==> v.kind != Fat12 && p.jmpBoot0 == JumpOpcode && p.signature == BootSignature
    ensures v.Accepted? && v.kind == Fat16 ==> RootDirSectors(p) * p.bytsPerSec == p.rootEntCnt * EntrySize
    ensures v.Accepted? && v.kind == Fat32 ==> RootDirSectors(p) == 0 && p.rootEntCnt == 0
    ensures v == Rejected(BadJump) ==> Clusters(p) >= 4085 && p.jmpBoot0 != JumpOpcode
    ensures v == Rejected(Fat12Unsupported) <==> v != Rejected(DivideError) && Clusters(p) < 4085
  {
    if p.bytsPerSec == 0 || p.secPerClus == 0 then Rejected(DivideError)
    else
      var kind := Classify(Clusters(p));
      if kind == Fat12 then Rejected(Fat12Unsupported)
      else if p.jmpBoot0 != JumpOpcode then Rejected(BadJump)
      else if p.signature != BootSignature then Rejected(BadSignature)
      else if kind == Fat16 then
        if p.rootEntCnt * EntrySize % p.bytsPerSec != 0 then Rejected(BadRootEntCnt) else Accepted(Fat16)
      else if RootDirSectors(p) != 0 then Rejected(BadRootDirSectors)
      else if p.rootEntCnt != 0 then Rejected(BadRootEntCnt)
      else Accepted(Fat32)
  }

  /** first_data_sector: the first sector after the overhead, a 32-bit sum. */
  function FirstDataSector(p: Bpb): u32
    requires p.bytsPerSec > 0
  {
    Wrap(Overhead(p))
  }

  /**
   * The first sector of a cluster: clusters are numbered from 2 at the first
   * data sector, SecPerClus sectors each. The arithmetic is 32-bit.
   */
  function ClusterSector(p: Bpb, cluster: u32): (s: u32)
    requires p.bytsPerSec > 0
    ensures cluster == 2 ==> s == FirstDataSector(p)
    ensures 2 <= cluster && FirstDataSector(p) + (cluster - 2) * p.secPerClus < Modulus ==>
      s == FirstDataSector(p) + (cluster - 2) * p.secPerClus && s >= FirstDataSector(p)
  {
    var k := (cluster - 2) * p.secPerClus;
    assert 2 <= cluster ==> k >= 0 by {
      if 2 <= cluster {
        MulMono(0, cluster - 2, p.secPerClus);
      }
    }
    Wrap(k + FirstDataSector(p))
  }

  /** Consecutive clusters start SecPerClus sectors apart while no sum wraps. */
  lemma ClusterSectorsAdjacent(p: Bpb, c: u32)
    requires p.bytsPerSec > 0 && 2 <= c < Modulus - 1
    requires FirstDataSector(p) + (c - 1) * p.secPerClus < Modulus
    ensures ClusterSector(p, c + 1) == ClusterSector(p, c) + p.secPerClus
  {
    assert (c - 1) * p.secPerClus == (c - 2) * p.secPerClus + p.secPerClus;
  }

  /** The first root-directory sector fat_init reads: BPB_RsvdSecCnt + BPB_NumFATs * BPB_FATz16. */
  function RootDirSector(p: Bpb): (s: u32)
    ensures p.fatSz16 != 0 ==> s == p.rsvdSecCnt + p.numFATs * FatSize(p)
  {
    MulBounded(p.numFATs, p.fatSz16, 255, 0xFFFF);
    p.rsvdSecCnt + p.numFATs * p.fatSz16
  }

  /** A 32-byte directory entry, as far as fat_init reads it. */
  datatype DirEntry = DirEntry(name: seq<u8>, attr: u8, clusHi: u16, clusLo: u16, size: u32)

  /** Entry i of a directory sector: name at 0, attribute at 11, DIR_FstClusHI at 20, DIR_FstClusLO at 26, DIR_FileSize at 28. */
  function ParseEntry(b: seq<u8>, i: nat): (e: DirEntry)
    requires |b| == SectorSize && i < RootEntries
    ensures |e.name| == 11
  {
    var at := EntrySize * i;
    DirEntry(b[at..at + 11], b[at + 11], Le16(b, at + 20), Le16(b, at + 26), Le32(b, at + 28))
  }

  function ParseDirectory(b: seq<u8>): (d: seq<DirEntry>)
    requires |b| == SectorSize
    ensures |d| == RootEntries && forall i :: 0 <= i < RootEntries ==> d[i] == ParseEntry(b, i)
  {
    seq(RootEntries, i requires 0 <= i < RootEntries => ParseEntry(b, i))
  }

  /** The entry's first cluster, DIR_FstClusHI:DIR_FstClusLO. */
  function FirstCluster(e: DirEntry): u32
  {
    e.clusHi * 0x1_0000 + e.clusLo
  }

  /** A zero first name byte ends the directory. */
  predicate EndMark(e: DirEntry)
  {
    |e.name| > 0 && e.name[0] == 0
  }

  /** Entries that the listing passes over: deleted (0xE5) and long-name (attribute 0x0F) ones. */
  predicate Skipped(e: DirEntry)
  {
    (|e.name| > 0 && e.name[0] == 0xE5) || e.attr == 0x0F
  }

  /** Index of the first end mark, or the directory's length. */
  function End(d: seq<DirEntry>, from: nat): (n: nat)
    requires from <= |d|
    ensures from <= n <= |d|
    ensures forall k :: from <= k < n ==> !EndMark(d[k])
    ensures n < |d| ==> EndMark(d[n])
    decreases |d| - from
  {
    if from == |d| || EndMark(d[from]) then from else End(d, from + 1)
  }

  /** The indexes among the first n entries that are listed, in order. */
  function ListedBelow(d: seq<DirEntry>, n: nat): (ks: seq<nat>)
    requires n <= |d|
  {
    if n == 0 then []
    else ListedBelow(d, n - 1) + if Skipped(d[n - 1]) then [] else [n - 1]
  }

  /** The listed entries of a directory: those before the end mark that are not skipped. */
  function Listed(d: seq<DirEntry>): seq<nat>
  {
    ListedBelow(d, End(d, 0))
  }

  /** An index is listed below n exactly when it is below n and its entry is not skipped; the order is increasing. */
  lemma {:induction false} ListedBelowMeans(d: seq<DirEntry>, n: nat)
    requires n <= |d|
    ensures forall k :: 0 <= k < n ==> (k in ListedBelow(d, n) <==> !Skipped(d[k]))
    ensures forall a, b :: 0 <= a < b < |ListedBelow(d, n)| ==> ListedBelow(d, n)[a] < ListedBelow(d, n)[b]
    ensures forall a :: 0 <= a < |ListedBelow(d, n)| ==> ListedBelow(d, n)[a] < n
  {
    if n > 0 {
      ListedBelowMeans(d, n - 1);
    }
  }

  /** ListedBelow grows by appending: a smaller bound gives a prefix. */
  lemma {:induction false} ListedBelowPrefix(d: seq<DirEntry>, m: nat, n: nat)
    requires m <= n <= |d|
    ensures ListedBelow(d, m) <= ListedBelow(d, n)
    decreases n - m
  {
    if m < n {
      ListedBelowPrefix(d, m, n - 1);
    }
  }

  /** The last byte fat_init clears after reading a file's sector, as written: buffer[DIR_FileSize]. */
  function TerminatorAsWritten(e: DirEntry): (t: nat)
    ensures t == e.size
  {
    e.size
  }

  /** A listed file of 600 bytes makes fat_init clear byte 600 of its 512-byte buffer. */
  lemma LargeFileOverrunsBuffer()
    ensures var e := DirEntry([0x41, 0x20, 0x20, 0x20, 0x20, 0x20, 0x20, 0x20, 0x54, 0x58, 0x54], 0x20, 0, 3, 600);
      var d := [e] + seq(RootEntries - 1, _ => DirEntry([0], 0, 0, 0, 0));
      0 in Listed(d) && TerminatorAsWritten(d[0]) >= SectorSize
  {
    var e := DirEntry([0x41, 0x20, 0x20, 0x20, 0x20, 0x20, 0x20, 0x20, 0x54, 0x58, 0x54], 0x20, 0, 3, 600);
    var d := [e] + seq(RootEntries - 1, _ => DirEntry([0], 0, 0, 0, 0));
    assert EndMark(d[1]);
    assert End(d, 1) == 1;
    assert End(d, 0) == 1;
    assert ListedBelow(d, 1) == [0];
  }

  /** The byte cleared to end the printed content, kept inside the buffer: the file size, at most 511. */
  function Terminator(e: DirEntry): (t: nat)
    ensures t < SectorSize && t <= e.size
    ensures e.size < SectorSize ==> t == TerminatorAsWritten(e)
  {
    if e.size < SectorSize then e.size else SectorSize - 1
  }

  /** The bytes of s before its first zero byte: what `%s` prints. */
  function UntilNul(s: seq<u8>): (r: seq<u8>)
    ensures r <= s
    ensures forall k :: 0 <= k < |r| ==> r[k] != 0
    ensures |r| < |s| ==> s[|r|] == 0
  {
    if s == [] || s[0] == 0 then [] else [s[0]] + UntilNul(s[1..])
  }

  /** What fat_init prints for a listed entry: its name, its first data sector and its content. */
  datatype Shown = Shown(name: seq<u8>, sector: u32, content: seq<u8>)

  function Show(p: Bpb, e: DirEntry, data: seq<u8>): (f: Shown)
    requires p.bytsPerSec > 0 && |data| == SectorSize
    ensures |f.content| <= Terminator(e) && f.content <= data
  {
    Shown(UntilNul(e.name), ClusterSector(p, FirstCluster(e)), UntilNul(data[..Terminator(e)]))
  }

  /** The sector holding entry e's data, if it can be read. */
  predicate Readable(p: Bpb, e: DirEntry, disk: Disk)
    requires p.bytsPerSec > 0
  {
    ClusterSector(p, FirstCluster(e)) in disk
  }

  /** Every entry named by ks exists and its data sector can be read. */
  ghost predicate AllReadable(p: Bpb, d: seq<DirEntry>, disk: Disk, ks: seq<nat>)
    requires p.bytsPerSec > 0
  {
    ks == [] ||
    (AllReadable(p, d, disk, ks[..|ks| - 1]) && ks[|ks| - 1] < |d| && Readable(p, d[ks[|ks| - 1]], disk))
  }

  /** What is printed for the entries named by ks, in order. */
  ghost function Shows(p: Bpb, d: seq<DirEntry>, disk: Disk, ks: seq<nat>): (r: seq<Shown>)
    requires p.bytsPerSec > 0 && WholeSectors(disk) && AllReadable(p, d, disk, ks)
    ensures |r| == |ks|
  {
    if ks == [] then []
    else
      var e := d[ks[|ks| - 1]];
      Shows(p, d, disk, ks[..|ks| - 1]) + [Show(p, e, disk[ClusterSector(p, FirstCluster(e))])]
  }

  /** Showing one more entry appends what is printed for it. */
  lemma ShowsAppend(p: Bpb, d: seq<DirEntry>, disk: Disk, ks: seq<nat>, k: nat)
    requires p.bytsPerSec > 0 && WholeSectors(disk) && AllReadable(p, d, disk, ks)
    requires k < |d| && Readable(p, d[k], disk)
    ensures AllReadable(p, d, disk, ks + [k])
    ensures Shows(p, d, disk, ks + [k]) ==
      Shows(p, d, disk, ks) + [Show(p, d[k], disk[ClusterSector(p, FirstCluster(d[k]))])]
  {
    assert (ks + [k])[..|ks|] == ks;
  }

  /**
   * files is what the listing prints: the listed entries in order, each
   * shown with its data, up to the first entry whose sector cannot be read,
   * where the listing stops (complete is false).
   */
  ghost predicate ListingMatches(p: Bpb, d: seq<DirEntry>, disk: Disk, files: seq<Shown>, complete: bool)
    requires p.bytsPerSec > 0 && WholeSectors(disk)
  {
    var ks := Listed(d);
    && |files| <= |ks|
    && AllReadable(p, d, disk, ks[..|files|])
    && files == Shows(p, d, disk, ks[..|files|])
    && (complete <==> |files| == |ks|)
    && (!complete ==> ks[|files|] < |d| && !Readable(p, d[ks[|files|]], disk))
  }

  /**
   * One listed entry: the name goes into the buffer before byte 11 is
   * cleared, the entry's first data sector is read over it, and the content
   * is ended at Terminator.
   */
  method ShowEntry(p: Bpb, e: DirEntry, disk: Disk, buffer: array<u8>) returns (f: Shown)
    requires p.bytsPerSec > 0 && WholeSectors(disk) && Readable(p, e, disk)
    requires buffer.Length == SectorSize && |e.name| == 11
    modifies buffer
    ensures f == Show(p, e, disk[ClusterSector(p, FirstCluster(e))])
  {
    buffer[11] := 0;
    forall k | 0 <= k < 11 {
      buffer[k] := e.name[k];
    }
    assert buffer[..] == e.name + buffer[11..];
    UntilNulStops(buffer[..], 11);
    assert buffer[..11] == e.name;
    var name := UntilNul(buffer[..]);
    var sector := ClusterSector(p, FirstCluster(e));
    var data := disk[sector];
    forall k | 0 <= k < SectorSize {
      buffer[k] := data[k];
    }
    var t := Terminator(e);
    buffer[t] := 0;
    assert buffer[..t] == data[..t];
    UntilNulStops(buffer[..], t);
    f := Shown(name, sector, UntilNul(buffer[..]));
  }

  /** A listing cut short by the unreadable entry i, the next listed one. */
  lemma StoppedListing(p: Bpb, d: seq<DirEntry>, disk: Disk, files: seq<Shown>, i: nat)
    requires p.bytsPerSec > 0 && WholeSectors(disk)
    requires i < End(d, 0) && !Skipped(d[i]) && !Readable(p, d[i], disk)
    requires AllReadable(p, d, disk, ListedBelow(d, i)) && files == Shows(p, d, disk, ListedBelow(d, i))
    ensures ListingMatches(p, d, disk, files, false)
  {
    var ks, k := Listed(d), ListedBelow(d, i);
    ListedBelowPrefix(d, i + 1, End(d, 0));
    assert ListedBelow(d, i + 1) == k + [i];
    PrefixThenNext(ks, k, i);
    assert |files| == |k|;
  }

  lemma PrefixThenNext(ks: seq<nat>, k: seq<nat>, i: nat)
    requires k + [i] <= ks
    ensures |k| < |ks| && ks[..|k|] == k && ks[|k|] == i
  {
    assert ks[..|k| + 1] == k + [i];
    assert ks[..|k|] == (k + [i])[..|k|];
  }

  /** A listing that reached the end mark, or the end of the sector. */
  lemma FinishedListing(p: Bpb, d: seq<DirEntry>, disk: Disk, files: seq<Shown>, i: nat)
    requires p.bytsPerSec > 0 && WholeSectors(disk) && i == End(d, 0)
    requires AllReadable(p, d, disk, ListedBelow(d, i)) && files == Shows(p, d, disk, ListedBelow(d, i))
    ensures ListingMatches(p, d, disk, files, true)
  {
    assert Listed(d)[..|files|] == Listed(d);
  }

  /**
   * The root-directory loop of fat_init: it stops at the end mark, skips
   * deleted and long-name entries, and shows every other entry. A failed
   * read ends the loop.
   */
  method ListRootDir(p: Bpb, d: seq<DirEntry>, disk: Disk) returns (files: seq<Shown>, complete: bool)
    requires p.bytsPerSec > 0 && WholeSectors(disk) && |d| == RootEntries
    requires forall k :: 0 <= k < |d| ==> |d[k].name| == 11
    ensures ListingMatches(p, d, disk, files, complete)
  {
    var buffer := new u8[SectorSize];
    files := [];
    ghost var end := End(d, 0);
    assert end < |d| ==> EndMark(d[end]);
    ghost var ks: seq<nat> := [];
    var i: nat := 0;
    while i < RootEntries
      invariant i <= end && ks == ListedBelow(d, i)
      invariant AllReadable(p, d, disk, ks) && files == Shows(p, d, disk, ks)
    {
      var e := d[i];
      if EndMark(e) {
        break;
      }
      assert i != end;
      if !Skipped(e) {
        if !Readable(p, e, disk) {
          StoppedListing(p, d, disk, files, i);
          return files, false;
        }
        var f := ShowEntry(p, e, disk, buffer);
        ShowsAppend(p, d, disk, ks, i);
        files, ks := files + [f], ks + [i];
      }
      i := i + 1;
    }
    FinishedListing(p, d, disk, files, i);
    return files, true;
  }

  /** Printing a buffer whose byte t is zero prints at most its first t bytes. */
  lemma {:induction false} UntilNulStops(s: seq<u8>, t: nat)
    requires t < |s| && s[t] == 0
    ensures UntilNul(s) == UntilNul(s[..t])
  {
    if t > 0 && s[0] != 0 {
      assert s[1..][..t - 1] == s[..t][1..];
      UntilNulStops(s[1..], t - 1);
    }
  }

  /** The outcome of fat_init on a disk. */
  datatype Outcome =
    | BootReadFailed
    | Invalid(why: Rejection)
    | RootReadFailed(kind: FatType)
    | Listing(kind: FatType, files: seq<Shown>, complete: bool)

  /**
   * fat_init: read sector 0 and validate its BPB; read the root directory
   * sector; list its entries.
   */
  method FatInit(disk: Disk) returns (r: Outcome)
    requires WholeSectors(disk)
    ensures r == BootReadFailed <==> 0 !in disk
    ensures 0 in disk && Check(ParseBpb(disk[0])).Rejected? ==> r == Invalid(Check(ParseBpb(disk[0])).why)
    ensures r.RootReadFailed? || r.Listing? ==>
      0 in disk && Check(ParseBpb(disk[0])) == Accepted(r.kind)
    ensures r.RootReadFailed? <==> 0 in disk && Check(ParseBpb(disk[0])).Accepted? && RootDirSector(ParseBpb(disk[0])) !in disk
    ensures r.Listing? ==>
      var p := ParseBpb(disk[0]);
      RootDirSector(p) in disk && ListingMatches(p, ParseDirectory(disk[RootDirSector(p)]), disk, r.files, r.complete)
  {
    if 0 !in disk {
      return BootReadFailed;
    }
    var p := ParseBpb(disk[0]);
    var v := Check(p);
    if v.Rejected? {
      return Invalid(v.why);
    }
    var root := RootDirSector(p);
    if root !in disk {
      return RootReadFailed(v.kind);
    }
    var dir := ParseDirectory(disk[root]);
    var files, complete := ListRootDir(p, dir, disk);
    return Listing(v.kind, files, complete);
  }
}
