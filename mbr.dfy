/**
 * The MBR partition driver of kernel/mbr.c. mbr_init reads sector 0 of a
 * drive, checks the boot signature and the disk id, and registers every
 * FAT32-LBA or FAT16-LBA partition (types 0x0C and 0x0E) as a block device
 * of its own. A partition device forwards reads and writes to its parent
 * drive, shifted by the partition's first sector, after a bounds check.
 */
module Mbr {
  import opened Words
  import BlockDevices

  /** struct mbr_partition: the private data of a partition device. */
  datatype Partition = Partition(lbaStart: u32, numSector: u32, drive: u8)

  /** A request forwarded to the parent drive: device, sector count, first sector. */
  datatype Request = Request(drive: u8, numsect: u32, lba: u32)

  /** The two routines of mbr_partition_ops. */
  const PartitionRead: BlockDevices.Driver := 0
  const PartitionWrite: BlockDevices.Driver := 1
  const PartitionOps: BlockDevices.Ops := BlockDevices.Ops(Some(PartitionRead), Some(PartitionWrite))

  /**
   * The bounds check of mbr_partition_read and mbr_partition_write as the
   * C code computes it: `lba + numsect` is a 32-bit sum and can wrap.
   */
  function ForwardAsWritten(p: Partition, numsect: u32, lba: u32): (r: Option<Request>)
    ensures r.None? <==> lba > p.numSector || Wrap(lba + numsect) > p.numSector
    ensures r.Some? ==> r.value == Request(p.drive, numsect, Wrap(p.lbaStart + lba))
  {
    if lba > p.numSector || Wrap(lba + numsect) > p.numSector then None
    else Some(Request(p.drive, numsect, Wrap(p.lbaStart + lba)))
  }

  /** A request for 2^32 - 1 sectors at sector 1 of a 10-sector partition passes the check. */
  lemma WrappedCountPasses()
    ensures var p := Partition(0, 10, 0);
      ForwardAsWritten(p, 0xFFFF_FFFF, 1) == Some(Request(0, 0xFFFF_FFFF, 1)) &&
      1 + 0xFFFF_FFFF > p.numSector
  {
  }

  /**
   * mbr_partition_read / mbr_partition_write with the sum taken without
   * wrap-around: -1 (None) when the request does not lie within the
   * partition, otherwise the same count and buffer go to the parent drive at
   * the partition's first sector plus lba. When the partition itself fits in
   * the 32-bit sector space, every forwarded sector lies inside it.
   */
  function ForwardRequest(p: Partition, numsect: u32, lba: u32): (r: Option<Request>)
    ensures r.None? <==> lba > p.numSector || lba + numsect > p.numSector
    ensures r.Some? ==> r.value.drive == p.drive && r.value.numsect == numsect
    ensures r.Some? && p.lbaStart + p.numSector < Modulus ==>
      p.lbaStart <= r.value.lba && r.value.lba + numsect <= p.lbaStart + p.numSector &&
      r.value.lba - p.lbaStart == lba
  {
    if lba > p.numSector || lba + numsect > p.numSector then None
    else Some(Request(p.drive, numsect, Wrap(p.lbaStart + lba)))
  }

  /** The two checks agree whenever the C sum does not wrap. */
  lemma ForwardAgreesWithoutWrap(p: Partition, numsect: u32, lba: u32)
    requires lba + numsect < Modulus
    ensures ForwardRequest(p, numsect, lba) == ForwardAsWritten(p, numsect, lba)
  {
  }

  const SectorSize: nat := 512
  const UuidAt: nat := 0x1B8
  const EntriesAt: nat := 0x1BE
  const EntrySize: nat := 16
  const SignatureAt: nat := 0x1FE
  const BootSignature: nat := 0xAA55
  const InitialUuid: u32 := 0xDEAD_BEAF

  /** struct mbr_entry, as far as mbr_init reads it. */
  datatype Entry = Entry(kind: u8, lbaStart: u32, numSectors: u32)

  /** The i-th partition entry of the table at 0x1BE: type at +4, first sector at +8, size at +12. */
  function EntryAt(b: seq<u8>, i: nat): (e: Entry)
    requires |b| == SectorSize && i < 4
  {
    var at := EntriesAt + EntrySize * i;
    Entry(b[at + 4], Le32(b, at + 8), Le32(b, at + 12))
  }

  /** Only FAT32 with LBA (0x0C) and FAT16 with LBA (0x0E) partitions are taken. */
  predicate Usable(e: Entry)
  {
    e.kind == 0x0C || e.kind == 0x0E
  }

  /** The partitions made from the usable entries among the first n, in table order. */
  function Chosen(b: seq<u8>, drive: u8, n: nat): (ps: seq<Partition>)
    requires |b| == SectorSize && n <= 4
    ensures |ps| <= n
  {
    if n == 0 then []
    else
      var e := EntryAt(b, n - 1);
      Chosen(b, drive, n - 1) + if Usable(e) then [Partition(e.lbaStart, e.numSectors, drive)] else []
  }

  /** Nothing is chosen exactly when none of the first n entries has a usable type. */
  lemma {:induction false} ChosenEmpty(b: seq<u8>, drive: u8, n: nat)
    requires |b| == SectorSize && n <= 4
    ensures Chosen(b, drive, n) == [] <==> forall i :: 0 <= i < n ==> !Usable(EntryAt(b, i))
  {
    if n > 0 {
      ChosenEmpty(b, drive, n - 1);
    }
  }

  /** p was made from a usable entry among the first n. */
  ghost predicate FromEntry(b: seq<u8>, n: nat, p: Partition)
    requires |b| == SectorSize && n <= 4
  {
    exists i :: 0 <= i < n && Usable(EntryAt(b, i)) &&
      p.lbaStart == EntryAt(b, i).lbaStart && p.numSector == EntryAt(b, i).numSectors
  }

  /** Every chosen partition comes from a usable entry, on the drive being scanned. */
  lemma {:induction false} ChosenFromUsable(b: seq<u8>, drive: u8, n: nat)
    requires |b| == SectorSize && n <= 4
    ensures forall p :: p in Chosen(b, drive, n) ==> p.drive == drive && FromEntry(b, n, p)
  {
    if n > 0 {
      ChosenFromUsable(b, drive, n - 1);
      var e := EntryAt(b, n - 1);
      forall p | p in Chosen(b, drive, n)
        ensures p.drive == drive && FromEntry(b, n, p)
      {
        if p !in Chosen(b, drive, n - 1) {
          assert Usable(EntryAt(b, n - 1)) && p == Partition(e.lbaStart, e.numSectors, drive);
        }
      }
    }
  }

  /** The registry table after registering each of ps in turn. */
  function RegisterAll(s: seq<BlockDevices.Slot<Partition>>, ps: seq<Partition>): (r: seq<BlockDevices.Slot<Partition>>)
    ensures |r| == |s|
  {
    if ps == [] then s
    else BlockDevices.Claim(RegisterAll(s, ps[..|ps| - 1]), PartitionOps, ps[|ps| - 1])
  }

  /** Registering partitions never releases or alters a reserved slot. */
  lemma {:induction false} RegisterAllKeepsReservations(s: seq<BlockDevices.Slot<Partition>>, ps: seq<Partition>)
    ensures forall j :: 0 <= j < |s| && s[j].Reserved? ==> RegisterAll(s, ps)[j] == s[j]
  {
    if ps != [] {
      RegisterAllKeepsReservations(s, ps[..|ps| - 1]);
      BlockDevices.ClaimKeepsReservations(RegisterAll(s, ps[..|ps| - 1]), PartitionOps, ps[|ps| - 1]);
    }
  }

  /** enum bdev_payload_status. */
  datatype Status = Success | Forward | Error

  class MbrDriver {
    /** The disk id of the last MBR accepted (global last_uuid). */
    var lastUuid: u32

    constructor ()
      ensures lastUuid == InitialUuid
    {
      lastUuid := InitialUuid;
    }

    /**
     * mbr_init on `drive`. `sector` is the outcome of reading sector 0
     * (None when bdev_read fails): the result is Error. A sector without the
     * 0xAA55 signature, or whose disk id equals the last accepted one, is
     * left to other payloads (Forward) with nothing changed. Otherwise the
     * disk id is remembered, each usable partition is registered in table
     * order, and the result is Forward when there was none, else Success.
     */
    method Init(drive: u8, sector: Option<seq<u8>>, reg: BlockDevices.Registry<Partition>) returns (st: Status)
      requires reg.Valid()
      requires sector.Some? ==> |sector.value| == SectorSize
      modifies this, reg.slots
      ensures reg.Valid()
      ensures sector.None? ==> st == Error && lastUuid == old(lastUuid) && reg.slots[..] == old(reg.slots[..])
      ensures sector.Some? ==>
        var b := sector.value;
        if Le16(b, SignatureAt) != BootSignature || Le32(b, UuidAt) == old(lastUuid) then
          st == Forward && lastUuid == old(lastUuid) && reg.slots[..] == old(reg.slots[..])
        else
          lastUuid == Le32(b, UuidAt) &&
          reg.slots[..] == RegisterAll(old(reg.slots[..]), Chosen(b, drive, 4)) &&
          (st == Forward <==> forall i :: 0 <= i < 4 ==> !Usable(EntryAt(b, i))) &&
          (st == Success <==> exists i :: 0 <= i < 4 && Usable(EntryAt(b, i)))
    {
      if sector.None? {
        return Error;
      }
      var b := sector.value;
      if Le16(b, SignatureAt) != BootSignature {
        return Forward;
      }
      if Le32(b, UuidAt) == lastUuid {
        return Forward;
      }
      lastUuid := Le32(b, UuidAt);
      var valid := 0;
      var i := 0;
      while i < 4
        invariant 0 <= i <= 4 && reg.Valid()
        invariant valid == |Chosen(b, drive, i)|
        invariant reg.slots[..] == RegisterAll(old(reg.slots[..]), Chosen(b, drive, i))
        invariant lastUuid == Le32(b, UuidAt)
      {
        var e := EntryAt(b, i);
        if Usable(e) {
          var part := Partition(e.lbaStart, e.numSectors, drive);
          valid := valid + 1;
          ghost var before := Chosen(b, drive, i);
          assert Chosen(b, drive, i + 1) == before + [part];
          assert (before + [part])[..|before|] == before;
          var _ := reg.Register(PartitionOps, part);
        } else {
          assert Chosen(b, drive, i + 1) == Chosen(b, drive, i);
        }
        i := i + 1;
      }
      ChosenEmpty(b, drive, 4);
      if valid == 0 {
        return Forward;
      }
      return Success;
    }
  }
}
