/**
 * The block-device registry of bdev.c: a table of eight slots, each either
 * unreserved or reserved by a driver that stored its operation table and a
 * private data pointer. Reads and writes on a device number are forwarded to
 * the driver registered there.
 *
 * Driver entry points are function pointers in the kernel; here they are
 * abstract names (Driver), and the private data pointer is a value of the
 * registry's type parameter E.
 */
module BlockDevices {
  import opened Words

  const SlotCount: nat := 8

  /** A driver's read or write routine. */
  type Driver = nat

  /** struct bdev_operation: the read and write routines; a null pointer is None. */
  datatype Ops = Ops(read: Option<Driver>, write: Option<Driver>)

  /** One entry of bdev[8]: `reserved == 0`, or reserved with its ops and ext. */
  datatype Slot<E> = Vacant | Reserved(ops: Ops, ext: E)

  /** Which of bdev_read and bdev_write is meant. */
  datatype Direction = In | Out

  /** What a read or write on a device does: fail with an error code, or call the driver. */
  datatype Access<E> = Refused(code: int) | Dispatch(driver: Driver, ext: E, numsect: u32, lba: u32)

  function Routine(ops: Ops, dir: Direction): Option<Driver>
  {
    if dir == In then ops.read else ops.write
  }

  /** The lowest unreserved slot at or after `from`, if any. */
  function FirstVacant<E>(s: seq<Slot<E>>, from: nat): (r: Option<nat>)
    requires from <= |s|
    ensures r.Some? ==> from <= r.value < |s| && s[r.value].Vacant?
    ensures r.Some? ==> forall j :: from <= j < r.value ==> s[j].Reserved?
    ensures r.None? <==> forall j :: from <= j < |s| ==> s[j].Reserved?
    decreases |s| - from
  {
    if from == |s| then None
    else if s[from].Vacant? then Some(from)
    else FirstVacant(s, from + 1)
  }

  /** The table after a registration: the lowest unreserved slot is claimed, if there is one. */
  function Claim<E>(s: seq<Slot<E>>, ops: Ops, ext: E): (r: seq<Slot<E>>)
    ensures |r| == |s|
    ensures FirstVacant(s, 0).None? ==> r == s
    ensures FirstVacant(s, 0).Some? ==>
      var i := FirstVacant(s, 0).value;
      r[i] == Reserved(ops, ext) && forall j :: 0 <= j < |s| && j != i ==> r[j] == s[j]
  {
    match FirstVacant(s, 0)
    case None => s
    case Some(i) => s[i := Reserved(ops, ext)]
  }

  /** Registering never releases a slot, and claims one exactly when one was free. */
  lemma ClaimKeepsReservations<E>(s: seq<Slot<E>>, ops: Ops, ext: E)
    ensures forall j :: 0 <= j < |s| && s[j].Reserved? ==> Claim(s, ops, ext)[j] == s[j]
    ensures Reservations(Claim(s, ops, ext)) == Reservations(s) + (if FirstVacant(s, 0).Some? then 1 else 0)
  {
    var r := Claim(s, ops, ext);
    match FirstVacant(s, 0)
    case None =>
    case Some(i) =>
      ReservationsUpdate(s, i, Reserved(ops, ext));
  }

  /** Number of reserved slots. */
  function Reservations<E>(s: seq<Slot<E>>): nat
  {
    if s == [] then 0 else Reservations(s[..|s| - 1]) + (if s[|s| - 1].Reserved? then 1 else 0)
  }

  lemma {:induction false} ReservationsUpdate<E>(s: seq<Slot<E>>, i: nat, v: Slot<E>)
    requires i < |s| && s[i].Vacant? && v.Reserved?
    ensures Reservations(s[i := v]) == Reservations(s) + 1
    decreases |s|
  {
    var t := s[i := v];
    if i < |s| - 1 {
      assert t[..|t| - 1] == s[..|s| - 1][i := v];
      ReservationsUpdate(s[..|s| - 1], i, v);
    } else {
      assert t[..|t| - 1] == s[..|s| - 1];
    }
  }

  class Registry<E> {
    var slots: array<Slot<E>>

    ghost predicate Valid()
      reads this
    {
      slots.Length == SlotCount
    }

    /** The static table: zero-initialised storage, every slot unreserved. */
    constructor ()
      ensures Valid() && fresh(slots)
      ensures forall i :: 0 <= i < SlotCount ==> slots[i].Vacant?
    {
      slots := new Slot<E>[SlotCount](_ => Vacant);
    }

    /** bdev_init: the whole table is cleared, so every slot is unreserved. */
    method Init()
      requires Valid()
      modifies slots
      ensures forall i :: 0 <= i < SlotCount ==> slots[i].Vacant?
    {
      var i := 0;
      while i < SlotCount
        invariant 0 <= i <= SlotCount
        invariant forall j :: 0 <= j < i ==> slots[j].Vacant?
      {
        slots[i] := Vacant;
        i := i + 1;
      }
    }

    /**
     * bdev_register: claims the lowest unreserved slot for ops and ext and
     * returns its index, or returns -1 with the table unchanged when all
     * eight are reserved. A device registered this way is then served by
     * its own routines.
     */
    method Register(ops: Ops, ext: E) returns (r: int)
      requires Valid()
      modifies slots
      ensures slots[..] == Claim(old(slots[..]), ops, ext)
      ensures FirstVacant(old(slots[..]), 0).None? ==> r == -1
      ensures FirstVacant(old(slots[..]), 0).Some? ==> r == FirstVacant(old(slots[..]), 0).value
      ensures -1 <= r < SlotCount as int
      ensures 0 <= r ==> slots[r] == Reserved(ops, ext)
    {
      ghost var s := slots[..];
      var i := 0;
      while i < SlotCount
        invariant 0 <= i <= SlotCount
        invariant slots[..] == s
        invariant FirstVacant(s, 0) == FirstVacant(s, i)
      {
        if slots[i].Vacant? {
          slots[i] := Reserved(ops, ext);
          return i;
        }
        i := i + 1;
      }
      assert FirstVacant(s, 0).None?;
      return -1;
    }

    /**
     * bdev_read (dir In) and bdev_write (dir Out) on `device`: -1 when the
     * slot is unreserved, -2 when the driver has no routine for the
     * direction, otherwise a call of that routine with the driver's ext and
     * the caller's sector count and address.
     */
    function Access(dir: Direction, device: u8, numsect: u32, lba: u32): (a: Access<E>)
      reads this, slots
      requires Valid() && device < SlotCount
      ensures a == Refused(-1) <==> slots[device].Vacant?
      ensures a == Refused(-2) <==> slots[device].Reserved? && Routine(slots[device].ops, dir).None?
      ensures a.Dispatch? ==> a.ext == slots[device].ext && a.numsect == numsect && a.lba == lba
      ensures a.Dispatch? ==> Routine(slots[device].ops, dir) == Some(a.driver)
      ensures a.Refused? ==> a.code < 0
    {
      match slots[device]
      case Vacant => Refused(-1)
      case Reserved(ops, ext) =>
        match Routine(ops, dir)
        case None => Refused(-2)
        case Some(d) => Dispatch(d, ext, numsect, lba)
    }
  }
}
