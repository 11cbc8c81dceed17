/** The pool of file descriptors with its exclusive locks. */
module FdPool {
  import opened Wrappers

  type Device = nat

  /** A slot of the pool: the device it refers to, if any, the lock, the device mark and the open flags. */
  datatype Fd = Fd(dev: Option<Device>, excl: bool, isDev: bool, flags: nat)

  datatype Error = NoDevice | NoFreeSlot | Locked | Refused
  datatype Result<T> = Ok(value: T) | Err(error: Error)

  const STANDARD: nat := 3

  /** Standard input, output and error, whose slots are never released. */
  predicate IsStandard(i: nat) {
    i < STANDARD
  }

  /** A descriptor other than `fd` holds the device exclusively. */
  predicate Held(fds: seq<Fd>, dev: Device, fd: nat) {
    exists i :: 0 <= i < |fds| && i != fd && fds[i].dev == Some(dev) && fds[i].excl
  }

  /** What is in a free slot makes no difference to the locks of the others. */
  lemma HeldAround(fds: seq<Fd>, dev: Device, fd: nat, x: Fd)
    requires fd < |fds| && fds[fd].dev.None?
    ensures Held(fds[fd := x], dev, fd) <==> Held(fds, dev, |fds|)
  {
    var other := fds[fd := x];
    assert forall i :: 0 <= i < |fds| && i != fd ==> other[i] == fds[i];
  }

  /** No other descriptor refers to the device of `fd`. */
  predicate Sole(fds: seq<Fd>, fd: nat)
    requires fd < |fds|
  {
    forall i :: 0 <= i < |fds| && i != fd ==> fds[i].dev != fds[fd].dev
  }

  /** alt_fd_lock() finds no other descriptor of the device below the high-water mark. */
  predicate Grants(fds: seq<Fd>, maxFd: int, fd: nat)
    requires fd < |fds| && maxFd < |fds|
  {
    forall i :: 0 <= i < maxFd && i != fd ==> fds[i].dev != fds[fd].dev
  }

  /** What every operation keeps of the slots: those behind both the mark and the standard ones are free. */
  predicate Marked(fds: seq<Fd>, maxFd: int) {
    -1 <= maxFd < |fds| && forall i :: STANDARD <= i < |fds| && i > maxFd ==> fds[i].dev.None?
  }

  /**
   A granted lock is the sole descriptor of its device exactly unless another one lies at the mark, or,
   before the first allocation has moved the mark, in a standard slot.
   */
  lemma GrantIsSoleIff(fds: seq<Fd>, maxFd: int, fd: nat)
    requires fd < |fds| && fds[fd].dev.Some? && Marked(fds, maxFd) && Grants(fds, maxFd, fd)
    ensures Sole(fds, fd) <==>
            forall i :: 0 <= i < |fds| && i != fd && (i == maxFd || maxFd < i < STANDARD) ==> fds[i].dev != fds[fd].dev
  {
  }

  /** Two descriptors of one device, the second one at the mark: the first one gets its lock. */
  lemma LockOverlooksTheMark(fds: seq<Fd>, dev: Device, other: Device)
    requires |fds| == 5 && dev != other && fds[3].dev == fds[4].dev == Some(dev)
    requires fds[0].dev == fds[1].dev == fds[2].dev == Some(other)
    ensures Marked(fds, 4) && Grants(fds, 4, 3) && !Sole(fds, 3)
  {
    assert fds[4].dev == fds[3].dev;
  }

  class Pool {
    const fds: array<Fd>
    var maxFd: int

    /** The standard slots are taken; behind the high-water mark no other slot is. */
    ghost predicate Valid()
      reads this, fds
    {
      && STANDARD <= fds.Length && Marked(fds[..], maxFd)
      && forall i :: 0 <= i < STANDARD ==> fds[i].dev.Some?
    }

    /** The pool at startup: the standard slots refer to the null device. */
    constructor (size: nat, nullDevice: Device)
      requires size >= STANDARD
      ensures Valid() && fresh(fds) && fds.Length == size && maxFd == -1
      ensures forall i :: 0 <= i < size ==> fds[i] == Fd(if i < STANDARD then Some(nullDevice) else None, false, false, 0)
    {
      fds := new Fd[size](_ => Fd(None, false, false, 0));
      maxFd := -1;
      new;
      fds[0], fds[1], fds[2] := Fd(Some(nullDevice), false, false, 0), Fd(Some(nullDevice), false, false, 0),
        Fd(Some(nullDevice), false, false, 0);
    }

    /** alt_get_fd(): the first free slot. */
    method GetFd(dev: Device) returns (r: Option<nat>)
      requires Valid()
      modifies this`maxFd, fds
      ensures Valid() && maxFd >= old(maxFd)
      ensures r.None? <==> forall i :: 0 <= i < fds.Length ==> old(fds[i].dev).Some?
      ensures r.None? ==> fds[..] == old(fds[..])
      ensures r.Some? ==>
                && STANDARD <= r.value < fds.Length && r.value <= maxFd && old(fds[r.value].dev).None?
                && (forall i :: 0 <= i < r.value ==> old(fds[i].dev).Some?)
                && fds[..] == old(fds[..])[r.value := old(fds[r.value]).(dev := Some(dev))]
    {
      for i := 0 to fds.Length
        invariant forall k :: 0 <= k < i ==> fds[k].dev.Some?
        invariant fds[..] == old(fds[..]) && maxFd == old(maxFd) && Valid()
      {
        if fds[i].dev.None? {
          fds[i] := fds[i].(dev := Some(dev));
          if i > maxFd {
            maxFd := i;
          }
          return Some(i);
        }
      }
      r := None;
    }

    /** alt_release_fd(). */
    method ReleaseFd(fd: nat)
      requires Valid() && fd < fds.Length
      modifies fds
      ensures Valid()
      ensures fds[..] == if IsStandard(fd) then old(fds[..]) else old(fds[..])[fd := Fd(None, false, false, 0)]
    {
      if fd > 2 {
        fds[fd] := Fd(None, false, false, 0);
      }
    }

    /** alt_file_locked(): marks the descriptor and looks for a lock on its device up to the high-water mark. */
    method FileLocked(fd: nat, dev: Device) returns (locked: bool)
      requires Valid() && STANDARD <= fd < fds.Length && fd <= maxFd && fds[fd].dev == Some(dev)
      modifies fds
      ensures Valid() && fds[..] == old(fds[..])[fd := old(fds[fd]).(isDev := true)]
      ensures locked <==> Held(fds[..], dev, fd)
    {
      fds[fd] := fds[fd].(isDev := true);
      for i := 0 to maxFd + 1
        invariant Valid() && fds[..] == old(fds[..])[fd := old(fds[fd]).(isDev := true)]
        invariant forall k :: 0 <= k < i && k != fd ==> !(fds[k].dev == Some(dev) && fds[k].excl)
      {
        if fds[i].dev == fds[fd].dev && fds[i].excl && i != fd {
          assert fds[..][i] == fds[i];
          return true;
        }
      }
      locked := false;
    }

    /**
     open() of a device, of a file in a file system, or of an unknown name. `accepted` is the answer of the
     driver's own open function. A failed call leaves every slot that was in use as it was, and no slot
     in use that was not; an open of a device that another descriptor holds exclusively always fails.
     */
    method Open(dev: Option<Device>, isFile: bool, flags: nat, accepted: bool) returns (r: Result<nat>)
      requires Valid()
      modifies this`maxFd, fds
      ensures Valid()
      ensures forall i :: 0 <= i < fds.Length && old(fds[i].dev).Some? ==> fds[i] == old(fds[i])
      ensures r.Err? ==> forall i :: 0 <= i < fds.Length && old(fds[i].dev).None? ==> fds[i].dev.None?
      ensures dev.None? ==> r == Err(NoDevice)
      ensures dev.Some? && r.Err? && r.error != NoFreeSlot ==> r == Err(Locked) || (r == Err(Refused) && !accepted)
      ensures r == Err(NoFreeSlot) ==> forall i :: 0 <= i < fds.Length ==> old(fds[i].dev).Some?
      ensures r == Err(Locked) ==> !isFile && dev.Some? && Held(old(fds[..]), dev.value, fds.Length)
      ensures dev.Some? && !isFile && Held(old(fds[..]), dev.value, fds.Length) ==>
                r == Err(NoFreeSlot) || r == Err(Locked)
      ensures r.Ok? ==>
                && accepted && dev.Some? && r.value < fds.Length && old(fds[r.value].dev).None?
                && fds[r.value] == Fd(dev, false, !isFile, flags)
                && forall i :: 0 <= i < fds.Length && i != r.value ==> fds[i] == old(fds[i])
    {
      if dev.None? {
        return Err(NoDevice);
      }
      var index := GetFd(dev.value);
      if index.None? {
        return Err(NoFreeSlot);
      }
      hide Held;
      var fd := index.value;
      HeldAround(old(fds[..]), dev.value, fd, Fd(dev, false, true, flags));
      fds[fd] := Fd(fds[fd].dev, false, false, flags);
      if !isFile {
        var locked := FileLocked(fd, dev.value);
        if locked {
          ReleaseFd(fd);
          return Err(Locked);
        }
      }
      if !accepted {
        ReleaseFd(fd);
        return Err(Refused);
      }
      r := Ok(fd);
    }

    /**
     alt_fd_lock(). The search ends before the high-water mark, so the lock is granted exactly if no other
     descriptor of the device lies below it; one that lies at the mark is overlooked.
     */
    method Lock(fd: nat) returns (granted: bool)
      requires Valid() && fd < fds.Length && fds[fd].dev.Some?
      modifies fds
      ensures Valid()
      ensures granted <==> Grants(old(fds[..]), maxFd, fd)
      ensures fds[..] == if granted then old(fds[..])[fd := old(fds[fd]).(excl := true)] else old(fds[..])
    {
      for i := 0 to if maxFd < 0 then 0 else maxFd
        invariant fds[..] == old(fds[..])
        invariant forall k :: 0 <= k < i && k != fd ==> fds[k].dev != fds[fd].dev
      {
        if i != fd && fds[i].dev == fds[fd].dev {
          return false;
        }
      }
      fds[fd] := fds[fd].(excl := true);
      granted := true;
    }
  }
}
