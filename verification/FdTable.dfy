/**
  The file-descriptor calls as they work on the shared table in place, each proved to make
  of it what `FdSpec` says. The list semaphore is a no-operation in this single-threaded build.
*/
module FdTable {
  import opened FdSpec

  class Descriptors {
    const fds: array<Fd>
    var maxFd: int
    var errno: int

    ghost function Value(): Table
      reads this, fds
    {
      Table(fds[..], maxFd, errno)
    }

    ghost predicate Valid()
      reads this, fds
    {
      fds.Length == MAX_FD && TableInv(Value())
    }

    constructor ()
      ensures Valid() && Value() == Init() && fresh(fds)
    {
      var a := new Fd[MAX_FD](i => if i < 3 then Fd(DEV_NULL, 0, false, false, 0) else Fd(NoDev, 0, false, false, 0));
      fds, maxFd, errno := a, -1, 0;
      new;
      assert fds[..] == Init().fds;
      InitInv();
    }

    /** Claims the first free slot for a device or file system. */
    method GetFd(dev: Dev) returns (rc: int)
      requires Valid() && dev != NoDev
      modifies this`maxFd, fds
      ensures var i := LowestFree(old(fds[..]), 0);
              if i == MAX_FD then rc == -EMFILE && Value() == old(Value())
              else rc == i && Value() == old(Value()).(fds := old(fds[..])[i := old(fds[..])[i].(dev := dev)],
                                                       maxFd := if i > old(maxFd) then i else old(maxFd))
    {
      rc := -EMFILE;
      for i := 0 to MAX_FD
        invariant rc == -EMFILE && Value() == old(Value())
        invariant LowestFree(fds[..], 0) == LowestFree(fds[..], i)
      {
        if fds[i].dev == NoDev {
          fds[i] := fds[i].(dev := dev);
          if i > maxFd {
            maxFd := i;
          }
          return i;
        }
      }
    }

    /** Marks the slot as a device's and looks for another one that is locked. The loop bound
        compares the mark as unsigned, so it must not be -1; after a claim it never is. */
    method FileLocked(i: nat) returns (rc: int)
      requires fds.Length == MAX_FD && 0 <= maxFd < MAX_FD && i < MAX_FD
      modifies fds
      ensures fds[..] == old(fds[..])[i := old(fds[i]).(isDev := true)]
      ensures rc == if LockedElsewhere(Value(), i) then -EACCES else 0
    {
      fds[i] := fds[i].(isDev := true);
      for k := 0 to maxFd + 1
        invariant fds[..] == old(fds[..])[i := old(fds[i]).(isDev := true)]
        invariant forall j :: 0 <= j < k && j != i ==> !(fds[j].dev == fds[i].dev && fds[j].excl)
      {
        if fds[k].dev == fds[i].dev && fds[k].excl && k != i {
          assert Value().fds[k] == fds[k];
          return -EACCES;
        }
      }
      return 0;
    }

    /** Gives a slot back, unless it is a standard one. */
    method ReleaseFd(fd: int)
      requires fds.Length == MAX_FD && fd < MAX_FD
      modifies fds
      ensures Value() == Released(old(Value()), fd)
    {
      if fd > 2 {
        fds[fd] := fds[fd].(dev := NoDev, excl := false, isDev := false, flags := 0);
      }
    }

    /** Enters the flags in a claimed slot and, for a device, looks for a lock. */
    method MarkAndTest(index: nat, found: Dev, oflags: nat, ghost was: Table) returns (status: int)
      requires fds.Length == MAX_FD && 0 <= maxFd < MAX_FD && index < MAX_FD && was.maxFd < |was.fds|
      requires found != NoDev && was.fds == fds[..][index := fds[index].(dev := NoDev)]
      requires fds[index].dev == found && |was.fds| == MAX_FD && errno == was.errno
      requires maxFd == if index > was.maxFd then index else was.maxFd
      modifies fds
      ensures Value() == Claimed(was, index, found, oflags)
      ensures status == if found.Device? && LockedElsewhere(Value(), index) then -EACCES else 0
    {
      fds[index] := fds[index].(excl := false, isDev := false, flags := oflags);
      status := 0;
      if found.Device? {
        status := FileLocked(index);
      }
      assert fds[..] == Claimed(was, index, found, oflags).fds;
    }

    /** `open`, for a name found to refer to `found`. */
    method OpenFile(found: Dev, oflags: nat, drv: int, priv: int) returns (index: int)
      requires Valid()
      modifies this`maxFd, this`errno, fds
      ensures Valid() && (Value(), index) == AfterOpen(old(Value()), found, oflags, drv, priv)
    {
      OpenIsTransactional(Value(), found, oflags, drv, priv);
      ghost var was := Value();
      index := -1;
      var status := -ENODEV;
      if found != NoDev {
        index := GetFd(found);
        if index < 0 {
          status := index;
        } else {
          status := MarkAndTest(index, found, oflags, was);
          if status >= 0 {
            fds[index] := fds[index].(priv := priv);
            status := drv;
          }
        }
      }
      if status < 0 {
        ReleaseFd(index);
        errno := -status;
        return -1;
      }
    }

    /** `close`. */
    method CloseFile(fildes: int, drv: int) returns (rc: int)
      requires Valid() && Legal(Value(), Close(fildes, drv))
      modifies this`errno, fds
      ensures Valid() && (Value(), rc) == AfterClose(old(Value()), fildes, drv)
    {
      ApplyKeeps(Value(), Close(fildes, drv));
      if fildes >= 0 {
        ReleaseFd(fildes);
        if drv < 0 {
          errno := -drv;
          return -1;
        }
        return 0;
      } else {
        errno := EBADFD;
        return -1;
      }
    }

    /** Grants the lock unless a slot below the high-water mark shares the device. */
    method FdLock(i: nat) returns (rc: int)
      requires Valid() && i < MAX_FD
      modifies fds
      ensures rc == if SharedBelowMark(old(Value()), i) then -EACCES else 0
      ensures Value() == if rc == 0 then WithExcl(old(Value()), i, true) else old(Value())
    {
      var k := 0;
      while k < maxFd
        invariant 0 <= k && (k == 0 || k <= maxFd)
        invariant forall j :: 0 <= j < k && j != i ==> fds[j].dev != fds[i].dev
      {
        if k != i && fds[k].dev == fds[i].dev {
          assert Value().fds[k] == fds[k];
          return -EACCES;
        }
        k := k + 1;
      }
      fds[i] := fds[i].(excl := true);
      return 0;
    }

    method FdUnlock(i: nat) returns (rc: int)
      requires Valid() && i < MAX_FD
      modifies fds
      ensures rc == 0 && Value() == WithExcl(old(Value()), i, false)
    {
      fds[i] := fds[i].(excl := false);
      return 0;
    }

    /** `ioctl`: locking requests on devices are served here, others by the driver. */
    method IoctlFile(file: int, req: Request, drv: int) returns (rc: int)
      requires Valid() && Legal(Value(), Ioctl(file, req, drv))
      modifies this`errno, fds
      ensures Valid() && (Value(), rc) == AfterIoctl(old(Value()), file, req, drv)
    {
      ApplyKeeps(Value(), Ioctl(file, req, drv));
      if file >= 0 {
        if fds[file].isDev && req == Excl {
          rc := FdLock(file);
        } else if fds[file].isDev && req == NExcl {
          rc := FdUnlock(file);
        } else {
          rc := drv;
        }
      } else {
        rc := -EBADFD;
      }
      if rc < 0 {
        errno := -rc;
      }
    }

    /** Redirects one of the standard descriptors to a newly opened file. */
    method OpenFd(to: nat, found: Dev, oflags: nat, drv: int, priv: int)
      requires Valid() && to < 3
      modifies this`maxFd, this`errno, fds
      ensures Valid() && Value() == AfterRedirect(old(Value()), to, found, oflags, drv, priv)
    {
      RedirectKeeps(Value(), to, found, oflags, drv, priv);
      OpenIsTransactional(Value(), found, oflags, drv, priv);
      var at := OpenFile(found, oflags, drv, priv);
      if at >= 0 {
        fds[to] := fds[at];
        ReleaseFd(at);
      }
    }

    /** Redirects standard output, input and error, in this order. */
    method IoRedirect(files: seq<(Dev, nat, int, int)>)
      requires Valid() && |files| == 3
      modifies this`maxFd, this`errno, fds
      ensures Valid()
      ensures var (o, i, e) := (files[0], files[1], files[2]);
              && Inv3(old(Value()), o, i)
              && var t1 := AfterRedirect(old(Value()), 1, o.0, o.1, o.2, o.3);
                 var t0 := AfterRedirect(t1, 0, i.0, i.1, i.2, i.3);
                 Value() == AfterRedirect(t0, 2, e.0, e.1, e.2, e.3)
    {
      OpenFd(1, files[0].0, files[0].1, files[0].2, files[0].3);
      OpenFd(0, files[1].0, files[1].1, files[1].2, files[1].3);
      OpenFd(2, files[2].0, files[2].1, files[2].2, files[2].3);
    }

    /** After one and two redirections the table is still sound. */
    ghost predicate Inv3(t: Table, o: (Dev, nat, int, int), i: (Dev, nat, int, int)) {
      && Sized(t)
      && var t1 := AfterRedirect(t, 1, o.0, o.1, o.2, o.3);
         TableInv(t1) && TableInv(AfterRedirect(t1, 0, i.0, i.1, i.2, i.3))
    }
  }
}
