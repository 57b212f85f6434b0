/**
  The file-descriptor table as a value: what each call makes of it, what every call keeps,
  and what holds over whole runs of calls.
*/
module FdSpec {

  const MAX_FD: nat := 32
  const EMFILE: int := 24
  const EACCES: int := 13
  const ENODEV: int := 19
  const EBADFD: int := 81

  /** What a descriptor refers to: nothing, a device, or a file system. */
  datatype Dev = NoDev | Device(id: nat) | FileSystem(fsId: nat)

  /** A descriptor, with the two flag bits of the table and the remaining flag bits apart. */
  datatype Fd = Fd(dev: Dev, priv: int, excl: bool, isDev: bool, flags: nat)

  datatype Table = Table(fds: seq<Fd>, maxFd: int, errno: int)

  datatype Request = Excl | NExcl | Other

  /** A call. `drv` is what the driver's own open, close or ioctl function answers (0 when it
      has none, -ENOTTY for a missing ioctl) and `priv` what its open leaves in the slot;
      `found` is what the name was found to refer to. */
  datatype Call =
    | Open(found: Dev, oflags: nat, drv: int, priv: int)
    | Close(fildes: int, drv: int)
    | Ioctl(fildes: int, req: Request, drv: int)
    | Redirect(to: nat, found: Dev, oflags: nat, drv: int, priv: int)

  const DEV_NULL := Device(0)

  function Init(): Table {
    Table(seq(MAX_FD, i => if i < 3 then Fd(DEV_NULL, 0, false, false, 0) else Fd(NoDev, 0, false, false, 0)), -1, 0)
  }

  // ---------------------------------------------------------------- what each call does

  /** The least free index from `i` on, or the size of the table. */
  function LowestFree(fds: seq<Fd>, i: nat): (r: nat)
    requires i <= |fds|
    ensures i <= r <= |fds|
    ensures forall k :: i <= k < r ==> fds[k].dev != NoDev
    ensures r < |fds| ==> fds[r].dev == NoDev
    decreases |fds| - i
  {
    if i == |fds| || fds[i].dev == NoDev then i else LowestFree(fds, i + 1)
  }

  /** Another slot, up to the high-water mark, holds the device of slot i exclusively. */
  predicate LockedElsewhere(t: Table, i: nat)
    requires i < |t.fds| && t.maxFd < |t.fds|
  {
    exists k :: 0 <= k <= t.maxFd && k != i && t.fds[k].dev == t.fds[i].dev && t.fds[k].excl
  }

  /** Another slot below the high-water mark refers to the device of slot i. */
  predicate SharedBelowMark(t: Table, i: nat)
    requires i < |t.fds| && t.maxFd <= |t.fds|
  {
    exists k :: 0 <= k < t.maxFd && k != i && t.fds[k].dev == t.fds[i].dev
  }

  /** The standard descriptors are never given back. */
  function Released(t: Table, i: int): Table {
    if 2 < i < |t.fds|
    then t.(fds := t.fds[i := t.fds[i].(dev := NoDev, excl := false, isDev := false, flags := 0)])
    else t
  }

  /** The table after a slot has been claimed and marked. */
  function Claimed(t: Table, i: nat, found: Dev, oflags: nat): Table
    requires i < |t.fds|
  {
    Table(t.fds[i := Fd(found, t.fds[i].priv, false, found.Device?, oflags)],
          if i > t.maxFd then i else t.maxFd, t.errno)
  }

  function AfterOpen(t: Table, found: Dev, oflags: nat, drv: int, priv: int): (r: (Table, int))
    requires t.maxFd < |t.fds|
  {
    if found == NoDev then (t.(errno := ENODEV), -1)
    else
      var i: int := LowestFree(t.fds, 0);
      if i == |t.fds| then (t.(errno := EMFILE), -1)
      else
        var c := Claimed(t, i, found, oflags);
        if found.Device? && LockedElsewhere(c, i) then (Released(c, i).(errno := EACCES), -1)
        else
          var d := c.(fds := c.fds[i := c.fds[i].(priv := priv)]);
          if drv < 0 then (Released(d, i).(errno := -drv), -1) else (d, i)
  }

  function AfterClose(t: Table, fildes: int, drv: int): (Table, int) {
    if fildes < 0 then (t.(errno := EBADFD), -1)
    else if drv < 0 then (Released(t, fildes).(errno := -drv), -1)
    else (Released(t, fildes), 0)
  }

  function WithExcl(t: Table, i: nat, on: bool): Table
    requires i < |t.fds|
  {
    t.(fds := t.fds[i := t.fds[i].(excl := on)])
  }

  function AfterIoctl(t: Table, fildes: int, req: Request, drv: int): (Table, int)
    requires fildes < |t.fds| && t.maxFd <= |t.fds|
  {
    if fildes < 0 then (t.(errno := EBADFD), -EBADFD)
    else if t.fds[fildes].isDev && req == Excl then
      if SharedBelowMark(t, fildes) then (t.(errno := EACCES), -EACCES) else (WithExcl(t, fildes, true), 0)
    else if t.fds[fildes].isDev && req == NExcl then (WithExcl(t, fildes, false), 0)
    else (if drv < 0 then t.(errno := -drv) else t, drv)
  }

  /** Opens a file, moves its descriptor's fields over slot `to`, and frees its own slot. */
  function AfterRedirect(t: Table, to: nat, found: Dev, oflags: nat, drv: int, priv: int): Table
    requires t.maxFd < |t.fds| && to < |t.fds|
  {
    var (u, at) := AfterOpen(t, found, oflags, drv, priv);
    if 0 <= at < |u.fds| && |u.fds| == |t.fds| then Released(u.(fds := u.fds[to := u.fds[at]]), at) else u
  }

  /** The table is an array of fixed size, and the mark an index into it or -1. */
  predicate Sized(t: Table) { |t.fds| == MAX_FD && -1 <= t.maxFd < MAX_FD }

  /** Calls on descriptors are made on open ones; only the standard slots are redirected. */
  predicate Legal(t: Table, c: Call)
    requires Sized(t)
  {
    match c
    case Open(_, _, _, _) => true
    case Close(f, _) => f < 0 || (f < |t.fds| && t.fds[f].dev != NoDev)
    case Ioctl(f, _, _) => f < 0 || (f < |t.fds| && t.fds[f].dev != NoDev)
    case Redirect(to, _, _, _, _) => to < 3
  }

  function Apply(t: Table, c: Call): Table
    requires Sized(t) && Legal(t, c)
  {
    match c
    case Open(found, oflags, drv, priv) => AfterOpen(t, found, oflags, drv, priv).0
    case Close(f, drv) => AfterClose(t, f, drv).0
    case Ioctl(f, req, drv) => AfterIoctl(t, f, req, drv).0
    case Redirect(to, found, oflags, drv, priv) => AfterRedirect(t, to, found, oflags, drv, priv)
  }

  // ---------------------------------------------------------------- what every call keeps

  predicate SlotInv(fd: Fd) {
    && (fd.dev == NoDev ==> !fd.excl && !fd.isDev && fd.flags == 0)
    && (fd.excl ==> fd.isDev)
    && (fd.isDev ==> fd.dev.Device?)
  }

  /** Slots in use beyond the standard ones are below the mark, the standard ones are always
      in use, and once any slot has been marked as a device the mark covers those too. */
  predicate TableInv(t: Table) {
    && Sized(t)
    && (forall i :: 0 <= i < MAX_FD ==> SlotInv(t.fds[i]))
    && (forall i :: 3 <= i < MAX_FD && t.fds[i].dev != NoDev ==> i <= t.maxFd)
    && (forall i :: 0 <= i < 3 ==> t.fds[i].dev != NoDev)
    && (forall i :: 0 <= i < MAX_FD && t.fds[i].isDev ==> 3 <= t.maxFd)
  }

  lemma InitInv()
    ensures TableInv(Init())
  {
  }

  /** What an open does to the table: it takes the least free slot for the file it found, or
      it fails and leaves the device and the flags of every slot as they were. */
  ghost predicate Transacted(t: Table, found: Dev, oflags: nat, u: Table, r: int) {
    && |u.fds| == |t.fds| == MAX_FD
    && if r < 0 then forall i :: 0 <= i < MAX_FD ==> u.fds[i].(priv := t.fds[i].priv) == t.fds[i]
       else
         && r < MAX_FD && found != NoDev
         && t.fds[r].dev == NoDev && (forall i :: 0 <= i < r ==> t.fds[i].dev != NoDev)
         && u.fds[r].(priv := 0) == Fd(found, 0, false, found.Device?, oflags)
         && (forall i :: 0 <= i < MAX_FD && i != r ==> u.fds[i] == t.fds[i])
  }

  lemma OpenKeeps(t: Table, found: Dev, oflags: nat, drv: int, priv: int)
    requires TableInv(t)
    ensures TableInv(AfterOpen(t, found, oflags, drv, priv).0)
  {
    var i := LowestFree(t.fds, 0);
    assert t.fds[0].dev != NoDev && t.fds[1].dev != NoDev && t.fds[2].dev != NoDev;
  }

  lemma OpenIsTransactional(t: Table, found: Dev, oflags: nat, drv: int, priv: int)
    requires TableInv(t)
    ensures var (u, r) := AfterOpen(t, found, oflags, drv, priv);
            && Transacted(t, found, oflags, u, r)
            && (r < 0 ==> r == -1) && (0 <= r ==> 3 <= r)
            && TableInv(u)
  {
    var i := LowestFree(t.fds, 0);
    assert t.fds[0].dev != NoDev && t.fds[1].dev != NoDev && t.fds[2].dev != NoDev;
    OpenKeeps(t, found, oflags, drv, priv);
  }

  /** When an open succeeds: a file was found, a slot is free, no other descriptor of a found
      device is locked, and the driver agrees. */
  lemma OpenSucceedsIff(t: Table, found: Dev, oflags: nat, drv: int, priv: int)
    requires TableInv(t)
    ensures AfterOpen(t, found, oflags, drv, priv).1 >= 0 <==>
      && found != NoDev
      && (exists i :: 0 <= i < MAX_FD && t.fds[i].dev == NoDev)
      && !(found.Device? && exists i :: 0 <= i < MAX_FD && t.fds[i].dev == found && t.fds[i].excl)
      && drv >= 0
  {
    var i := LowestFree(t.fds, 0);
    if i < MAX_FD {
      var c := Claimed(t, i, found, oflags);
      if k :| 0 <= k < MAX_FD && t.fds[k].dev == found && t.fds[k].excl {
        assert c.fds[k] == t.fds[k] || k == i;
        assert k <= t.maxFd;
      }
      if LockedElsewhere(c, i) {
        var k :| 0 <= k <= c.maxFd && k != i && c.fds[k].dev == c.fds[i].dev && c.fds[k].excl;
        assert t.fds[k].dev == found && t.fds[k].excl;
      }
    }
  }

  lemma RedirectKeeps(t: Table, to: nat, found: Dev, oflags: nat, drv: int, priv: int)
    requires TableInv(t) && to < 3
    ensures TableInv(AfterRedirect(t, to, found, oflags, drv, priv))
  {
    OpenIsTransactional(t, found, oflags, drv, priv);
  }

  lemma IoctlKeeps(t: Table, f: int, req: Request, drv: int)
    requires TableInv(t) && Legal(t, Ioctl(f, req, drv))
    ensures TableInv(AfterIoctl(t, f, req, drv).0)
  {
  }

  lemma ApplyKeeps(t: Table, c: Call)
    requires TableInv(t) && Legal(t, c)
    ensures TableInv(Apply(t, c))
  {
    match c
    case Open(found, oflags, drv, priv) => OpenIsTransactional(t, found, oflags, drv, priv);
    case Redirect(to, found, oflags, drv, priv) => RedirectKeeps(t, to, found, oflags, drv, priv);
    case Ioctl(f, req, drv) => IoctlKeeps(t, f, req, drv);
    case Close(f, drv) =>
  }

  // ---------------------------------------------------------------- runs

  /** The tables a run of calls goes through, each call legal where it is made. */
  ghost predicate IsRun(ts: seq<Table>, calls: seq<Call>) {
    && |ts| == |calls| + 1
    && TableInv(ts[0])
    && forall i {:trigger calls[i]} :: 0 <= i < |calls| ==> Steps(ts[i], calls[i], ts[i + 1])
  }

  ghost predicate Steps(t: Table, c: Call, u: Table) {
    Sized(t) && Legal(t, c) && u == Apply(t, c)
  }

  /** The invariant holds throughout every run that starts with it. */
  lemma {:induction false} RunKeeps(ts: seq<Table>, calls: seq<Call>, i: nat)
    requires IsRun(ts, calls) && i <= |calls|
    ensures TableInv(ts[i])
  {
    if i > 0 {
      RunKeeps(ts, calls, i - 1);
      assert Steps(ts[i - 1], calls[i - 1], ts[i]);
      ApplyKeeps(ts[i - 1], calls[i - 1]);
    }
  }

  // ---------------------------------------------------------------- exclusive access

  ghost predicate Holds(t: Table, i: int, d: Dev)
  {
    0 <= i < |t.fds| && t.fds[i].dev == d
  }

  /** Some open descriptor holds the device exclusively. */
  ghost predicate Locked(t: Table, d: Dev) {
    exists i :: Holds(t, i, d) && t.fds[i].excl
  }

  lemma LockedOpenFails(t: Table, d: Dev, oflags: nat, drv: int, priv: int)
    requires TableInv(t) && d.Device? && Locked(t, d)
    ensures AfterOpen(t, d, oflags, drv, priv).1 == -1
  {
    var i :| Holds(t, i, d) && t.fds[i].excl;
    OpenSucceedsIff(t, d, oflags, drv, priv);
    OpenIsTransactional(t, d, oflags, drv, priv);
  }

  /** No call adds a descriptor for a device that is held exclusively. */
  lemma NoNewHolder(t: Table, c: Call, d: Dev, i: int)
    requires TableInv(t) && Legal(t, c) && d.Device? && Locked(t, d)
    requires Holds(Apply(t, c), i, d)
    ensures Holds(t, i, d)
  {
    match c
    case Open(found, oflags, drv, priv) =>
      OpenIsTransactional(t, found, oflags, drv, priv);
      if found == d { LockedOpenFails(t, d, oflags, drv, priv); }
    case Redirect(to, found, oflags, drv, priv) =>
      OpenIsTransactional(t, found, oflags, drv, priv);
      if found == d { LockedOpenFails(t, d, oflags, drv, priv); }
    case Close(_, _) =>
    case Ioctl(_, _, _) =>
  }

  /** Exclusive access over whole runs: as long as some descriptor holds the device
      exclusively, the descriptors for it are only those there were at the start. */
  lemma {:induction false} ExclusiveOverRuns(ts: seq<Table>, calls: seq<Call>, d: Dev, n: nat, i: int)
    requires IsRun(ts, calls) && d.Device? && n <= |calls|
    requires forall k {:trigger Locked(ts[k], d)} :: 0 <= k < n ==> Locked(ts[k], d)
    requires Holds(ts[n], i, d)
    ensures Holds(ts[0], i, d)
  {
    if n > 0 {
      RunKeeps(ts, calls, n - 1);
      assert Steps(ts[n - 1], calls[n - 1], ts[n]) && Locked(ts[n - 1], d);
      NoNewHolder(ts[n - 1], calls[n - 1], d, i);
      ExclusiveOverRuns(ts, calls, d, n - 1, i);
    }
  }

  // ---------------------------------------------------------------- what a granted lock means

  ghost predicate SoleHolder(t: Table, i: nat) {
    i < |t.fds| && forall k :: Holds(t, k, t.fds[i].dev) ==> k == i
  }

  /** The descriptor in the slot of the high-water mark is not looked at. */
  predicate SharedAtMark(t: Table, i: nat)
    requires i < |t.fds|
  {
    0 <= t.maxFd < |t.fds| && t.maxFd != i && t.fds[t.maxFd].dev == t.fds[i].dev
  }

  /** A lock is granted to a sole holder; but a granted lock has a sole holder exactly when
      the slot of the high-water mark is not another descriptor for the device. */
  lemma GrantedLock(t: Table, i: nat, drv: int)
    requires TableInv(t) && i < MAX_FD && t.fds[i].isDev
    ensures SoleHolder(t, i) ==> AfterIoctl(t, i, Excl, drv) == (WithExcl(t, i, true), 0)
    ensures AfterIoctl(t, i, Excl, drv).1 == 0 ==> (SoleHolder(t, i) <==> !SharedAtMark(t, i))
  {
    if SharedBelowMark(t, i) {
      var k :| 0 <= k < t.maxFd && k != i && t.fds[k].dev == t.fds[i].dev;
      assert Holds(t, k, t.fds[i].dev);
    } else if SharedAtMark(t, i) {
      assert Holds(t, t.maxFd, t.fds[i].dev);
    } else {
      forall k | Holds(t, k, t.fds[i].dev) ensures k == i {
        assert k <= t.maxFd;
      }
    }
  }

  /** Opening an unlocked device in slot `at`, the least free one. */
  lemma OpensAt(t: Table, id: nat, at: nat)
    requires TableInv(t) && at < MAX_FD && t.fds[at].dev == NoDev && t.maxFd < at
    requires forall i :: 0 <= i < at ==> t.fds[i].dev != NoDev
    requires forall i :: 0 <= i < MAX_FD ==> !t.fds[i].excl
    ensures var (u, r) := AfterOpen(t, Device(id), 0, 0, 0);
            && TableInv(u) && r == at && u.maxFd == at && u.fds == t.fds[at := Fd(Device(id), 0, false, true, 0)]
  {
    OpenIsTransactional(t, Device(id), 0, 0, 0);
    OpenSucceedsIff(t, Device(id), 0, 0, 0);
  }

  /** Opening a device twice and then locking the first descriptor is granted, although the
      second descriptor is still open. */
  lemma LockGrantedWhileShared()
    ensures var t := AfterOpen(AfterOpen(Init(), Device(1), 0, 0, 0).0, Device(1), 0, 0, 0).0;
            && t.maxFd < |t.fds| && |t.fds| > 4
            && AfterIoctl(t, 3, Excl, 0).1 == 0
            && Holds(t, 3, Device(1)) && Holds(t, 4, Device(1))
  {
    OpensAt(Init(), 1, 3);
    OpensAt(AfterOpen(Init(), Device(1), 0, 0, 0).0, 1, 4);
  }

  /** A locked descriptor that shares its device lies below the mark, and the other descriptors
      for the device are not locked. */
  ghost predicate LocksApart(t: Table) {
    forall i, j :: 0 <= i < |t.fds| && 0 <= j < |t.fds| && i != j && t.fds[i].excl && t.fds[i].dev == t.fds[j].dev ==>
      i < t.maxFd && !t.fds[j].excl
  }

  lemma OpenKeepsLocks(t: Table, found: Dev, oflags: nat, drv: int, priv: int)
    requires TableInv(t) && LocksApart(t)
    ensures LocksApart(AfterOpen(t, found, oflags, drv, priv).0)
  {
    OpenIsTransactional(t, found, oflags, drv, priv);
    OpenSucceedsIff(t, found, oflags, drv, priv);
    assert AfterOpen(t, found, oflags, drv, priv).0.maxFd >= t.maxFd;
  }

  lemma RedirectKeepsLocks(t: Table, to: nat, found: Dev, oflags: nat, drv: int, priv: int)
    requires TableInv(t) && LocksApart(t) && to < 3
    ensures LocksApart(AfterRedirect(t, to, found, oflags, drv, priv))
  {
    OpenIsTransactional(t, found, oflags, drv, priv);
    OpenSucceedsIff(t, found, oflags, drv, priv);
    OpenKeepsLocks(t, found, oflags, drv, priv);
  }

  lemma LockKeepsLocks(t: Table, f: nat, drv: int)
    requires TableInv(t) && LocksApart(t) && f < MAX_FD
    ensures LocksApart(AfterIoctl(t, f, Excl, drv).0)
  {
  }

  lemma ApplyKeepsLocks(t: Table, c: Call)
    requires TableInv(t) && LocksApart(t) && Legal(t, c)
    ensures LocksApart(Apply(t, c))
  {
    match c
    case Open(found, oflags, drv, priv) => OpenKeepsLocks(t, found, oflags, drv, priv);
    case Redirect(to, found, oflags, drv, priv) => RedirectKeepsLocks(t, to, found, oflags, drv, priv);
    case Ioctl(f, req, drv) => if f >= 0 && req == Excl { LockKeepsLocks(t, f, drv); }
    case Close(_, _) =>
  }

  lemma {:induction false} RunKeepsLocks(ts: seq<Table>, calls: seq<Call>, n: nat)
    requires IsRun(ts, calls) && LocksApart(ts[0]) && n <= |calls|
    ensures LocksApart(ts[n])
  {
    if n > 0 {
      RunKeepsLocks(ts, calls, n - 1);
      RunKeeps(ts, calls, n - 1);
      assert Steps(ts[n - 1], calls[n - 1], ts[n]);
      ApplyKeepsLocks(ts[n - 1], calls[n - 1]);
    }
  }

  /** Mutual exclusion: although a lock can be granted while the device is shared, over no run
      from the initial table do two descriptors hold the lock of one device. */
  lemma AtMostOneLock(ts: seq<Table>, calls: seq<Call>, n: nat, i: nat, j: nat)
    requires IsRun(ts, calls) && ts[0] == Init() && n <= |calls|
    requires i < |ts[n].fds| && j < |ts[n].fds| && ts[n].fds[i].dev == ts[n].fds[j].dev
    requires ts[n].fds[i].excl && ts[n].fds[j].excl
    ensures i == j
  {
    RunKeepsLocks(ts, calls, n);
  }

  /** Closing a descriptor ends its lock exactly when it is not a standard one. */
  lemma CloseUnlocksIff(t: Table, f: nat, drv: int)
    requires TableInv(t) && f < MAX_FD && t.fds[f].excl
    ensures !AfterClose(t, f, drv).0.fds[f].excl <==> f > 2
  {
  }

  function RedirectedOut(id: nat): Table { AfterRedirect(Init(), 1, Device(id), 0, 0, 0) }

  lemma RedirectsOut(id: nat)
    ensures TableInv(RedirectedOut(id)) && RedirectedOut(id).maxFd == 3
    ensures RedirectedOut(id).fds == Init().fds[1 := Fd(Device(id), 0, false, true, 0)]
  {
    InitInv();
    OpensAt(Init(), id, 3);
    RedirectKeeps(Init(), 1, Device(id), 0, 0, 0);
  }

  /** A standard descriptor that has been redirected to a device and locked: closing it
      succeeds, the lock stays, and nobody can open the device from then on. */
  lemma StandardLockSurvivesClose()
    ensures var t1 := RedirectedOut(1);
            && t1.maxFd < |t1.fds| && |t1.fds| > 1
            && var (t2, granted) := AfterIoctl(t1, 1, Excl, 0);
            && granted == 0
            && var (t3, closed) := AfterClose(t2, 1, 0);
            && closed == 0 && t3.maxFd < |t3.fds| && |t3.fds| > 1 && t3.fds[1].excl
            && AfterOpen(t3, Device(1), 0, 0, 0).1 == -1
  {
    RedirectsOut(1);
    var t1 := RedirectedOut(1);
    assert t1.fds[1].dev == Device(1) && t1.fds[2].dev == DEV_NULL && t1.fds[0].dev == DEV_NULL;
    var t2 := AfterIoctl(t1, 1, Excl, 0).0;
    IoctlKeeps(t1, 1, Excl, 0);
    assert Holds(t2, 1, Device(1)) && t2.fds[1].excl;
    LockedOpenFails(t2, Device(1), 0, 0, 0);
  }

  /** A redirection leaves the same slots in use, whatever came of it. */
  lemma RedirectLeavesNoSlot(t: Table, to: nat, found: Dev, oflags: nat, drv: int, priv: int, i: nat)
    requires TableInv(t) && to < 3 && i < MAX_FD
    ensures var u := AfterRedirect(t, to, found, oflags, drv, priv);
            && |u.fds| == MAX_FD
            && (u.fds[i].dev == NoDev <==> t.fds[i].dev == NoDev)
            && (i != to ==> u.fds[i].(priv := t.fds[i].priv) == t.fds[i])
  {
    OpenIsTransactional(t, found, oflags, drv, priv);
  }
}
