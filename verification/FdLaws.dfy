/**
  What each call on descriptors does, in plain terms: which slots it changes, what it answers,
  and which error number it leaves.
*/
module FdLaws {
  import opened FdSpec

  /** All slots but one are as they were, and so is the mark. */
  ghost predicate OnlySlot(t: Table, u: Table, f: nat) {
    |u.fds| == |t.fds| && u.maxFd == t.maxFd && forall i :: 0 <= i < |t.fds| && i != f ==> u.fds[i] == t.fds[i]
  }

  // ---------------------------------------------------------------- close

  /** Closing a descriptor from 3 on frees its slot, whatever the driver answers, and changes no
      other; the answer is 0 exactly when the driver's is not negative. */
  lemma CloseFrees(t: Table, f: nat, drv: int)
    requires TableInv(t) && 2 < f < MAX_FD
    ensures var (u, rc) := AfterClose(t, f, drv);
            && OnlySlot(t, u, f)
            && u.fds[f].dev == NoDev && !u.fds[f].excl && !u.fds[f].isDev && u.fds[f].flags == 0
            && rc == (if drv >= 0 then 0 else -1)
            && u.errno == (if drv >= 0 then t.errno else -drv)
  {
  }

  /** The standard descriptors are never freed. */
  lemma CloseKeepsStandard(t: Table, f: nat, drv: int)
    requires TableInv(t) && f <= 2
    ensures var (u, rc) := AfterClose(t, f, drv);
            u.fds == t.fds && u.maxFd == t.maxFd && rc == if drv >= 0 then 0 else -1
  {
  }

  lemma BadDescriptors(t: Table, f: int, req: Request, drv: int)
    requires TableInv(t) && f < 0
    ensures var (u, rc) := AfterClose(t, f, drv); rc == -1 && u.errno == 81 && u.fds == t.fds
    ensures var (u, rc) := AfterIoctl(t, f, req, drv); rc == -81 && u.errno == 81 && u.fds == t.fds
  {
  }

  lemma {:induction false} FirstFree(fds: seq<Fd>, i: nat, f: nat)
    requires i <= f < |fds| && fds[f].dev == NoDev && forall k :: i <= k < f ==> fds[k].dev != NoDev
    ensures LowestFree(fds, i) == f
    decreases f - i
  {
    if i < f { FirstFree(fds, i + 1, f); }
  }

  /** The slot that has been closed is given out again first when all below it are in use. */
  lemma ReopensSlot(t: Table, f: nat, drv: int, found: Dev, oflags: nat, drv': int, priv: int)
    requires TableInv(t) && 2 < f < MAX_FD && forall i :: 0 <= i < f ==> t.fds[i].dev != NoDev
    requires found != NoDev && drv' >= 0
    requires found.Device? ==> forall i :: 0 <= i < MAX_FD && i != f && t.fds[i].dev == found ==> !t.fds[i].excl
    ensures var u := AfterClose(t, f, drv).0; TableInv(u) && AfterOpen(u, found, oflags, drv', priv).1 == f
  {
    var u := AfterClose(t, f, drv).0;
    assert TableInv(u);
    FirstFree(u.fds, 0, f);
    OpenSucceedsIff(u, found, oflags, drv', priv);
    assert u.fds[f].dev == NoDev;
  }

  // ---------------------------------------------------------------- open

  /** What a successful open leaves: flags, device mark and private data in its slot, no error
      number, and the mark at the highest slot. */
  lemma OpenLeaves(t: Table, found: Dev, oflags: nat, drv: int, priv: int)
    requires TableInv(t) && AfterOpen(t, found, oflags, drv, priv).1 >= 0
    ensures var (u, r) := AfterOpen(t, found, oflags, drv, priv);
            && r < MAX_FD && u.fds == t.fds[r := Fd(found, priv, false, found.Device?, oflags)]
            && u.errno == t.errno && u.maxFd == if r > t.maxFd then r else t.maxFd
  {
  }

  /** Why an open fails. */
  lemma OpenErrors(t: Table, found: Dev, oflags: nat, drv: int, priv: int)
    requires TableInv(t) && AfterOpen(t, found, oflags, drv, priv).1 < 0
    ensures var e := AfterOpen(t, found, oflags, drv, priv).0.errno;
            if found == NoDev then e == 19
            else if forall i :: 0 <= i < MAX_FD ==> t.fds[i].dev != NoDev then e == 24
            else if found.Device? && exists i :: 0 <= i < MAX_FD && t.fds[i].dev == found && t.fds[i].excl then e == 13
            else drv < 0 && e == -drv
  {
    OpenSucceedsIff(t, found, oflags, drv, priv);
    var i := LowestFree(t.fds, 0);
    if found != NoDev && i < MAX_FD { LockSeen(t, i, found, oflags); }
  }

  /** The scan of an open sees exactly the locks on its device. */
  lemma LockSeen(t: Table, i: nat, found: Dev, oflags: nat)
    requires TableInv(t) && i < MAX_FD && t.fds[i].dev == NoDev && found != NoDev
    ensures LockedElsewhere(Claimed(t, i, found, oflags), i) <==>
            exists k :: 0 <= k < MAX_FD && t.fds[k].dev == found && t.fds[k].excl
  {
    var c := Claimed(t, i, found, oflags);
    if k :| 0 <= k < MAX_FD && t.fds[k].dev == found && t.fds[k].excl {
      assert c.fds[k] == t.fds[k] && k <= c.maxFd;
    }
    if LockedElsewhere(c, i) {
      var k :| 0 <= k <= c.maxFd && k != i && c.fds[k].dev == c.fds[i].dev && c.fds[k].excl;
      assert t.fds[k].dev == found && t.fds[k].excl;
    }
  }

  // ---------------------------------------------------------------- ioctl

  /** A lock that is granted sets one flag; one that is denied changes the error number only. */
  lemma LockIs(t: Table, f: nat, drv: int)
    requires TableInv(t) && f < MAX_FD && t.fds[f].isDev
    ensures var (u, rc) := AfterIoctl(t, f, Excl, drv);
            if rc == 0 then u.fds == t.fds[f := t.fds[f].(excl := true)] && u.errno == t.errno && u.maxFd == t.maxFd
            else rc == -13 && u == t.(errno := 13)
  {
  }

  /** An unlock always succeeds, and undoes a lock. */
  lemma UnlockIs(t: Table, f: nat, drv: int)
    requires TableInv(t) && f < MAX_FD && t.fds[f].isDev
    ensures var (u, rc) := AfterIoctl(t, f, NExcl, drv); rc == 0 && u == t.(fds := t.fds[f := t.fds[f].(excl := false)])
    ensures var (u, rc) := AfterIoctl(t, f, Excl, drv);
            rc == 0 && !t.fds[f].excl ==>
              |u.fds| == |t.fds| && u.maxFd == t.maxFd && AfterIoctl(u, f, NExcl, drv) == (t, 0)
  {
    var u := AfterIoctl(t, f, Excl, drv).0;
    if AfterIoctl(t, f, Excl, drv).1 == 0 && !t.fds[f].excl {
      assert u.fds[f := u.fds[f].(excl := false)] == t.fds;
    }
  }

  /** Other requests are the driver's; so are all requests on file systems. */
  lemma OtherRequests(t: Table, f: nat, req: Request, drv: int)
    requires TableInv(t) && f < MAX_FD && (req == Other || !t.fds[f].isDev)
    ensures var (u, rc) := AfterIoctl(t, f, req, drv); rc == drv && u == t.(errno := if drv < 0 then -drv else t.errno)
  {
  }

  /** Once the holder of the lock has given it back, the device can be opened again. */
  lemma UnlockOpens(t: Table, f: nat, oflags: nat, drv: int, priv: int)
    requires TableInv(t) && LocksApart(t) && f < MAX_FD && t.fds[f].isDev && t.fds[f].excl
    ensures var u := AfterIoctl(t, f, NExcl, 0).0;
            && TableInv(u)
            && (AfterOpen(u, t.fds[f].dev, oflags, drv, priv).1 >= 0 <==>
                (exists i :: 0 <= i < MAX_FD && t.fds[i].dev == NoDev) && drv >= 0)
    ensures AfterOpen(t, t.fds[f].dev, oflags, drv, priv).1 == -1
  {
    var u, d := AfterIoctl(t, f, NExcl, 0).0, t.fds[f].dev;
    OpenSucceedsIff(u, d, oflags, drv, priv);
    assert Holds(t, f, d);
    LockedOpenFails(t, d, oflags, drv, priv);
    if i :| 0 <= i < MAX_FD && t.fds[i].dev == NoDev { assert u.fds[i] == t.fds[i]; }
    if i :| 0 <= i < MAX_FD && u.fds[i].dev == NoDev { assert u.fds[i] == t.fds[i]; }
  }

  // ---------------------------------------------------------------- redirection

  /** A redirection that succeeds puts the opened file into the slot, and one that fails leaves
      the slot as it was; all other slots keep device and flags. */
  lemma RedirectIs(t: Table, to: nat, found: Dev, oflags: nat, drv: int, priv: int)
    requires TableInv(t) && to < 3
    ensures var u, ok := AfterRedirect(t, to, found, oflags, drv, priv), AfterOpen(t, found, oflags, drv, priv).1 >= 0;
            && |u.fds| == MAX_FD
            && u.fds[to] == (if ok then Fd(found, priv, false, found.Device?, oflags) else t.fds[to])
            && forall i :: 0 <= i < MAX_FD && i != to ==> u.fds[i].(priv := t.fds[i].priv) == t.fds[i]
  {
    OpenIsTransactional(t, found, oflags, drv, priv);
    if AfterOpen(t, found, oflags, drv, priv).1 >= 0 { OpenLeaves(t, found, oflags, drv, priv); }
  }
}
