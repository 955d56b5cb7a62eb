/** The poll backend: a dense array of poll entries, an index from fd numbers into it, removal by
    moving the last entry, and the scan of the results. */
module PollBackend {
  import opened Masks

  /** revents of one entry: POLLIN, POLLOUT, POLLERR or POLLHUP, POLLNVAL. */
  datatype Returned = Returned(readable: bool, writable: bool, broken: bool, invalid: bool)

  const NOTHING := Returned(false, false, false, false)

  /** What the scan does with an entry: fd_event, or fd_kill for an invalid fd. */
  datatype Report = Event(fd: nat, events: Mask) | Kill(fd: nat)

  /** POLLERR and POLLHUP count as both. */
  function Got(r: Returned): Mask
  {
    Mask(r.readable || r.broken, r.writable || r.broken)
  }

  function ReportOf(p: PollFd): Report
  {
    if p.revents.invalid then Kill(p.fd) else Event(p.fd, Got(p.revents))
  }

  datatype PollFd = PollFd(fd: nat, events: Mask, revents: Returned)

  /** The two arrays are inverse to each other. */
  predicate Inverse(polls: seq<PollFd>, pollcnt: nat, pollidxs: seq<int>)
  {
    && pollcnt <= |polls|
    && (forall fd :: 0 <= fd < |pollidxs| ==> -1 <= pollidxs[fd] < pollcnt)
    && (forall fd :: 0 <= fd < |pollidxs| && pollidxs[fd] >= 0 ==> polls[pollidxs[fd]].fd == fd)
    && (forall i :: 0 <= i < pollcnt ==> polls[i].fd < |pollidxs| && pollidxs[polls[i].fd] == i)
    && (forall i :: 0 <= i < pollcnt ==> polls[i].events != NONE)
  }

  /** What poll is asked to report for an fd. */
  function Asked(polls: seq<PollFd>, pollcnt: nat, pollidxs: seq<int>, fd: nat): Mask
    requires Inverse(polls, pollcnt, pollidxs)
  {
    if fd < |pollidxs| && pollidxs[fd] >= 0 then polls[pollidxs[fd]].events else NONE
  }

  /** The number of entries with a result. */
  function Ready(polls: seq<PollFd>): nat
  {
    if polls == [] then 0 else Ready(polls[..|polls| - 1]) + (if polls[|polls| - 1].revents == NOTHING then 0 else 1)
  }

  /** The entries with a result, in order, and what they report. */
  function Reported(polls: seq<PollFd>): seq<Report>
  {
    if polls == [] then []
    else
      var init, p := Reported(polls[..|polls| - 1]), polls[|polls| - 1];
      if p.revents == NOTHING then init else init + [ReportOf(p)]
  }

  lemma {:induction false} ReadyGrows(polls: seq<PollFd>, i: nat)
    requires i <= |polls|
    ensures Ready(polls[..i]) <= Ready(polls)
    ensures Ready(polls[..i]) == Ready(polls) ==> Reported(polls[..i]) == Reported(polls)
    decreases |polls|
  {
    if i == |polls| {
      assert polls[..i] == polls;
    } else {
      var init := polls[..|polls| - 1];
      assert init[..i] == polls[..i];
      ReadyGrows(init, i);
    }
  }

  /** Every fd with a result is reported once, with exactly its events or as invalid. */
  lemma {:induction false} ReportedExactly(polls: seq<PollFd>, pollcnt: nat, pollidxs: seq<int>)
    requires Inverse(polls, pollcnt, pollidxs)
    ensures var r := Reported(polls[..pollcnt]);
            && (forall k :: 0 <= k < |r| ==>
                  exists i :: 0 <= i < pollcnt && polls[i].revents != NOTHING && r[k] == ReportOf(polls[i]))
            && (forall i :: 0 <= i < pollcnt && polls[i].revents != NOTHING ==> ReportOf(polls[i]) in r)
            && (forall j, k :: 0 <= j < k < |r| ==> r[j].fd != r[k].fd)
    // bit by bit: POLLNVAL kills the fd, POLLERR and POLLHUP count as both events
    ensures forall i :: 0 <= i < pollcnt && polls[i].revents.invalid ==> Kill(polls[i].fd) in Reported(polls[..pollcnt])
    ensures forall i :: 0 <= i < pollcnt && polls[i].revents != NOTHING && !polls[i].revents.invalid ==>
              Event(polls[i].fd, Mask(polls[i].revents.readable || polls[i].revents.broken,
                                      polls[i].revents.writable || polls[i].revents.broken)) in Reported(polls[..pollcnt])
  {
    ReportedUpTo(polls, pollcnt, pollidxs, pollcnt);
    forall i | 0 <= i < pollcnt && polls[i].revents != NOTHING
      ensures ReportOf(polls[i]) in Reported(polls[..pollcnt])
    {
    }
  }

  lemma {:induction false} ReportedUpTo(polls: seq<PollFd>, pollcnt: nat, pollidxs: seq<int>, n: nat)
    requires Inverse(polls, pollcnt, pollidxs) && n <= pollcnt
    ensures var r := Reported(polls[..n]);
            && (forall k :: 0 <= k < |r| ==>
                  exists i :: 0 <= i < n && polls[i].revents != NOTHING && r[k] == ReportOf(polls[i]))
            && (forall i :: 0 <= i < n && polls[i].revents != NOTHING ==> ReportOf(polls[i]) in r)
            && (forall j, k :: 0 <= j < k < |r| ==> r[j].fd != r[k].fd)
  {
    if n == 0 {
    } else {
      ReportedUpTo(polls, pollcnt, pollidxs, n - 1);
      assert polls[..n][..n - 1] == polls[..n - 1];
      var init, r := Reported(polls[..n - 1]), Reported(polls[..n]);
      forall j, k | 0 <= j < k < |r|
        ensures r[j].fd != r[k].fd
      {
        assert r[j] == init[j];
        if k == |init| {
          var i :| 0 <= i < n - 1 && polls[i].revents != NOTHING && init[j] == ReportOf(polls[i]);
          assert pollidxs[polls[i].fd] == i && pollidxs[polls[n - 1].fd] == n - 1;
        }
      }
    }
  }

  class Poll {
    var polls: seq<PollFd>
    var pollcnt: nat
    var pollidxs: seq<int>

    ghost predicate Valid()
      reads this
    {
      Inverse(polls, pollcnt, pollidxs)
    }

    ghost function Registered(fd: nat): Mask
      requires Valid()
      reads this
    {
      Asked(polls, pollcnt, pollidxs, fd)
    }

    constructor ()
      ensures Valid() && forall fd :: Registered(fd) == NONE
    {
      polls, pollcnt, pollidxs := [], 0, [];
    }

    /** poll_modify: afterwards exactly the new events of fd are asked for, and the same as before of
        every other fd. */
    method PollModify(fd: nat, oev: Mask, nev: Mask)
      requires Valid() && Registered(fd) == oev
      modifies this
      ensures Valid() && Registered(fd) == nev
      ensures nev != NONE <==> exists i :: 0 <= i < pollcnt && polls[i].fd == fd
      ensures forall i :: 0 <= i < pollcnt && polls[i].fd == fd ==> polls[i].events == nev
      ensures forall x: nat :: x != fd ==> Registered(x) == old(Registered(x))
    {
      RegisteredEntries(fd);
      if oev == nev {
        return;
      }
      if fd >= |pollidxs| {
        pollidxs := pollidxs + seq(fd + 1 - |pollidxs|, _ => -1);
      }
      if nev != NONE {
        Ask(fd, nev);
      } else {
        Remove(fd);
      }
      RegisteredEntries(fd);
    }

    /** An fd is registered by its one entry. */
    lemma RegisteredEntries(fd: nat)
      requires Valid()
      ensures Registered(fd) != NONE <==> exists i :: 0 <= i < pollcnt && polls[i].fd == fd
      ensures forall i :: 0 <= i < pollcnt && polls[i].fd == fd ==> polls[i].events == Registered(fd)
    {
      if fd < |pollidxs| && pollidxs[fd] >= 0 {
        assert polls[pollidxs[fd]].fd == fd;
      }
    }

    /** Set the events of fd, in a new entry if it has none. */
    method Ask(fd: nat, nev: Mask)
      requires Valid() && fd < |pollidxs| && nev != NONE
      modifies this
      ensures Valid() && Registered(fd) == nev
      ensures forall x: nat :: x != fd ==> Registered(x) == old(Registered(x))
    {
      var idx := pollidxs[fd];
      if idx < 0 {
        idx := pollcnt;
        pollidxs, pollcnt := pollidxs[fd := idx], pollcnt + 1;
        if pollcnt > |polls| {
          polls := polls + [PollFd(0, NONE, NOTHING)];
        }
        polls := polls[idx := PollFd(fd, nev, polls[idx].revents)];
      } else {
        polls := polls[idx := PollFd(fd, nev, polls[idx].revents)];
      }
    }

    /** Remove the entry of fd: the last entry takes its place. */
    method Remove(fd: nat)
      requires Valid() && fd < |pollidxs| && pollidxs[fd] >= 0
      modifies this
      ensures Valid() && Registered(fd) == NONE
      ensures forall x: nat :: x != fd ==> Registered(x) == old(Registered(x))
    {
      var idx := pollidxs[fd];
      pollidxs, pollcnt := pollidxs[fd := -1], pollcnt - 1;
      if idx < pollcnt {
        polls := polls[idx := polls[pollcnt]];
        pollidxs := pollidxs[polls[idx].fd := idx];
      }
    }

    /** The scan after poll returned res: it stops after res results and reports exactly the entries
        that have one. */
    method Scan(res: nat) returns (fed: seq<Report>)
      requires Valid() && res == Ready(polls[..pollcnt])
      ensures fed == Reported(polls[..pollcnt])
    {
      fed := [];
      var left, p := res, 0;
      assert polls[..pollcnt][..0] == [];
      while left > 0
        invariant p <= pollcnt && left + Ready(polls[..p]) == res && fed == Reported(polls[..p])
        decreases pollcnt - p
      {
        assert polls[..p + 1][..p] == polls[..p];
        if polls[p].revents != NOTHING {
          left := left - 1;
          if polls[p].revents.invalid {
            fed := fed + [Kill(polls[p].fd)];
          } else {
            fed := fed + [Event(polls[p].fd, Got(polls[p].revents))];
          }
        }
        p := p + 1;
      }
      assert polls[..pollcnt][..p] == polls[..p];
      ReadyGrows(polls[..pollcnt], p);
    }
  }
}
