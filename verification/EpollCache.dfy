/** epoll's mask cache.  libev never tells the kernel that it lost interest in an fd: it remembers the
    mask it last registered (emask) and counts registrations (egen), sends the count along with every
    registration, and repairs the kernel's table when an event shows that it is out of date.

    The kernel's table is keyed by fd number and open file, because a file that left an fd number
    stays registered under it for as long as another descriptor refers to it.  No file returns to an
    fd number it left, and every fd refers to some file.  Files that epoll refuses because they are
    always ready are kept on a list of their own and reported in every round. */
module EpollCache {

  import opened Masks

  /** emask: the mask last given to the kernel, or EV_EMASK_EPERM. */
  datatype Cache = Known(mask: Mask) | Eperm

  /** What this backend keeps of an ANFD; egen is unbounded here and compared as 32 bits. */
  datatype Anfd = Anfd(events: Mask, emask: Cache, egen: nat)

  type File = nat

  datatype Key = Key(fd: nat, file: File)

  datatype Entry = Entry(mask: Mask, gen: nat)

  type Table = map<Key, Entry>

  datatype Op = ADD | MOD | DEL

  /** ENOSPC stands for every error of adding an entry that says nothing about the fd. */
  datatype Errno = OK | ENOENT | EEXIST | EPERM | ENOSPC

  /** What came of telling the kernel about an fd. */
  datatype Outcome = Stored | Unchanged | Refused | Failed

  /** An event as epoll_wait returns it: the low half of its data is the fd, the high half the count. */
  datatype Event = Event(fd: nat, gen: nat, got: Mask)

  const WORD: nat := 0x1_0000_0000

  predicate SameGen(a: nat, b: nat)
  {
    a % WORD == b % WORD
  }

  // ---- What must hold of one fd ----

  /** The current file's entry, if any, is the latest registration, with the mask that the cache says
      unless the cache has been emptied. */
  predicate Cached(kernel: Table, key: Key, a: Anfd)
  {
    key in kernel ==> kernel[key].gen == a.egen && (a.emask == Known(kernel[key].mask) || a.emask == Known(NONE))
  }

  /** Entries of files that left the fd are older than the registration of the current file. */
  ghost predicate StaleOlder(kernel: Table, key: Key, a: Anfd)
  {
    forall k :: k in kernel && k.fd == key.fd && k != key ==>
      kernel[k].gen <= a.egen && (key in kernel ==> kernel[k].gen < a.egen)
  }

  /** The kernel knows exactly the wanted events. */
  predicate Armed(kernel: Table, key: Key, a: Anfd)
  {
    key in kernel && kernel[key].mask == a.events && a.events != NONE
  }

  ghost predicate FdSound(kernel: Table, key: Key, a: Anfd, armed: bool)
  {
    Cached(kernel, key, a) && StaleOlder(kernel, key, a) && (armed ==> Armed(kernel, key, a))
  }

  /** epoll_ctl on one key of the table; `full` if no entry can be added. */
  function Ctl(kernel: Table, op: Op, key: Key, entry: Entry, refused: bool, full: bool): (Errno, Table)
  {
    if refused then (EPERM, kernel)
    else
      match op
      case ADD => if key in kernel then (EEXIST, kernel) else if full then (ENOSPC, kernel) else (OK, kernel[key := entry])
      case MOD => if key in kernel then (OK, kernel[key := entry]) else (ENOENT, kernel)
      case DEL => if key in kernel then (OK, kernel - {key}) else (ENOENT, kernel)
  }

  /** Is an fd on the list of refused ones to be reported as ready? */
  predicate AlwaysReady(a: Anfd)
  {
    a.emask.Eperm? && a.events != NONE
  }

  /** What the list of refused fds is turned into, last entry first. */
  function Synthesized(eperms: seq<nat>, a: seq<Anfd>): seq<(nat, Mask)>
    requires forall i :: 0 <= i < |eperms| ==> eperms[i] < |a|
  {
    if eperms == [] then []
    else
      var fd := eperms[|eperms| - 1];
      (if AlwaysReady(a[fd]) then [(fd, a[fd].events)] else []) + Synthesized(eperms[..|eperms| - 1], a)
  }

  /** Every entry of an always ready fd is reported with the events that are wanted, and nothing else. */
  lemma {:induction false} SynthesizedExactly(eperms: seq<nat>, a: seq<Anfd>, fd: nat, events: Mask)
    requires forall i :: 0 <= i < |eperms| ==> eperms[i] < |a|
    ensures (fd, events) in Synthesized(eperms, a)
            <==> fd in eperms && AlwaysReady(a[fd]) && events == a[fd].events
  {
    if eperms == [] {
    } else {
      var last := |eperms| - 1;
      SynthesizedExactly(eperms[..last], a, fd, events);
      assert eperms == eperms[..last] + [eperms[last]];
    }
  }

  /** The loop over the list of refused fds has come down to entry i: a and list are what it started with. */
  ghost predicate Swept(list: seq<nat>, a: seq<Anfd>, i: nat, b: seq<Anfd>, eperms: seq<nat>)
  {
    && |b| == |a| && (forall k :: 0 <= k < |list| ==> list[k] < |a|) && (forall k :: 0 <= k < |eperms| ==> eperms[k] < |a|)
    && i <= |list| && i <= |eperms| && eperms[..i] == list[..i]
    && (forall fd :: 0 <= fd < |a| ==> b[fd] == a[fd] || (b[fd] == a[fd].(emask := Known(NONE)) && !AlwaysReady(a[fd])))
    && (forall k :: i <= k < |list| ==>
          if AlwaysReady(a[list[k]]) then list[k] in eperms[i..] else !b[list[k]].emask.Eperm?)
  }

  lemma NothingSwept(list: seq<nat>, a: seq<Anfd>)
    requires forall k :: 0 <= k < |list| ==> list[k] < |a|
    ensures Swept(list, a, |list|, a, list) && list[..|list|] == list
  {
  }

  lemma AtEntry(list: seq<nat>, a: seq<Anfd>, i: nat, b: seq<Anfd>, eperms: seq<nat>)
    requires Swept(list, a, i + 1, b, eperms) && i < |list|
    ensures |b| == |a| && i < |eperms| && eperms[i] == list[i] < |a| && (forall k :: 0 <= k < |list| ==> list[k] < |a|)
    ensures var fd := list[i]; b[fd].events == a[fd].events && AlwaysReady(b[fd]) == AlwaysReady(a[fd])
  {
    assert eperms[..i + 1][i] == list[..i + 1][i];
  }

  lemma SynthesizedStep(before: seq<(nat, Mask)>, list: seq<nat>, a: seq<Anfd>, i: nat)
    requires i < |list| && forall k :: 0 <= k < |list| ==> list[k] < |a|
    ensures var fd := list[i];
            before + Synthesized(list[..i + 1], a)
            == before + (if AlwaysReady(a[fd]) then [(fd, a[fd].events)] else []) + Synthesized(list[..i], a)
  {
    assert list[..i + 1][..i] == list[..i];
  }

  lemma KeepEntry(list: seq<nat>, a: seq<Anfd>, i: nat, b: seq<Anfd>, eperms: seq<nat>)
    requires Swept(list, a, i + 1, b, eperms) && i < |list| && AlwaysReady(a[list[i]])
    ensures Swept(list, a, i, b, eperms)
  {
    assert eperms[..i] == eperms[..i + 1][..i] && list[..i] == list[..i + 1][..i];
    assert eperms[..i + 1][i] == list[..i + 1][i];
    assert eperms[i..] == [eperms[i]] + eperms[i + 1..];
  }

  lemma DropEntry(list: seq<nat>, a: seq<Anfd>, i: nat, b: seq<Anfd>, eperms: seq<nat>)
    requires Swept(list, a, i + 1, b, eperms) && i < |list| && !AlwaysReady(a[list[i]])
    ensures i < |eperms| && list[i] < |b|
    ensures var fd := list[i];
            Swept(list, a, i, b[fd := b[fd].(emask := Known(NONE))], eperms[i := eperms[|eperms| - 1]][..|eperms| - 1])
  {
    assert eperms[..i] == eperms[..i + 1][..i] && list[..i] == list[..i + 1][..i];
    assert eperms[..i + 1][i] == list[..i + 1][i];
    var last := |eperms| - 1;
    var kept := eperms[i := eperms[last]][..last];
    assert kept[..i] == eperms[..i];
    forall x | x in eperms[i + 1..]
      ensures x in kept[i..]
    {
      var k :| 0 <= k < |eperms| - i - 1 && eperms[i + 1..][k] == x;
      if i + 1 + k == last {
        assert kept[i..][0] == x;
      } else {
        assert kept[i..][k + 1] == x;
      }
    }
  }

  lemma EndOfSweep(list: seq<nat>, a: seq<Anfd>, b: seq<Anfd>, eperms: seq<nat>)
    requires Swept(list, a, 0, b, eperms) && forall fd :: 0 <= fd < |a| && a[fd].emask.Eperm? ==> fd in list
    ensures |b| == |a| && Synthesized(list[..0], a) == [] && forall k :: 0 <= k < |eperms| ==> eperms[k] < |a|
    ensures forall fd :: 0 <= fd < |b| ==> b[fd] == a[fd] || (b[fd] == a[fd].(emask := Known(NONE)) && !AlwaysReady(a[fd]))
    ensures forall fd :: 0 <= fd < |b| && b[fd].emask.Eperm? ==> AlwaysReady(b[fd])
    ensures forall fd :: 0 <= fd < |a| && AlwaysReady(a[fd]) ==> fd in eperms
  {
    assert eperms[0..] == eperms && list[..0] == [];
    forall fd | 0 <= fd < |a| && a[fd].emask.Eperm?
      ensures if AlwaysReady(a[fd]) then fd in eperms else !b[fd].emask.Eperm?
    {
      var k :| 0 <= k < |list| && list[k] == fd;
    }
  }

  /** Emptying the cache of an fd is always safe. */
  lemma StillSound(kernel: Table, key: Key, a: Anfd, b: Anfd, armed: bool)
    requires FdSound(kernel, key, a, armed) && (b == a || b == a.(emask := Known(NONE)))
    ensures FdSound(kernel, key, b, armed)
  {
  }

  // ---- A batch of events ----

  /** Does a current event have something that is not wanted? */
  predicate Reveals(ev: Event, a: Anfd)
  {
    SameGen(a.egen, ev.gen) && ((ev.got.read && !a.events.read) || (ev.got.write && !a.events.write))
  }

  /** One of the first n events has revealed that the kernel's entry of fd is out of date. */
  ghost predicate Revealed(events: seq<Event>, n: nat, fd: nat, a: Anfd)
    requires n <= |events|
  {
    exists i :: 0 <= i < n && events[i].fd == fd && Reveals(events[i], a)
  }

  predicate EventsFit(events: seq<Event>, files: seq<File>, a: seq<Anfd>)
  {
    |files| == |a| && forall i :: 0 <= i < |events| ==> events[i].fd < |a|
  }

  /** Event i is current and, if it has something unwanted, still finds the entry of the current file,
      which is there from the start and goes away when nothing is wanted and that has been revealed. */
  ghost predicate Delivers(events: seq<Event>, i: nat, kernel: Table, files: seq<File>, a: seq<Anfd>)
    requires EventsFit(events, files, a) && i < |events|
  {
    var ev := events[i];
    && SameGen(a[ev.fd].egen, ev.gen)
    && (Reveals(ev, a[ev.fd]) ==>
          Key(ev.fd, files[ev.fd]) in kernel && (a[ev.fd].events != NONE || !Revealed(events, i, ev.fd, a[ev.fd])))
  }

  /** What fd_event is given for the first n events: those that are delivered, in order. */
  ghost function Delivered(events: seq<Event>, n: nat, kernel: Table, files: seq<File>, a: seq<Anfd>): seq<(nat, Mask)>
    requires EventsFit(events, files, a) && n <= |events|
  {
    if n == 0 then []
    else
      Delivered(events, n - 1, kernel, files, a)
      + if Delivers(events, n - 1, kernel, files, a) then [(events[n - 1].fd, events[n - 1].got)] else []
  }

  /** The kernel's table after the first n events: an entry that was revealed to be out of date is what is
      wanted, or gone if nothing is; all other entries are as before. */
  ghost predicate TableAfter(events: seq<Event>, n: nat, before: Table, kernel: Table, files: seq<File>, a: seq<Anfd>)
    requires |files| == |a| && n <= |events|
  {
    forall k: Key {:trigger k in before} {:trigger k in kernel} ::
      if k in before && k.fd < |a| && k.file == files[k.fd] && Revealed(events, n, k.fd, a[k.fd]) then
        (k in kernel <==> a[k.fd].events != NONE) && (k in kernel ==> kernel[k] == Entry(a[k.fd].events, a[k.fd].egen))
      else (k in kernel <==> k in before) && (k in kernel ==> kernel[k] == before[k])
  }

  ghost predicate SomeDropped(events: seq<Event>, n: nat, kernel: Table, files: seq<File>, a: seq<Anfd>)
    requires EventsFit(events, files, a) && n <= |events|
  {
    exists i :: 0 <= i < n && !Delivers(events, i, kernel, files, a)
  }

  /** What one event does to the table, the fed events and the rebuild flag. */
  ghost predicate Handled(ev: Event, key: Key, a: Anfd, kernel: Table, kernel': Table,
                          fed: seq<(nat, Mask)>, fed': seq<(nat, Mask)>, postfork: bool, postfork': bool)
  {
    if SameGen(a.egen, ev.gen) && (Reveals(ev, a) ==> key in kernel) then
      && fed' == fed + [(ev.fd, ev.got)] && postfork' == postfork
      && kernel' == if !Reveals(ev, a) then kernel
                    else if a.events == NONE then kernel - {key}
                    else kernel[key := Entry(a.events, a.egen)]
    else fed' == fed && postfork' && kernel' == kernel
  }

  lemma RevealedStep(events: seq<Event>, n: nat, fd: nat, a: Anfd)
    requires n < |events|
    ensures Revealed(events, n + 1, fd, a) <==> Revealed(events, n, fd, a) || (events[n].fd == fd && Reveals(events[n], a))
  {
    hide Reveals;
  }

  /** The entry of the current file is there iff it was and has not been removed. */
  lemma StillThere(events: seq<Event>, n: nat, before: Table, kernel: Table, files: seq<File>, a: seq<Anfd>, fd: nat)
    requires |files| == |a| && n <= |events| && fd < |a| && TableAfter(events, n, before, kernel, files, a)
    ensures var key := Key(fd, files[fd]);
            key in kernel <==> key in before && (a[fd].events != NONE || !Revealed(events, n, fd, a[fd]))
  {
    hide Revealed;
    assert Key(fd, files[fd]) in before || Key(fd, files[fd]) !in before;
  }

  lemma TableStep(events: seq<Event>, n: nat, before: Table, kernel: Table, kernel': Table, files: seq<File>, a: seq<Anfd>)
    requires EventsFit(events, files, a) && n < |events| && TableAfter(events, n, before, kernel, files, a)
    requires var ev := events[n];
             var key := Key(ev.fd, files[ev.fd]);
             kernel' == if !Reveals(ev, a[ev.fd]) || key !in kernel then kernel
                        else if a[ev.fd].events == NONE then kernel - {key}
                        else kernel[key := Entry(a[ev.fd].events, a[ev.fd].egen)]
    ensures TableAfter(events, n + 1, before, kernel', files, a)
  {
    hide Revealed, Reveals;
    forall k: Key
      ensures if k in before && k.fd < |a| && k.file == files[k.fd] && Revealed(events, n + 1, k.fd, a[k.fd]) then
                (k in kernel' <==> a[k.fd].events != NONE)
                && (k in kernel' ==> kernel'[k] == Entry(a[k.fd].events, a[k.fd].egen))
              else (k in kernel' <==> k in before) && (k in kernel' ==> kernel'[k] == before[k])
    {
      assert k in kernel || k !in kernel;
      if k.fd < |a| {
        RevealedStep(events, n, k.fd, a[k.fd]);
      }
    }
  }

  lemma DroppedStep(events: seq<Event>, n: nat, kernel: Table, files: seq<File>, a: seq<Anfd>)
    requires EventsFit(events, files, a) && n < |events|
    ensures SomeDropped(events, n + 1, kernel, files, a)
            <==> SomeDropped(events, n, kernel, files, a) || !Delivers(events, n, kernel, files, a)
  {
    hide Delivers;
  }

  /** The state of the loop of epoll_poll after n events. */
  ghost predicate BatchSoFar(events: seq<Event>, n: nat, before: Table, kernel: Table, files: seq<File>, a: seq<Anfd>,
                             fed0: seq<(nat, Mask)>, fed: seq<(nat, Mask)>, postfork0: bool, postfork: bool)
    requires EventsFit(events, files, a) && n <= |events|
  {
    && TableAfter(events, n, before, kernel, files, a)
    && fed == fed0 + Delivered(events, n, before, files, a)
    && (postfork <==> postfork0 || SomeDropped(events, n, before, files, a))
  }

  lemma BatchStep(events: seq<Event>, n: nat, before: Table, kernel: Table, kernel': Table, files: seq<File>, a: seq<Anfd>,
                  fed0: seq<(nat, Mask)>, fed: seq<(nat, Mask)>, fed': seq<(nat, Mask)>,
                  postfork0: bool, postfork: bool, postfork': bool)
    requires EventsFit(events, files, a) && n < |events|
    requires BatchSoFar(events, n, before, kernel, files, a, fed0, fed, postfork0, postfork)
    requires var ev := events[n];
             Handled(ev, Key(ev.fd, files[ev.fd]), a[ev.fd], kernel, kernel', fed, fed', postfork, postfork')
    ensures BatchSoFar(events, n + 1, before, kernel', files, a, fed0, fed', postfork0, postfork')
  {
    hide TableAfter, Revealed, SomeDropped;
    var ev := events[n];
    StillThere(events, n, before, kernel, files, a, ev.fd);
    TableStep(events, n, before, kernel, kernel', files, a);
    DroppedStep(events, n, before, files, a);
  }

  class Epoll {
    const anfds: array<Anfd>
    /** The file each fd number refers to. */
    var files: seq<File>
    var kernel: Table
    /** The files that epoll refuses. */
    const refused: set<File>
    /** epoll_eperms */
    var eperms: seq<nat>
    /** The fds given to fd_kill. */
    var killed: seq<nat>
    var postfork: bool
    /** What was passed to fd_event. */
    var fed: seq<(nat, Mask)>
    /** Files that are or were at an fd number. */
    ghost var seen: set<Key>
    /** Fds registered with a nonzero mask since they last changed their file. */
    ghost var armed: set<nat>

    ghost predicate Valid()
      reads this, anfds
    {
      && |files| == anfds.Length
      && (forall k :: k in kernel ==> k.fd < anfds.Length && k in seen && k.file !in refused)
      && Listed(eperms)
      && (forall fd :: 0 <= fd < anfds.Length ==> Key(fd, files[fd]) in seen)
      && (forall fd :: 0 <= fd < anfds.Length ==> Sound(fd))
    }

    /** Every fd marked as refused is on the list. */
    ghost predicate Listed(list: seq<nat>)
      reads anfds
    {
      && (forall i :: 0 <= i < |list| ==> list[i] < anfds.Length)
      && (forall fd :: 0 <= fd < anfds.Length && anfds[fd].emask.Eperm? ==> fd in list)
    }

    ghost predicate Sound(fd: nat)
      requires |files| == anfds.Length && fd < anfds.Length
      reads this, anfds
    {
      FdSound(kernel, Key(fd, files[fd]), anfds[fd], fd in armed)
    }

    /** A backend that has registered nothing yet. */
    constructor (files: seq<File>, refused: set<File>)
      ensures Valid() && anfds.Length == |files| && kernel == map[] && fresh(anfds) && armed == {}
      ensures this.refused == refused && eperms == [] && killed == []
    {
      anfds := new Anfd[|files|](_ => Anfd(NONE, Known(NONE), 0));
      this.files, this.refused, kernel, postfork, fed, eperms, killed := files, refused, map[], false, [], [], [];
      seen, armed := set fd | 0 <= fd < |files| :: Key(fd, files[fd]), {};
      new;
      forall fd | 0 <= fd < anfds.Length
        ensures Key(fd, files[fd]) in seen
      {
      }
    }

    // ---- The environment ----

    /** The fd number now refers to a file that was never there before; the old file's entry goes
        away if that was its last descriptor. */
    method Reopen(fd: nat, file: File, last: bool)
      requires Valid() && fd < anfds.Length && Key(fd, file) !in seen
      modifies this
      ensures Valid() && files == old(files)[fd := file] && armed == old(armed) - {fd}
      ensures kernel == if last then old(kernel) - {Key(fd, old(files)[fd])} else old(kernel)
      ensures fed == old(fed) && postfork == old(postfork) && eperms == old(eperms) && killed == old(killed)
    {
      ghost var before := Key(fd, files[fd]);
      if last {
        kernel := kernel - {Key(fd, files[fd])};
      }
      files := files[fd := file];
      seen := seen + {Key(fd, file)};
      armed := armed - {fd};
      forall x | 0 <= x < anfds.Length
        ensures Sound(x)
      {
        assert old(Sound(x));
      }
    }

    /** The last descriptor of a file that had left its fd number is closed. */
    method Vanish(key: Key)
      requires Valid() && key.fd < anfds.Length && key.file != files[key.fd]
      modifies this`kernel
      ensures Valid() && kernel == old(kernel) - {key}
    {
      kernel := kernel - {key};
      forall x | 0 <= x < anfds.Length
        ensures Sound(x)
      {
        assert old(Sound(x));
      }
    }

    // ---- The backend ----

    method EpollCtl(op: Op, fd: nat, mask: Mask, gen: nat, full: bool) returns (errno: Errno)
      requires fd < |files|
      modifies this`kernel
      ensures (errno, kernel) == Ctl(old(kernel), op, Key(fd, files[fd]), Entry(mask, gen), files[fd] in refused, full)
    {
      var r := Ctl(kernel, op, Key(fd, files[fd]), Entry(mask, gen), files[fd] in refused, full);
      errno, kernel := r.0, r.1;
    }

    /** Does the kernel's table take the fd? */
    ghost predicate Accepts(fd: nat, full: bool)
      requires fd < |files|
      reads this`files, this`kernel
    {
      files[fd] !in refused && (full ==> Key(fd, files[fd]) in kernel)
    }

    /** epoll_modify, called with the old and the new events of the fd: a file that epoll refuses is put on
        the list of refused fds, and an fd that cannot be added is killed. */
    method EpollModify(fd: nat, oev: Mask, nev: Mask, full: bool)
      requires Valid() && fd < anfds.Length && anfds[fd].events == oev
      modifies this`kernel, this`armed, this`eperms, this`killed, anfds
      ensures Valid() && anfds[fd].events == nev
      ensures nev == NONE ==> kernel == old(kernel) && armed == old(armed) - {fd} && killed == old(killed)
      ensures nev != NONE && old(Accepts(fd, full)) ==>
                var key := Key(fd, files[fd]);
                && armed == old(armed) + {fd} && killed == old(killed)
                && kernel == old(kernel)[key := Entry(nev, anfds[fd].egen)]
      ensures nev != NONE && files[fd] in refused ==>
                && anfds[fd].emask.Eperm? && fd in eperms
                && armed == old(armed) - {fd} && killed == old(killed) && kernel == old(kernel)
      ensures nev != NONE && files[fd] !in refused && !old(Accepts(fd, full)) ==>
                && killed == old(killed) + [fd] && anfds[fd].egen == old(anfds[fd].egen)
                && armed == old(armed) - {fd} && kernel == old(kernel)
      ensures forall x :: 0 <= x < anfds.Length && x != fd ==> anfds[x] == old(anfds[x])
    {
      assert Sound(fd);
      // fd_reify stores the new events before it calls the backend
      anfds[fd] := anfds[fd].(events := nev);
      armed := armed - {fd};
      if nev != NONE {
        Register(fd, oev, nev, full);
      }
      Framed(fd);
    }

    /** The part of epoll_modify for a nonzero mask. */
    method Register(fd: nat, oev: Mask, nev: Mask, full: bool)
      requires |files| == anfds.Length && fd < anfds.Length && nev != NONE && Listed(eperms)
      requires FdSound(kernel, Key(fd, files[fd]), anfds[fd], false) && anfds[fd].events == nev
      requires files[fd] in refused ==> Key(fd, files[fd]) !in kernel
      modifies this`kernel, this`armed, this`eperms, this`killed, anfds
      ensures Listed(eperms) && anfds[fd].events == nev
      ensures FdSound(kernel, Key(fd, files[fd]), anfds[fd], fd in armed)
      ensures old(Accepts(fd, full)) ==>
                var key := Key(fd, files[fd]);
                && armed == old(armed) + {fd} && killed == old(killed)
                && kernel == old(kernel)[key := Entry(nev, anfds[fd].egen)]
      ensures files[fd] in refused ==>
                && anfds[fd].emask.Eperm? && fd in eperms
                && armed == old(armed) - {fd} && killed == old(killed) && kernel == old(kernel)
      ensures files[fd] !in refused && !old(Accepts(fd, full)) ==>
                && killed == old(killed) + [fd] && anfds[fd].egen == old(anfds[fd].egen)
                && armed == old(armed) - {fd} && kernel == old(kernel)
      ensures forall x :: 0 <= x < anfds.Length && x != fd ==> anfds[x] == old(anfds[x])
    {
      armed := armed + {fd};
      var oldmask := anfds[fd].emask;
      anfds[fd] := anfds[fd].(emask := Known(nev), egen := anfds[fd].egen + 1);
      var outcome := Submit(fd, oev, nev, oldmask, full);
      match outcome {
        case Stored =>
        case Refused => Refuse(fd, oldmask);
        case Unchanged => anfds[fd] := anfds[fd].(egen := anfds[fd].egen - 1);
        case Failed =>
          killed, armed := killed + [fd], armed - {fd};
          anfds[fd] := anfds[fd].(egen := anfds[fd].egen - 1);
      }
    }

    /** The calls to epoll_ctl: ADD or MOD, and the other one if the kernel's table shows that it was wrong;
        an entry that is there already with this mask is left as it is. */
    method Submit(fd: nat, oev: Mask, nev: Mask, oldmask: Cache, full: bool) returns (outcome: Outcome)
      requires |files| == anfds.Length && fd < anfds.Length
      requires files[fd] in refused ==> Key(fd, files[fd]) !in kernel
      modifies this`kernel
      ensures outcome == Refused <==> files[fd] in refused
      ensures outcome == Failed <==> files[fd] !in refused && !old(Accepts(fd, full))
      ensures outcome == Unchanged ==> oldmask == Known(nev) && Key(fd, files[fd]) in kernel
      ensures kernel == if outcome == Stored then old(kernel)[Key(fd, files[fd]) := Entry(nev, anfds[fd].egen)] else old(kernel)
    {
      var gen := anfds[fd].egen;
      var errno := EpollCtl(if oev != NONE && oldmask != Known(nev) then MOD else ADD, fd, nev, gen, full);
      if errno == ENOENT {
        errno := EpollCtl(ADD, fd, nev, gen, full);
      } else if errno == EEXIST {
        if oldmask == Known(nev) {
          return Unchanged;
        }
        errno := EpollCtl(MOD, fd, nev, gen, full);
      } else if errno == EPERM {
        return Refused;
      }
      outcome := if errno == OK then Stored else Failed;
    }

    /** Put fd on the list of refused fds, unless its old mask says that it is there. */
    method Refuse(fd: nat, oldmask: Cache)
      requires fd < anfds.Length && Listed(if oldmask.Eperm? then eperms else eperms + [fd])
      requires oldmask.Eperm? ==> fd in eperms
      modifies this`armed, this`eperms, anfds
      ensures Listed(eperms) && fd in eperms && armed == old(armed) - {fd}
      ensures anfds[fd] == old(anfds[fd]).(emask := Eperm)
      ensures forall x :: 0 <= x < anfds.Length && x != fd ==> anfds[x] == old(anfds[x])
    {
      anfds[fd] := anfds[fd].(emask := Eperm);
      armed := armed - {fd};
      if !oldmask.Eperm? {
        eperms := eperms + [fd];
      }
    }

    /** The end of epoll_poll: events for the refused fds, and the list cleared of those that are no longer
        refused or wanted. */
    method PollEperms()
      requires Valid()
      modifies this`eperms, this`fed, anfds
      ensures Valid()
      ensures fed == old(fed) + Synthesized(old(eperms), old(anfds[..]))
      ensures forall fd :: 0 <= fd < anfds.Length && AlwaysReady(old(anfds[fd])) ==>
                anfds[fd] == old(anfds[fd]) && fd in eperms && (fd, anfds[fd].events) in fed
      ensures forall fd :: 0 <= fd < anfds.Length ==>
                anfds[fd] == old(anfds[fd]) || anfds[fd] == old(anfds[fd]).(emask := Known(NONE))
    {
      hide Synthesized, Swept, FdSound;
      ghost var list, a := eperms, anfds[..];
      var i: nat := |eperms|;
      NothingSwept(list, a);
      while i > 0
        invariant i <= |list| && Swept(list, a, i, anfds[..], eperms)
        invariant fed + Synthesized(list[..i], a) == old(fed) + Synthesized(list, a)
      {
        i := i - 1;
        PermsRound(i, list, a);
      }
      EndOfSweep(list, a, anfds[..], eperms);
      assert fed + [] == fed == old(fed) + Synthesized(list, a);
      forall fd | 0 <= fd < anfds.Length
        ensures Sound(fd)
        ensures AlwaysReady(a[fd]) ==> (fd, anfds[fd].events) in fed
      {
        assert anfds[..][fd] == anfds[fd] && a[fd] == old(anfds[fd]);
        assert old(Sound(fd));
        StillSound(kernel, Key(fd, files[fd]), a[fd], anfds[fd], fd in armed);
        SynthesizedExactly(list, a, fd, a[fd].events);
      }
    }

    /** One round of that loop. */
    method PermsRound(i: nat, ghost list: seq<nat>, ghost a: seq<Anfd>)
      requires i < |list| && Swept(list, a, i + 1, anfds[..], eperms)
      modifies this`eperms, this`fed, anfds
      ensures Swept(list, a, i, anfds[..], eperms)
      ensures fed + Synthesized(list[..i], a) == old(fed + Synthesized(list[..i + 1], a))
    {
      ghost var was := anfds[..];
      AtEntry(list, a, i, was, eperms);
      SynthesizedStep(fed, list, a, i);
      hide Swept, Synthesized;
      var fd := eperms[i];
      if anfds[fd].emask.Eperm? && anfds[fd].events != NONE {
        KeepEntry(list, a, i, was, eperms);
        fed := fed + [(fd, anfds[fd].events)];
      } else {
        DropEntry(list, a, i, was, eperms);
        eperms := eperms[i := eperms[|eperms| - 1]][..|eperms| - 1];
        anfds[fd] := anfds[fd].(emask := Known(NONE));
        assert anfds[..] == was[fd := was[fd].(emask := Known(NONE))];
      }
    }

    /** Only entries of one fd, and only that fd's fields, have changed. */
    twostate lemma Framed(fd: nat)
      requires old(Valid()) && files == old(files) && seen == old(seen) && fd < anfds.Length && Listed(eperms)
      requires forall x :: 0 <= x < anfds.Length && x != fd ==> anfds[x] == old(anfds[x]) && (x in armed <==> x in old(armed))
      requires forall k: Key :: k.fd != fd ==> (k in kernel <==> k in old(kernel)) && (k in kernel ==> kernel[k] == old(kernel)[k])
      requires forall k :: k in kernel ==> k in old(kernel) || (k == Key(fd, files[fd]) && files[fd] !in refused)
      requires Sound(fd)
      ensures Valid()
    {
      forall x | 0 <= x < anfds.Length
        ensures Sound(x)
      {
        if x != fd {
          assert old(Sound(x));
        }
      }
    }

    /** The body of epoll_poll's loop for one event. */
    method HandleEvent(ev: Event)
      requires Valid() && ev.fd < anfds.Length
      modifies this`kernel, this`postfork, this`fed, anfds
      ensures Valid()
      ensures forall x :: 0 <= x < anfds.Length ==>
                anfds[x] == old(anfds[x]).(emask := anfds[x].emask) && (x != ev.fd ==> anfds[x] == old(anfds[x]))
      // a registration that is not the latest is dropped
      ensures !SameGen(old(anfds[ev.fd]).egen, ev.gen) ==>
                postfork && fed == old(fed) && kernel == old(kernel) && anfds[ev.fd] == old(anfds[ev.fd])
      // wanted events are passed on and nothing else happens
      ensures SameGen(old(anfds[ev.fd]).egen, ev.gen) && !Unwanted(ev.got, old(anfds[ev.fd]).events) ==>
                fed == old(fed) + [(ev.fd, ev.got)] && kernel == old(kernel) && postfork == old(postfork)
      // an unwanted event makes the kernel's entry what is wanted, or shows that there is none
      ensures SameGen(old(anfds[ev.fd]).egen, ev.gen) && Unwanted(ev.got, old(anfds[ev.fd]).events) ==>
                var key, want := Key(ev.fd, files[ev.fd]), old(anfds[ev.fd]).events;
                if key in old(kernel) then
                  && fed == old(fed) + [(ev.fd, ev.got)] && postfork == old(postfork)
                  && kernel == (if want == NONE then old(kernel) - {key} else old(kernel)[key := Entry(want, anfds[ev.fd].egen)])
                else fed == old(fed) && postfork && kernel == old(kernel)
    {
      var fd, want, got := ev.fd, anfds[ev.fd].events, ev.got;
      assert Sound(fd);
      if !SameGen(anfds[fd].egen, ev.gen) {
        postfork := true;
        Framed(fd);
        return;
      }
      if Unwanted(got, want) {
        anfds[fd] := anfds[fd].(emask := Known(want));
        // the event's data is sent back unchanged: its count is the same 32 bits as egen
        var errno := EpollCtl(if want != NONE then MOD else DEL, fd, want, anfds[fd].egen, false);
        if errno != OK {
          postfork := true;
          Framed(fd);
          return;
        }
      }
      fed := fed + [(fd, got)];
      Framed(fd);
    }

    /** The loop of epoll_poll: every event is delivered or makes the backend rebuild its epoll fd, and the
        kernel's table is repaired for the fds whose events show that it is out of date. */
    method HandleEvents(events: seq<Event>)
      requires Valid() && forall i :: 0 <= i < |events| ==> events[i].fd < anfds.Length
      modifies this`kernel, this`postfork, this`fed, anfds
      ensures Valid()
      ensures forall x :: 0 <= x < anfds.Length ==> anfds[x] == old(anfds[x]).(emask := anfds[x].emask)
      ensures fed == old(fed) + Delivered(events, |events|, old(kernel), files, old(anfds[..]))
      ensures TableAfter(events, |events|, old(kernel), kernel, files, old(anfds[..]))
      ensures postfork <==> old(postfork) || SomeDropped(events, |events|, old(kernel), files, old(anfds[..]))
    {
      ghost var a, before := anfds[..], kernel;
      for i := 0 to |events|
        invariant Valid() && |a| == anfds.Length
        invariant forall x :: 0 <= x < anfds.Length ==> anfds[x] == a[x].(emask := anfds[x].emask)
        invariant BatchSoFar(events, i, before, kernel, files, a, old(fed), fed, old(postfork), postfork)
      {
        hide BatchSoFar, FdSound;
        ghost var kernel0, fed0, postfork0 := kernel, fed, postfork;
        HandleEvent(events[i]);
        assert Handled(events[i], Key(events[i].fd, files[events[i].fd]), a[events[i].fd],
                       kernel0, kernel, fed0, fed, postfork0, postfork);
        BatchStep(events, i, before, kernel0, kernel, files, a, old(fed), fed0, fed, old(postfork), postfork0, postfork);
      }
    }

    /** While the current file is registered, an event of a file that left the fd number is recognized
        by its generation, unless 2^32 registrations lie in between. */
    lemma StaleIsDropped(key: Key)
      requires Valid() && key in kernel && key.file != files[key.fd] && Key(key.fd, files[key.fd]) in kernel
      requires anfds[key.fd].egen - kernel[key].gen < WORD
      ensures !SameGen(anfds[key.fd].egen, kernel[key].gen)
    {
      assert Sound(key.fd);
    }

    /** As long as an fd is armed the kernel reports exactly what libev wants from its current file, and
        the events it reports are recognized as current. */
    lemma ArmedIsExact(fd: nat)
      requires Valid() && fd < anfds.Length && fd in armed
      ensures var key := Key(fd, files[fd]);
              key in kernel && kernel[key] == Entry(anfds[fd].events, anfds[fd].egen)
    {
      assert Sound(fd);
    }
  }
}
