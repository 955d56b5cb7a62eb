/** Interest in file descriptors: linked lists of watchers per fd, the events last given to the
    backend, and the lazy list of fds whose lists have changed since. */
module FdInterest {
  import opened Masks
  import opened PollBackend

  /** An ev_io; `fdset` is the EV__IOFDSET bit that ev_io_set leaves in its events. */
  class Io {
    var fd: nat
    var events: Mask
    var fdset: bool
    var active: nat
    var next: Io?

    /** ev_io_set on an inactive watcher. */
    constructor (fd: nat, events: Mask)
      ensures this.fd == fd && this.events == events && fdset && active == 0 && next == null
    {
      this.fd, this.events, fdset, active, next := fd, events, true, 0, null;
    }
  }

  /** The reify flags: EV_ANFD_REIFY and EV__IOFDSET. */
  datatype Flags = Flags(anfd: bool, fdset: bool)

  const CLEAN := Flags(false, false)

  datatype Anfd = Anfd(head: Io?, events: Mask, reify: Flags)

  /** Element i of a list, null behind its end. */
  function Nth(l: seq<Io>, i: nat): Io?
  {
    if i < |l| then l[i] else null
  }

  /** Node i of the list of fd. */
  ghost predicate Node(l: seq<Io>, i: nat, fd: nat, ios: set<Io>)
    requires i < |l|
    reads ios`next, ios`fd, ios`active
  {
    l[i] in ios && l[i].next == Nth(l, i + 1) && l[i].fd == fd && l[i].active == 1
  }

  /** l is the list of active watchers of fd that starts at head. */
  ghost predicate Linked(head: Io?, l: seq<Io>, fd: nat, ios: set<Io>)
    reads ios`next, ios`fd, ios`active
  {
    && head == Nth(l, 0)
    && (forall i {:trigger Node(l, i, fd, ios)} :: 0 <= i < |l| ==> Node(l, i, fd, ios))
    && (forall i, j :: 0 <= i < j < |l| ==> l[i] != l[j])
  }

  /** The union of the masks of a list. */
  ghost function Wanted(l: seq<Io>, ios: set<Io>): Mask
    reads ios`events
  {
    if l == [] then NONE
    else Or(Wanted(l[..|l| - 1], ios), if l[|l| - 1] in ios then l[|l| - 1].events else NONE)
  }

  /** The union has a bit iff some watcher of the list wants it. */
  lemma {:induction false} WantedIsUnion(l: seq<Io>, ios: set<Io>)
    ensures Wanted(l, ios).read <==> exists w :: w in l && w in ios && w.events.read
    ensures Wanted(l, ios).write <==> exists w :: w in l && w in ios && w.events.write
  {
    if l == [] {
    } else {
      var init, last := l[..|l| - 1], l[|l| - 1];
      WantedIsUnion(init, ios);
      assert l == init + [last];
    }
  }

  /** What is asked of the pending queues: to clear a watcher, or to feed it events, maybe with EV_ERROR. */
  datatype QueueCall = Clear(w: Io) | Feed(w: Io, events: Mask, error: bool)

  /** Whom an event of the fd is for: every watcher of the list that wants some of it, with that part. */
  ghost function Matching(l: seq<Io>, revents: Mask, ios: set<Io>): seq<QueueCall>
    reads ios`events
  {
    if l == [] then []
    else
      var init, w := Matching(l[..|l| - 1], revents, ios), l[|l| - 1];
      if w in ios && And(w.events, revents) != NONE then init + [Feed(w, And(w.events, revents), false)] else init
  }

  /** A watcher is fed iff it is on the list and wants some of the event, and then with just that part. */
  lemma {:induction false} MatchingExactly(l: seq<Io>, revents: Mask, ios: set<Io>, w: Io, ev: Mask)
    ensures Feed(w, ev, false) in Matching(l, revents, ios) <==>
              && w in l && w in ios && (ev.read || ev.write)
              && (ev.read <==> w.events.read && revents.read) && (ev.write <==> w.events.write && revents.write)
    ensures forall c :: c in Matching(l, revents, ios) ==> c.Feed? && !c.error
  {
    if l == [] {
    } else {
      var init, last := l[..|l| - 1], l[|l| - 1];
      MatchingExactly(init, revents, ios, w, ev);
      assert l == init + [last];
      assert ev == Mask(ev.read, ev.write);
    }
  }

  /** Distinct watchers are fed once each, in the order of the list. */
  lemma {:induction false} MatchingInOrder(l: seq<Io>, revents: Mask, ios: set<Io>, i: nat, j: nat)
    requires forall x, y :: 0 <= x < y < |l| ==> l[x] != l[y]
    requires i < j < |Matching(l, revents, ios)|
    ensures exists x, y :: 0 <= x < y < |l| && l[x] == Matching(l, revents, ios)[i].w && l[y] == Matching(l, revents, ios)[j].w
  {
    var last := |l| - 1;
    var m, init := Matching(l, revents, ios), Matching(l[..last], revents, ios);
    if j < |init| {
      MatchingInOrder(l[..last], revents, ios, i, j);
      var x, y :| 0 <= x < y < last && l[..last][x] == init[i].w && l[..last][y] == init[j].w;
      assert l[x] == m[i].w && l[y] == m[j].w;
    } else {
      MatchingAreListed(l[..last], revents, ios, i);
      var x :| 0 <= x < last && l[..last][x] == init[i].w;
      assert l[x] == m[i].w && l[last] == m[j].w;
    }
  }

  lemma {:induction false} MatchingAreListed(l: seq<Io>, revents: Mask, ios: set<Io>, i: nat)
    requires i < |Matching(l, revents, ios)|
    ensures exists x :: 0 <= x < |l| && l[x] == Matching(l, revents, ios)[i].w
  {
    var last := |l| - 1;
    var m, init := Matching(l, revents, ios), Matching(l[..last], revents, ios);
    if i < |init| {
      MatchingAreListed(l[..last], revents, ios, i);
      var x :| 0 <= x < last && l[..last][x] == init[i].w;
      assert l[x] == m[i].w;
    } else {
      assert l[last] == m[i].w;
    }
  }

  /** The watchers of a killed fd are stopped and told so, one after the other. */
  ghost function Killing(l: seq<Io>): seq<QueueCall>
  {
    if l == [] then []
    else Killing(l[..|l| - 1]) + [Clear(l[|l| - 1]), Feed(l[|l| - 1], Mask(true, true), true)]
  }

  lemma {:induction false} KillingExactly(l: seq<Io>, i: nat)
    requires i < |l|
    ensures |Killing(l)| == 2 * |l|
    ensures Killing(l)[2 * i] == Clear(l[i]) && Killing(l)[2 * i + 1] == Feed(l[i], Mask(true, true), true)
  {
    var last := |l| - 1;
    if last == 0 {
      assert Killing(l[..last]) == [];
    } else {
      KillingExactly(l[..last], if i < last then i else 0);
    }
  }

  /** What a report comes to, for an fd with this entry and list. */
  ghost function Delivery(report: Report, anfd: Anfd, l: seq<Io>, ios: set<Io>): seq<QueueCall>
    reads ios`events
  {
    match report
    case Kill(_) => Killing(l)
    case Event(_, revents) => if anfd.reify == CLEAN then Matching(l, revents, ios) else []
  }

  ghost function Delivered(reports: seq<Report>, anfds: seq<Anfd>, lists: seq<seq<Io>>, ios: set<Io>): seq<QueueCall>
    requires forall i :: 0 <= i < |reports| ==> reports[i].fd < |anfds| && reports[i].fd < |lists|
    reads ios`events
  {
    if reports == [] then []
    else
      var r := reports[|reports| - 1];
      Delivered(reports[..|reports| - 1], anfds, lists, ios) + Delivery(r, anfds[r.fd], lists[r.fd], ios)
  }

  /** Every flagged fd is on the list, exactly once, and no other. */
  predicate ChangesListed(changes: seq<nat>, anfds: seq<Anfd>)
  {
    && (forall i, j :: 0 <= i < j < |changes| ==> changes[i] != changes[j])
    && (forall i :: 0 <= i < |changes| ==> changes[i] < |anfds|)
    && (forall fd :: 0 <= fd < |anfds| ==> (anfds[fd].reify != CLEAN <==> fd in changes))
  }

  lemma HeadsDoNotMatter(changes: seq<nat>, anfds: seq<Anfd>, anfds': seq<Anfd>)
    requires ChangesListed(changes, anfds) && |anfds'| == |anfds|
    requires forall fd :: 0 <= fd < |anfds| ==> anfds'[fd].reify == anfds[fd].reify
    ensures ChangesListed(changes, anfds')
  {
  }

  /** A list without its element k. */
  lemma Without(l: seq<Io>, k: nat)
    requires k < |l| && forall i, j :: 0 <= i < j < |l| ==> l[i] != l[j]
    ensures var r := l[..k] + l[k + 1..];
            && (forall j :: 0 <= j < |r| ==> r[j] == if j < k then l[j] else l[j + 1])
            && (forall i, j :: 0 <= i < j < |r| ==> r[i] != r[j])
            && (forall w :: w in l && w != l[k] ==> w in r)
  {
    var r := l[..k] + l[k + 1..];
    forall w | w in l && w != l[k]
      ensures w in r
    {
      var j :| 0 <= j < |l| && l[j] == w;
      assert r[if j < k then j else j - 1] == w;
    }
  }

  class FdLoop {
    var anfds: seq<Anfd>
    var fdchanges: seq<nat>
    const backend: Poll
    ghost const ios: set<Io>
    /** What has been asked of the pending queues so far. */
    var queued: seq<QueueCall>
    /** The watcher list of every fd. */
    ghost var lists: seq<seq<Io>>

    /** The lists are well linked and hold exactly the active watchers. */
    ghost predicate Shape()
      reads this`anfds, this`lists, ios`next, ios`fd, ios`active
    {
      && |lists| == |anfds|
      && (forall fd :: 0 <= fd < |anfds| ==> Linked(anfds[fd].head, lists[fd], fd, ios))
      && (forall w :: w in ios && w.active > 0 ==> w.active == 1 && w.fd < |anfds| && w in lists[w.fd])
    }

    /** An fd that is not flagged has the union of its watchers' events. */
    ghost predicate Settled(anfd: Anfd, l: seq<Io>)
      reads ios`events
    {
      anfd.reify == CLEAN ==> anfd.events == Wanted(l, ios)
    }

    ghost predicate AllSettled(a: seq<Anfd>, l: seq<seq<Io>>)
      reads ios`events
    {
      |l| == |a| && forall fd :: 0 <= fd < |a| ==> Settled(a[fd], l[fd])
    }

    /** The backend has what the entries say, flagged or not. */
    ghost predicate BackendHas(a: seq<Anfd>)
      reads backend
    {
      backend.Valid() && forall fd: nat :: backend.Registered(fd) == if fd < |a| then a[fd].events else NONE
    }

    ghost predicate Valid()
      reads this, ios, backend
    {
      Shape() && BackendHas(anfds) && ChangesListed(fdchanges, anfds) && AllSettled(anfds, lists)
    }

    constructor (ghost ios: set<Io>)
      requires forall w :: w in ios ==> w.active == 0
      ensures Valid() && this.ios == ios && anfds == [] && queued == [] && fresh(backend)
    {
      backend := new Poll();
      anfds, fdchanges, this.ios, lists, queued := [], [], ios, [], [];
    }

    lemma SameSize()
      requires Shape()
      ensures |lists| == |anfds|
      ensures forall w :: w in ios && w.active > 0 ==> w.active == 1 && w.fd < |anfds| && w in lists[w.fd]
    {
    }

    /** The lists hold exactly the active watchers, by fd. */
    lemma WatchersOf(fd: nat)
      requires Shape()
      ensures fd < |lists| ==> forall w :: w in lists[fd] && w in ios <==> w in ios && w.active > 0 && w.fd == fd
      ensures fd >= |lists| ==> forall w :: w in ios && w.active > 0 ==> w.fd != fd
    {
      if fd < |lists| {
        forall w | w in lists[fd] && w in ios
          ensures w.active > 0 && w.fd == fd
        {
          var i :| 0 <= i < |lists[fd]| && lists[fd][i] == w;
          assert Node(lists[fd], i, fd, ios);
        }
      }
    }

    /** fd_change: flag the fd and queue it unless it is queued already. */
    method FdChange(fd: nat, flags: Flags)
      requires Shape() && fd < |anfds| && ChangesListed(fdchanges, anfds) && flags != CLEAN
      modifies this`anfds, this`fdchanges
      ensures Shape() && ChangesListed(fdchanges, anfds) && fd in fdchanges
      ensures var r := old(anfds)[fd].reify;
              anfds == old(anfds)[fd := old(anfds)[fd].(reify := Flags(r.anfd || flags.anfd, r.fdset || flags.fdset))]
    {
      var reify := anfds[fd].reify;
      anfds := anfds[fd := anfds[fd].(reify := Flags(reify.anfd || flags.anfd, reify.fdset || flags.fdset))];
      if reify == CLEAN {
        fdchanges := fdchanges + [fd];
      }
    }

    /** array_needsize for anfds: new entries are zero. */
    method NeedSize(count: nat)
      requires Valid()
      modifies this`anfds, this`lists
      ensures Valid() && |anfds| >= count && |anfds| >= |old(anfds)| && lists[..|old(lists)|] == old(lists)
      ensures forall x :: |old(lists)| <= x < |lists| ==> lists[x] == []
    {
      var more := if count <= |anfds| then 0 else count - |anfds|;
      ghost var a, l := anfds, lists;
      anfds := anfds + seq(more, _ => Anfd(null, NONE, CLEAN));
      lists := lists + seq(more, _ => []);
      forall x | 0 <= x < |anfds|
        ensures Settled(anfds[x], lists[x]) && Linked(anfds[x].head, lists[x], x, ios)
      {
        if x < |a| {
          assert anfds[x] == a[x] && lists[x] == l[x];
        } else {
          assert anfds[x] == Anfd(null, NONE, CLEAN) && lists[x] == [];
        }
      }
    }

    /** wlist_add: the new watcher becomes the head. */
    method WlistAdd(fd: nat, w: Io)
      requires Shape() && w in ios && w.active == 0 && w.fd == fd < |anfds|
      modifies this`anfds, this`lists, w`next, w`active
      ensures Shape() && w.active == 1
      ensures lists == old(lists)[fd := [w] + old(lists)[fd]]
      ensures anfds == old(anfds)[fd := old(anfds)[fd].(head := w)]
    {
      ghost var l := lists[fd];
      forall i | 0 <= i < |l|
        ensures l[i] != w
      {
        assert Node(l, i, fd, ios);
      }
      w.active := 1;
      w.next := anfds[fd].head;
      anfds := anfds[fd := anfds[fd].(head := w)];
      lists := lists[fd := [w] + l];
      forall x | 0 <= x < |anfds| && x != fd
        ensures Linked(anfds[x].head, lists[x], x, ios)
      {
        forall i | 0 <= i < |lists[x]|
          ensures Node(lists[x], i, x, ios)
        {
          assert old(Node(lists[x], i, x, ios));
        }
      }
      forall i | 0 <= i < |l| + 1
        ensures Node(lists[fd], i, fd, ios)
      {
        if i > 0 {
          assert old(Node(lists[fd], i - 1, fd, ios)) && l[i - 1] != w;
        }
      }
      forall v | v in ios && v.active > 0
        ensures v.active == 1 && v.fd < |anfds| && v in lists[v.fd]
      {
        if v == w {
          assert lists[fd][0] == w;
        } else if v.fd == fd {
          var k :| 0 <= k < |l| && l[k] == v;
          assert lists[fd][k + 1] == v;
        }
      }
    }

    /** The walk of wlist_del: the watcher in front of w, null if w is the head. */
    method FindPrev(fd: nat, w: Io, ghost k: nat) returns (prev: Io?)
      requires Shape() && fd < |anfds| && k < |lists[fd]| && lists[fd][k] == w
      ensures prev == (if k == 0 then null else lists[fd][k - 1]) && (k > 0 ==> lists[fd][k - 1] in ios)
    {
      ghost var l := lists[fd];
      prev := null;
      var it := anfds[fd].head;
      ghost var i := 0;
      while it != w
        invariant i <= k && it == Nth(l, i) && prev == (if i == 0 then null else l[i - 1])
        invariant i > 0 ==> l[i - 1] in ios
        decreases k - i
      {
        assert Node(l, i, fd, ios);
        prev := it;
        it := it.next;
        i := i + 1;
      }
      assert i == k;
    }

    /** Let whatever pointed to w point behind it. */
    method Unlink(fd: nat, w: Io, prev: Io?, ghost l: seq<Io>)
      requires fd < |anfds| == |lists| && w in ios && (prev != null ==> prev in ios)
      modifies this`anfds, this`lists, ios`next, w`active
      ensures w.active == 0 && lists == old(lists)[fd := l]
      ensures anfds == if prev == null then old(anfds)[fd := old(anfds)[fd].(head := old(w.next))] else old(anfds)
      ensures prev != null ==> prev.next == old(w.next)
      ensures forall v :: v in ios && v != prev ==> v.next == old(v.next)
    {
      w.active := 0;
      if prev == null {
        anfds := anfds[fd := anfds[fd].(head := w.next)];
      } else {
        prev.next := w.next;
      }
      lists := lists[fd := l];
    }

    /** wlist_del: walk to the watcher and unlink it. */
    method WlistDel(fd: nat, w: Io, ghost k: nat)
      requires Shape() && w in ios && fd < |anfds| && k < |lists[fd]| && lists[fd][k] == w
      modifies this`anfds, this`lists, ios`next, w`active
      ensures Shape() && w.active == 0
      ensures lists == old(lists)[fd := old(lists)[fd][..k] + old(lists)[fd][k + 1..]]
      ensures |anfds| == |old(anfds)|
      ensures forall x :: 0 <= x < |anfds| ==> anfds[x] == old(anfds)[x].(head := anfds[x].head)
      ensures forall x :: 0 <= x < |anfds| && x != fd ==> anfds[x] == old(anfds)[x]
    {
      ghost var l := lists[fd];
      assert Node(l, k, fd, ios);
      var prev := FindPrev(fd, w, k);
      Without(l, k);
      if k > 0 {
        assert Node(l, k - 1, fd, ios);
      }
      Unlink(fd, w, prev, l[..k] + l[k + 1..]);
      OthersStayLinked(fd);
      assert Linked(anfds[fd].head, lists[fd], fd, ios) by {
        forall j | 0 <= j < |lists[fd]|
          ensures Node(lists[fd], j, fd, ios)
        {
          assert old(Node(lists[fd], if j < k then j else j + 1, fd, ios));
        }
      }
    }

    /** Changes to watchers of one fd leave the lists of the others alone. */
    twostate lemma OthersStayLinked(fd: nat)
      requires old(Shape()) && |anfds| == |old(anfds)| && |lists| == |anfds|
      requires forall x :: 0 <= x < |anfds| && x != fd ==> anfds[x].head == old(anfds)[x].head && lists[x] == old(lists)[x]
      requires forall v :: v in ios ==> v.fd == old(v.fd)
      requires forall v :: v in ios && v.fd != fd ==> v.next == old(v.next) && v.active == old(v.active)
      ensures forall x :: 0 <= x < |anfds| && x != fd ==> Linked(anfds[x].head, lists[x], x, ios)
    {
      forall x | 0 <= x < |anfds| && x != fd
        ensures Linked(anfds[x].head, lists[x], x, ios)
      {
        forall j | 0 <= j < |lists[x]|
          ensures Node(lists[x], j, x, ios)
        {
          assert old(Node(lists[x], j, x, ios));
        }
      }
    }

    /** ev_io_start. */
    method IoStart(w: Io)
      requires Valid() && w in ios
      modifies this`anfds, this`fdchanges, this`lists, w`next, w`active, w`fdset
      ensures Valid() && w.active == 1
      ensures old(w.active) > 0 ==> lists == old(lists) && anfds == old(anfds) && fdchanges == old(fdchanges)
      ensures old(w.active) == 0 ==>
                && w.fd < |lists| && !w.fdset && anfds[w.fd].reify.anfd && w.fd in fdchanges
                && lists[w.fd] == [w] + (if w.fd < |old(lists)| then old(lists)[w.fd] else [])
                && forall x :: 0 <= x < |lists| && x != w.fd ==> lists[x] == if x < |old(lists)| then old(lists)[x] else []
    {
      if w.active > 0 {
        return;
      }
      NeedSize(w.fd + 1);
      Activate(w);
    }

    /** The part of ev_io_start after the ANFD array is large enough. */
    method Activate(w: Io)
      requires Valid() && w in ios && w.active == 0 && w.fd < |anfds|
      modifies this`anfds, this`fdchanges, this`lists, w`next, w`active, w`fdset
      ensures Valid() && w.active == 1 && !w.fdset && w.fd < |lists| && anfds[w.fd].reify.anfd && w.fd in fdchanges
      ensures lists == old(lists)[w.fd := [w] + old(lists)[w.fd]]
    {
      hide ChangesListed, Shape, BackendHas, AllSettled;
      ghost var a, l := anfds, lists;
      SameSize();
      WlistAdd(w.fd, w);
      HeadsDoNotMatter(fdchanges, a, anfds);
      FdChange(w.fd, Flags(true, w.fdset));
      w.fdset := false;
      FlaggedIsFine(a, l, w.fd);
    }

    /** While an fd is flagged its list may be anything. */
    lemma FlaggedIsFine(a: seq<Anfd>, l: seq<seq<Io>>, fd: nat)
      requires AllSettled(a, l) && BackendHas(a) && fd < |a| == |anfds| && |lists| == |l|
      requires anfds[fd].reify != CLEAN && anfds[fd].events == a[fd].events
      requires forall x :: 0 <= x < |a| && x != fd ==> anfds[x] == a[x] && lists[x] == l[x]
      ensures AllSettled(anfds, lists) && BackendHas(anfds)
    {
    }

    /** ev_io_stop. */
    method IoStop(w: Io)
      requires Valid() && w in ios
      modifies this`anfds, this`fdchanges, this`lists, this`queued, ios`next, w`active
      ensures Valid() && w.active == 0 && queued == old(queued) + [Clear(w)]
      ensures old(w.active) == 0 ==> lists == old(lists) && anfds == old(anfds) && fdchanges == old(fdchanges)
      ensures old(w.active) > 0 ==>
                && w.fd < |lists| == |old(lists)| && anfds[w.fd].reify.anfd && w.fd in fdchanges
                && (forall x :: 0 <= x < |anfds| && x != w.fd ==> anfds[x] == old(anfds)[x])
                && (exists k :: 0 <= k < |old(lists)[w.fd]| && old(lists)[w.fd][k] == w
                                && lists == old(lists)[w.fd := old(lists)[w.fd][..k] + old(lists)[w.fd][k + 1..]])
    {
      queued := queued + [Clear(w)];
      if w.active > 0 {
        Deactivate(w);
      }
    }

    /** The part of ev_io_stop for an active watcher. */
    method Deactivate(w: Io)
      requires Valid() && w in ios && w.active > 0
      modifies this`anfds, this`fdchanges, this`lists, ios`next, w`active
      ensures Valid() && w.active == 0
      ensures w.fd < |lists| == |old(lists)| && anfds[w.fd].reify.anfd && w.fd in fdchanges
      ensures exists k :: 0 <= k < |old(lists)[w.fd]| && old(lists)[w.fd][k] == w
                          && lists == old(lists)[w.fd := old(lists)[w.fd][..k] + old(lists)[w.fd][k + 1..]]
      ensures forall x :: 0 <= x < |anfds| && x != w.fd ==> anfds[x] == old(anfds)[x]
    {
      ghost var k :| 0 <= k < |lists[w.fd]| && lists[w.fd][k] == w;
      hide ChangesListed, Shape, BackendHas, AllSettled;
      ghost var a, l := anfds, lists;
      SameSize();
      WlistDel(w.fd, w, k);
      HeadsDoNotMatter(fdchanges, a, anfds);
      FdChange(w.fd, Flags(true, false));
      FlaggedIsFine(a, l, w.fd);
    }

    /** The loop of fd_reify over one list. */
    method Collect(fd: nat) returns (events: Mask)
      requires Shape() && fd < |anfds|
      ensures events == Wanted(lists[fd], ios)
      ensures events.read <==> exists w :: w in ios && w.active > 0 && w.fd == fd && w.events.read
      ensures events.write <==> exists w :: w in ios && w.active > 0 && w.fd == fd && w.events.write
    {
      events := NONE;
      var w := anfds[fd].head;
      ghost var l, i := lists[fd], 0;
      while w != null
        invariant i <= |l| && w == Nth(l, i) && events == Wanted(l[..i], ios)
        decreases |l| - i
      {
        assert Node(l, i, fd, ios);
        assert l[..i + 1][..i] == l[..i];
        events := Or(events, w.events);
        w := w.next;
        i := i + 1;
      }
      assert l[..|l|] == l;
      WantedIsUnion(l, ios);
      WatchersOf(fd);
    }

    /** fd_event: while the fd is flagged its events are held back, since its list has changed. */
    method FdEvent(fd: nat, revents: Mask)
      requires Valid() && fd < |anfds|
      modifies this`queued
      ensures Valid()
      ensures queued == old(queued) + if anfds[fd].reify == CLEAN then Matching(lists[fd], revents, ios) else []
    {
      if anfds[fd].reify == CLEAN {
        FdEventNocheck(fd, revents);
      }
    }

    method FdEventNocheck(fd: nat, revents: Mask)
      requires Shape() && fd < |anfds|
      modifies this`queued
      ensures queued == old(queued) + Matching(lists[fd], revents, ios)
    {
      var w := anfds[fd].head;
      ghost var l, i := lists[fd], 0;
      while w != null
        invariant i <= |l| && w == Nth(l, i) && queued == old(queued) + Matching(l[..i], revents, ios)
        decreases |l| - i
      {
        assert Node(l, i, fd, ios);
        assert l[..i + 1][..i] == l[..i];
        var ev := And(w.events, revents);
        if ev != NONE {
          queued := queued + [Feed(w, ev, false)];
        }
        w := w.next;
        i := i + 1;
      }
      assert l[..|l|] == l;
    }

    /** fd_kill: stop the head of the list and tell it, until the list is empty. */
    method FdKill(fd: nat)
      requires Valid() && fd < |anfds|
      modifies this`anfds, this`fdchanges, this`lists, this`queued, ios`next, ios`active
      ensures Valid() && |lists| == |old(lists)| && lists == old(lists)[fd := []]
      ensures forall x :: 0 <= x < |anfds| && x != fd ==> anfds[x] == old(anfds)[x]
      ensures queued == old(queued) + Killing(old(lists)[fd])
    {
      ghost var l, done := lists[fd], 0;
      assert l[0..] == l;
      while anfds[fd].head != null
        invariant Valid() && |lists| == |old(lists)| && done <= |l| && lists == old(lists)[fd := l[done..]]
        invariant forall x :: 0 <= x < |anfds| && x != fd ==> anfds[x] == old(anfds)[x]
        invariant queued == old(queued) + Killing(l[..done])
        decreases |l| - done
      {
        hide Killing;
        HeadIsFirst(fd);
        KillHead(fd);
        KillingStep(old(queued), l, done);
        done := done + 1;
      }
      HeadIsFirst(fd);
      assert l[..done] == l;
    }

    /** One round of fd_kill. */
    method KillHead(fd: nat)
      requires Valid() && fd < |anfds| && lists[fd] != [] && anfds[fd].head != null
      modifies this`anfds, this`fdchanges, this`lists, this`queued, ios`next, ios`active
      ensures Valid() && |lists| == |old(lists)| && lists == old(lists)[fd := old(lists)[fd][1..]]
      ensures forall x :: 0 <= x < |anfds| && x != fd ==> anfds[x] == old(anfds)[x]
      ensures queued == old(queued) + [Clear(old(lists)[fd][0]), Feed(old(lists)[fd][0], Mask(true, true), true)]
    {
      var w := anfds[fd].head;
      ghost var l := lists[fd];
      HeadIsFirst(fd);
      hide Valid;
      IoStop(w);
      assert l[..0] + l[1..] == l[1..];
      queued := queued + [Feed(w, Mask(true, true), true)];
    }

    lemma HeadIsFirst(fd: nat)
      requires Valid() && fd < |anfds|
      ensures anfds[fd].head == null ==> lists[fd] == []
      ensures anfds[fd].head != null ==>
                && lists[fd] != [] && lists[fd][0] == anfds[fd].head && anfds[fd].head in ios
                && anfds[fd].head.active > 0 && anfds[fd].head.fd == fd
                && forall k :: 0 < k < |lists[fd]| ==> lists[fd][k] != anfds[fd].head
    {
      if lists[fd] != [] {
        assert Node(lists[fd], 0, fd, ios);
      }
    }

    /** One result of poll_poll. */
    method DeliverOne(report: Report)
      requires Valid() && report.fd < |anfds|
      modifies this`anfds, this`fdchanges, this`lists, this`queued, ios`next, ios`active
      ensures Valid() && |anfds| == |lists| == |old(lists)|
      ensures forall x :: 0 <= x < |anfds| && x != report.fd ==> anfds[x] == old(anfds)[x]
      ensures lists == if report.Kill? then old(lists)[report.fd := []] else old(lists)
      ensures queued == old(queued) + Delivery(report, old(anfds)[report.fd], old(lists)[report.fd], ios)
    {
      hide Killing, Matching;
      match report {
        case Kill(fd) => FdKill(fd);
        case Event(fd, revents) => FdEvent(fd, revents);
      }
    }

    /** One round of its loop. */
    method DeliverNext(reports: seq<Report>, i: nat, ghost a0: seq<Anfd>, ghost l0: seq<seq<Io>>,
                       ghost before: seq<QueueCall>)
      requires Valid() && HalfDelivered(reports, i, a0, l0, anfds, lists) && i < |reports|
      requires forall k :: 0 <= k < |reports| ==> reports[k].fd < |a0| && reports[k].fd < |l0|
      requires forall j, k :: 0 <= j < k < |reports| ==> reports[j].fd != reports[k].fd
      requires queued == before + Delivered(reports[..i], a0, l0, ios)
      modifies this`anfds, this`fdchanges, this`lists, this`queued, ios`next, ios`active
      ensures Valid() && HalfDelivered(reports, i + 1, a0, l0, anfds, lists)
      ensures queued == before + Delivered(reports[..i + 1], a0, l0, ios)
    {
      hide Valid, Delivery, Delivered, HalfDelivered;
      InRange(reports, i, a0, l0, anfds, lists);
      DeliveredStep(before, reports, i, a0, l0);
      ghost var a, l := anfds, lists;
      DeliverOne(reports[i]);
      HalfDeliveredStep(reports, i, a0, l0, a, l, anfds, lists);
    }

    /** What poll_poll does with the results the backend has found. */
    method Deliver(reports: seq<Report>)
      requires Valid() && forall i :: 0 <= i < |reports| ==> reports[i].fd < |anfds|
      requires forall i, j :: 0 <= i < j < |reports| ==> reports[i].fd != reports[j].fd
      modifies this`anfds, this`fdchanges, this`lists, this`queued, ios`next, ios`active
      ensures Valid() && |lists| == |old(lists)|
      ensures queued == old(queued) + Delivered(reports, old(anfds), old(lists), ios)
      ensures forall fd :: 0 <= fd < |lists| ==> lists[fd] == if Kill(fd) in reports then [] else old(lists)[fd]
    {
      SameSize();
      hide Valid, Delivery, Delivered, HalfDelivered;
      ghost var a0, l0 := anfds, lists;
      NothingDelivered(reports, a0, l0);
      for i := 0 to |reports|
        invariant Valid() && HalfDelivered(reports, i, a0, l0, anfds, lists)
        invariant queued == old(queued) + Delivered(reports[..i], a0, l0, ios)
      {
        DeliverNext(reports, i, a0, l0, old(queued));
      }
      AllDelivered(reports, a0, l0, anfds, lists);
    }

    lemma NothingDelivered(reports: seq<Report>, a0: seq<Anfd>, l0: seq<seq<Io>>)
      requires |a0| == |l0| && forall k :: 0 <= k < |reports| ==> reports[k].fd < |a0|
      ensures Delivered(reports[..0], a0, l0, ios) == [] && HalfDelivered(reports, 0, a0, l0, a0, l0)
    {
      assert reports[..0] == [];
    }

    lemma DeliveredStep(before: seq<QueueCall>, reports: seq<Report>, i: nat, a0: seq<Anfd>, l0: seq<seq<Io>>)
      requires forall k :: 0 <= k < |reports| ==> reports[k].fd < |a0| && reports[k].fd < |l0|
      requires i < |reports|
      ensures before + Delivered(reports[..i + 1], a0, l0, ios)
              == before + Delivered(reports[..i], a0, l0, ios)
                 + Delivery(reports[i], a0[reports[i].fd], l0[reports[i].fd], ios)
    {
      hide Delivery;
      assert reports[..i + 1][..i] == reports[..i];
    }

    /** poll_poll after poll returned res: every fd with a result is dealt with as its result says. */
    method PollPoll(res: nat)
      requires Valid() && res == Ready(backend.polls[..backend.pollcnt])
      modifies this`anfds, this`fdchanges, this`lists, this`queued, ios`next, ios`active
      ensures Valid() && |lists| == |old(lists)|
      ensures forall i :: 0 <= i < |Reported(backend.polls[..backend.pollcnt])| ==>
                Reported(backend.polls[..backend.pollcnt])[i].fd < |old(anfds)| == |lists|
      ensures var reports := Reported(backend.polls[..backend.pollcnt]);
              && queued == old(queued) + Delivered(reports, old(anfds), old(lists), ios)
              && forall fd :: 0 <= fd < |lists| ==> lists[fd] == if Kill(fd) in reports then [] else old(lists)[fd]
    {
      var reports := backend.Scan(res);
      ReportsKnown();
      Deliver(reports);
    }

    /** What the backend reports are different fds that anfds knows. */
    lemma ReportsKnown()
      requires Valid()
      ensures var reports := Reported(backend.polls[..backend.pollcnt]);
              && (forall i :: 0 <= i < |reports| ==> reports[i].fd < |anfds|)
              && (forall i, j :: 0 <= i < j < |reports| ==> reports[i].fd != reports[j].fd)
    {
      var reports := Reported(backend.polls[..backend.pollcnt]);
      ReportedExactly(backend.polls, backend.pollcnt, backend.pollidxs);
      forall i | 0 <= i < |reports|
        ensures reports[i].fd < |anfds|
      {
        var k :| 0 <= k < backend.pollcnt && reports[i] == ReportOf(backend.polls[k]);
        assert backend.Registered(reports[i].fd) != NONE;
      }
    }

    /** fd_reify: give the backend the events of every flagged fd. */
    method FdReify()
      requires Valid()
      modifies this`anfds, this`fdchanges, backend
      ensures Valid() && fdchanges == []
      ensures forall fd :: 0 <= fd < |anfds| ==>
                && anfds[fd].reify == CLEAN
                && anfds[fd].events == Wanted(lists[fd], ios) == backend.Registered(fd)
      // in terms of the watchers: an event is asked for iff an active watcher of the fd wants it
      ensures forall fd: nat ::
                (backend.Registered(fd).read <==> exists w :: w in ios && w.active > 0 && w.fd == fd && w.events.read)
                && (backend.Registered(fd).write <==> exists w :: w in ios && w.active > 0 && w.fd == fd && w.events.write)
    {
      var changecnt := |fdchanges|;
      for i := 0 to changecnt
        invariant changecnt == |fdchanges| && Shape() && BackendHas(anfds)
        invariant ChangesListed(fdchanges[i..], anfds) && AllSettled(anfds, lists)
      {
        ReifyOne(fdchanges[i], fdchanges[i..]);
        assert fdchanges[i..][1..] == fdchanges[i + 1..];
      }
      fdchanges := fdchanges[changecnt..];
      assert fdchanges == [];
      forall fd | 0 <= fd < |anfds|
        ensures anfds[fd].reify == CLEAN && anfds[fd].events == Wanted(lists[fd], ios) == backend.Registered(fd)
      {
        assert Settled(anfds[fd], lists[fd]);
      }
      forall fd: nat
        ensures backend.Registered(fd).read <==> exists w :: w in ios && w.active > 0 && w.fd == fd && w.events.read
        ensures backend.Registered(fd).write <==> exists w :: w in ios && w.active > 0 && w.fd == fd && w.events.write
      {
        WatchersOf(fd);
        if fd < |anfds| {
          WantedIsUnion(lists[fd], ios);
        }
      }
    }

    /** One round of fd_reify. */
    method ReifyOne(fd: nat, ghost rest: seq<nat>)
      requires Shape() && BackendHas(anfds) && ChangesListed(rest, anfds) && rest != [] && rest[0] == fd
      requires AllSettled(anfds, lists)
      modifies this`anfds, backend
      ensures Shape() && BackendHas(anfds) && ChangesListed(rest[1..], anfds) && AllSettled(anfds, lists)
    {
      hide Wanted, Linked, Asked, Inverse;
      var o_events, o_reify := anfds[fd].events, anfds[fd].reify;
      var events := Collect(fd);
      anfds := anfds[fd := anfds[fd].(reify := CLEAN, events := events)];
      if o_events != events || o_reify.fdset {
        backend.PollModify(fd, o_events, events);
      }
    }
  }

  lemma KillingStep(before: seq<QueueCall>, l: seq<Io>, i: nat)
    requires i < |l|
    ensures before + Killing(l[..i + 1])
            == before + Killing(l[..i]) + [Clear(l[i]), Feed(l[i], Mask(true, true), true)]
  {
    assert l[..i + 1][..i] == l[..i];
  }

  /** After the first i reports: killed fds have no watchers left, and those still to come are untouched. */
  ghost predicate HalfDelivered(reports: seq<Report>, i: nat, a0: seq<Anfd>, l0: seq<seq<Io>>,
                                a: seq<Anfd>, l: seq<seq<Io>>)
  {
    && i <= |reports| && |a| == |a0| == |l| == |l0|
    && (forall j :: i <= j < |reports| ==> var fd := reports[j].fd; fd < |a| && a[fd] == a0[fd] && l[fd] == l0[fd])
    && (forall fd :: 0 <= fd < |l| ==> l[fd] == if Kill(fd) in reports[..i] then [] else l0[fd])
  }

  lemma InRange(reports: seq<Report>, i: nat, a0: seq<Anfd>, l0: seq<seq<Io>>, a: seq<Anfd>, l: seq<seq<Io>>)
    requires HalfDelivered(reports, i, a0, l0, a, l) && i < |reports|
    ensures var fd := reports[i].fd; fd < |a| == |l| == |a0| == |l0| && a[fd] == a0[fd] && l[fd] == l0[fd]
  {
  }

  lemma HalfDeliveredStep(reports: seq<Report>, i: nat, a0: seq<Anfd>, l0: seq<seq<Io>>,
                          a: seq<Anfd>, l: seq<seq<Io>>, a': seq<Anfd>, l': seq<seq<Io>>)
    requires HalfDelivered(reports, i, a0, l0, a, l) && i < |reports| && |a'| == |a|
    requires forall j, k :: 0 <= j < k < |reports| ==> reports[j].fd != reports[k].fd
    requires forall x :: 0 <= x < |a| && x != reports[i].fd ==> a'[x] == a[x]
    requires l' == if reports[i].Kill? then l[reports[i].fd := []] else l
    ensures HalfDelivered(reports, i + 1, a0, l0, a', l')
  {
    assert reports[..i + 1] == reports[..i] + [reports[i]];
  }

  lemma AllDelivered(reports: seq<Report>, a0: seq<Anfd>, l0: seq<seq<Io>>, a: seq<Anfd>, l: seq<seq<Io>>)
    requires HalfDelivered(reports, |reports|, a0, l0, a, l)
    ensures |l| == |l0| && reports[..|reports|] == reports
    ensures forall fd :: 0 <= fd < |l| ==> l[fd] == if Kill(fd) in reports then [] else l0[fd]
  {
    assert reports[..|reports|] == reports;
  }
}
