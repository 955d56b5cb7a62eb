/** The timer heap: a 4-ary heap stored from index HEAP0 of an array of (cached time, watcher)
    entries, where every watcher knows its own index in its field `active`. */
module Heap {

  const DHEAP: nat := 4
  const HEAP0: nat := 3

  /** The part of a watcher the event loop maintains.  `active` is 0 for a stopped watcher
      and its heap index otherwise; `pending` is 0 or one more than its queue position;
      `priority` is already relative to EV_MINPRI and fixed while the watcher is in use. */
  class Watcher {
    var at: real
    var active: nat
    var pending: nat
    const priority: nat
    var repeat_: real
    var offset: real
    var interval: real

    constructor (priority: nat)
      ensures this.priority == priority && active == 0 && pending == 0
      ensures at == repeat_ == offset == interval == 0.0
    {
      this.priority := priority;
      at, active, pending, repeat_, offset, interval := 0.0, 0, 0, 0.0, 0.0, 0.0;
    }
  }

  datatype ANHE = ANHE(at: real, w: Watcher)

  /** C division truncates, so the root is its own parent. */
  function HParent(k: nat): (p: nat)
    requires k >= HEAP0
    ensures HEAP0 <= p <= k && (p == k <==> k == HEAP0)
  {
    if k == HEAP0 then HEAP0 else (k - HEAP0 - 1) / DHEAP + HEAP0
  }

  function FirstChild(k: nat): (c: nat)
    requires k >= HEAP0
    ensures c > k
  {
    DHEAP * (k - HEAP0) + HEAP0 + 1
  }

  /** The children of k are exactly the four entries from FirstChild(k) on. */
  lemma ChildrenHaveParent(i: nat, k: nat)
    requires i > HEAP0 && k >= HEAP0
    ensures HParent(i) == k <==> FirstChild(k) <= i < FirstChild(k) + DHEAP
  {
  }

  /** n entries starting at HEAP0 fit in h; an empty heap needs no array at all. */
  predicate Fits(h: seq<ANHE>, n: nat)
  {
    n > 0 ==> HEAP0 + n <= |h|
  }

  predicate InHeap(n: nat, k: nat)
  {
    HEAP0 <= k < HEAP0 + n
  }

  /** The heap condition ev_verify checks. */
  predicate HeapOrder(h: seq<ANHE>, n: nat)
    requires Fits(h, n)
  {
    forall i :: HEAP0 < i < HEAP0 + n ==> h[HParent(i)].at <= h[i].at
  }

  function Swap(h: seq<ANHE>, i: nat, j: nat): (r: seq<ANHE>)
    requires i < |h| && j < |h|
    ensures |r| == |h| && multiset(r) == multiset(h)
  {
    h[i := h[j]][j := h[i]]
  }

  // ---- Moving an entry towards the root ----

  function Up(h: seq<ANHE>, k: nat): (r: seq<ANHE>)
    requires HEAP0 <= k < |h|
    ensures |r| == |h| && multiset(r) == multiset(h)
    ensures forall i :: 0 <= i < |h| && (i < HEAP0 || i > k) ==> r[i] == h[i]
    decreases k
  {
    var p := HParent(k);
    if p == k || h[p].at <= h[k].at then h else Up(Swap(h, p, k), p)
  }

  /** Heap order except that entry k may be smaller than its parent. */
  predicate OrderExceptUp(h: seq<ANHE>, n: nat, k: nat)
    requires Fits(h, n) && InHeap(n, k)
  {
    && (forall i :: HEAP0 < i < HEAP0 + n && i != k ==> h[HParent(i)].at <= h[i].at)
    && (forall i :: HEAP0 < i < HEAP0 + n && HParent(i) == k ==> h[HParent(k)].at <= h[i].at)
  }

  /** Swapping entry k with its parent moves the possible disorder there. */
  lemma RiseStep(h: seq<ANHE>, n: nat, k: nat)
    requires Fits(h, n) && InHeap(n, k) && OrderExceptUp(h, n, k)
    requires HParent(k) != k && h[HParent(k)].at > h[k].at
    ensures OrderExceptUp(Swap(h, HParent(k), k), n, HParent(k))
  {
    var p := HParent(k);
    var s := Swap(h, p, k);
    assert s[k] == h[p] && s[p] == h[k];
    forall i | HEAP0 < i < HEAP0 + n && i != p
      ensures s[HParent(i)].at <= s[i].at
    {
      assert i != k ==> s[i] == h[i];
      assert HParent(i) != k && HParent(i) != p ==> s[HParent(i)] == h[HParent(i)];
    }
    forall i | HEAP0 < i < HEAP0 + n && HParent(i) == p
      ensures s[HParent(p)].at <= s[i].at
    {
      assert i != k && i != p ==> s[i] == h[i];
      assert p != HEAP0 ==> s[HParent(p)] == h[HParent(p)];
    }
  }

  lemma {:induction false} UpRestoresOrder(h: seq<ANHE>, n: nat, k: nat)
    requires Fits(h, n) && InHeap(n, k) && OrderExceptUp(h, n, k)
    ensures HeapOrder(Up(h, k), n)
    decreases k
  {
    var p := HParent(k);
    if p == k || h[p].at <= h[k].at {
    } else {
      RiseStep(h, n, k);
      UpRestoresOrder(Swap(h, p, k), n, p);
    }
  }

  /** Moving up the first entry behind a heap makes the heap one larger. */
  lemma UpExtendsOrder(h: seq<ANHE>, n: nat, i: nat)
    requires Fits(h, n) && i < n && HeapOrder(h, i)
    ensures var r := Up(h, i + HEAP0);
            HeapOrder(r, i + 1) && forall j :: 0 <= j < |h| && (j < HEAP0 || j >= HEAP0 + n) ==> r[j] == h[j]
  {
    hide HParent, Up;
    forall j | HEAP0 < j < HEAP0 + i + 1
      ensures HParent(j) < HEAP0 + i && (j != HEAP0 + i ==> h[HParent(j)].at <= h[j].at)
    {
    }
    UpRestoresOrder(h, i + 1, i + HEAP0);
  }

  // ---- Moving an entry away from the root ----

  /** The first of the smallest children of k. */
  function MinChild(h: seq<ANHE>, n: nat, k: nat): (m: nat)
    requires Fits(h, n) && k >= HEAP0 && FirstChild(k) < HEAP0 + n
    ensures FirstChild(k) <= m < FirstChild(k) + DHEAP && m < HEAP0 + n
    ensures forall j :: FirstChild(k) <= j < FirstChild(k) + DHEAP && j < HEAP0 + n ==>
              h[m].at <= h[j].at && (j < m ==> h[m].at < h[j].at)
  {
    var pos := FirstChild(k);
    var m1 := if pos + 1 < HEAP0 + n && h[pos].at > h[pos + 1].at then pos + 1 else pos;
    var m2 := if pos + 2 < HEAP0 + n && h[m1].at > h[pos + 2].at then pos + 2 else m1;
    if pos + 3 < HEAP0 + n && h[m2].at > h[pos + 3].at then pos + 3 else m2
  }

  function Down(h: seq<ANHE>, n: nat, k: nat): (r: seq<ANHE>)
    requires Fits(h, n) && InHeap(n, k)
    ensures |r| == |h| && multiset(r) == multiset(h)
    ensures forall i :: 0 <= i < |h| && (i < k || i >= HEAP0 + n) ==> r[i] == h[i]
    decreases HEAP0 + n - k
  {
    if FirstChild(k) >= HEAP0 + n then h
    else
      var m := MinChild(h, n, k);
      if h[k].at <= h[m].at then h else Down(Swap(h, m, k), n, m)
  }

  /** Heap order except that entry k may be larger than its children. */
  predicate OrderExceptDown(h: seq<ANHE>, n: nat, k: nat)
    requires Fits(h, n) && InHeap(n, k)
  {
    && (forall i :: HEAP0 < i < HEAP0 + n && HParent(i) != k ==> h[HParent(i)].at <= h[i].at)
    && (forall i :: HEAP0 < i < HEAP0 + n && HParent(i) == k ==> h[HParent(k)].at <= h[i].at || k == HEAP0)
  }

  lemma MinChildIsSmallest(h: seq<ANHE>, n: nat, k: nat)
    requires Fits(h, n) && k >= HEAP0 && FirstChild(k) < HEAP0 + n
    ensures var m := MinChild(h, n, k);
            HParent(m) == k && forall i :: HEAP0 < i < HEAP0 + n && HParent(i) == k ==> h[m].at <= h[i].at
  {
    var m := MinChild(h, n, k);
    ChildrenHaveParent(m, k);
    forall i | HEAP0 < i < HEAP0 + n && HParent(i) == k
      ensures h[m].at <= h[i].at
    {
      ChildrenHaveParent(i, k);
    }
  }

  /** Swapping entry k with its smallest child moves the possible disorder there. */
  lemma SinkStep(h: seq<ANHE>, n: nat, k: nat, m: nat)
    requires Fits(h, n) && InHeap(n, k) && OrderExceptDown(h, n, k)
    requires InHeap(n, m) && HParent(m) == k && m > HEAP0 && h[k].at > h[m].at
    requires forall i :: HEAP0 < i < HEAP0 + n && HParent(i) == k ==> h[m].at <= h[i].at
    ensures OrderExceptDown(Swap(h, m, k), n, m)
  {
    var s := Swap(h, m, k);
    assert s[k] == h[m] && s[m] == h[k];
    forall i | HEAP0 < i < HEAP0 + n && HParent(i) != m
      ensures s[HParent(i)].at <= s[i].at
    {
      assert i != m && i != k ==> s[i] == h[i];
      assert HParent(i) != k ==> s[HParent(i)] == h[HParent(i)];
    }
  }

  lemma {:induction false} DownRestoresOrder(h: seq<ANHE>, n: nat, k: nat)
    requires Fits(h, n) && InHeap(n, k) && OrderExceptDown(h, n, k)
    ensures HeapOrder(Down(h, n, k), n)
    decreases HEAP0 + n - k
  {
    if FirstChild(k) >= HEAP0 + n {
      forall i | HEAP0 < i < HEAP0 + n
        ensures h[HParent(i)].at <= h[i].at
      {
        ChildrenHaveParent(i, k);
      }
    } else {
      MinChildIsSmallest(h, n, k);
      var m := MinChild(h, n, k);
      if h[k].at > h[m].at {
        SinkStep(h, n, k, m);
        DownRestoresOrder(Swap(h, m, k), n, m);
      }
    }
  }

  // ---- Repairing one entry, and all of them ----

  function Adjust(h: seq<ANHE>, n: nat, k: nat): (r: seq<ANHE>)
    requires Fits(h, n) && InHeap(n, k)
    ensures |r| == |h| && multiset(r) == multiset(h)
    ensures forall i :: 0 <= i < |h| && (i < HEAP0 || i >= HEAP0 + n) ==> r[i] == h[i]
  {
    if k > HEAP0 && h[k].at <= h[HParent(k)].at then Up(h, k) else Down(h, n, k)
  }

  /** A heap whose entry k has been overwritten with anything: all order relations that do
      not involve k still hold, and those of its old value carried over to its neighbours. */
  predicate OrderExcept(h: seq<ANHE>, n: nat, k: nat)
    requires Fits(h, n) && InHeap(n, k)
  {
    && (forall i :: HEAP0 < i < HEAP0 + n && i != k && HParent(i) != k ==> h[HParent(i)].at <= h[i].at)
    && (forall i :: HEAP0 < i < HEAP0 + n && HParent(i) == k && k != HEAP0 ==> h[HParent(k)].at <= h[i].at)
  }

  lemma OverwriteKeepsRest(h: seq<ANHE>, n: nat, n': nat, k: nat, e: ANHE)
    requires n' <= n && Fits(h, n) && InHeap(n', k) && HeapOrder(h, n)
    ensures OrderExcept(h[k := e], n', k)
  {
  }

  lemma AdjustRestoresOrder(h: seq<ANHE>, n: nat, k: nat)
    requires Fits(h, n) && InHeap(n, k) && OrderExcept(h, n, k)
    ensures HeapOrder(Adjust(h, n, k), n)
  {
    if k > HEAP0 && h[k].at <= h[HParent(k)].at {
      UpRestoresOrder(h, n, k);
    } else {
      DownRestoresOrder(h, n, k);
    }
  }

  /** The root is a smallest entry. */
  lemma {:induction false} RootIsSmallest(h: seq<ANHE>, n: nat, k: nat)
    requires Fits(h, n) && InHeap(n, k) && HeapOrder(h, n)
    ensures h[HEAP0].at <= h[k].at
    decreases k
  {
    if k == HEAP0 {
    } else {
      RootIsSmallest(h, n, HParent(k));
    }
  }

  // ---- The in-place versions ----

  ghost function Active(ws: set<Watcher>): set<Watcher>
    reads ws`active
  {
    set w | w in ws && w.active > 0
  }

  /** Every entry belongs to a watcher in ws that knows its index. */
  ghost predicate Indexed(h: seq<ANHE>, n: nat, ws: set<Watcher>)
    requires Fits(h, n)
    reads ws`active
  {
    forall i :: HEAP0 <= i < HEAP0 + n ==> h[i].w in ws && h[i].w.active == i
  }

  /** The watcher of entry k may have any index but must not be in the heap twice. */
  ghost predicate IndexedExcept(h: seq<ANHE>, n: nat, k: nat, ws: set<Watcher>)
    requires Fits(h, n) && InHeap(n, k)
    reads ws`active
  {
    && h[k].w in ws && h[k].w.active > 0
    && forall i :: HEAP0 <= i < HEAP0 + n && i != k ==> h[i].w in ws && h[i].w.active == i && h[i].w != h[k].w
  }

  /** The array holds h, except that slot k is a hole whose entry is kept aside. */
  ghost predicate Hole(heap: array<ANHE>, h: seq<ANHE>, n: nat, k: nat, ws: set<Watcher>)
    reads heap, ws`active
  {
    && Fits(h, n) && InHeap(n, k) && |h| == heap.Length
    && (forall i :: 0 <= i < |h| && i != k ==> heap[i] == h[i])
    && IndexedExcept(h, n, k, ws)
  }

  /** Move the entry at `from` into the hole at `to`. */
  method Shift(heap: array<ANHE>, from: nat, to: nat, ghost h: seq<ANHE>, ghost n: nat, ghost ws: set<Watcher>)
      returns (ghost h': seq<ANHE>)
    requires Hole(heap, h, n, to, ws) && InHeap(n, from) && from != to
    modifies heap, ws`active
    ensures h' == Swap(h, from, to) && Hole(heap, h', n, from, ws) && Active(ws) == old(Active(ws))
  {
    h' := Swap(h, from, to);
    heap[to] := heap[from];
    heap[to].w.active := to;
  }

  /** Fill the hole at k with the entry kept aside. */
  method Place(heap: array<ANHE>, k: nat, he: ANHE, ghost h: seq<ANHE>, ghost n: nat, ghost ws: set<Watcher>)
    requires Hole(heap, h, n, k, ws) && h[k] == he
    modifies heap, ws`active
    ensures heap[..] == h && Indexed(h, n, ws) && Active(ws) == old(Active(ws))
  {
    heap[k] := he;
    he.w.active := k;
  }

  method UpHeap(heap: array<ANHE>, start: nat, ghost n: nat, ghost ws: set<Watcher>)
    requires Fits(heap[..], n) && InHeap(n, start) && IndexedExcept(heap[..], n, start, ws)
    modifies heap, ws`active
    ensures heap[..] == Up(old(heap[..]), start)
    ensures Indexed(heap[..], n, ws) && Active(ws) == old(Active(ws))
  {
    var he := heap[start];
    var k := start;
    ghost var h := heap[..];
    while true
      invariant Hole(heap, h, n, k, ws) && h[k] == he && Active(ws) == old(Active(ws))
      invariant Up(h, k) == Up(old(heap[..]), start)
      decreases k
    {
      var p := HParent(k);
      if p == k || heap[p].at <= he.at {
        break;
      }
      h := Shift(heap, p, k, h, n, ws);
      k := p;
    }
    Place(heap, k, he, h, n, ws);
  }

  /** The search for the smallest child: the fast path has all four children in the heap. */
  method SmallestChild(heap: array<ANHE>, n: nat, k: nat, ghost h: seq<ANHE>) returns (minpos: nat)
    requires Fits(h, n) && k >= HEAP0 && FirstChild(k) < HEAP0 + n && |h| == heap.Length
    requires forall i :: 0 <= i < |h| && i != k ==> heap[i] == h[i]
    ensures minpos == MinChild(h, n, k)
  {
    var pos, end := FirstChild(k), n + HEAP0;
    minpos := pos;
    if pos + DHEAP - 1 < end {
      if heap[minpos].at > heap[pos + 1].at { minpos := pos + 1; }
      if heap[minpos].at > heap[pos + 2].at { minpos := pos + 2; }
      if heap[minpos].at > heap[pos + 3].at { minpos := pos + 3; }
    } else {
      if pos + 1 < end && heap[minpos].at > heap[pos + 1].at { minpos := pos + 1; }
      if pos + 2 < end && heap[minpos].at > heap[pos + 2].at { minpos := pos + 2; }
      // here pos + 3 is never in the heap: so the fourth comparison, against it, is dead
    }
  }

  method DownHeap(heap: array<ANHE>, n: nat, start: nat, ghost ws: set<Watcher>)
    requires Fits(heap[..], n) && InHeap(n, start) && IndexedExcept(heap[..], n, start, ws)
    modifies heap, ws`active
    ensures heap[..] == Down(old(heap[..]), n, start)
    ensures Indexed(heap[..], n, ws) && Active(ws) == old(Active(ws))
  {
    var he := heap[start];
    var k := start;
    var end := n + HEAP0;
    ghost var h := heap[..];
    while true
      invariant Hole(heap, h, n, k, ws) && h[k] == he && Active(ws) == old(Active(ws))
      invariant Down(h, n, k) == Down(old(heap[..]), n, start)
      decreases end - k
    {
      if FirstChild(k) >= end {
        break;
      }
      var minpos := SmallestChild(heap, n, k, h);
      if he.at <= heap[minpos].at {
        break;
      }
      h := Shift(heap, minpos, k, h, n, ws);
      k := minpos;
    }
    Place(heap, k, he, h, n, ws);
  }

  method AdjustHeap(heap: array<ANHE>, n: nat, k: nat, ghost ws: set<Watcher>)
    requires Fits(heap[..], n) && InHeap(n, k) && IndexedExcept(heap[..], n, k, ws)
    modifies heap, ws`active
    ensures heap[..] == Adjust(old(heap[..]), n, k)
    ensures Indexed(heap[..], n, ws) && Active(ws) == old(Active(ws))
  {
    if k > HEAP0 && heap[k].at <= heap[HParent(k)].at {
      UpHeap(heap, k, n, ws);
    } else {
      DownHeap(heap, n, k, ws);
    }
  }

  /** Rebuild the heap after every cached time may have changed. */
  method ReHeap(heap: array<ANHE>, n: nat, ghost ws: set<Watcher>)
    requires Fits(heap[..], n) && Indexed(heap[..], n, ws)
    modifies heap, ws`active
    ensures HeapOrder(heap[..], n) && multiset(heap[..]) == multiset(old(heap[..]))
    ensures forall i :: 0 <= i < heap.Length && (i < HEAP0 || i >= HEAP0 + n) ==> heap[i] == old(heap[i])
    ensures Indexed(heap[..], n, ws) && Active(ws) == old(Active(ws))
  {
    for i := 0 to n
      invariant multiset(heap[..]) == multiset(old(heap[..]))
      invariant forall j :: 0 <= j < heap.Length && (j < HEAP0 || j >= HEAP0 + n) ==> heap[j] == old(heap[j])
      invariant HeapOrder(heap[..], i)
      invariant Indexed(heap[..], n, ws) && Active(ws) == old(Active(ws))
    {
      UpExtendsOrder(heap[..], n, i);
      UpHeap(heap, i + HEAP0, n, ws);
    }
  }
}
