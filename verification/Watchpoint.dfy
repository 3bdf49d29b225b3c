/**
 The watchpoint pool: 32 nodes threaded onto two singly linked lists through their next pointers. The lists as
 sequences are what the operations are specified by; the run lemmas speak about those.
 */
module Watchpoint {
  import opened Options
  import opened Sequences

  const NR_WP := 32

  // ---------- The lists as values ----------

  /** The watchpoints in use, in list order, and the free ones. */
  datatype Lists<T> = Lists(active: seq<T>, free: seq<T>)

  predicate Distinct<T(==)>(s: seq<T>) {
    forall i, j | 0 <= i < j < |s| :: s[i] != s[j]
  }

  function IndexOf<T(==)>(s: seq<T>, x: T): (i: nat)
    ensures i <= |s| && x !in s[..i]
    ensures i < |s| ==> s[i] == x
    ensures i < |s| <==> x in s
  {
    if s == [] || s[0] == x then 0 else 1 + IndexOf(s[1..], x)
  }

  function Without<T(==)>(s: seq<T>, x: T): seq<T>
    requires x in s
  {
    var i := IndexOf(s, x);
    s[..i] + s[i + 1..]
  }

  lemma WithoutAt<T>(s: seq<T>, k: nat)
    requires k < |s| && forall i | 0 <= i < |s| && i != k :: s[i] != s[k]
    ensures Without(s, s[k]) == s[..k] + s[k + 1..]
  {
    assert IndexOf(s, s[k]) == k;
  }

  /** new_wp: the first free node goes to the end of the active list; None when there is none. */
  function Take<T>(l: Lists<T>): Option<(T, Lists<T>)> {
    if l.free == [] then None
    else Some((l.free[0], Lists(l.active + [l.free[0]], l.free[1..])))
  }

  /** free_wp: an active node becomes the first free one; None when it is not active. */
  function Release<T(==)>(l: Lists<T>, x: T): Option<Lists<T>> {
    if x in l.active then Some(Lists(Without(l.active, x), [x] + l.free)) else None
  }

  /** The lists together hold the pool: what happens to one node never loses or doubles another. */
  predicate Partition<T(==)>(l: Lists<T>, pool: seq<T>) {
    multiset(l.active) + multiset(l.free) == multiset(pool)
  }

  lemma {:induction false} DistinctCounts<T>(s: seq<T>, x: T)
    requires Distinct(s)
    ensures multiset(s)[x] <= 1
  {
    if s != [] {
      assert s == [s[0]] + s[1..];
      DistinctCounts(s[1..], x);
    }
  }

  lemma RepetitionCounts<T>(s: seq<T>, i: nat, j: nat)
    requires i < j < |s| && s[i] == s[j]
    ensures multiset(s)[s[i]] >= 2
  {
    assert s == s[..j] + s[j..];
    assert s[i] == s[..j][i] && s[j] == s[j..][0];
    assert s[i] in multiset(s[..j]) && s[i] in multiset(s[j..]);
  }

  /** Every node of the pool is on exactly one of the lists, once. */
  lemma ExactlyOnce<T>(l: Lists<T>, pool: seq<T>)
    requires Partition(l, pool) && Distinct(pool)
    ensures var all := l.active + l.free;
            |all| == |pool| && Distinct(all) && (forall x | x in pool :: x in all) && (forall x | x in all :: x in pool)
  {
    var all := l.active + l.free;
    assert multiset(all) == multiset(pool);
    assert |all| == |multiset(all)| && |pool| == |multiset(pool)|;
    forall i, j | 0 <= i < j < |all| ensures all[i] != all[j] {
      if all[i] == all[j] {
        RepetitionCounts(all, i, j);
        DistinctCounts(pool, all[i]);
      }
    }
    forall x | x in pool ensures x in all {
      assert x in multiset(pool);
    }
    forall x | x in all ensures x in pool {
      assert x in multiset(all);
    }
  }

  /** An active node is in the pool and nowhere else on the lists. */
  lemma ActiveOnce<T>(l: Lists<T>, pool: seq<T>, k: nat)
    requires Partition(l, pool) && Distinct(pool) && k < |l.active|
    ensures l.active[k] in pool
    ensures forall i | 0 <= i < |l.active| && i != k :: l.active[i] != l.active[k]
    ensures forall i | 0 <= i < |l.free| :: l.free[i] != l.active[k]
  {
    ExactlyOnce(l, pool);
    var (a, all) := (l.active, l.active + l.free);
    assert all[k] == a[k] && a[k] in all;
    forall i | 0 <= i < |a| && i != k ensures a[i] != a[k] {
      assert all[i] == a[i];
    }
    forall i | 0 <= i < |l.free| ensures l.free[i] != a[k] {
      assert all[|a| + i] == l.free[i];
    }
  }

  /** So is a free node. */
  lemma FreeOnce<T>(l: Lists<T>, pool: seq<T>, k: nat)
    requires Partition(l, pool) && Distinct(pool) && k < |l.free|
    ensures l.free[k] in pool
    ensures forall i | 0 <= i < |l.free| && i != k :: l.free[i] != l.free[k]
    ensures forall i | 0 <= i < |l.active| :: l.active[i] != l.free[k]
  {
    ExactlyOnce(l, pool);
    var (a, f, all) := (l.active, l.free, l.active + l.free);
    assert all[|a| + k] == f[k] && f[k] in all;
    forall i | 0 <= i < |f| && i != k ensures f[i] != f[k] {
      assert all[|a| + i] == f[i];
    }
    forall i | 0 <= i < |a| ensures a[i] != f[k] {
      assert all[i] == a[i];
    }
  }

  /** There is a free node unless the whole pool is active. */
  lemma FullPool<T>(l: Lists<T>, pool: seq<T>)
    requires Partition(l, pool)
    ensures Take(l).None? <==> |l.active| == |pool|
  {
    assert |multiset(l.active)| == |l.active| && |multiset(l.free)| == |l.free| && |multiset(pool)| == |pool|;
  }

  lemma TakeKeepsPartition<T>(l: Lists<T>, pool: seq<T>)
    requires Partition(l, pool) && l.free != []
    ensures Partition(Take(l).value.1, pool)
  {
    assert l.free == [l.free[0]] + l.free[1..];
  }

  lemma ReleaseKeepsPartition<T>(l: Lists<T>, pool: seq<T>, x: T)
    requires Partition(l, pool) && x in l.active
    ensures Partition(Release(l, x).value, pool)
  {
    var (a, i) := (l.active, IndexOf(l.active, x));
    assert a == a[..i] + [x] + a[i + 1..];
  }

  // ---------- The linked lists ----------

  class WP {
    var NO: int
    var next: WP?
  }

  /** The node at a position of a list; null behind the end. */
  ghost function At(nodes: seq<WP>, i: nat): WP? {
    if i < |nodes| then nodes[i] else null
  }

  /** The nodes are linked in order, from the given pointer to the end. */
  ghost predicate Linked(start: WP?, nodes: seq<WP>)
    reads nodes`next
  {
    && start == At(nodes, 0)
    && forall i | 0 <= i < |nodes| :: nodes[i].next == At(nodes, i + 1)
  }

  /** A node put in front of a list. */
  lemma Pushed(start: WP?, nodes: seq<WP>, x: WP)
    requires Linked(start, nodes) && x.next == start
    ensures Linked(x, [x] + nodes)
  {
    var nodes' := [x] + nodes;
    forall i | 0 <= i < |nodes'| ensures nodes'[i].next == At(nodes', i + 1) {
      if i > 0 {
        assert nodes[i - 1].next == At(nodes, i);
      }
    }
  }

  /** A node linked behind the last one of a list. */
  lemma Appended(start: WP?, nodes: seq<WP>, x: WP)
    requires start == At(nodes, 0) && x.next == null
    requires forall i | 0 <= i < |nodes| - 1 :: nodes[i].next == At(nodes, i + 1)
    requires nodes != [] ==> nodes[|nodes| - 1].next == x
    ensures Linked(if nodes == [] then x else start, nodes + [x])
  {
    var nodes' := nodes + [x];
    forall i | 0 <= i < |nodes'| ensures nodes'[i].next == At(nodes', i + 1) {
      if i < |nodes| - 1 {
        assert nodes[i].next == At(nodes, i + 1);
      }
    }
  }

  /** A node taken out of a list by linking its predecessor, if any, to its successor. */
  lemma Removed(start: WP?, nodes: seq<WP>, k: nat)
    requires start == At(nodes, 0) && k < |nodes|
    requires forall i | 0 <= i < |nodes| && i != k - 1 && i != k :: nodes[i].next == At(nodes, i + 1)
    requires k > 0 ==> nodes[k - 1].next == At(nodes, k + 1)
    ensures Linked(if k == 0 then At(nodes, 1) else start, nodes[..k] + nodes[k + 1..])
  {
    var nodes' := nodes[..k] + nodes[k + 1..];
    forall i | 0 <= i < |nodes'| ensures nodes'[i].next == At(nodes', i + 1) {
      var j := if i < k then i else i + 1;
      assert nodes'[i] == nodes[j];
      if i != k - 1 {
        assert nodes[j].next == At(nodes, j + 1);
      }
    }
  }

  class Pool {
    const pool: seq<WP>
    var head: WP?
    var free_: WP?
    ghost var lists: Lists<WP>

    /** The pool is 32 nodes, each numbered by its place. */
    ghost predicate Numbered()
      reads pool`NO
    {
      |pool| == NR_WP && Distinct(pool) && forall i | 0 <= i < |pool| :: pool[i].NO == i
    }

    /** Both lists are linked and end, and together they hold every node of the pool once. */
    ghost predicate Valid()
      reads this, pool, lists.active, lists.free
    {
      && Numbered()
      && Linked(head, lists.active) && Linked(free_, lists.free)
      && Partition(lists, pool)
    }

    /** The nodes are static storage; then init_wp_pool. */
    constructor ()
      ensures Valid() && lists == Lists([], pool)
    {
      var nodes: seq<WP> := [];
      while |nodes| < NR_WP
        invariant |nodes| <= NR_WP && Distinct(nodes)
        invariant forall i | 0 <= i < |nodes| :: fresh(nodes[i])
      {
        var node := new WP;
        nodes := nodes + [node];
      }
      pool := nodes;
      new;
      InitWpPool();
    }

    method InitWpPool()
      requires |pool| == NR_WP && Distinct(pool)
      modifies this, pool`NO, pool`next
      ensures Valid() && lists == Lists([], pool)
    {
      var i := 0;
      while i < NR_WP
        invariant 0 <= i <= NR_WP
        invariant forall k | 0 <= k < i ::
          pool[k].NO == k && pool[k].next == if k + 1 < NR_WP then pool[k + 1] else null
      {
        pool[i].NO := i;
        pool[i].next := if i + 1 < NR_WP then pool[i + 1] else null;
        i := i + 1;
      }
      pool[NR_WP - 1].next := null;
      head := null;
      free_ := pool[0];
      lists := Lists([], pool);
    }

    /** The last node of the active list. */
    method Last() returns (last: WP)
      requires Valid() && head != null
      ensures lists.active != [] && last == lists.active[|lists.active| - 1]
    {
      last := head;
      ghost var k := 0;
      while last.next != null
        invariant 0 <= k < |lists.active| && last == lists.active[k]
        decreases |lists.active| - k
      {
        assert last.next == At(lists.active, k + 1);
        last := last.next;
        k := k + 1;
      }
      assert last.next == At(lists.active, k + 1);
    }

    /** Null when the free list is empty, where the source fails an assertion. */
    method NewWp() returns (wp: WP?)
      requires Valid()
      modifies this, pool`next
      ensures Valid()
      ensures match Take(old(lists))
              case None => wp == null && lists == old(lists)
              case Some((x, l)) => wp == x && lists == l
    {
      wp := free_;
      if free_ != null {
        FreeOnce(lists, pool, 0);
        TakeKeepsPartition(lists, pool);
        if head == null {
          MoveToHead();
        } else {
          var last := Last();
          ActiveOnce(lists, pool, |lists.active| - 1);
          MoveBehind(last);
        }
        lists := Take(lists).value.1;
      }
    }

    /** The first free node becomes the only active one. */
    method MoveToHead()
      requires Linked(free_, lists.free) && lists.free != [] && lists.active == []
      requires forall i | 0 < i < |lists.free| :: lists.free[i] != lists.free[0]
      modifies this`head, this`free_, free_`next
      ensures Linked(head, [lists.free[0]]) && Linked(free_, lists.free[1..])
    {
      assert free_.next == At(lists.free, 1);
      var temp := free_;
      free_ := free_.next;
      head := temp;
      head.next := null;
      Removed(old(free_), lists.free, 0);
    }

    /** The first free node is linked behind the last active one. */
    method MoveBehind(last: WP)
      requires Linked(head, lists.active) && Linked(free_, lists.free) && lists.free != [] && lists.active != []
      requires last == lists.active[|lists.active| - 1]
      requires forall i | 0 < i < |lists.free| :: lists.free[i] != lists.free[0]
      requires forall i | 0 <= i < |lists.active| :: lists.active[i] != lists.free[0]
      requires forall i | 0 <= i < |lists.free| :: lists.free[i] != last
      requires forall i | 0 <= i < |lists.active| - 1 :: lists.active[i] != last
      modifies this`free_, free_`next, last`next
      ensures Linked(head, lists.active + [lists.free[0]]) && Linked(free_, lists.free[1..])
    {
      assert free_.next == At(lists.free, 1);
      var temp := free_;
      free_ := free_.next;
      last.next := temp;
      last.next.next := null;
      Appended(head, lists.active, temp);
      Removed(old(free_), lists.free, 0);
    }

    /** The node whose successor is wp; null when the walk leaves the list. */
    method Before(wp: WP) returns (before: WP?, ghost k: nat)
      requires Valid() && wp != head
      ensures before == null <==> wp !in lists.active
      ensures before != null ==> k + 1 < |lists.active| && lists.active[k] == before && lists.active[k + 1] == wp
    {
      before := head;
      k := 0;
      while before != null && before.next != wp
        invariant before == At(lists.active, k) && k <= |lists.active|
        invariant forall j | 0 <= j <= k && j < |lists.active| :: lists.active[j] != wp
        decreases |lists.active| - k
      {
        assert before.next == At(lists.active, k + 1);
        before := before.next;
        k := k + 1;
      }
      if before != null {
        assert before.next == At(lists.active, k + 1);
      }
    }

    /** ok is false where the source fails an assertion or walks off the end of the list. */
    method FreeWp(wp: WP?) returns (ok: bool)
      requires Valid()
      modifies this, pool`next
      ensures Valid()
      ensures ok <==> wp != null && wp in old(lists.active)
      ensures if ok then Release(old(lists), wp as WP) == Some(lists) else lists == old(lists)
    {
      ok := wp != null && head != null;
      if ok {
        if wp == head {
          FreeHead();
        } else {
          var before, k := Before(wp);
          ok := before != null;
          if ok {
            FreeAfter(before, k);
          }
        }
      }
    }

    /** The first active node is freed. */
    method FreeHead()
      requires Valid() && head != null
      modifies this, pool`next
      ensures Valid() && Release(old(lists), old(head) as WP) == Some(lists)
    {
      ghost var wp := lists.active[0];
      ActiveOnce(lists, pool, 0);
      ReleaseKeepsPartition(lists, pool, wp);
      RelinkHead();
      lists := Lists(Without(lists.active, wp), [wp] + lists.free);
    }

    method RelinkHead()
      requires Linked(head, lists.active) && Linked(free_, lists.free) && lists.active != []
      requires forall i | 0 < i < |lists.active| :: lists.active[i] != lists.active[0]
      requires forall i | 0 <= i < |lists.free| :: lists.free[i] != lists.active[0]
      modifies this`head, this`free_, head`next
      ensures Linked(head, Without(lists.active, lists.active[0]))
      ensures Linked(free_, [lists.active[0]] + lists.free)
    {
      assert head.next == At(lists.active, 1);
      var freed := head;
      head := head.next;
      var rest := free_;
      free_ := freed;
      free_.next := rest;
      WithoutAt(lists.active, 0);
      Removed(old(head), lists.active, 0);
      Pushed(old(free_), lists.free, freed);
    }

    /** The active node behind another one is freed. */
    method FreeAfter(before: WP, ghost k: nat)
      requires Valid() && k + 1 < |lists.active| && lists.active[k] == before
      modifies this, pool`next
      ensures Valid() && Release(old(lists), old(lists.active[k + 1])) == Some(lists)
    {
      ActiveOnce(lists, pool, k);
      ActiveOnce(lists, pool, k + 1);
      ghost var wp := lists.active[k + 1];
      ReleaseKeepsPartition(lists, pool, wp);
      assert before.next == At(lists.active, k + 1);
      Relink(before, k);
      lists := Lists(Without(lists.active, wp), [wp] + lists.free);
    }

    method Relink(before: WP, ghost k: nat)
      requires Linked(head, lists.active) && Linked(free_, lists.free)
      requires k + 1 < |lists.active| && lists.active[k] == before
      requires forall i | 0 <= i < |lists.active| && i != k :: lists.active[i] != before
      requires forall i | 0 <= i < |lists.active| && i != k + 1 :: lists.active[i] != lists.active[k + 1]
      requires forall i | 0 <= i < |lists.free| :: lists.free[i] != before && lists.free[i] != lists.active[k + 1]
      modifies this`free_, before`next, before.next`next
      ensures Linked(head, Without(lists.active, lists.active[k + 1]))
      ensures Linked(free_, [lists.active[k + 1]] + lists.free)
    {
      assert before.next == At(lists.active, k + 1);
      assert before.next.next == At(lists.active, k + 2);
      var rest := free_;
      free_ := before.next;
      before.next := before.next.next;
      free_.next := rest;
      WithoutAt(lists.active, k + 1);
      Removed(head, lists.active, k + 1);
      Pushed(old(free_), lists.free, free_);
    }
  }

  // ---------- Runs ----------

  /** A successful new_wp that returned x, or free_wp of x. */
  datatype Event<T> = Allocated(x: T) | Freed(x: T)

  function Apply<T(==)>(l: Lists<T>, e: Event<T>): Option<Lists<T>> {
    match e
    case Allocated(x) => if l.free != [] && l.free[0] == x then Some(Take(l).value.1) else None
    case Freed(x) => Release(l, x)
  }

  /** The lists after a run; None when the events are not those of a run. */
  function Replay<T(==)>(l: Lists<T>, es: seq<Event<T>>): Option<Lists<T>> {
    if es == [] then Some(l)
    else match Replay(l, es[..|es| - 1])
      case None => None
      case Some(l') => Apply(l', es[|es| - 1])
  }

  /** The nodes allocated and not freed later, in the order of their allocation. */
  function Live<T(==)>(es: seq<Event<T>>): seq<T> {
    if es == [] then []
    else if es[0].Allocated? && Freed(es[0].x) !in es[1..] then [es[0].x] + Live(es[1..])
    else Live(es[1..])
  }

  function Minus<T(==)>(s: seq<T>, x: T): seq<T> {
    if s == [] then [] else (if s[0] == x then [] else [s[0]]) + Minus(s[1..], x)
  }

  lemma {:induction false} LiveAfterAllocation<T>(es: seq<Event<T>>, x: T)
    ensures Live(es + [Allocated(x)]) == Live(es) + [x]
  {
    var es' := es + [Allocated(x)];
    if es == [] {
      assert es'[1..] == [];
    } else {
      LiveAfterAllocation(es[1..], x);
      assert es'[1..] == es[1..] + [Allocated(x)];
    }
  }

  lemma {:induction false} LiveAfterRelease<T>(es: seq<Event<T>>, x: T)
    ensures Live(es + [Freed(x)]) == Minus(Live(es), x)
  {
    var es' := es + [Freed(x)];
    if es == [] {
      assert es'[1..] == [];
    } else {
      LiveAfterRelease(es[1..], x);
      assert es'[1..] == es[1..] + [Freed(x)];
      assert Freed(x) in es'[1..];
      if es[0].Allocated? && Freed(es[0].x) !in es[1..] {
        assert Live(es) == [es[0].x] + Live(es[1..]);
        assert Live(es)[1..] == Live(es[1..]);
      }
    }
  }

  lemma {:induction false} MinusAbsent<T>(s: seq<T>, x: T)
    requires x !in s
    ensures Minus(s, x) == s
  {
    if s != [] {
      MinusAbsent(s[1..], x);
      assert s == [s[0]] + s[1..];
    }
  }

  /** Without repetitions, taking out the first occurrence takes out all. */
  lemma {:induction false} MinusOnce<T>(s: seq<T>, x: T)
    requires Distinct(s) && x in s
    ensures Minus(s, x) == Without(s, x)
  {
    if s[0] == x {
      MinusAbsent(s[1..], x);
      assert Without(s, x) == s[1..];
    } else {
      MinusOnce(s[1..], x);
      assert Without(s, x) == [s[0]] + Without(s[1..], x);
    }
  }

  lemma ActiveDistinct<T>(l: Lists<T>, pool: seq<T>)
    requires Partition(l, pool) && Distinct(pool)
    ensures Distinct(l.active)
  {
    forall i, j | 0 <= i < j < |l.active| ensures l.active[i] != l.active[j] {
      ActiveOnce(l, pool, j);
    }
  }

  /** One event keeps the partition, and the active list in step with the live nodes. */
  lemma EventKeepsOrder<T>(l: Lists<T>, pool: seq<T>, before: seq<Event<T>>, e: Event<T>)
    requires Distinct(pool) && Partition(l, pool) && l.active == Live(before) && Apply(l, e).Some?
    ensures Partition(Apply(l, e).value, pool) && Apply(l, e).value.active == Live(before + [e])
  {
    match e
    case Allocated(x) =>
      TakeKeepsPartition(l, pool);
      LiveAfterAllocation(before, x);
    case Freed(x) =>
      ReleaseKeepsPartition(l, pool, x);
      LiveAfterRelease(before, x);
      ActiveDistinct(l, pool);
      MinusOnce(l.active, x);
  }

  /**
   In every run from the initialized pool: the two lists hold every node exactly once, and the active list is the
   nodes allocated and not freed since, in the order of their allocation.
   */
  lemma {:induction false} RunsKeepOrder<T>(pool: seq<T>, es: seq<Event<T>>)
    requires Distinct(pool) && Replay(Lists([], pool), es).Some?
    ensures var l := Replay(Lists([], pool), es).value; Partition(l, pool) && l.active == Live(es)
    decreases |es|
  {
    var start := Lists([], pool);
    if es == [] {
      assert Replay(start, es) == Some(start) && Live(es) == [];
    } else {
      var (before, e) := (es[..|es| - 1], es[|es| - 1]);
      RunsKeepOrder(pool, before);
      var l := Replay(start, before).value;
      assert Replay(start, es) == Apply(l, e);
      EventKeepsOrder(l, pool, before, e);
      BeforeLast(es);
    }
  }

  /** Runs in which every node that is freed is followed by an allocation, properly nested. */
  datatype Nest<T> = Flat | Around(x: T, inner: Nest<T>, next: Nest<T>)

  /** The lists after a nested run and the nodes its allocations return; None when a freed node is not active. */
  function Play<T(==)>(l: Lists<T>, n: Nest<T>): Option<(Lists<T>, seq<T>)>
    decreases n
  {
    match n
    case Flat => Some((l, []))
    case Around(x, inner, next) =>
      match Release(l, x)
      case None => None
      case Some(l1) =>
        match Play(l1, inner)
        case None => None
        case Some((l2, out)) =>
          match Take(l2)
          case None => None
          case Some((y, l3)) =>
            match Play(l3, next)
            case None => None
            case Some((l4, out')) => Some((l4, out + [y] + out'))
  }

  function Freeds<T>(n: Nest<T>): seq<T> {
    match n
    case Flat => []
    case Around(x, inner, next) => Freeds(inner) + [x] + Freeds(next)
  }

  /** The free list is last in, first out: each allocation of a nested run returns the node freed to match it. */
  lemma {:induction false} LastFreedFirst<T>(l: Lists<T>, n: Nest<T>)
    requires Play(l, n).Some?
    ensures var (l', out) := Play(l, n).value; l'.free == l.free && out == Freeds(n)
    decreases n
  {
    match n
    case Flat =>
    case Around(x, inner, next) =>
      var l1 := Release(l, x).value;
      LastFreedFirst(l1, inner);
      var l2 := Play(l1, inner).value.0;
      assert l2.free[0] == x && l2.free[1..] == l.free;
      LastFreedFirst(Take(l2).value.1, next);
  }
}
