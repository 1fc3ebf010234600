/** The trace view: one trace as an indented list, children and events interleaved by time. */
module TraceTree {
  import opened Spans
  import opened Forest
  import opened Survival
  import opened Chains
  import Reference

  datatype Item = EventAt(idx: nat, at: nat) | ChildAt(id: nat, at: nat)

  datatype TraceRow =
    | SpanRow(id: nat, depth: nat, hasChildren: bool, expanded: bool)
    | EventRow(parentId: nat, idx: nat, depth: nat)

  // ── Stable sorting by time ──

  function InsertByTime(sorted: seq<Item>, x: Item): seq<Item> {
    var n := |sorted|;
    if n == 0 || sorted[n - 1].at <= x.at then sorted + [x]
    else InsertByTime(sorted[..n - 1], x) + [sorted[n - 1]]
  }

  function SortByTime(items: seq<Item>): seq<Item> {
    if items == [] then []
    else InsertByTime(SortByTime(items[..|items| - 1]), items[|items| - 1])
  }

  ghost predicate TimeOrdered(items: seq<Item>) {
    forall i, j :: 0 <= i < j < |items| ==> items[i].at <= items[j].at
  }

  /** The items of one instant, in their given order. */
  ghost function Instant(items: seq<Item>, t: nat): seq<Item> {
    if items == [] then []
    else
      var last := items[|items| - 1];
      Instant(items[..|items| - 1], t) + if last.at == t then [last] else []
  }

  lemma InstantSnoc(items: seq<Item>, x: Item, t: nat)
    ensures Instant(items + [x], t) == Instant(items, t) + if x.at == t then [x] else []
  {
    assert (items + [x])[..|items|] == items;
  }

  lemma {:induction false} NothingAt(items: seq<Item>, t: nat)
    requires forall x :: x in items ==> x.at != t
    ensures Instant(items, t) == []
  {
    if items == [] {
    } else {
      var front := items[..|items| - 1];
      forall x | x in front ensures x.at != t { assert x in items; }
      assert items[|items| - 1] in items;
      NothingAt(front, t);
    }
  }

  lemma {:induction false} InsertMembers(sorted: seq<Item>, x: Item)
    ensures multiset(InsertByTime(sorted, x)) == multiset(sorted) + multiset{x}
    ensures forall y :: y in InsertByTime(sorted, x) <==> y in sorted || y == x
  {
    var n := |sorted|;
    if n > 0 && sorted[n - 1].at > x.at {
      assert sorted == sorted[..n - 1] + [sorted[n - 1]];
      InsertMembers(sorted[..n - 1], x);
    }
  }

  lemma {:induction false} InsertInstant(sorted: seq<Item>, x: Item, t: nat)
    requires TimeOrdered(sorted)
    ensures Instant(InsertByTime(sorted, x), t) == Instant(sorted + [x], t)
  {
    hide Instant;
    var n := |sorted|;
    if n > 0 && sorted[n - 1].at > x.at {
      var front, last := sorted[..n - 1], sorted[n - 1];
      assert sorted == front + [last];
      InsertInstant(front, x, t);
      InstantSnoc(InsertByTime(front, x), last, t);
      InstantSnoc(front, x, t);
      InstantSnoc(front, last, t);
      InstantSnoc(sorted, x, t);
      assert Instant(front, t) + [] == Instant(front, t);
    }
  }

  lemma {:induction false} InsertOrders(sorted: seq<Item>, x: Item)
    requires TimeOrdered(sorted)
    ensures TimeOrdered(InsertByTime(sorted, x))
  {
    var n := |sorted|;
    if n > 0 && sorted[n - 1].at > x.at {
      var front := sorted[..n - 1];
      InsertOrders(front, x);
      InsertMembers(front, x);
      forall y | y in InsertByTime(front, x) ensures y.at <= sorted[n - 1].at {
        assert y in front ==> exists i :: 0 <= i < n - 1 && sorted[i] == y;
      }
    }
  }

  lemma {:induction false} SortIsStable(items: seq<Item>)
    ensures TimeOrdered(SortByTime(items)) && multiset(SortByTime(items)) == multiset(items)
    ensures forall t :: Instant(SortByTime(items), t) == Instant(items, t)
  {
    hide TimeOrdered, Instant;
    if items == [] {
      assert TimeOrdered([]) by { OrderedNone(); }
    } else {
      var front, last := items[..|items| - 1], items[|items| - 1];
      assert items == front + [last];
      SortIsStable(front);
      InsertOrders(SortByTime(front), last);
      InsertMembers(SortByTime(front), last);
      forall t ensures Instant(SortByTime(items), t) == Instant(items, t) {
        InsertInstant(SortByTime(front), last, t);
        InstantSnoc(SortByTime(front), last, t);
        InstantSnoc(front, last, t);
      }
    }
  }

  lemma OrderedNone()
    ensures TimeOrdered([])
  {
  }

  lemma {:induction false} InstantMembers(items: seq<Item>, x: Item)
    ensures x in Instant(items, x.at) <==> x in items
    ensures forall y, t :: y in Instant(items, t) ==> y.at == t && y in items
  {
    if items == [] {
    } else {
      assert items == items[..|items| - 1] + [items[|items| - 1]];
      InstantMembers(items[..|items| - 1], x);
    }
  }

  lemma LastIsLatest(a: seq<Item>, x: Item)
    requires TimeOrdered(a) && x in a
    ensures x.at <= a[|a| - 1].at
  {
  }

  lemma FrontOrdered(a: seq<Item>)
    requires TimeOrdered(a) && a != []
    ensures TimeOrdered(a[..|a| - 1])
  {
  }

  /** Time order and the order within each instant leave no choice: every stable sort is this one. */
  lemma {:induction false} StableSortIsUnique(a: seq<Item>, b: seq<Item>)
    requires TimeOrdered(a) && TimeOrdered(b)
    requires forall t :: Instant(a, t) == Instant(b, t)
    ensures a == b
  {
    hide TimeOrdered, Instant;
    if a == [] {
      if b != [] {
        InstantMembers(b, b[0]);
        InstantMembers(a, b[0]);
      }
    } else {
      var x := a[|a| - 1];
      InstantMembers(a, x);
      InstantMembers(b, x);
      var y := b[|b| - 1];
      InstantMembers(a, y);
      InstantMembers(b, y);
      LastIsLatest(a, y);
      LastIsLatest(b, x);
      var front, back := a[..|a| - 1], b[..|b| - 1];
      assert a == front + [x] && b == back + [y];
      FrontOrdered(a);
      FrontOrdered(b);
      InstantSnoc(front, x, x.at);
      InstantSnoc(back, y, x.at);
      SameLast(Instant(front, x.at), x, Instant(back, x.at), y);
      forall t ensures Instant(front, t) == Instant(back, t) {
        InstantSnoc(front, x, t);
        InstantSnoc(back, y, t);
        if t != x.at {
          assert Instant(front, t) + [] == Instant(front, t) && Instant(back, t) + [] == Instant(back, t);
        }
      }
      StableSortIsUnique(front, back);
    }
  }

  lemma SameLast<T>(a: seq<T>, x: T, b: seq<T>, y: T)
    requires a + [x] == b + [y]
    ensures x == y && a == b
  {
    assert (a + [x])[..|a|] == a && (b + [y])[..|b|] == b && (a + [x])[|a|] == x;
  }

  // ── The tree ──

  /** What every reachable ring is. */
  ghost predicate Tree(ring: seq<WireSpan>) {
    Ordered(ring) && DistinctIds(ring)
  }

  function Kids(ring: seq<WireSpan>, p: nat): seq<Item> {
    if ring == [] then []
    else
      var s := ring[|ring| - 1];
      Kids(ring[..|ring| - 1], p) + if s.parent == Some(p) then [ChildAt(s.id, s.openedAt)] else []
  }

  function EventItems(s: WireSpan): seq<Item> {
    seq(|s.events|, i requires 0 <= i < |s.events| => EventAt(i, s.events[i]))
  }

  /** Children and events of one span by time; at one instant events first, then children as they
      arrived. */
  function ItemsOf(ring: seq<WireSpan>, s: WireSpan): seq<Item> {
    SortByTime(EventItems(s) + SortByTime(Kids(ring, s.id)))
  }

  ghost predicate IsKid(ring: seq<WireSpan>, p: nat, x: Item) {
    exists u :: u in ring && u.parent == Some(p) && x == ChildAt(u.id, u.openedAt)
  }

  lemma {:induction false} KidsAre(ring: seq<WireSpan>, p: nat, x: Item)
    requires DistinctIds(ring)
    ensures x in Kids(ring, p) <==> IsKid(ring, p, x)
    ensures multiset(Kids(ring, p))[x] <= 1
  {
    if ring == [] {
    } else {
      var front, s := ring[..|ring| - 1], ring[|ring| - 1];
      assert ring == front + [s];
      assert DistinctIds(front) && forall u :: u in front ==> u.id != s.id by { LastDiffers(ring); }
      hide DistinctIds;
      KidsAre(front, p, x);
      assert IsKid(ring, p, x) <==> IsKid(front, p, x) || (s.parent == Some(p) && x == ChildAt(s.id, s.openedAt));
      assert x == ChildAt(s.id, s.openedAt) ==> !IsKid(front, p, x);
    }
  }

  lemma LastDiffers(ring: seq<WireSpan>)
    requires DistinctIds(ring) && ring != []
    ensures DistinctIds(ring[..|ring| - 1])
    ensures forall u :: u in ring[..|ring| - 1] ==> u.id != ring[|ring| - 1].id
  {
  }

  lemma EventItemsAre(s: WireSpan, x: Item)
    ensures x in EventItems(s) <==> x.EventAt? && x.idx < |s.events| && x.at == s.events[x.idx]
    ensures multiset(EventItems(s))[x] <= 1
  {
    var e := EventItems(s);
    if x.EventAt? && x.idx < |s.events| && x.at == s.events[x.idx] {
      assert e[x.idx] == x;
      assert e == e[..x.idx] + [x] + e[x.idx + 1..];
      assert x !in e[..x.idx] && x !in e[x.idx + 1..];
      assert multiset(e) == multiset(e[..x.idx]) + multiset{x} + multiset(e[x.idx + 1..]);
    }
  }

  lemma ItemsAre(ring: seq<WireSpan>, s: WireSpan, x: Item)
    requires DistinctIds(ring)
    ensures x in ItemsOf(ring, s) <==>
            if x.EventAt? then x.idx < |s.events| && x.at == s.events[x.idx] else IsKid(ring, s.id, x)
    ensures multiset(ItemsOf(ring, s))[x] <= 1 && TimeOrdered(ItemsOf(ring, s))
  {
    var kids, all := SortByTime(Kids(ring, s.id)), EventItems(s) + SortByTime(Kids(ring, s.id));
    KidsAre(ring, s.id, x);
    SortIsStable(Kids(ring, s.id));
    EventItemsAre(s, x);
    SortIsStable(all);
    assert x in ItemsOf(ring, s) <==> x in multiset(all);
    assert x in kids <==> x in multiset(Kids(ring, s.id));
  }

  ghost function Pos(ring: seq<WireSpan>, s: WireSpan): (i: nat)
    requires s in ring
    ensures i < |ring| && ring[i] == s
  {
    var i :| 0 <= i < |ring| && ring[i] == s;
    i
  }

  /** A child stands after its parent, so the walk only ever moves right. */
  lemma KidIsLater(ring: seq<WireSpan>, s: WireSpan, u: WireSpan)
    requires Tree(ring) && s in ring && u in ring && u.parent == Some(s.id)
    ensures Pos(ring, s) < Pos(ring, u)
  {
    assert ring[Pos(ring, u)].parent == Some(ring[Pos(ring, s)].id);
  }

  ghost predicate AllKids(ring: seq<WireSpan>, s: WireSpan, items: seq<Item>) {
    forall x :: x in items && x.ChildAt? ==> IsKid(ring, s.id, x)
  }

  lemma ItemsAreKids(ring: seq<WireSpan>, s: WireSpan)
    requires DistinctIds(ring)
    ensures AllKids(ring, s, ItemsOf(ring, s))
  {
    forall x | x in ItemsOf(ring, s) && x.ChildAt? ensures IsKid(ring, s.id, x) {
      ItemsAre(ring, s, x);
    }
  }

  ghost function KidOf(ring: seq<WireSpan>, s: WireSpan, x: Item): (u: WireSpan)
    requires Tree(ring) && s in ring && x.ChildAt? && IsKid(ring, s.id, x)
    ensures u in ring && u.parent == Some(s.id) && x == ChildAt(u.id, u.openedAt) && Pos(ring, s) < Pos(ring, u)
  {
    var u :| u in ring && u.parent == Some(s.id) && x == ChildAt(u.id, u.openedAt);
    KidIsLater(ring, s, u);
    u
  }

  /** The rows below and including `s`. */
  ghost function Walk(ring: seq<WireSpan>, collapsed: set<nat>, s: WireSpan, depth: nat): seq<TraceRow>
    requires Tree(ring) && s in ring
    decreases |ring| - Pos(ring, s), 2, 0
  {
    ItemsAreKids(ring, s);
    var items := ItemsOf(ring, s);
    [SpanRow(s.id, depth, items != [], s.id !in collapsed)]
    + if s.id in collapsed then [] else WalkItems(ring, collapsed, s, items, depth + 1)
  }

  ghost function WalkItems(ring: seq<WireSpan>, collapsed: set<nat>, s: WireSpan, items: seq<Item>, depth: nat)
    : seq<TraceRow>
    requires Tree(ring) && s in ring && AllKids(ring, s, items)
    decreases |ring| - Pos(ring, s), 1, |items|
  {
    if items == [] then []
    else
      Block(ring, collapsed, s, items[0], depth) + WalkItems(ring, collapsed, s, items[1..], depth)
  }

  ghost function Block(ring: seq<WireSpan>, collapsed: set<nat>, s: WireSpan, x: Item, depth: nat): seq<TraceRow>
    requires Tree(ring) && s in ring && (x.ChildAt? ==> IsKid(ring, s.id, x))
    decreases |ring| - Pos(ring, s), 0, 0
  {
    if x.EventAt? then [EventRow(s.id, x.idx, depth)] else Walk(ring, collapsed, KidOf(ring, s, x), depth)
  }

  // ── Which rows are listed ──

  /** A way down from `path[0]`, through expanded spans only. */
  ghost predicate Trail(ring: seq<WireSpan>, collapsed: set<nat>, path: seq<WireSpan>) {
    && path != []
    && (forall i :: 0 <= i < |path| ==> path[i] in ring)
    && (forall i :: 1 <= i < |path| ==> Opens(collapsed, path, i))
  }

  ghost predicate Opens(collapsed: set<nat>, path: seq<WireSpan>, i: nat)
    requires 1 <= i < |path|
  {
    path[i].parent == Some(path[i - 1].id) && path[i - 1].id !in collapsed
  }

  ghost predicate Nonempty(ring: seq<WireSpan>, t: WireSpan) {
    t.events != [] || exists u :: u in ring && u.parent == Some(t.id)
  }

  /** `row` is the row the end of `path` should have, or that of one of its events. */
  ghost predicate Shows(ring: seq<WireSpan>, collapsed: set<nat>, depth: nat, path: seq<WireSpan>, row: TraceRow) {
    Trail(ring, collapsed, path) &&
    var t := path[|path| - 1];
    match row
    case SpanRow(id, d, hasChildren, expanded) =>
      id == t.id && d == depth + |path| - 1 && hasChildren == Nonempty(ring, t) && expanded == (t.id !in collapsed)
    case EventRow(p, idx, d) =>
      p == t.id && t.id !in collapsed && idx < |t.events| && d == depth + |path|
  }

  lemma {:induction false} ItemsHave(ring: seq<WireSpan>, collapsed: set<nat>, s: WireSpan, items: seq<Item>,
                                     depth: nat, row: TraceRow)
    requires Tree(ring) && s in ring && AllKids(ring, s, items)
    ensures row in WalkItems(ring, collapsed, s, items, depth)
            <==> exists x :: x in items && row in Block(ring, collapsed, s, x, depth)
    decreases |items|
  {
    hide Block, Tree, IsKid;
    if items == [] {
    } else {
      var x, rest := items[0], items[1..];
      assert items == [x] + rest;
      ItemsHave(ring, collapsed, s, rest, depth, row);
      assert row in WalkItems(ring, collapsed, s, items, depth)
        <==> row in Block(ring, collapsed, s, x, depth) || row in WalkItems(ring, collapsed, s, rest, depth);
    }
  }

  lemma HasItems(ring: seq<WireSpan>, s: WireSpan)
    requires DistinctIds(ring)
    ensures ItemsOf(ring, s) != [] <==> Nonempty(ring, s)
  {
    if ItemsOf(ring, s) != [] {
      ItemsAre(ring, s, ItemsOf(ring, s)[0]);
    }
    if s.events != [] {
      ItemsAre(ring, s, EventAt(0, s.events[0]));
    } else if Nonempty(ring, s) {
      var u :| u in ring && u.parent == Some(s.id);
      ItemsAre(ring, s, ChildAt(u.id, u.openedAt));
    }
  }

  ghost function OwnRow(ring: seq<WireSpan>, collapsed: set<nat>, s: WireSpan, depth: nat): TraceRow {
    SpanRow(s.id, depth, Nonempty(ring, s), s.id !in collapsed)
  }

  /** A walk lists the span itself and, unless it is collapsed, the blocks of its items. */
  lemma WalkHas(ring: seq<WireSpan>, collapsed: set<nat>, s: WireSpan, depth: nat, row: TraceRow)
    requires Tree(ring) && s in ring
    ensures AllKids(ring, s, ItemsOf(ring, s))
    ensures row in Walk(ring, collapsed, s, depth) <==>
            row == OwnRow(ring, collapsed, s, depth)
            || (s.id !in collapsed
                && exists x :: x in ItemsOf(ring, s) && row in Block(ring, collapsed, s, x, depth + 1))
  {
    hide Block, ItemsOf, IsKid, Nonempty, WalkItems;
    HasItems(ring, s);
    ItemsAreKids(ring, s);
    ItemsHave(ring, collapsed, s, ItemsOf(ring, s), depth + 1, row);
  }

  lemma ShowsOne(ring: seq<WireSpan>, collapsed: set<nat>, depth: nat, s: WireSpan, row: TraceRow)
    requires s in ring
    ensures Shows(ring, collapsed, depth, [s], row) <==>
            row == OwnRow(ring, collapsed, s, depth)
            || (row.EventRow? && s.id !in collapsed && row.parentId == s.id && row.idx < |s.events|
                && row.depth == depth + 1)
  {
    hide Nonempty;
  }

  lemma ShowsCons(ring: seq<WireSpan>, collapsed: set<nat>, depth: nat, s: WireSpan, below: seq<WireSpan>,
                  row: TraceRow)
    requires s in ring && below != []
    ensures Shows(ring, collapsed, depth, [s] + below, row) <==>
            below[0].parent == Some(s.id) && s.id !in collapsed && Shows(ring, collapsed, depth + 1, below, row)
  {
    hide Nonempty;
    var path := [s] + below;
    forall i | 2 <= i < |path| ensures Opens(collapsed, path, i) == Opens(collapsed, below, i - 1) {}
    assert Opens(collapsed, path, 1) <==> below[0].parent == Some(s.id) && s.id !in collapsed;
    if Trail(ring, collapsed, path) {
      forall i | 0 <= i < |below| ensures below[i] in ring { assert path[i + 1] in ring; }
      forall i | 1 <= i < |below| ensures Opens(collapsed, below, i) { assert Opens(collapsed, path, i + 1); }
    }
    assert path[|path| - 1] == below[|below| - 1];
  }

  lemma {:induction false} RowHasTrail(ring: seq<WireSpan>, collapsed: set<nat>, s: WireSpan, depth: nat, row: TraceRow)
    returns (path: seq<WireSpan>)
    requires Tree(ring) && s in ring && row in Walk(ring, collapsed, s, depth)
    ensures Shows(ring, collapsed, depth, path, row) && path[0] == s
    decreases |ring| - Pos(ring, s)
  {
    hide Walk, WalkItems, ItemsOf, Shows, Ordered, DistinctIds, Nonempty, OwnRow;
    path := [s];
    ShowsOne(ring, collapsed, depth, s, row);
    WalkHas(ring, collapsed, s, depth, row);
    if row != OwnRow(ring, collapsed, s, depth) {
      var x :| x in ItemsOf(ring, s) && row in Block(ring, collapsed, s, x, depth + 1);
      ItemsAre(ring, s, x);
      if x.ChildAt? {
        var below := RowHasTrail(ring, collapsed, KidOf(ring, s, x), depth + 1, row);
        ShowsNonempty(ring, collapsed, depth + 1, below, row);
        ShowsCons(ring, collapsed, depth, s, below, row);
        path := [s] + below;
      }
    }
  }

  lemma ShowsNonempty(ring: seq<WireSpan>, collapsed: set<nat>, depth: nat, path: seq<WireSpan>, row: TraceRow)
    requires Shows(ring, collapsed, depth, path, row)
    ensures path != [] && forall i :: 0 <= i < |path| ==> path[i] in ring
  {
  }

  lemma SameSpan(ring: seq<WireSpan>, s: WireSpan, t: WireSpan)
    requires DistinctIds(ring) && s in ring && t in ring && s.id == t.id
    ensures s == t
  {
    assert ring[Pos(ring, s)].id == ring[Pos(ring, t)].id;
  }

  lemma {:induction false} TrailHasRow(ring: seq<WireSpan>, collapsed: set<nat>, depth: nat, path: seq<WireSpan>,
                                       row: TraceRow)
    requires Tree(ring) && Shows(ring, collapsed, depth, path, row)
    ensures path[0] in ring && row in Walk(ring, collapsed, path[0], depth)
    decreases |path|
  {
    hide Walk, WalkItems, ItemsOf, Shows, Ordered, DistinctIds, Nonempty, OwnRow;
    ShowsNonempty(ring, collapsed, depth, path, row);
    var s := path[0];
    WalkHas(ring, collapsed, s, depth, row);
    if |path| == 1 {
      ShowsOne(ring, collapsed, depth, s, row);
      assert path == [s];
      if row != OwnRow(ring, collapsed, s, depth) {
        var x := EventAt(row.idx, s.events[row.idx]);
        ItemsAre(ring, s, x);
        assert row in Block(ring, collapsed, s, x, depth + 1);
      }
    } else {
      var u, below := path[1], path[1..];
      assert path == [s] + below;
      ShowsCons(ring, collapsed, depth, s, below, row);
      TrailHasRow(ring, collapsed, depth + 1, below, row);
      var x := ChildAt(u.id, u.openedAt);
      assert IsKid(ring, s.id, x);
      ItemsAre(ring, s, x);
      SameSpan(ring, u, KidOf(ring, s, x));
      assert row in Block(ring, collapsed, s, x, depth + 1);
    }
  }

  /** The rows are exactly the spans and events reachable through expanded spans, each at its
      distance from the root. */
  lemma RowsAreTheTrails(ring: seq<WireSpan>, collapsed: set<nat>, root: WireSpan, row: TraceRow)
    requires Tree(ring) && root in ring
    ensures row in Walk(ring, collapsed, root, 0)
            <==> exists path :: Shows(ring, collapsed, 0, path, row) && path[0] == root
  {
    if row in Walk(ring, collapsed, root, 0) {
      var path := RowHasTrail(ring, collapsed, root, 0, row);
    }
    if path :| Shows(ring, collapsed, 0, path, row) && path[0] == root {
      TrailHasRow(ring, collapsed, 0, path, row);
    }
  }

  /** Shown, spelt out: a way down inside the ring, each span the parent of the next, none but the last
      possibly collapsed; a span's row at its end, or a row for an event of its end if that one is not
      collapsed. */
  lemma ShowsIs(ring: seq<WireSpan>, collapsed: set<nat>, depth: nat, path: seq<WireSpan>, row: TraceRow)
    ensures Shows(ring, collapsed, depth, path, row) <==>
      && path != []
      && (forall i :: 0 <= i < |path| ==> path[i] in ring)
      && (forall i, j :: 0 <= i < |path| && j == i + 1 && j < |path| ==>
            path[j].parent == Some(path[i].id) && path[i].id !in collapsed)
      && var end := path[|path| - 1];
         match row
         case SpanRow(id, d, hasChildren, expanded) =>
           && id == end.id && d + 1 == depth + |path| && (expanded <==> end.id !in collapsed)
           && (hasChildren <==> end.events != [] || exists u :: u in ring && u.parent == Some(end.id))
         case EventRow(parentId, idx, d) =>
           parentId == end.id && end.id !in collapsed && idx < |end.events| && d == depth + |path|
  {
    if Trail(ring, collapsed, path) {
      forall i, j | 0 <= i < |path| && j == i + 1 && j < |path|
        ensures path[j].parent == Some(path[i].id) && path[i].id !in collapsed
      {
        assert Opens(collapsed, path, j);
      }
    }
    if forall i, j :: 0 <= i < |path| && j == i + 1 && j < |path| ==>
         path[j].parent == Some(path[i].id) && path[i].id !in collapsed {
      forall i | 1 <= i < |path| ensures Opens(collapsed, path, i) {
        var above: nat := i - 1;
        assert path[i].parent == Some(path[above].id) && path[above].id !in collapsed;
      }
    }
  }

  // ── Every row once ──

  predicate SameThing(a: TraceRow, b: TraceRow) {
    if a.SpanRow? then b.SpanRow? && a.id == b.id
    else b.EventRow? && a.parentId == b.parentId && a.idx == b.idx
  }

  ghost predicate Once(rows: seq<TraceRow>) {
    forall i, j :: 0 <= i < j < |rows| ==> !SameThing(rows[i], rows[j])
  }

  lemma OnceConcat(a: seq<TraceRow>, b: seq<TraceRow>)
    requires Once(a) && Once(b) && forall x, y :: x in a && y in b ==> !SameThing(x, y)
    ensures Once(a + b)
  {
    hide SameThing;
    var ab := a + b;
    forall i, j | 0 <= i < j < |ab| ensures !SameThing(ab[i], ab[j]) {
      if i < |a| && j >= |a| {
        assert ab[i] in a && ab[j] in b;
      }
    }
  }

  /** A trail only moves right in the ring. */
  lemma {:induction false} TrailIsLater(ring: seq<WireSpan>, collapsed: set<nat>, path: seq<WireSpan>, k: nat)
    requires Tree(ring) && Trail(ring, collapsed, path) && k < |path|
    ensures Pos(ring, path[0]) <= Pos(ring, path[k])
  {
    if k == 0 {
    } else {
      TrailIsLater(ring, collapsed, path, k - 1);
      assert Opens(collapsed, path, k);
      KidIsLater(ring, path[k - 1], path[k]);
    }
  }

  /** Two trails to the same span share their ends. */
  lemma {:induction false} TrailsMeet(ring: seq<WireSpan>, collapsed: set<nat>, p: seq<WireSpan>, q: seq<WireSpan>,
                                      k: nat)
    requires DistinctIds(ring) && Trail(ring, collapsed, p) && Trail(ring, collapsed, q)
    requires |p| <= |q| && p[|p| - 1] == q[|q| - 1] && k < |p|
    ensures p[|p| - 1 - k] == q[|q| - 1 - k]
  {
    if k == 0 {
    } else {
      TrailsMeet(ring, collapsed, p, q, k - 1);
      assert Opens(collapsed, p, |p| - k) && Opens(collapsed, q, |q| - k);
      SameSpan(ring, p[|p| - 1 - k], q[|q| - 1 - k]);
    }
  }

  /** Trails from two children of one span end apart, unless the children are one. */
  lemma SiblingsPart(ring: seq<WireSpan>, collapsed: set<nat>, s: WireSpan, p: seq<WireSpan>, q: seq<WireSpan>)
    requires Tree(ring) && s in ring && Trail(ring, collapsed, p) && Trail(ring, collapsed, q) && |p| <= |q|
    requires p[0].parent == Some(s.id) && q[0].parent == Some(s.id) && p[|p| - 1] == q[|q| - 1]
    ensures p[0] == q[0]
  {
    TrailsMeet(ring, collapsed, p, q, |p| - 1);
    var k := |q| - |p|;
    if k > 0 {
      assert Opens(collapsed, q, k);
      SameSpan(ring, q[k - 1], s);
      TrailIsLater(ring, collapsed, q, k - 1);
      KidIsLater(ring, s, q[0]);
    }
  }

  /** What stands below a child is neither the parent itself nor one of its events. */
  lemma BelowIsNotAbove(ring: seq<WireSpan>, collapsed: set<nat>, s: WireSpan, c: WireSpan, depth: nat, row: TraceRow)
    requires Tree(ring) && s in ring && c in ring && c.parent == Some(s.id) && row in Walk(ring, collapsed, c, depth)
    ensures (if row.SpanRow? then row.id else row.parentId) != s.id
  {
    hide Walk, Nonempty;
    var path := RowHasTrail(ring, collapsed, c, depth, row);
    var t := path[|path| - 1];
    if t.id == s.id {
      SameSpan(ring, s, t);
      TrailIsLater(ring, collapsed, path, |path| - 1);
      KidIsLater(ring, s, c);
    }
  }

  lemma BlocksPart(ring: seq<WireSpan>, collapsed: set<nat>, s: WireSpan, x: Item, y: Item, depth: nat,
                   a: TraceRow, b: TraceRow)
    requires Tree(ring) && s in ring && x in ItemsOf(ring, s) && y in ItemsOf(ring, s) && x != y
    requires AllKids(ring, s, ItemsOf(ring, s))
    requires a in Block(ring, collapsed, s, x, depth) && b in Block(ring, collapsed, s, y, depth)
    ensures !SameThing(a, b)
  {
    hide Walk, ItemsOf, Nonempty, Ordered, DistinctIds;
    ItemsAre(ring, s, x);
    ItemsAre(ring, s, y);
    if x.ChildAt? {
      BelowIsNotAbove(ring, collapsed, s, KidOf(ring, s, x), depth, a);
    }
    if y.ChildAt? {
      BelowIsNotAbove(ring, collapsed, s, KidOf(ring, s, y), depth, b);
    }
    if x.ChildAt? && y.ChildAt? && SameThing(a, b) {
      var p := RowHasTrail(ring, collapsed, KidOf(ring, s, x), depth, a);
      var q := RowHasTrail(ring, collapsed, KidOf(ring, s, y), depth, b);
      SameSpan(ring, p[|p| - 1], q[|q| - 1]);
      if |p| <= |q| {
        SiblingsPart(ring, collapsed, s, p, q);
      } else {
        SiblingsPart(ring, collapsed, s, q, p);
      }
    }
  }

  lemma {:induction false} ItemsOnce(ring: seq<WireSpan>, collapsed: set<nat>, s: WireSpan, items: seq<Item>,
                                     depth: nat)
    requires Tree(ring) && s in ring && AllKids(ring, s, items) && AllKids(ring, s, ItemsOf(ring, s))
    requires forall x :: x in items ==> x in ItemsOf(ring, s) && multiset(items)[x] == 1
    requires forall x :: x in items ==> Once(Block(ring, collapsed, s, x, depth))
    ensures Once(WalkItems(ring, collapsed, s, items, depth))
    decreases |items|
  {
    hide Block, ItemsOf, Once, IsKid, Ordered, DistinctIds, SameThing;
    if items == [] {
      OnceNone();
    } else {
      var x, rest := items[0], items[1..];
      assert items == [x] + rest;
      assert x !in rest && forall y :: y in rest ==> y in items && multiset(items)[y] == 1;
      ItemsOnce(ring, collapsed, s, rest, depth);
      var here, more := Block(ring, collapsed, s, x, depth), WalkItems(ring, collapsed, s, rest, depth);
      forall a, b | a in here && b in more ensures !SameThing(a, b) {
        ItemsHave(ring, collapsed, s, rest, depth, b);
        var y :| y in rest && b in Block(ring, collapsed, s, y, depth);
        BlocksPart(ring, collapsed, s, x, y, depth, a, b);
      }
      OnceConcat(here, more);
    }
  }

  lemma OnceNone()
    ensures Once([]) && forall r :: Once([r])
  {
  }

  /** No span and no event is listed twice. */
  lemma {:induction false} ListedOnce(ring: seq<WireSpan>, collapsed: set<nat>, s: WireSpan, depth: nat)
    requires Tree(ring) && s in ring
    ensures Once(Walk(ring, collapsed, s, depth))
    decreases |ring| - Pos(ring, s)
  {
    hide ItemsOf, Once, Ordered, DistinctIds, WalkItems;
    OnceNone();
    ItemsAreKids(ring, s);
    if s.id !in collapsed {
      var items := ItemsOf(ring, s);
      forall x | x in items ensures multiset(items)[x] == 1 && Once(Block(ring, collapsed, s, x, depth + 1)) {
        ItemsAre(ring, s, x);
        if x.ChildAt? {
          ListedOnce(ring, collapsed, KidOf(ring, s, x), depth + 1);
        }
      }
      ItemsOnce(ring, collapsed, s, items, depth + 1);
      var below := WalkItems(ring, collapsed, s, items, depth + 1);
      var own := SpanRow(s.id, depth, items != [], true);
      forall x, y | x in [own] && y in below ensures !SameThing(x, y) {
        ItemsHave(ring, collapsed, s, items, depth + 1, y);
        var i :| i in items && y in Block(ring, collapsed, s, i, depth + 1);
        if i.ChildAt? {
          BelowIsNotAbove(ring, collapsed, s, KidOf(ring, s, i), depth + 1, y);
        }
      }
      OnceConcat([own], below);
      assert Walk(ring, collapsed, s, depth) == [own] + below;
    } else {
      assert Walk(ring, collapsed, s, depth) == [SpanRow(s.id, depth, ItemsOf(ring, s) != [], false)];
    }
  }

  // ── In preorder, siblings by time ──

  ghost predicate ParentIs(ring: seq<WireSpan>, row: TraceRow, p: nat) {
    if row.EventRow? then row.parentId == p
    else exists u :: u in ring && u.id == row.id && u.parent == Some(p)
  }

  /** Row `j` is the parent's row of row `i`, and nothing between them is shallower than `i`. */
  ghost predicate Heads(ring: seq<WireSpan>, rows: seq<TraceRow>, j: nat, i: nat)
    requires j < i < |rows|
  {
    && rows[j].SpanRow? && rows[j].depth + 1 == rows[i].depth && ParentIs(ring, rows[i], rows[j].id)
    && forall k :: j < k < i ==> rows[k].depth >= rows[i].depth
  }

  ghost predicate Headed(ring: seq<WireSpan>, rows: seq<TraceRow>, i: nat)
    requires i < |rows|
  {
    exists j :: 0 <= j < i && Heads(ring, rows, j, i)
  }

  /** Top rows, at depth `d`, are children of `p`; every deeper row is headed by its parent's. */
  ghost predicate Nested(ring: seq<WireSpan>, p: nat, rows: seq<TraceRow>, d: nat) {
    forall i :: 0 <= i < |rows| ==>
      && rows[i].depth >= d
      && if rows[i].depth == d then ParentIs(ring, rows[i], p) else Headed(ring, rows, i)
  }

  lemma HeadedIn(ring: seq<WireSpan>, before: seq<TraceRow>, rows: seq<TraceRow>, after: seq<TraceRow>, i: nat)
    requires i < |rows| && Headed(ring, rows, i)
    ensures Headed(ring, before + rows + after, |before| + i)
  {
    hide ParentIs;
    var j: nat :| j < i && Heads(ring, rows, j, i);
    var all := before + rows + after;
    assert all[|before| + i] == rows[i] && all[|before| + j] == rows[j];
    forall k | |before| + j < k < |before| + i ensures all[k].depth >= rows[i].depth {
      assert all[k] == rows[k - |before|];
    }
    assert Heads(ring, all, |before| + j, |before| + i);
  }

  lemma NestConcat(ring: seq<WireSpan>, p: nat, a: seq<TraceRow>, b: seq<TraceRow>, d: nat)
    requires Nested(ring, p, a, d) && Nested(ring, p, b, d)
    ensures Nested(ring, p, a + b, d)
  {
    hide Headed, ParentIs;
    var ab := a + b;
    assert [] + a + b == ab && a + b + [] == ab;
    forall i | 0 <= i < |ab|
      ensures ab[i].depth >= d && if ab[i].depth == d then ParentIs(ring, ab[i], p) else Headed(ring, ab, i)
    {
      if ab[i].depth != d {
        if i < |a| {
          HeadedIn(ring, [], a, b, i);
        } else {
          HeadedIn(ring, a, b, [], i - |a|);
        }
      }
    }
  }

  lemma NestUnder(ring: seq<WireSpan>, p: nat, own: TraceRow, below: seq<TraceRow>, d: nat)
    requires own.SpanRow? && own.depth == d && Nested(ring, own.id, below, d + 1)
    ensures forall i :: 1 <= i < 1 + |below| ==> Headed(ring, [own] + below, i)
    ensures ParentIs(ring, own, p) ==> Nested(ring, p, [own] + below, d)
  {
    hide ParentIs, Headed;
    var all := [own] + below;
    forall i | 1 <= i < |all| ensures Headed(ring, all, i) {
      assert all[i] == below[i - 1];
      if below[i - 1].depth == d + 1 {
        TopIsHeaded(ring, own, below, i);
      } else {
        assert [own] + below + [] == all;
        HeadedIn(ring, [own], below, [], i - 1);
      }
    }
    if ParentIs(ring, own, p) {
      forall i | 0 <= i < |all|
        ensures all[i].depth >= d && if all[i].depth == d then ParentIs(ring, all[i], p) else Headed(ring, all, i)
      {
        assert i > 0 ==> all[i] == below[i - 1];
      }
    }
  }

  lemma TopIsHeaded(ring: seq<WireSpan>, own: TraceRow, below: seq<TraceRow>, i: nat)
    requires own.SpanRow? && 1 <= i < 1 + |below| && below[i - 1].depth == own.depth + 1
    requires ParentIs(ring, below[i - 1], own.id) && forall k :: 0 <= k < |below| ==> below[k].depth > own.depth
    ensures Headed(ring, [own] + below, i)
  {
    hide ParentIs;
    var all := [own] + below;
    forall k | 0 < k < i ensures all[k].depth >= own.depth + 1 {
      assert all[k] == below[k - 1];
    }
    assert Heads(ring, all, 0, i);
  }

  function TimeOf(ring: seq<WireSpan>, row: TraceRow): nat {
    match row
    case SpanRow(id, _, _, _) => if id in ById(ring) then ById(ring)[id].openedAt else 0
    case EventRow(p, idx, _) => if p in ById(ring) && idx < |ById(ring)[p].events| then ById(ring)[p].events[idx] else 0
  }

  ghost predicate NoneShallower(rows: seq<TraceRow>, i: nat, j: nat)
    requires i < j < |rows|
  {
    forall k :: i < k < j ==> rows[k].depth >= rows[i].depth
  }

  /** Siblings, that is rows of one depth with nothing shallower between, stand by time. */
  ghost predicate SiblingsByTime(ring: seq<WireSpan>, rows: seq<TraceRow>) {
    forall i, j :: 0 <= i < j < |rows| && rows[i].depth == rows[j].depth && NoneShallower(rows, i, j) ==>
      TimeOf(ring, rows[i]) <= TimeOf(ring, rows[j])
  }

  ghost predicate NoTopBefore(ring: seq<WireSpan>, rows: seq<TraceRow>, d: nat, t: nat) {
    && (rows != [] ==> rows[0].depth == d)
    && forall i :: 0 <= i < |rows| ==> rows[i].depth >= d && (rows[i].depth == d ==> TimeOf(ring, rows[i]) >= t)
  }

  /** One item's rows: its own at the top, the rest deeper. */
  ghost predicate Topped(rows: seq<TraceRow>, d: nat) {
    rows != [] && rows[0].depth == d && forall i :: 1 <= i < |rows| ==> rows[i].depth > d
  }

  lemma SiblingsConcat(ring: seq<WireSpan>, a: seq<TraceRow>, b: seq<TraceRow>, d: nat)
    requires SiblingsByTime(ring, a) && SiblingsByTime(ring, b) && Topped(a, d)
    requires NoTopBefore(ring, b, d, TimeOf(ring, a[0]))
    ensures SiblingsByTime(ring, a + b)
  {
    hide TimeOf;
    var ab := a + b;
    forall i, j | 0 <= i < j < |ab| && ab[i].depth == ab[j].depth && NoneShallower(ab, i, j)
      ensures TimeOf(ring, ab[i]) <= TimeOf(ring, ab[j])
    {
      if j < |a| {
        forall k | i < k < j ensures a[k].depth >= a[i].depth { assert ab[k] == a[k]; }
        assert NoneShallower(a, i, j);
      } else if i >= |a| {
        var i', j' := i - |a|, j - |a|;
        forall k | i' < k < j' ensures b[k].depth >= b[i'].depth { assert ab[|a| + k] == b[k]; }
        assert NoneShallower(b, i', j');
      } else {
        assert ab[|a|] == b[0];
        assert ab[i].depth <= d;
      }
    }
  }

  lemma SiblingsUnder(ring: seq<WireSpan>, own: TraceRow, below: seq<TraceRow>)
    requires SiblingsByTime(ring, below) && forall i :: 0 <= i < |below| ==> below[i].depth > own.depth
    ensures SiblingsByTime(ring, [own] + below) && Topped([own] + below, own.depth)
  {
    hide TimeOf;
    var all := [own] + below;
    forall i, j | 0 <= i < j < |all| && all[i].depth == all[j].depth && NoneShallower(all, i, j)
      ensures TimeOf(ring, all[i]) <= TimeOf(ring, all[j])
    {
      assert all[j] == below[j - 1];
      if i > 0 {
        forall k | i - 1 < k < j - 1 ensures below[k].depth >= below[i - 1].depth { assert all[k + 1] == below[k]; }
        assert NoneShallower(below, i - 1, j - 1);
      }
    }
  }

  /** What the proof carries for one item's rows. */
  ghost predicate Shaped(ring: seq<WireSpan>, p: nat, rows: seq<TraceRow>, d: nat, t: nat) {
    Nested(ring, p, rows, d) && SiblingsByTime(ring, rows) && Topped(rows, d) && TimeOf(ring, rows[0]) == t
  }

  lemma RestIsLater(items: seq<Item>)
    requires TimeOrdered(items) && items != []
    ensures TimeOrdered(items[1..]) && (items[1..] != [] ==> items[0].at <= items[1..][0].at)
  {
  }

  lemma ShapedParts(ring: seq<WireSpan>, p: nat, rows: seq<TraceRow>, d: nat, t: nat)
    requires Shaped(ring, p, rows, d, t)
    ensures Nested(ring, p, rows, d) && SiblingsByTime(ring, rows) && Topped(rows, d) && TimeOf(ring, rows[0]) == t
  {
  }

  /** A block before later blocks: no top row is earlier than the block's own. */
  lemma TopsConcat(ring: seq<WireSpan>, here: seq<TraceRow>, more: seq<TraceRow>, d: nat, t: nat, later: nat)
    requires Topped(here, d) && TimeOf(ring, here[0]) == t
    requires t <= later && (more == [] || NoTopBefore(ring, more, d, later))
    ensures NoTopBefore(ring, more, d, t) && NoTopBefore(ring, here + more, d, t)
  {
    hide TimeOf;
    var rows := here + more;
    forall i | 0 <= i < |rows|
      ensures rows[i].depth >= d && (rows[i].depth == d ==> TimeOf(ring, rows[i]) >= t)
    {
      if i >= |here| {
        assert rows[i] == more[i - |here|];
      }
    }
  }

  lemma {:induction false} ItemsShaped(ring: seq<WireSpan>, collapsed: set<nat>, s: WireSpan, items: seq<Item>, d: nat)
    requires Tree(ring) && s in ring && AllKids(ring, s, items) && TimeOrdered(items)
    requires forall x :: x in items ==> Shaped(ring, s.id, Block(ring, collapsed, s, x, d), d, x.at)
    ensures var rows := WalkItems(ring, collapsed, s, items, d);
            && Nested(ring, s.id, rows, d) && SiblingsByTime(ring, rows)
            && NoTopBefore(ring, rows, d, if items == [] then 0 else items[0].at)
    decreases |items|
  {
    hide Block, Tree, IsKid, TimeOf, SiblingsByTime, Nested, NoTopBefore, Shaped, TimeOrdered;
    if items == [] {
      ShapedNone(ring, s.id, d);
    } else {
      var x, rest := items[0], items[1..];
      assert items == [x] + rest;
      RestIsLater(items);
      ItemsShaped(ring, collapsed, s, rest, d);
      var here, more := Block(ring, collapsed, s, x, d), WalkItems(ring, collapsed, s, rest, d);
      assert Shaped(ring, s.id, here, d, x.at);
      ShapedParts(ring, s.id, here, d, x.at);
      TopsConcat(ring, here, more, d, x.at, if rest == [] then x.at else rest[0].at);
      NestConcat(ring, s.id, here, more, d);
      SiblingsConcat(ring, here, more, d);
    }
  }

  lemma ShapedNone(ring: seq<WireSpan>, p: nat, d: nat)
    ensures Nested(ring, p, [], d) && SiblingsByTime(ring, []) && NoTopBefore(ring, [], d, 0)
  {
  }

  lemma NestedIsDeep(ring: seq<WireSpan>, p: nat, rows: seq<TraceRow>, d: nat)
    requires Nested(ring, p, rows, d)
    ensures forall i :: 0 <= i < |rows| ==> rows[i].depth >= d
  {
  }

  lemma EventShaped(ring: seq<WireSpan>, s: WireSpan, idx: nat, d: nat)
    requires DistinctIds(ring) && s in ring && idx < |s.events|
    ensures Shaped(ring, s.id, [EventRow(s.id, idx, d)], d, s.events[idx])
  {
    ByIdFinds(ring);
  }

  lemma SpanShaped(ring: seq<WireSpan>, c: WireSpan, own: TraceRow, below: seq<TraceRow>, p: nat)
    requires DistinctIds(ring) && c in ring && own.SpanRow? && own.id == c.id && c.parent == Some(p)
    requires Nested(ring, c.id, below, own.depth + 1) && SiblingsByTime(ring, below)
    ensures Shaped(ring, p, [own] + below, own.depth, c.openedAt)
  {
    hide Nested, SiblingsByTime;
    ByIdFinds(ring);
    NestedIsDeep(ring, c.id, below, own.depth + 1);
    NestUnder(ring, p, own, below, own.depth);
    SiblingsUnder(ring, own, below);
  }

  lemma {:induction false} BelowIsShaped(ring: seq<WireSpan>, collapsed: set<nat>, s: WireSpan, d: nat)
    requires Tree(ring) && s in ring
    ensures AllKids(ring, s, ItemsOf(ring, s))
    ensures var rows := WalkItems(ring, collapsed, s, ItemsOf(ring, s), d);
            Nested(ring, s.id, rows, d) && SiblingsByTime(ring, rows)
    decreases |ring| - Pos(ring, s)
  {
    hide ItemsOf, Ordered, DistinctIds, WalkItems, Shaped, Nested, SiblingsByTime, TimeOrdered;
    ItemsAreKids(ring, s);
    var items := ItemsOf(ring, s);
    forall x | x in items ensures Shaped(ring, s.id, Block(ring, collapsed, s, x, d), d, x.at) {
      ItemsAre(ring, s, x);
      if x.EventAt? {
        EventShaped(ring, s, x.idx, d);
      } else {
        var c := KidOf(ring, s, x);
        BelowIsShaped(ring, collapsed, c, d + 1);
        var own := SpanRow(c.id, d, ItemsOf(ring, c) != [], c.id !in collapsed);
        ShapedNone(ring, c.id, d + 1);
        var below := if c.id in collapsed then [] else WalkItems(ring, collapsed, c, ItemsOf(ring, c), d + 1);
        SpanShaped(ring, c, own, below, s.id);
        assert Block(ring, collapsed, s, x, d) == [own] + below;
      }
    }
    ItemsAre(ring, s, EventAt(0, 0));
    ItemsShaped(ring, collapsed, s, items, d);
  }

  /** The list is a preorder: the root first, every other row below its parent's row with nothing
      shallower in between, siblings by time. */
  lemma RowsAreInPreorder(ring: seq<WireSpan>, collapsed: set<nat>, root: WireSpan)
    requires Tree(ring) && root in ring
    ensures var rows := Walk(ring, collapsed, root, 0);
            && rows != [] && rows[0] == OwnRow(ring, collapsed, root, 0)
            && (forall i :: 1 <= i < |rows| ==> Headed(ring, rows, i))
            && SiblingsByTime(ring, rows)
  {
    hide ItemsOf, Ordered, DistinctIds, WalkItems, Nested, SiblingsByTime, Headed, Nonempty;
    HasItems(ring, root);
    BelowIsShaped(ring, collapsed, root, 1);
    ShapedNone(ring, root.id, 1);
    var own := OwnRow(ring, collapsed, root, 0);
    var below := if root.id in collapsed then [] else WalkItems(ring, collapsed, root, ItemsOf(ring, root), 1);
    assert Walk(ring, collapsed, root, 0) == [own] + below;
    NestedIsDeep(ring, root.id, below, 1);
    NestUnder(ring, 0, own, below, 0);
    SiblingsUnder(ring, own, below);
  }

  /** Headed, spelt out: some earlier row is the parent span's, one level up, and no row in between is
      shallower. */
  lemma HeadedIs(ring: seq<WireSpan>, rows: seq<TraceRow>, i: nat)
    requires i < |rows| && Headed(ring, rows, i)
    ensures exists j ::
      && 0 <= j < i && rows[j].SpanRow? && rows[j].depth + 1 == rows[i].depth
      && (rows[i].EventRow? ==> rows[i].parentId == rows[j].id)
      && (rows[i].SpanRow? ==> exists u :: u in ring && u.id == rows[i].id && u.parent == Some(rows[j].id))
      && forall k :: j < k < i ==> rows[k].depth >= rows[i].depth
  {
    var j: nat :| j < i && Heads(ring, rows, j, i);
    assert rows[j].SpanRow? && ParentIs(ring, rows[i], rows[j].id);
  }

  /** Siblings, spelt out: rows of one depth with nothing shallower between stand by opening time or by
      the event's own time. */
  lemma SiblingsAre(ring: seq<WireSpan>, rows: seq<TraceRow>, i: nat, j: nat, s: WireSpan, t: WireSpan)
    requires DistinctIds(ring) && SiblingsByTime(ring, rows) && i < j < |rows| && rows[i].depth == rows[j].depth
    requires (forall k :: i < k < j ==> rows[k].depth >= rows[i].depth) && s in ring && t in ring
    requires s.id == if rows[i].SpanRow? then rows[i].id else rows[i].parentId
    requires t.id == if rows[j].SpanRow? then rows[j].id else rows[j].parentId
    requires rows[i].EventRow? ==> rows[i].idx < |s.events|
    requires rows[j].EventRow? ==> rows[j].idx < |t.events|
    ensures (if rows[i].SpanRow? then s.openedAt else s.events[rows[i].idx])
            <= (if rows[j].SpanRow? then t.openedAt else t.events[rows[j].idx])
  {
    hide DistinctIds;
    ByIdFinds(ring);
    assert NoneShallower(rows, i, j);
  }

  /** At one instant a span's events come first, in the order they were emitted, then its children, in
      the order of the ring. */
  lemma TiesAre(ring: seq<WireSpan>, s: WireSpan, t: nat)
    ensures Instant(ItemsOf(ring, s), t) == Instant(EventItems(s), t) + Instant(Kids(ring, s.id), t)
  {
    hide Instant;
    var sorted := SortByTime(Kids(ring, s.id));
    SortIsStable(Kids(ring, s.id));
    SortIsStable(EventItems(s) + sorted);
    InstantConcat(EventItems(s), sorted, t);
  }

  lemma {:induction false} InstantConcat(a: seq<Item>, b: seq<Item>, t: nat)
    ensures Instant(a + b, t) == Instant(a, t) + Instant(b, t)
    decreases |b|
  {
    if b == [] {
      assert a + b == a;
    } else {
      assert (a + b)[..|a + b| - 1] == a + b[..|b| - 1];
      InstantConcat(a, b[..|b| - 1], t);
    }
  }

  /** Events stand by index, children by their place in the ring. */
  lemma EventItemIs(s: WireSpan, i: nat)
    requires i < |s.events|
    ensures |EventItems(s)| == |s.events| && EventItems(s)[i] == EventAt(i, s.events[i])
  {
  }

  lemma KidsNext(ring: seq<WireSpan>, s: WireSpan, p: nat)
    ensures Kids([], p) == []
    ensures Kids(ring + [s], p) == Kids(ring, p) + if s.parent == Some(p) then [ChildAt(s.id, s.openedAt)] else []
  {
    assert (ring + [s])[..|ring|] == ring;
  }

  // ── The walk as the console does it ──

  function KidsIn(byParent: map<nat, seq<Item>>, p: nat): seq<Item> {
    if p in byParent then byParent[p] else []
  }

  lemma IndexNone()
    ensures ById([]) == map[] && forall p :: Kids([], p) == []
  {
  }

  lemma IndexSnoc(ring: seq<WireSpan>, s: WireSpan)
    ensures ById(ring + [s]) == ById(ring)[s.id := s]
    ensures forall p: nat :: Kids(ring + [s], p)
                        == Kids(ring, p) + if s.parent == Some(p) then [ChildAt(s.id, s.openedAt)] else []
  {
    assert (ring + [s])[..|ring|] == ring;
  }

  method IndexRing(ring: seq<WireSpan>) returns (byParent: map<nat, seq<Item>>, byId: map<nat, WireSpan>)
    ensures byId == ById(ring) && forall p :: KidsIn(byParent, p) == Kids(ring, p)
  {
    hide ById, Kids;
    byParent, byId := map[], map[];
    IndexNone();
    for i := 0 to |ring|
      invariant byId == ById(ring[..i]) && forall p :: KidsIn(byParent, p) == Kids(ring[..i], p)
    {
      var s := ring[i];
      assert ring[..i + 1] == ring[..i] + [s];
      IndexSnoc(ring[..i], s);
      byId := byId[s.id := s];
      if s.parent.Some? {
        byParent := byParent[s.parent.value := KidsIn(byParent, s.parent.value) + [ChildAt(s.id, s.openedAt)]];
      }
    }
    assert ring[..|ring|] == ring;
  }

  /** The children index after each list is sorted by opening time. */
  ghost predicate SortedKids(byParent: map<nat, seq<Item>>, ring: seq<WireSpan>) {
    forall p :: KidsIn(byParent, p) == SortByTime(Kids(ring, p))
  }

  method WalkTrace(acc: seq<TraceRow>, span: WireSpan, depth: nat, byParent: map<nat, seq<Item>>,
                   byId: map<nat, WireSpan>, collapsed: set<nat>, ghost ring: seq<WireSpan>)
    returns (out: seq<TraceRow>)
    requires Tree(ring) && span in ring && byId == ById(ring) && SortedKids(byParent, ring)
    ensures out == acc + Walk(ring, collapsed, span, depth)
    decreases |ring| - Pos(ring, span)
  {
    hide SortByTime, Ordered, DistinctIds, Kids, IsKid, AllKids, Walk, WalkItems, ById;
    var kids := KidsIn(byParent, span.id);
    var expanded := span.id !in collapsed;
    var items := SortByTime(EventItems(span) + kids);
    KidsMakeItems(span, kids);
    out := acc + [SpanRow(span.id, depth, kids != [] || span.events != [], expanded)];
    ghost var start := out;
    WalkUnfolds(ring, collapsed, span, depth);
    if !expanded {
      return;
    }
    for i := 0 to |items|
      invariant AllKids(ring, span, items[i..])
      invariant out + WalkItems(ring, collapsed, span, items[i..], depth + 1)
             == start + WalkItems(ring, collapsed, span, items, depth + 1)
    {
      ItemsUnfold(ring, collapsed, span, items, i, depth + 1);
      ghost var before := out;
      match items[i] {
        case EventAt(idx, _) =>
          out := out + [EventRow(span.id, idx, depth + 1)];
        case ChildAt(id, _) =>
          KidIsKnown(ring, span, items[i]);
          if id in byId {
            out := WalkTrace(out, byId[id], depth + 1, byParent, byId, collapsed, ring);
          }
      }
      assert out == before + Block(ring, collapsed, span, items[i], depth + 1);
    }
    NoItemsLeft(ring, collapsed, span, items, depth + 1);
    ghost var below := WalkItems(ring, collapsed, span, items, depth + 1);
    assert out + [] == out == start + below;
    assert start + below == acc + ([start[|acc|]] + below);
  }

  lemma WalkUnfolds(ring: seq<WireSpan>, collapsed: set<nat>, s: WireSpan, depth: nat)
    requires Tree(ring) && s in ring
    ensures var items := ItemsOf(ring, s);
            && AllKids(ring, s, items) && items[0..] == items
            && Walk(ring, collapsed, s, depth)
               == [SpanRow(s.id, depth, items != [], s.id !in collapsed)]
                  + if s.id in collapsed then [] else WalkItems(ring, collapsed, s, items, depth + 1)
  {
    hide ItemsOf, WalkItems, IsKid;
    ItemsAreKids(ring, s);
  }

  lemma ItemsUnfold(ring: seq<WireSpan>, collapsed: set<nat>, s: WireSpan, items: seq<Item>, i: nat, depth: nat)
    requires Tree(ring) && s in ring && i < |items| && AllKids(ring, s, items[i..])
    ensures AllKids(ring, s, items[i + 1..]) && (items[i].ChildAt? ==> IsKid(ring, s.id, items[i]))
    ensures WalkItems(ring, collapsed, s, items[i..], depth)
            == Block(ring, collapsed, s, items[i], depth) + WalkItems(ring, collapsed, s, items[i + 1..], depth)
  {
    hide Block, IsKid;
    assert items[i..][0] == items[i] && items[i..][1..] == items[i + 1..] && items[i] in items[i..];
  }

  lemma NoItemsLeft(ring: seq<WireSpan>, collapsed: set<nat>, s: WireSpan, items: seq<Item>, depth: nat)
    requires Tree(ring) && s in ring
    ensures AllKids(ring, s, items[|items|..]) && WalkItems(ring, collapsed, s, items[|items|..], depth) == []
  {
  }

  lemma KidsMakeItems(s: WireSpan, kids: seq<Item>)
    ensures SortByTime(EventItems(s) + kids) != [] <==> kids != [] || s.events != []
  {
    SortIsStable(EventItems(s) + kids);
    assert |SortByTime(EventItems(s) + kids)| == |multiset(EventItems(s) + kids)|;
  }

  lemma KidIsKnown(ring: seq<WireSpan>, s: WireSpan, x: Item)
    requires Tree(ring) && s in ring && x.ChildAt? && IsKid(ring, s.id, x)
    ensures x.id in ById(ring) && ById(ring)[x.id] == KidOf(ring, s, x)
  {
    ByIdFinds(ring);
  }

  /** The rows of one trace over any ring a reachable aggregator can hold. */
  method VisibleTraceRows(ring: seq<WireSpan>, rootId: nat, collapsed: set<nat>) returns (rows: seq<TraceRow>)
    requires Tree(ring)
    ensures rootId !in IdSet(ring) ==> rows == []
    ensures forall root :: root in ring && root.id == rootId ==> rows == Walk(ring, collapsed, root, 0)
  {
    hide Ordered, DistinctIds, Kids;
    var byParent, byId := IndexRing(ring);
    var sorted := map p | p in byParent :: SortByTime(byParent[p]);
    ByIdFinds(ring);
    if rootId !in byId {
      return [];
    }
    rows := WalkTrace([], byId[rootId], 0, sorted, byId, collapsed, ring);
  }

  lemma ReachableRingIsTree(c: Core)
    requires Inv(c, [])
    ensures Tree(Ring(c))
  {
    hide Inv;
    RingOrdered(c);
    Reference.LogHasDistinctIds(c);
    SliceDistinct(c);
  }

  lemma SliceDistinct(c: Core)
    requires Inv(c, []) && DistinctIds(c.log)
    ensures DistinctIds(Ring(c))
  {
    hide ParentsFirst;
    forall i, j | 0 <= i < j < |Ring(c)| ensures Ring(c)[i].id != Ring(c)[j].id {
      assert c.log[c.start + i].id != c.log[c.start + j].id;
    }
  }

  // ── From a span to its trace's root ──

  const CLIMB_LIMIT: nat := 256

  ghost predicate LeadsTo(ring: seq<WireSpan>, path: seq<WireSpan>, id: nat, root: nat, limit: nat) {
    Path(ring, path) && path[0].id == id && path[|path| - 1].id == root && |path| <= limit
  }

  function Climbed(byId: map<nat, WireSpan>, id: nat, limit: nat): Option<nat>
    decreases limit
  {
    if limit == 0 || id !in byId then None
    else if byId[id].parent.None? then Some(id)
    else Climbed(byId, byId[id].parent.value, limit - 1)
  }

  lemma {:induction false} ClimbedHasPath(ring: seq<WireSpan>, id: nat, limit: nat) returns (path: seq<WireSpan>)
    requires DistinctIds(ring) && Climbed(ById(ring), id, limit).Some?
    ensures LeadsTo(ring, path, id, Climbed(ById(ring), id, limit).value, limit)
    decreases limit
  {
    ByIdFinds(ring);
    hide DistinctIds, ById;
    assert id in IdSet(ring);
    var s := ById(ring)[id];
    path := [s];
    if s.parent.Some? {
      var rest := ClimbedHasPath(ring, s.parent.value, limit - 1);
      path := [s] + rest;
      assert path[1..] == rest;
    }
  }

  lemma {:induction false} PathIsClimbed(ring: seq<WireSpan>, path: seq<WireSpan>, limit: nat)
    requires DistinctIds(ring) && Path(ring, path) && |path| <= limit
    ensures Climbed(ById(ring), path[0].id, limit) == Some(path[|path| - 1].id)
    decreases |path|
  {
    ByIdFinds(ring);
    hide DistinctIds, ById;
    assert path[0].id in IdSet(ring);
    if |path| > 1 {
      PathIsClimbed(ring, path[1..], limit - 1);
    }
  }

  /** Finds a root exactly when the whole chain is in the ring and at most 256 spans long. */
  method FindRootId(byId: map<nat, WireSpan>, spanId: nat, ghost ring: seq<WireSpan>) returns (root: Option<nat>)
    requires DistinctIds(ring) && byId == ById(ring)
    ensures root.Some? ==>
      exists path: seq<WireSpan> ::
        Path(ring, path) && path[0].id == spanId && path[|path| - 1].id == root.value && |path| <= 256
    ensures root.None? ==>
      forall path: seq<WireSpan> :: Path(ring, path) && path[0].id == spanId ==> |path| > 256
  {
    hide DistinctIds, ById;
    var cur := spanId;
    root := None;
    var i := 0;
    while i < CLIMB_LIMIT
      invariant i <= CLIMB_LIMIT && Climbed(byId, spanId, CLIMB_LIMIT) == Climbed(byId, cur, CLIMB_LIMIT - i)
    {
      if cur !in byId {
        break;
      }
      if byId[cur].parent.None? {
        root := Some(cur);
        break;
      }
      cur := byId[cur].parent.value;
      i := i + 1;
    }
    assert root == Climbed(byId, spanId, CLIMB_LIMIT);
    if root.Some? {
      var path := ClimbedHasPath(ring, spanId, CLIMB_LIMIT);
      assert Path(ring, path) && path[0].id == spanId && path[|path| - 1].id == root.value && |path| <= 256;
    } else {
      forall path: seq<WireSpan> | Path(ring, path) && path[0].id == spanId ensures |path| > CLIMB_LIMIT {
        if |path| <= CLIMB_LIMIT {
          PathIsClimbed(ring, path, CLIMB_LIMIT);
        }
      }
    }
  }
}
