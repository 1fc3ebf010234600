/** The sorted row list and the early-exit scans that rely on its order. */
module SortedRows {
  import opened Ordering
  import opened Buckets
  import opened Ledger

  type Stack = seq<string>

  predicate PairLe(a: (string, string), b: (string, string)) {
    if a.0 == b.0 then StringLe(a.1, b.1) else StringLe(a.0, b.0)
  }

  /** Stack first, splits second. */
  predicate KeyLe(a: BucketKey, b: BucketKey) {
    if a.stack == b.stack then Lex(PairLe, a.splits, b.splits) else Lex(StringLe, a.stack, b.stack)
  }

  lemma PairOrder()
    ensures TotalOrder(PairLe)
  {
    StringOrder();
  }

  lemma KeyOrder()
    ensures TotalOrder(KeyLe)
  {
    StringOrder();
    PairOrder();
    forall a, b, c
      ensures KeyLe(a, a) && (KeyLe(a, b) || KeyLe(b, a)) && (KeyLe(a, b) && KeyLe(b, a) ==> a == b)
      ensures KeyLe(a, b) && KeyLe(b, c) ==> KeyLe(a, c)
    {
      LexTotal(PairLe, a.splits, b.splits);
      LexTotal(StringLe, a.stack, b.stack);
      LexTotal(StringLe, b.stack, c.stack);
      if Lex(PairLe, a.splits, b.splits) && Lex(PairLe, b.splits, c.splits) {
        LexTransitive(PairLe, a.splits, b.splits, c.splits);
      }
      if Lex(StringLe, a.stack, b.stack) && Lex(StringLe, b.stack, c.stack) {
        LexTransitive(StringLe, a.stack, b.stack, c.stack);
      }
    }
  }

  datatype Row = Row(key: BucketKey, stats: StackStats)

  ghost predicate SortedBy(le: (BucketKey, BucketKey) -> bool, rows: seq<Row>) {
    forall i, j :: 0 <= i < j < |rows| ==> le(rows[i].key, rows[j].key) && rows[i].key != rows[j].key
  }

  ghost predicate Sorted(rows: seq<Row>) {
    SortedBy(KeyLe, rows)
  }

  ghost predicate Lists(rows: seq<Row>, table: map<BucketKey, StackStats>) {
    && (forall r :: r in rows ==> r.key in table && r.stats == table[r.key])
    && (forall k :: k in table ==> Row(k, table[k]) in rows)
  }

  function InsertRow(le: (BucketKey, BucketKey) -> bool, row: Row, rows: seq<Row>): (out: seq<Row>)
    requires TotalOrder(le) && SortedBy(le, rows) && forall r :: r in rows ==> r.key != row.key
    ensures SortedBy(le, out) && forall r :: r in out <==> r in rows || r == row
  {
    if rows == [] then [row]
    else if le(row.key, rows[0].key) then
      assert forall r :: r in rows ==> le(rows[0].key, r.key);
      [row] + rows
    else
      var tail := InsertRow(le, row, rows[1..]);
      assert rows == [rows[0]] + rows[1..];
      assert forall r :: r in tail ==> le(rows[0].key, r.key) && r.key != rows[0].key;
      [rows[0]] + tail
  }

  /** Lists a table in key order; the keys being distinct, any sort gives this list. */
  method SortTable(le: (BucketKey, BucketKey) -> bool, table: map<BucketKey, StackStats>) returns (rows: seq<Row>)
    requires TotalOrder(le)
    ensures SortedBy(le, rows) && Lists(rows, table)
    ensures forall r :: r in rows <==> r.key in table && r.stats == table[r.key]
  {
    rows := [];
    var left := table.Keys;
    while left != {}
      invariant left <= table.Keys && SortedBy(le, rows)
      invariant forall r :: r in rows ==> r.key in table && r.key !in left && r.stats == table[r.key]
      invariant forall k :: k in table && k !in left ==> Row(k, table[k]) in rows
      decreases left
    {
      var k :| k in left;
      rows := InsertRow(le, Row(k, table[k]), rows);
      left := left - {k};
    }
    ListsIs(rows, table);
  }

  /** A list of a table holds its rows and no other. */
  lemma ListsIs(rows: seq<Row>, table: map<BucketKey, StackStats>)
    requires Lists(rows, table)
    ensures forall r :: r in rows <==> r.key in table && r.stats == table[r.key]
  {
    forall r: Row | r.key in table && r.stats == table[r.key] ensures r in rows {
      assert Row(r.key, table[r.key]) in rows;
    }
  }

  /** Projects every bucket and sorts by key, as `rows` does. */
  method RowsOf(books: Books) returns (rows: seq<Row>)
    ensures Sorted(rows) && Lists(rows, map k | k in books :: books[k].ToStackStats())
    ensures forall i, j :: 0 <= i < j < |rows| && rows[i].key.stack != rows[j].key.stack ==>
              Ascends(rows[i].key.stack, rows[j].key.stack)
  {
    hide KeyLe, Ascends;
    KeyOrder();
    rows := SortTable(KeyLe, map k | k in books :: books[k].ToStackStats());
    forall i, j | 0 <= i < j < |rows| && rows[i].key.stack != rows[j].key.stack
      ensures Ascends(rows[i].key.stack, rows[j].key.stack)
    {
      RowsAscend(rows, i, j);
    }
  }

  // ── Prefixes are contiguous ──

  lemma {:induction false} PrefixConvex(p: Stack, a: Stack, b: Stack, c: Stack)
    requires p <= a && p <= c && Lex(StringLe, a, b) && Lex(StringLe, b, c)
    ensures p <= b
  {
    if p == [] {
    } else {
      StringOrder();
      assert a[0] == c[0] == p[0] == b[0];
      assert p[1..] <= a[1..] && p[1..] <= c[1..];
      PrefixConvex(p[1..], a[1..], b[1..], c[1..]);
      assert b == [b[0]] + b[1..] && p == [p[0]] + p[1..];
    }
  }

  lemma {:induction false} ExtensionIsAfter(p: Stack, a: Stack)
    requires p <= a
    ensures Lex(StringLe, p, a)
  {
    if p == [] {
    } else {
      assert p[1..] <= a[1..];
      ExtensionIsAfter(p[1..], a[1..]);
    }
  }

  lemma SortedStacks(rows: seq<Row>, i: nat, j: nat)
    requires Sorted(rows) && i <= j < |rows|
    ensures Lex(StringLe, rows[i].key.stack, rows[j].key.stack)
  {
    StringOrder();
    LexTotal(StringLe, rows[i].key.stack, rows[j].key.stack);
  }

  /** Between two rows sharing a stack prefix, every row shares it. */
  lemma BlockIsContiguous(rows: seq<Row>, p: Stack, i: nat, j: nat, k: nat)
    requires Sorted(rows) && i <= j <= k < |rows|
    requires p <= rows[i].key.stack && p <= rows[k].key.stack
    ensures p <= rows[j].key.stack
  {
    SortedStacks(rows, i, j);
    SortedStacks(rows, j, k);
    PrefixConvex(p, rows[i].key.stack, rows[j].key.stack, rows[k].key.stack);
  }

  /** A row whose stack properly extends another's comes after it. */
  lemma DescendantIsLater(rows: seq<Row>, i: nat, j: nat)
    requires Sorted(rows) && i < |rows| && j < |rows|
    requires rows[i].key.stack <= rows[j].key.stack && rows[i].key.stack != rows[j].key.stack
    ensures i < j
  {
    ExtensionIsAfter(rows[i].key.stack, rows[j].key.stack);
    StringOrder();
    LexTotal(StringLe, rows[i].key.stack, rows[j].key.stack);
    if j < i {
      SortedStacks(rows, j, i);
    }
  }

  ghost predicate HasDescendant(rows: seq<Row>, i: nat)
    requires i < |rows|
  {
    exists j :: 0 <= j < |rows| && rows[i].key.stack < rows[j].key.stack
  }

  /** Scans forward until the prefix breaks; finds a child exactly when some row, anywhere,
      properly extends the stack. */
  method HasChildren(rows: seq<Row>, i: nat) returns (found: bool)
    requires Sorted(rows) && i < |rows|
    ensures found <==> exists j :: 0 <= j < |rows| && rows[i].key.stack < rows[j].key.stack
    ensures found <==> HasDescendant(rows, i)
  {
    var stack := rows[i].key.stack;
    for j := i + 1 to |rows|
      invariant forall k :: i <= k < j ==> stack <= rows[k].key.stack && rows[k].key.stack == stack
    {
      if !(stack <= rows[j].key.stack) {
        forall k | 0 <= k < |rows| ensures !(stack < rows[k].key.stack) {
          if stack < rows[k].key.stack {
            DescendantIsLater(rows, i, k);
            if k > j { BlockIsContiguous(rows, stack, i, j, k); }
          }
        }
        return false;
      }
      if |rows[j].key.stack| > |stack| {
        return true;
      }
    }
    forall k | 0 <= k < |rows| ensures !(stack < rows[k].key.stack) {
      if stack < rows[k].key.stack { DescendantIsLater(rows, i, k); }
    }
    return false;
  }

  ghost predicate HasLaterSibling(rows: seq<Row>, i: nat, d: nat)
    requires i < |rows|
  {
    var s := rows[i].key.stack;
    1 <= d <= |s| &&
    exists j :: i < j < |rows| && s[..d - 1] <= rows[j].key.stack && |rows[j].key.stack| >= d
                && rows[j].key.stack[d - 1] != s[d - 1]
  }

  /** Whether the tree prefix of row `i` continues at depth `d`. */
  method HasSiblingAfter(rows: seq<Row>, i: nat, d: nat) returns (found: bool)
    requires Sorted(rows) && i < |rows|
    ensures found <==> HasLaterSibling(rows, i, d)
    ensures var s := rows[i].key.stack;
            found <==> (1 <= d <= |s| &&
                        exists j :: i < j < |rows| && s[..d - 1] <= rows[j].key.stack && |rows[j].key.stack| >= d
                                    && rows[j].key.stack[d - 1] != s[d - 1])
  {
    var s := rows[i].key.stack;
    if d == 0 || d > |s| {
      return false;
    }
    var prefix := s[..d - 1];
    for j := i + 1 to |rows|
      invariant forall k :: i < k < j && prefix <= rows[k].key.stack && |rows[k].key.stack| >= d ==>
                  rows[k].key.stack[d - 1] == s[d - 1]
    {
      var sj := rows[j].key.stack;
      if |sj| < d - 1 || sj[..d - 1] != prefix {
        forall k | j < k < |rows| && prefix <= rows[k].key.stack ensures false {
          BlockIsContiguous(rows, prefix, i, j, k);
        }
        return false;
      }
      if |sj| >= d && sj[d - 1] != s[d - 1] {
        return true;
      }
    }
    return false;
  }

  // ── Visibility ──

  /** Every proper, non-empty stack prefix is expanded. */
  predicate Visible(stack: Stack, expanded: set<Stack>) {
    forall n :: 1 <= n < |stack| ==> stack[..n] in expanded
  }

  datatype VisibleRow = VisibleRow(row: Row, depth: int, hasChildren: bool, isExpanded: bool)

  ghost predicate Shows(v: VisibleRow, rows: seq<Row>, i: nat, expanded: set<Stack>)
    requires i < |rows|
  {
    && v.row == rows[i] && v.depth == |rows[i].key.stack| - 1
    && (v.hasChildren <==> HasDescendant(rows, i))
    && (v.isExpanded <==> rows[i].key.stack in expanded)
  }

  /** Indices of the visible rows among the first `n`, in order. */
  ghost function VisibleIndices(rows: seq<Row>, expanded: set<Stack>, n: nat): (r: seq<nat>)
    requires n <= |rows|
    ensures forall i :: i in r ==> i < n
  {
    if n == 0 then []
    else VisibleIndices(rows, expanded, n - 1)
         + if Visible(rows[n - 1].key.stack, expanded) then [n - 1] else []
  }

  lemma IndicesNext(rows: seq<Row>, expanded: set<Stack>)
    ensures VisibleIndices(rows, expanded, 0) == []
    ensures forall n :: 0 <= n < |rows| ==>
              (VisibleIndices(rows, expanded, n + 1)
               == VisibleIndices(rows, expanded, n) + if Visible(rows[n].key.stack, expanded) then [n] else [])
  {
  }

  /** The rows listed are those all of whose proper prefixes are expanded ... */
  lemma {:induction false} ListedIff(rows: seq<Row>, expanded: set<Stack>, n: nat, i: nat)
    requires i < n <= |rows|
    ensures i in VisibleIndices(rows, expanded, n)
            <==> forall m :: 1 <= m < |rows[i].key.stack| ==> rows[i].key.stack[..m] in expanded
  {
    if i < n - 1 {
      ListedIff(rows, expanded, n - 1, i);
    }
  }

  /** ... in order and once each. */
  lemma {:induction false} ListedInOrder(rows: seq<Row>, expanded: set<Stack>, n: nat, u: nat, v: nat)
    requires n <= |rows| && u < v < |VisibleIndices(rows, expanded, n)|
    ensures VisibleIndices(rows, expanded, n)[u] < VisibleIndices(rows, expanded, n)[v]
  {
    hide Visible;
    if n > 0 {
      var before := VisibleIndices(rows, expanded, n - 1);
      if v < |before| {
        ListedInOrder(rows, expanded, n - 1, u, v);
      } else {
        assert before[u] in before;
      }
    }
  }

  /** A visible row carries its own row and depth, and says whether anything lies below and whether it
      is expanded. */
  lemma ShownIs(v: VisibleRow, rows: seq<Row>, i: nat, expanded: set<Stack>)
    requires i < |rows| && Shows(v, rows, i, expanded)
    ensures v.row == rows[i] && v.depth + 1 == |rows[i].key.stack|
    ensures v.hasChildren <==> exists j :: 0 <= j < |rows| && rows[i].key.stack < rows[j].key.stack
    ensures v.isExpanded <==> rows[i].key.stack in expanded
  {
  }

  /** Scans the proper prefixes, stopping at the first that is not expanded. */
  method IsVisible(stack: Stack, expanded: set<Stack>) returns (visible: bool)
    ensures visible == Visible(stack, expanded)
    ensures visible <==> forall n :: 1 <= n < |stack| ==> stack[..n] in expanded
  {
    visible := true;
    var n := 1;
    while n < |stack|
      invariant 1 <= n && forall m :: 1 <= m < n && m < |stack| ==> stack[..m] in expanded
    {
      if stack[..n] !in expanded {
        return false;
      }
      n := n + 1;
    }
  }

  method VisibleRows(rows: seq<Row>, expanded: set<Stack>) returns (out: seq<VisibleRow>)
    requires Sorted(rows)
    ensures var at := VisibleIndices(rows, expanded, |rows|);
            |out| == |at| && forall v :: 0 <= v < |out| ==> at[v] in at && Shows(out[v], rows, at[v], expanded)
  {
    hide Visible, Sorted, HasDescendant, VisibleIndices;
    IndicesNext(rows, expanded);
    out := [];
    for i := 0 to |rows|
      invariant var at := VisibleIndices(rows, expanded, i);
                |out| == |at| && forall v :: 0 <= v < |out| ==> at[v] in at && Shows(out[v], rows, at[v], expanded)
    {
      var stack := rows[i].key.stack;
      var visible := IsVisible(stack, expanded);
      if visible {
        var hasChildren := HasChildren(rows, i);
        out := out + [VisibleRow(rows[i], |stack| - 1, hasChildren, stack in expanded)];
      }
    }
  }

  /** `s` lies between `root` and a proper descendant of it among the first `n` rows. */
  ghost predicate OnTheWay(s: Stack, root: Stack, rows: seq<Row>, n: nat)
    requires n <= |rows|
  {
    exists k :: 0 <= k < n && root <= s < rows[k].key.stack
  }

  /** `ExpandAllSelected`: every stack from the root's up to just above each descendant. */
  method ExpandAll(rows: seq<Row>, root: Stack, expanded: set<Stack>) returns (expanded': set<Stack>)
    ensures expanded <= expanded'
    ensures forall s :: s in expanded' - expanded ==> OnTheWay(s, root, rows, |rows|)
    ensures forall s :: s in expanded' - expanded ==>
              exists k :: 0 <= k < |rows| && root <= s && s < rows[k].key.stack
    ensures Visible(root, expanded) ==>
              forall i :: 0 <= i < |rows| && root <= rows[i].key.stack ==> Visible(rows[i].key.stack, expanded')
  {
    expanded' := expanded;
    for i := 0 to |rows|
      invariant expanded <= expanded'
      invariant forall s :: s in expanded' - expanded ==> OnTheWay(s, root, rows, i)
      invariant forall k, n :: 0 <= k < i && root <= rows[k].key.stack && |root| <= n < |rows[k].key.stack| ==>
                  rows[k].key.stack[..n] in expanded'
    {
      var stack := rows[i].key.stack;
      if root <= stack && |stack| > |root| {
        for n := |root| to |stack|
          invariant expanded <= expanded'
          invariant forall s :: s in expanded' - expanded ==> OnTheWay(s, root, rows, i + 1)
          invariant forall k, n :: 0 <= k < i && root <= rows[k].key.stack && |root| <= n < |rows[k].key.stack| ==>
                      rows[k].key.stack[..n] in expanded'
          invariant forall m :: |root| <= m < n ==> stack[..m] in expanded'
        {
          ghost var before := expanded';
          assert root <= stack[..n] < rows[i].key.stack;
          assert OnTheWay(stack[..n], root, rows, i + 1);
          expanded' := expanded' + {stack[..n]};
          forall s | s in expanded' - expanded ensures OnTheWay(s, root, rows, i + 1) {
            assert s in before - expanded || s == stack[..n];
          }
        }
      }
    }
    if Visible(root, expanded) {
      forall i, n | 0 <= i < |rows| && root <= rows[i].key.stack && 1 <= n < |rows[i].key.stack|
        ensures rows[i].key.stack[..n] in expanded'
      {
        if n < |root| { assert rows[i].key.stack[..n] == root[..n]; }
      }
    }
  }

  /** `CollapseSelected` on an expanded row: forget every expansion at or below it. */
  function Collapse(root: Stack, expanded: set<Stack>): set<Stack> {
    set s | s in expanded && !(root <= s)
  }

  /** Collapsing hides exactly the proper descendants of the row and touches nothing else. */
  lemma CollapseHidesTheSubtree(root: Stack, expanded: set<Stack>, stack: Stack)
    requires root != []
    ensures Visible(stack, Collapse(root, expanded)) <==> Visible(stack, expanded) && !(root < stack)
  {
    if root < stack {
      assert stack[..|root|] == root;
    } else {
      forall n | 1 <= n < |stack| ensures root <= stack[..n] ==> root < stack {}
    }
  }

  /** Every expansion at or below the row is forgotten, so expanding it again shows one level only. */
  lemma CollapseForgets(root: Stack, expanded: set<Stack>, stack: Stack)
    ensures stack in Collapse(root, expanded) <==> stack in expanded && !(root <= stack)
  {
  }

  // ── The order, spelt out ──

  /** `a` comes before `b`: it is a proper prefix, or at the first name that differs its own comes
      first, as a prefix or by its first character that differs. */
  ghost predicate Ascends(a: Stack, b: Stack) {
    a < b ||
    exists n :: 0 <= n < |a| && n < |b| && a[..n] == b[..n] && a[n] != b[n] &&
      (a[n] < b[n] ||
       exists q :: 0 <= q < |a[n]| && q < |b[n]| && a[n][..q] == b[n][..q] && a[n][q] < b[n][q])
  }

  lemma StacksAscend(a: Stack, b: Stack)
    requires Lex(StringLe, a, b) && a != b
    ensures Ascends(a, b)
  {
    hide StringLe;
    LexIs(StringLe, a, b);
    if !(a < b) {
      var n :| 0 <= n < |a| && n < |b| && a[..n] == b[..n] && a[n] != b[n] && StringLe(a[n], b[n]);
      StringLeIs(a[n], b[n]);
    }
  }

  /** Rows ascend by stack, then by splits, pair by pair, key before value. */
  lemma RowsAscend(rows: seq<Row>, i: nat, j: nat)
    requires Sorted(rows) && i < j < |rows|
    ensures rows[i].key.stack != rows[j].key.stack ==> Ascends(rows[i].key.stack, rows[j].key.stack)
    ensures rows[i].key.stack == rows[j].key.stack ==>
      var p, q := rows[i].key.splits, rows[j].key.splits;
      p < q || exists n :: 0 <= n < |p| && n < |q| && p[..n] == q[..n] && p[n] != q[n]
                 && if p[n].0 == q[n].0 then StringLe(p[n].1, q[n].1) else StringLe(p[n].0, q[n].0)
  {
    hide StringLe;
    var a, b := rows[i].key, rows[j].key;
    assert KeyLe(a, b) && a != b;
    if a.stack != b.stack {
      StacksAscend(a.stack, b.stack);
    } else {
      LexIs(PairLe, a.splits, b.splits);
      assert a.splits != b.splits;
    }
  }
}
