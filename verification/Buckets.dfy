/** One bucket's rolling statistics, and the list of contributions they must always equal. */
module Buckets {

  /** A `BTreeMap<u64, u32>` used as a multiset. */
  type Counts = map<nat, nat>

  datatype StackStats = StackStats(
    count: nat, totalMin: nat, totalMax: nat, totalSum: nat, selfMin: nat, selfMax: nat, selfSum: nat)

  function MsInc(ms: Counts, v: nat): Counts {
    ms[v := (if v in ms then ms[v] else 0) + 1]
  }

  function MsDec(ms: Counts, v: nat): Counts
    requires v in ms ==> ms[v] > 0
  {
    if v !in ms then ms else if ms[v] == 1 then ms - {v} else ms[v := ms[v] - 1]
  }

  ghost predicate IsLeast(m: nat, s: set<nat>) {
    m in s && forall x :: x in s ==> m <= x
  }

  ghost predicate IsGreatest(m: nat, s: set<nat>) {
    m in s && forall x :: x in s ==> x <= m
  }

  lemma {:induction false} ExtremesExist(s: set<nat>)
    requires s != {}
    ensures exists lo :: IsLeast(lo, s)
    ensures exists hi :: IsGreatest(hi, s)
    decreases s
  {
    var y :| y in s;
    if s == {y} {
      assert IsLeast(y, s) && IsGreatest(y, s);
    } else {
      ExtremesExist(s - {y});
      var lo :| IsLeast(lo, s - {y});
      var hi :| IsGreatest(hi, s - {y});
      assert forall x :: x in s ==> x == y || x in s - {y};
      assert IsLeast(if y < lo then y else lo, s);
      assert IsGreatest(if y > hi then y else hi, s);
    }
  }

  /** First and last key of the tree map; zero when it is empty. */
  function Least(s: set<nat>): (m: nat)
    ensures if s == {} then m == 0 else IsLeast(m, s)
  {
    if s == {} then 0
    else
      ExtremesExist(s);
      assert forall a, b :: IsLeast(a, s) && IsLeast(b, s) ==> a == b;
      assert exists lo :: lo in s && forall x :: x in s ==> lo <= x by {
        var lo :| IsLeast(lo, s);
      }
      var m :| m in s && forall x :: x in s ==> m <= x;
      m
  }

  function Greatest(s: set<nat>): (m: nat)
    ensures if s == {} then m == 0 else IsGreatest(m, s)
  {
    if s == {} then 0
    else
      ExtremesExist(s);
      assert exists hi :: hi in s && forall x :: x in s ==> x <= hi by {
        var hi :| IsGreatest(hi, s);
      }
      var m :| m in s && forall x :: x in s ==> x <= m;
      m
  }

  datatype BucketState = BucketState(
    count: nat, totalSum: nat, selfSum: nat, totals: Counts, selfs: Counts)
  {
    function Add(total: nat, self: nat): BucketState {
      BucketState(count + 1, totalSum + total, selfSum + self, MsInc(totals, total), MsInc(selfs, self))
    }

    /** Reverses an earlier `Add` of the same pair. */
    function Remove(total: nat, self: nat): BucketState
      requires count > 0 && totalSum >= total && selfSum >= self
      requires (total in totals ==> totals[total] > 0) && (self in selfs ==> selfs[self] > 0)
    {
      BucketState(count - 1, totalSum - total, selfSum - self, MsDec(totals, total), MsDec(selfs, self))
    }

    function ToStackStats(): StackStats {
      StackStats(count, Least(totals.Keys), Greatest(totals.Keys), totalSum,
                 Least(selfs.Keys), Greatest(selfs.Keys), selfSum)
    }
  }

  const EMPTY := BucketState(0, 0, 0, map[], map[])

  /** A contribution is a (total, self) pair. */
  type Contribution = (nat, nat)

  function Totals(c: seq<Contribution>): (r: seq<nat>)
    ensures |r| == |c|
  {
    seq(|c|, i requires 0 <= i < |c| => c[i].0)
  }

  function Selfs(c: seq<Contribution>): (r: seq<nat>)
    ensures |r| == |c|
  {
    seq(|c|, i requires 0 <= i < |c| => c[i].1)
  }

  function Sum(s: seq<nat>): nat {
    if s == [] then 0 else s[0] + Sum(s[1..])
  }

  lemma {:induction false} SumConcat(a: seq<nat>, b: seq<nat>)
    ensures Sum(a + b) == Sum(a) + Sum(b)
  {
    if a == [] {
      assert a + b == b;
    } else {
      assert (a + b)[1..] == a[1..] + b;
      SumConcat(a[1..], b);
    }
  }

  lemma SumInsert(a: seq<nat>, x: nat, b: seq<nat>)
    ensures Sum(a + [x] + b) == Sum(a + b) + x
  {
    SumConcat(a + [x], b);
    SumConcat(a, [x]);
    SumConcat(a, b);
  }

  ghost predicate Counted(ms: Counts, bag: multiset<nat>) {
    forall v :: (v in ms <==> v in bag) && (v in ms ==> ms[v] == bag[v])
  }

  /** `st` is exactly the statistics of the contributions `c`. */
  ghost predicate Tallies(st: BucketState, c: seq<Contribution>) {
    && st.count == |c|
    && st.totalSum == Sum(Totals(c))
    && st.selfSum == Sum(Selfs(c))
    && Counted(st.totals, multiset(Totals(c)))
    && Counted(st.selfs, multiset(Selfs(c)))
  }

  /** The contributions leave no choice of statistics. */
  lemma TallyUnique(s: BucketState, t: BucketState, c: seq<Contribution>)
    requires Tallies(s, c) && Tallies(t, c)
    ensures s == t
  {
    assert s.totals == t.totals && s.selfs == t.selfs;
  }

  lemma Projections(a: seq<Contribution>, x: Contribution, b: seq<Contribution>)
    ensures Totals(a + [x] + b) == Totals(a) + [x.0] + Totals(b)
    ensures Selfs(a + [x] + b) == Selfs(a) + [x.1] + Selfs(b)
    ensures Totals(a + b) == Totals(a) + Totals(b)
    ensures Selfs(a + b) == Selfs(a) + Selfs(b)
  {
  }

  lemma CountedAdd(ms: Counts, bag: multiset<nat>, v: nat)
    requires Counted(ms, bag)
    ensures Counted(MsInc(ms, v), bag + multiset{v})
  {
  }

  lemma TallyAdd(st: BucketState, a: seq<Contribution>, x: Contribution, b: seq<Contribution>)
    requires Tallies(st, a + b)
    ensures Tallies(st.Add(x.0, x.1), a + [x] + b)
  {
    hide Counted, MsInc, Totals, Selfs, Sum;
    Projections(a, x, b);
    SumInsert(Totals(a), x.0, Totals(b));
    SumInsert(Selfs(a), x.1, Selfs(b));
    BagInsert(Totals(a), x.0, Totals(b));
    BagInsert(Selfs(a), x.1, Selfs(b));
    CountedAdd(st.totals, multiset(Totals(a + b)), x.0);
    CountedAdd(st.selfs, multiset(Selfs(a + b)), x.1);
  }

  lemma BagInsert(a: seq<nat>, x: nat, b: seq<nat>)
    ensures multiset(a + [x] + b) == multiset(a + b) + multiset{x}
  {
  }

  lemma CountedRemove(ms: Counts, bag: multiset<nat>, v: nat)
    requires Counted(ms, bag + multiset{v})
    ensures v in ms && ms[v] > 0 && Counted(MsDec(ms, v), bag)
  {
    assert v in bag + multiset{v};
  }

  lemma TallyRemove(st: BucketState, a: seq<Contribution>, x: Contribution, b: seq<Contribution>)
    requires Tallies(st, a + [x] + b)
    ensures st.count > 0 && st.totalSum >= x.0 && st.selfSum >= x.1
    ensures x.0 in st.totals && st.totals[x.0] > 0 && x.1 in st.selfs && st.selfs[x.1] > 0
    ensures Tallies(st.Remove(x.0, x.1), a + b)
  {
    hide Counted, MsDec, Totals, Selfs, Sum;
    Projections(a, x, b);
    SumInsert(Totals(a), x.0, Totals(b));
    SumInsert(Selfs(a), x.1, Selfs(b));
    BagInsert(Totals(a), x.0, Totals(b));
    BagInsert(Selfs(a), x.1, Selfs(b));
    CountedRemove(st.totals, multiset(Totals(a + b)), x.0);
    CountedRemove(st.selfs, multiset(Selfs(a + b)), x.1);
  }

  /** The statistics of a list of contributions, read off the list itself. */
  ghost predicate Summarises(s: StackStats, c: seq<Contribution>) {
    && s.count == |c| > 0
    && s.totalSum == Sum(Totals(c))
    && s.selfSum == Sum(Selfs(c))
    && IsLeast(s.totalMin, Members(Totals(c))) && IsGreatest(s.totalMax, Members(Totals(c)))
    && IsLeast(s.selfMin, Members(Selfs(c))) && IsGreatest(s.selfMax, Members(Selfs(c)))
  }

  function Members(s: seq<nat>): set<nat> {
    set x | x in s
  }

  /** Incremental statistics show exactly what recomputing from the contributions would. */
  lemma StatsAreExact(st: BucketState, c: seq<Contribution>)
    requires Tallies(st, c) && c != []
    ensures Summarises(st.ToStackStats(), c)
  {
    assert st.totals.Keys == Members(Totals(c));
    assert st.selfs.Keys == Members(Selfs(c));
    assert Totals(c)[0] in Members(Totals(c)) && Selfs(c)[0] in Members(Selfs(c));
  }
}
