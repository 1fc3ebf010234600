/** Quantities that do not depend on the order of a sequence. */
module Bags {
  import opened Spans
  import opened Buckets
  import opened Ledger

  lemma Without<T>(s: seq<T>, j: nat)
    requires j < |s|
    ensures s == s[..j] + [s[j]] + s[j + 1..]
    ensures multiset(s[..j] + s[j + 1..]) == multiset(s) - multiset{s[j]}
  {
    var rest := s[..j] + s[j + 1..];
    assert s == s[..j] + [s[j]] + s[j + 1..];
    assert multiset(s) == multiset(rest) + multiset{s[j]};
  }

  lemma Pick<T>(a: seq<T>, b: seq<T>) returns (j: nat)
    requires multiset(a) == multiset(b) && a != []
    ensures j < |b| && b[j] == a[0] && b == b[..j] + [b[j]] + b[j + 1..]
    ensures multiset(a[1..]) == multiset(b[..j] + b[j + 1..])
  {
    assert a[0] in multiset(b);
    j :| 0 <= j < |b| && b[j] == a[0];
    Without(b, j);
    Without(a, 0);
    assert a[..0] + a[1..] == a[1..];
  }

  lemma {:induction false} SumBag(a: seq<nat>, b: seq<nat>)
    requires multiset(a) == multiset(b)
    ensures Sum(a) == Sum(b)
  {
    if a == [] {
      assert |b| == |multiset(b)| == 0;
    } else {
      var j := Pick(a, b);
      SumBag(a[1..], b[..j] + b[j + 1..]);
      SumInsert(b[..j], b[j], b[j + 1..]);
    }
  }

  lemma {:induction false} ProjectionBags(a: seq<Contribution>, b: seq<Contribution>)
    requires multiset(a) == multiset(b)
    ensures multiset(Totals(a)) == multiset(Totals(b)) && multiset(Selfs(a)) == multiset(Selfs(b))
  {
    if a == [] {
      assert |b| == |multiset(b)| == 0;
    } else {
      var j := Pick(a, b);
      ProjectionBags(a[1..], b[..j] + b[j + 1..]);
      assert a == [] + [a[0]] + a[1..] && [] + a[1..] == a[1..];
      Projections([], a[0], a[1..]);
      Projections(b[..j], b[j], b[j + 1..]);
    }
  }

  lemma {:induction false} ContribsBag(a: seq<Entry>, b: seq<Entry>, k: BucketKey)
    requires multiset(a) == multiset(b)
    ensures multiset(Contribs(a, k)) == multiset(Contribs(b, k))
  {
    if a == [] {
      assert |b| == |multiset(b)| == 0;
    } else {
      var j := Pick(a, b);
      ContribsBag(a[1..], b[..j] + b[j + 1..], k);
      ContribsAround(b[..j], b[j], b[j + 1..], k);
    }
  }

  lemma {:induction false} ChildSumConcat(a: seq<WireSpan>, b: seq<WireSpan>, id: nat)
    ensures ChildSum(a + b, id) == ChildSum(a, id) + ChildSum(b, id)
  {
    if a == [] {
      assert a + b == b;
    } else {
      assert (a + b)[1..] == a[1..] + b;
      ChildSumConcat(a[1..], b, id);
    }
  }

  lemma {:induction false} ChildSumBag(a: seq<WireSpan>, b: seq<WireSpan>, id: nat)
    requires multiset(a) == multiset(b)
    ensures ChildSum(a, id) == ChildSum(b, id)
  {
    if a == [] {
      assert |b| == |multiset(b)| == 0;
    } else {
      var j := Pick(a, b);
      ChildSumBag(a[1..], b[..j] + b[j + 1..], id);
      ChildSumConcat(b[..j], [b[j]] + b[j + 1..], id);
      ChildSumConcat(b[..j], b[j + 1..], id);
      assert b == b[..j] + ([b[j]] + b[j + 1..]) && ([b[j]] + b[j + 1..])[1..] == b[j + 1..];
    }
  }

  ghost function Map<A, B>(f: A -> B, s: seq<A>): (r: seq<B>)
    ensures |r| == |s| && forall i :: 0 <= i < |s| ==> r[i] == f(s[i])
  {
    if s == [] then [] else [f(s[0])] + Map(f, s[1..])
  }

  lemma MapAround<A, B>(f: A -> B, a: seq<A>, x: A, b: seq<A>)
    ensures Map(f, a + [x] + b) == Map(f, a) + [f(x)] + Map(f, b)
    ensures Map(f, a + b) == Map(f, a) + Map(f, b)
  {
  }

  lemma {:induction false} MapBag<A, B>(f: A -> B, a: seq<A>, b: seq<A>)
    requires multiset(a) == multiset(b)
    ensures multiset(Map(f, a)) == multiset(Map(f, b))
  {
    if a == [] {
      assert |b| == |multiset(b)| == 0;
    } else {
      var j := Pick(a, b);
      MapBag(f, a[1..], b[..j] + b[j + 1..]);
      MapAround(f, b[..j], b[j], b[j + 1..]);
    }
  }
}
