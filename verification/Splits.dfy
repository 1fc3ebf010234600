/** Resolving a span's split values: the span's own fields win over its ancestors', and the
    result is listed in key order. */
module Splits {
  import opened Spans
  import opened Ordering

  type Pairs = seq<(string, string)>

  /** First-value-wins reading of a list of pairs. */
  ghost function AsMap(s: Pairs): map<string, string> {
    if s == [] then map[] else AsMap(s[1..])[s[0].0 := s[0].1]
  }

  /** First-value-wins reading of the fields selected by `keys`. */
  ghost function FieldMap(fields: Pairs, keys: set<string>): map<string, string> {
    if fields == [] then map[]
    else
      var rest := FieldMap(fields[1..], keys);
      if fields[0].0 in keys then rest[fields[0].0 := fields[0].1] else rest
  }

  predicate HasKey(s: Pairs, k: string)
    ensures HasKey(s, k) <==> k in AsMap(s)
  {
    s != [] && (s[0].0 == k || HasKey(s[1..], k))
  }

  ghost predicate Distinct(s: Pairs) {
    s != [] ==> !HasKey(s[1..], s[0].0) && Distinct(s[1..])
  }

  ghost predicate Below(k: string, keys: set<string>) {
    forall x :: x in keys ==> StringLe(k, x) && x != k
  }

  ghost predicate StrictlySorted(s: Pairs) {
    s != [] ==> Below(s[0].0, AsMap(s[1..]).Keys) && StrictlySorted(s[1..])
  }

  ghost function LeastKey(keys: set<string>): (k: string)
    requires keys != {}
    ensures k in keys && Below(k, keys - {k})
  {
    StringOrder();
    LeastExists(StringLe, keys);
    var k :| k in keys && forall x :: x in keys ==> StringLe(k, x);
    k
  }

  /** The one strictly key-sorted listing of a map. */
  ghost function Canon(m: map<string, string>): (s: Pairs)
    ensures StrictlySorted(s) && AsMap(s) == m
    decreases m.Keys
  {
    if m.Keys == {} then []
    else
      var k := LeastKey(m.Keys);
      var rest := Canon(m - {k});
      var s := [(k, m[k])] + rest;
      assert s[1..] == rest && (m - {k}).Keys == m.Keys - {k};
      s
  }

  lemma {:induction false} CanonUnique(s: Pairs)
    requires StrictlySorted(s)
    ensures Canon(AsMap(s)) == s
  {
    if s == [] {
    } else {
      var m := AsMap(s);
      assert s[0].0 in m.Keys;
      var k := LeastKey(m.Keys);
      StringOrder();
      assert StringLe(k, s[0].0) && StringLe(s[0].0, k);
      assert k == s[0].0;
      assert m - {k} == AsMap(s[1..]);
      CanonUnique(s[1..]);
      assert s == [s[0]] + s[1..];
    }
  }

  /** The splits of a span whose parent resolved to `inherited`. */
  ghost function Resolve(fields: Pairs, inherited: Pairs, keys: set<string>): Pairs {
    Canon(AsMap(inherited) + FieldMap(fields, keys))
  }

  lemma {:induction false} FieldMapSnoc(fields: Pairs, x: (string, string), keys: set<string>)
    ensures FieldMap(fields + [x], keys) ==
            var m := FieldMap(fields, keys);
            if x.0 in keys && x.0 !in m then m[x.0 := x.1] else m
  {
    if fields == [] {
      assert (fields + [x])[1..] == [];
    } else {
      assert (fields + [x])[1..] == fields[1..] + [x];
      FieldMapSnoc(fields[1..], x, keys);
    }
  }

  lemma {:induction false} AsMapSnoc(s: Pairs, x: (string, string))
    ensures AsMap(s + [x]) == if HasKey(s, x.0) then AsMap(s) else AsMap(s)[x.0 := x.1]
    ensures Distinct(s) && !HasKey(s, x.0) ==> Distinct(s + [x])
  {
    if s == [] {
      assert (s + [x])[1..] == [];
    } else {
      assert (s + [x])[1..] == s[1..] + [x];
      AsMapSnoc(s[1..], x);
    }
  }

  function Insert(x: (string, string), s: Pairs): (out: Pairs)
    ensures AsMap(out) == AsMap(s) + map[x.0 := x.1] || HasKey(s, x.0)
    ensures StrictlySorted(s) && !HasKey(s, x.0) ==> StrictlySorted(out)
  {
    if s == [] then [x]
    else if StringLe(x.0, s[0].0) then
      assert ([x] + s)[1..] == s;
      StringOrder();
      [x] + s
    else
      StringOrder();
      var out := [s[0]] + Insert(x, s[1..]);
      assert out[1..] == Insert(x, s[1..]);
      out
  }

  /** `sort_by` on the key, by insertion. */
  function SortByKey(s: Pairs): (out: Pairs)
    requires Distinct(s)
    ensures AsMap(out) == AsMap(s) && StrictlySorted(out)
  {
    if s == [] then [] else Insert(s[0], SortByKey(s[1..]))
  }

  /** `collect_splits`: own fields first, then the parent's resolved list. */
  method CollectSplits(fields: Pairs, inherited: Option<Pairs>, keys: set<string>) returns (splits: Pairs)
    ensures splits == Resolve(fields, if inherited.Some? then inherited.value else [], keys)
  {
    var acc := TakeFields(fields, keys, []);
    assert AsMap(acc) == FieldMap(fields, keys);
    assert map[] + AsMap(acc) == AsMap(acc);
    if inherited.Some? {
      acc := Append(inherited.value, acc);
    }
    splits := SortByKey(acc);
    CanonUnique(splits);
  }

  /** Appending a pair only when its key is free keeps "`low` overlaid by `high`". */
  lemma OverlayStep(low: map<string, string>, high: map<string, string>, k: string, v: string)
    ensures (if k in low then low else low[k := v]) + high ==
            if k in low + high then low + high else (low + high)[k := v]
  {
  }

  method Append(from: Pairs, start: Pairs) returns (acc: Pairs)
    requires Distinct(start)
    ensures Distinct(acc) && AsMap(acc) == AsMap(from) + AsMap(start)
  {
    acc := start;
    for n := 0 to |from|
      invariant Distinct(acc) && AsMap(acc) == AsMap(from[..n]) + AsMap(start)
    {
      assert from[..n + 1] == from[..n] + [from[n]];
      AsMapSnoc(from[..n], from[n]);
      AsMapSnoc(acc, from[n]);
      OverlayStep(AsMap(from[..n]), AsMap(start), from[n].0, from[n].1);
      if !HasKey(acc, from[n].0) {
        acc := acc + [from[n]];
      }
    }
    assert from[..|from|] == from;
  }

  /** One span's turn in a leaf-first walk: append each selected field whose key is still free. */
  method TakeFields(fields: Pairs, keys: set<string>, start: Pairs) returns (acc: Pairs)
    requires Distinct(start)
    ensures Distinct(acc) && AsMap(acc) == FieldMap(fields, keys) + AsMap(start)
  {
    acc := start;
    for n := 0 to |fields|
      invariant Distinct(acc) && AsMap(acc) == FieldMap(fields[..n], keys) + AsMap(start)
    {
      assert fields[..n + 1] == fields[..n] + [fields[n]];
      FieldMapSnoc(fields[..n], fields[n], keys);
      AsMapSnoc(acc, fields[n]);
      OverlayStep(FieldMap(fields[..n], keys), AsMap(start), fields[n].0, fields[n].1);
      if fields[n].0 in keys && !HasKey(acc, fields[n].0) {
        acc := acc + [fields[n]];
      }
    }
    assert fields[..|fields|] == fields;
  }

  /** Among the fields with a selected key the first one of each key counts. */
  lemma {:induction false} FieldMapIs(fields: Pairs, keys: set<string>, k: string)
    ensures k in FieldMap(fields, keys) <==> k in keys && exists n :: 0 <= n < |fields| && fields[n].0 == k
    ensures forall n :: 0 <= n < |fields| && fields[n].0 == k && k in keys
              && (forall m :: 0 <= m < n ==> fields[m].0 != k)
              ==> k in FieldMap(fields, keys) && FieldMap(fields, keys)[k] == fields[n].1
  {
    if fields == [] {
    } else {
      var rest := fields[1..];
      FieldMapIs(rest, keys, k);
      forall n | 0 <= n < |rest| ensures rest[n] == fields[n + 1] {}
      if n :| 0 <= n < |fields| && fields[n].0 == k {
        assert n > 0 ==> rest[n - 1].0 == k;
      }
      forall n | 0 <= n < |fields| && fields[n].0 == k && k in keys && (forall m :: 0 <= m < n ==> fields[m].0 != k)
        ensures k in FieldMap(fields, keys) && FieldMap(fields, keys)[k] == fields[n].1
      {
        if n > 0 {
          assert fields[0].0 != k && rest[n - 1] == fields[n];
          assert forall m :: 0 <= m < n - 1 ==> rest[m].0 != k;
        }
      }
    }
  }

  /** A resolved split list is in ascending order of its keys, each key once. */
  lemma {:induction false} SortedListIs(s: Pairs, i: nat, j: nat)
    requires StrictlySorted(s) && i < j < |s|
    ensures StringLe(s[i].0, s[j].0) && s[i].0 != s[j].0
  {
    if i == 0 {
      KeyIsIn(s[1..], j - 1);
    } else {
      SortedListIs(s[1..], i - 1, j - 1);
    }
  }

  lemma {:induction false} KeyIsIn(s: Pairs, i: nat)
    requires i < |s|
    ensures s[i].0 in AsMap(s)
  {
    if i > 0 {
      KeyIsIn(s[1..], i - 1);
    }
  }

  /** A sorted list pairs every key of its map with its value. */
  lemma {:induction false} ListIsMap(s: Pairs, i: nat)
    requires StrictlySorted(s) && i < |s|
    ensures s[i].0 in AsMap(s) && AsMap(s)[s[i].0] == s[i].1
  {
    if i > 0 {
      ListIsMap(s[1..], i - 1);
    }
  }

  lemma {:induction false} KeyIsListed(s: Pairs, k: string)
    requires k in AsMap(s)
    ensures exists i :: 0 <= i < |s| && s[i].0 == k
  {
    if s[0].0 != k {
      KeyIsListed(s[1..], k);
      var i :| 0 <= i < |s[1..]| && s[1..][i].0 == k;
      assert s[i + 1].0 == k;
    }
  }
}
