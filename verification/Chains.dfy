/** A span's bucket key read off its whole ancestor chain, as opposed to the aggregator's
    inheritance from the already-resolved parent. */
module Chains {
  import opened Spans
  import opened Splits
  import opened Ledger
  import opened Forest
  import opened Survival
  import opened Ordering

  /** Later entries win, as when a vector of pairs is collected into a map. */
  function ById(spans: seq<WireSpan>): map<nat, WireSpan> {
    if spans == [] then map[] else ById(spans[..|spans| - 1])[spans[|spans| - 1].id := spans[|spans| - 1]]
  }

  lemma DistinctSnoc(front: seq<WireSpan>, last: WireSpan)
    requires DistinctIds(front + [last])
    ensures DistinctIds(front) && forall s :: s in front ==> s.id != last.id
  {
    var all := front + [last];
    forall i, j | 0 <= i < j < |front| ensures front[i].id != front[j].id {
      assert all[i].id != all[j].id;
    }
    forall s | s in front ensures s.id != last.id {
      var i :| 0 <= i < |front| && front[i] == s;
      assert all[i].id != all[|front|].id;
    }
  }

  lemma {:induction false} ByIdFinds(spans: seq<WireSpan>)
    requires DistinctIds(spans)
    ensures ById(spans).Keys == IdSet(spans)
    ensures forall s :: s in spans ==> ById(spans)[s.id] == s
  {
    if spans == [] {
    } else {
      var front, last := spans[..|spans| - 1], spans[|spans| - 1];
      assert spans == front + [last];
      DistinctSnoc(front, last);
      hide DistinctIds, IdSet;
      IdSetSnoc(front, last);
      ByIdFinds(front);
    }
  }

  /** Chains are followed through at most this many spans. */
  const WALK_LIMIT := 65

  /** The spans met walking from `p` towards the root, after those in `got`. */
  ghost function Climb(byId: map<nat, WireSpan>, p: Option<nat>, got: seq<WireSpan>): seq<WireSpan>
    decreases WALK_LIMIT - |got|
  {
    if p.None? || |got| >= WALK_LIMIT || p.value !in byId then got
    else Climb(byId, byId[p.value].parent, got + [byId[p.value]])
  }

  /** Field values along a leaf-first chain, nearest to the leaf winning. */
  ghost function Overlay(chain: seq<WireSpan>, keys: set<string>): map<string, string> {
    if chain == [] then map[] else Overlay(chain[1..], keys) + FieldMap(chain[0].fields, keys)
  }

  ghost function NamesFromRoot(chain: seq<WireSpan>): (r: seq<string>)
    ensures |r| == |chain|
  {
    if chain == [] then [] else NamesFromRoot(chain[1..]) + [chain[0].name]
  }

  ghost function ChainKey(chain: seq<WireSpan>, keys: set<string>): BucketKey {
    BucketKey(NamesFromRoot(chain), Canon(Overlay(chain, keys)))
  }

  /** What `collect_splits_for` and the reference bucketing read: at most 65 spans of the chain. */
  ghost function WalkedKey(byId: map<nat, WireSpan>, s: WireSpan, keys: set<string>): BucketKey {
    ChainKey(Climb(byId, s.parent, [s]), keys)
  }

  lemma {:induction false} ClimbFollowsPath(spans: seq<WireSpan>, got: seq<WireSpan>, path: seq<WireSpan>)
    requires DistinctIds(spans) && Path(spans, path) && got != [] && got[|got| - 1] == path[0]
    requires |got| <= WALK_LIMIT
    ensures var full := got + path[1..];
            Climb(ById(spans), path[0].parent, got) == if |full| <= WALK_LIMIT then full else full[..WALK_LIMIT]
    decreases |path|
  {
    ByIdFinds(spans);
    if |path| > 1 && |got| < WALK_LIMIT {
      assert path[1] in spans;
      assert got + [path[1]] + path[1..][1..] == got + path[1..];
      ClimbFollowsPath(spans, got + [path[1]], path[1..]);
    } else {
      assert |got| == WALK_LIMIT ==> (got + path[1..])[..WALK_LIMIT] == got;
    }
  }

  lemma LastIsNew(log: seq<WireSpan>)
    requires ParentsFirst(log) && DistinctIds(log) && log != []
    ensures var n := |log| - 1;
            && ParentsFirst(log[..n]) && DistinctIds(log[..n]) && log[n].id !in IdSet(log[..n])
            && (log[n].parent.Some? ==> log[n].parent.value in IdSet(log[..n]))
            && forall s :: s in log[..n] && s.parent.Some? ==> s.parent.value in IdSet(log[..n])
  {
    var n := |log| - 1;
    var front := log[..n];
    forall s | s in front ensures s.id != log[n].id {
      var k :| 0 <= k < n && front[k] == s;
      assert log[k].id != log[n].id;
    }
    forall k | 0 <= k < n && front[k].parent.Some? ensures front[k].parent.value in IdSet(front[..k]) {
      assert log[..k] == front[..k] && log[k] == front[k];
    }
    forall s | s in front && s.parent.Some? ensures s.parent.value in IdSet(front) {
      var k :| 0 <= k < n && front[k] == s;
      var t :| t in front[..k] && t.id == s.parent.value;
      assert t in front;
    }
  }

  /** Every logged span's key extends its parent's key. */
  lemma {:induction false} KeyMapEquation(log: seq<WireSpan>, keys: set<string>, s: WireSpan)
    requires ParentsFirst(log) && DistinctIds(log) && s in log
    ensures s.id in KeyMap(log, keys)
    ensures KeyMap(log, keys)[s.id] == Extend(s, Lookup(KeyMap(log, keys), s.parent), keys)
    ensures s.parent.Some? ==> s.parent.value in KeyMap(log, keys)
    decreases |log|
  {
    hide ParentsFirst, Extend;
    var n := |log| - 1;
    var front, last := log[..n], log[n];
    assert log == front + [last];
    LastIsNew(log);
    KeyMapSnoc(front, last, keys);
    KeyMapDomain(front, keys);
    if s in front {
      KeyMapEquation(front, keys, s);
    }
  }

  /** Inheriting from the resolved parent gives the key of the whole chain. */
  lemma {:induction false} InheritanceIsTheChain(log: seq<WireSpan>, path: seq<WireSpan>, keys: set<string>)
    requires ParentsFirst(log) && DistinctIds(log) && Path(log, path)
    ensures path[0].id in KeyMap(log, keys) && KeyMap(log, keys)[path[0].id] == ChainKey(path, keys)
    decreases |path|
  {
    KeyMapEquation(log, keys, path[0]);
    if |path| > 1 {
      InheritanceIsTheChain(log, path[1..], keys);
    } else {
      assert path[1..] == [] && Lookup(KeyMap(log, keys), path[0].parent) == None;
      assert NamesFromRoot(path) == [] + [path[0].name] == [path[0].name];
      assert Overlay([], keys) == map[] == AsMap([]);
    }
  }

  /** The walk agrees with inheritance exactly on chains of at most 65 spans. */
  lemma WalkAgreesIffShort(spans: seq<WireSpan>, log: seq<WireSpan>, path: seq<WireSpan>, keys: set<string>)
    requires DistinctIds(spans) && Path(spans, path)
    requires ParentsFirst(log) && DistinctIds(log) && Path(log, path)
    ensures path[0].id in KeyMap(log, keys)
    ensures |path| <= WALK_LIMIT ==> WalkedKey(ById(spans), path[0], keys) == KeyMap(log, keys)[path[0].id]
    ensures |path| > WALK_LIMIT ==> WalkedKey(ById(spans), path[0], keys).stack != KeyMap(log, keys)[path[0].id].stack
    ensures |KeyMap(log, keys)[path[0].id].stack| == |path|
    ensures |WalkedKey(ById(spans), path[0], keys).stack| <= WALK_LIMIT
  {
    InheritanceIsTheChain(log, path, keys);
    ClimbFollowsPath(spans, [path[0]], path);
    assert [path[0]] + path[1..] == path;
    var walked := Climb(ById(spans), path[0].parent, [path[0]]);
    assert |NamesFromRoot(walked)| == |walked| <= WALK_LIMIT;
  }

  lemma {:induction false} OverlaySnoc(chain: seq<WireSpan>, s: WireSpan, keys: set<string>)
    ensures Overlay(chain + [s], keys) == FieldMap(s.fields, keys) + Overlay(chain, keys)
  {
    if chain == [] {
      assert (chain + [s])[1..] == [];
    } else {
      assert (chain + [s])[1..] == chain[1..] + [s];
      OverlaySnoc(chain[1..], s, keys);
    }
  }

  /** Resolving splits for a span by walking the ring, against any key set. */
  ghost function WalkedSplits(byId: map<nat, WireSpan>, id: nat, keys: set<string>): Pairs {
    if id in byId then WalkedKey(byId, byId[id], keys).splits else []
  }

  lemma WalkFromId(byId: map<nat, WireSpan>, id: nat, keys: set<string>)
    ensures WalkedSplits(byId, id, keys) == Canon(Overlay(Climb(byId, Some(id), []), keys))
  {
    if id in byId {
      assert [] + [byId[id]] == [byId[id]];
    }
  }

  /** While the whole chain is in the ring and at most 65 spans long, the walk over the ring finds
      the splits inheritance would have resolved under the same keys. */
  lemma RingWalkIsInheritance(log: seq<WireSpan>, start: nat, path: seq<WireSpan>, keys: set<string>)
    requires ParentsFirst(log) && DistinctIds(log) && start <= |log|
    requires Path(log[start..], path) && |path| <= WALK_LIMIT
    ensures path[0].id in KeyMap(log, keys)
    ensures WalkedSplits(ById(log[start..]), path[0].id, keys) == KeyMap(log, keys)[path[0].id].splits
  {
    var ring := log[start..];
    assert DistinctIds(ring) by {
      forall i, j | 0 <= i < j < |ring| ensures ring[i].id != ring[j].id {
        assert log[start + i].id != log[start + j].id;
      }
    }
    forall s | s in ring ensures s in log {}
    PathWidens(ring, log, path);
    WalkAgreesIffShort(ring, log, path, keys);
    ByIdFinds(ring);
  }

  /** The stack of a chain: its names, root first. */
  lemma {:induction false} NamesAre(chain: seq<WireSpan>, i: nat)
    requires i < |chain|
    ensures NamesFromRoot(chain)[i] == chain[|chain| - 1 - i].name
  {
    if i < |chain| - 1 {
      NamesAre(chain[1..], i);
    }
  }

  /** A key's value comes from the span nearest the leaf that has it. */
  lemma {:induction false} NearestWins(chain: seq<WireSpan>, keys: set<string>, k: string)
    ensures k in Overlay(chain, keys) <==> exists n :: 0 <= n < |chain| && k in FieldMap(chain[n].fields, keys)
    ensures forall n :: 0 <= n < |chain| && k in FieldMap(chain[n].fields, keys)
              && (forall m :: 0 <= m < n ==> k !in FieldMap(chain[m].fields, keys))
              ==> k in Overlay(chain, keys) && Overlay(chain, keys)[k] == FieldMap(chain[n].fields, keys)[k]
  {
    if chain == [] {
    } else {
      var rest := chain[1..];
      NearestWins(rest, keys, k);
      forall n | 0 <= n < |rest| ensures rest[n] == chain[n + 1] {}
      if n :| 0 <= n < |chain| && k in FieldMap(chain[n].fields, keys) {
        assert n > 0 ==> k in FieldMap(rest[n - 1].fields, keys);
      }
      forall n | 0 <= n < |chain| && k in FieldMap(chain[n].fields, keys)
        && (forall m :: 0 <= m < n ==> k !in FieldMap(chain[m].fields, keys))
        ensures k in Overlay(chain, keys) && Overlay(chain, keys)[k] == FieldMap(chain[n].fields, keys)[k]
      {
        if n > 0 {
          assert k !in FieldMap(chain[0].fields, keys) && rest[n - 1] == chain[n];
          assert forall m :: 0 <= m < n - 1 ==> k !in FieldMap(rest[m].fields, keys);
        }
      }
    }
  }

  /** The walk stops at 65 spans. */
  lemma {:induction false} ClimbStops(byId: map<nat, WireSpan>, p: Option<nat>, got: seq<WireSpan>)
    requires |got| <= 65
    ensures |Climb(byId, p, got)| <= 65
    ensures p.Some? && |got| < 65 && p.value in byId ==> |Climb(byId, p, got)| > |got|
    decreases 65 - |got|
  {
    if p.Some? && |got| < 65 && p.value in byId {
      ClimbStops(byId, byId[p.value].parent, got + [byId[p.value]]);
    }
  }

  /** A logged span's key: the names along its chain, root first; its splits in ascending order of
      their keys, one for each selected key some span of the chain has, with the value of the span
      nearest the leaf. */
  lemma KeySays(log: seq<WireSpan>, path: seq<WireSpan>, keys: set<string>, k: string)
    requires ParentsFirst(log) && DistinctIds(log) && Path(log, path)
    ensures path[0].id in KeyMap(log, keys)
    ensures var key := KeyMap(log, keys)[path[0].id];
            && |key.stack| == |path|
            && (forall i :: 0 <= i < |path| ==> key.stack[i] == path[|path| - 1 - i].name)
            && (forall i, j :: 0 <= i < j < |key.splits| ==>
                  StringLe(key.splits[i].0, key.splits[j].0) && key.splits[i].0 != key.splits[j].0)
            && ((exists i :: 0 <= i < |key.splits| && key.splits[i].0 == k)
                <==> exists n :: 0 <= n < |path| && k in FieldMap(path[n].fields, keys))
            && (forall i, n :: 0 <= i < |key.splits| && key.splits[i].0 == k && 0 <= n < |path|
                  && k in FieldMap(path[n].fields, keys)
                  && (forall m :: 0 <= m < n ==> k !in FieldMap(path[m].fields, keys))
                  ==> key.splits[i].1 == FieldMap(path[n].fields, keys)[k])
  {
    InheritanceIsTheChain(log, path, keys);
    hide KeyMap, FieldMap, Overlay, AsMap, StrictlySorted, Path, ParentsFirst, DistinctIds, StringLe, NamesFromRoot,
         Canon;
    var stack, splits := NamesFromRoot(path), Canon(Overlay(path, keys));
    assert KeyMap(log, keys)[path[0].id] == BucketKey(stack, splits);
    forall i | 0 <= i < |path| ensures stack[i] == path[|path| - 1 - i].name {
      NamesAre(path, i);
    }
    forall i, j | 0 <= i < j < |splits| ensures StringLe(splits[i].0, splits[j].0) && splits[i].0 != splits[j].0 {
      SortedListIs(splits, i, j);
    }
    NearestWins(path, keys, k);
    forall i | 0 <= i < |splits| ensures splits[i].0 in AsMap(splits) && AsMap(splits)[splits[i].0] == splits[i].1 {
      ListIsMap(splits, i);
    }
    if k in AsMap(splits) {
      KeyIsListed(splits, k);
    }
  }
}
