/** Applying a delta to a list of peers or relays: `normalizedIDSet`, `mergePeers` and `mergeRelays`
    of clientapi/v1/mapstream.go. The two merge functions are the same code over two record types,
    so the model is generic in the record, in its ID as written (`id`) and in its trimmed ID (`key`). */
module Merge {
  import opened Outcomes
  import opened Text
  import opened Ordering

  datatype IdError = EmptyId | DuplicateId

  // ----- lists of identifiers -----

  function ToSet(ids: seq<string>): set<string> {
    set s | s in ids
  }

  /** The first complaint about a list of trimmed identifiers, read from the left. */
  function IdListError(ids: seq<string>): Option<IdError> {
    if ids == [] then None
    else
      var before, last := ids[..|ids| - 1], ids[|ids| - 1];
      if IdListError(before).Some? then IdListError(before)
      else if last == "" then Some(EmptyId)
      else if last in before then Some(DuplicateId)
      else None
  }

  ghost predicate CleanIds(ids: seq<string>) {
    && (forall i | 0 <= i < |ids| :: ids[i] != "")
    && (forall i, j | 0 <= i < j < |ids| :: ids[i] != ids[j])
  }

  /** A list of identifiers is accepted exactly when none is empty and no two agree. */
  lemma {:induction false} IdListAccepted(ids: seq<string>)
    ensures IdListError(ids).None? <==> CleanIds(ids)
  {
    if ids != [] {
      IdListAccepted(ids[..|ids| - 1]);
    }
  }

  /** A complaint about a prefix is the complaint about the whole list. */
  lemma {:induction false} PrefixError(ids: seq<string>, n: nat)
    requires n <= |ids| && IdListError(ids[..n]).Some?
    ensures IdListError(ids) == IdListError(ids[..n])
    decreases |ids|
  {
    if n == |ids| {
      assert ids[..n] == ids;
    } else {
      var before := ids[..|ids| - 1];
      assert before[..n] == ids[..n];
      PrefixError(before, n);
    }
  }

  lemma IdSnoc(ids: seq<string>, last: string)
    requires IdListError(ids).None?
    ensures IdListError(ids + [last]) ==
            if last == "" then Some(EmptyId) else if last in ToSet(ids) then Some(DuplicateId) else None
    ensures ToSet(ids + [last]) == ToSet(ids) + {last}
  {
    assert (ids + [last])[..|ids|] == ids;
  }

  /** Extending an accepted prefix by one identifier. */
  lemma NextId(ids: seq<string>, n: nat)
    requires n < |ids| && IdListError(ids[..n]).None?
    ensures ToSet(ids[..n + 1]) == ToSet(ids[..n]) + {ids[n]}
    ensures ids[n] == "" ==> IdListError(ids) == Some(EmptyId)
    ensures ids[n] != "" && ids[n] in ToSet(ids[..n]) ==> IdListError(ids) == Some(DuplicateId)
    ensures ids[n] != "" && ids[n] !in ToSet(ids[..n]) ==> IdListError(ids[..n + 1]).None?
  {
    hide IdListError, ToSet;
    IdSnoc(ids[..n], ids[n]);
    assert ids[..n + 1] == ids[..n] + [ids[n]];
    if IdListError(ids[..n + 1]).Some? {
      PrefixError(ids, n + 1);
    }
  }

  method NormalizedIdSet(values: seq<string>) returns (r: Result<set<string>, IdError>)
    ensures r == match IdListError(Map(values, TrimSpace))
                 case Some(e) => Err(e)
                 case None => Ok(ToSet(Map(values, TrimSpace)))
  {
    ghost var trimmed := Map(values, TrimSpace);
    var ids: set<string> := {};
    for i := 0 to |values|
      invariant IdListError(trimmed[..i]).None?
      invariant ids == ToSet(trimmed[..i])
    {
      var value := TrimSpace(values[i]);
      NextId(trimmed, i);
      if value == "" {
        return Err(EmptyId);
      }
      if value in ids {
        return Err(DuplicateId);
      }
      ids := ids + {value};
    }
    assert trimmed[..|values|] == trimmed;
    return Ok(ids);
  }

  // ----- the merge, stated without an index -----

  /** The records of `s` whose ID is not dropped, in order. */
  function Keep<T>(s: seq<T>, drop: set<string>, id: T -> string): seq<T> {
    if s == [] then []
    else
      var last := s[|s| - 1];
      Keep(s[..|s| - 1], drop, id) + (if id(last) in drop then [] else [last])
  }

  /** The upsert that carries `k`. */
  function Find<T>(upserts: seq<T>, k: string, key: T -> string): (r: Option<T>)
    ensures r.None? <==> k !in Map(upserts, key)
  {
    if upserts == [] then None
    else
      var n := |upserts| - 1;
      assert Map(upserts, key) == Map(upserts[..n], key) + [key(upserts[n])];
      if key(upserts[n]) == k then Some(upserts[n]) else Find(upserts[..n], k, key)
  }

  predicate IsLast<T>(s: seq<T>, i: nat, id: T -> string)
    requires i < |s|
  {
    forall j | i < j < |s| :: id(s[j]) != id(s[i])
  }

  /** What stands at position `i` of the kept records: the upsert that carries the ID of the record
      there, or else the record. Should an ID occur more than once, only its last record is replaced. */
  function OverlayAt<T>(kept: seq<T>, upserts: seq<T>, i: nat, id: T -> string, key: T -> string): T
    requires i < |kept|
  {
    match Find(upserts, id(kept[i]), key)
    case Some(u) => if IsLast(kept, i, id) then u else kept[i]
    case None => kept[i]
  }

  function Overlay<T>(kept: seq<T>, upserts: seq<T>, id: T -> string, key: T -> string): (r: seq<T>)
    ensures |r| == |kept|
    ensures forall i | 0 <= i < |kept| :: r[i] == OverlayAt(kept, upserts, i, id, key)
  {
    seq(|kept|, i requires 0 <= i < |kept| => OverlayAt(kept, upserts, i, id, key))
  }

  /** The upserts that replace nothing, in order. */
  function Additions<T>(kept: seq<T>, upserts: seq<T>, id: T -> string, key: T -> string): seq<T> {
    if upserts == [] then []
    else
      var n := |upserts| - 1;
      Additions(kept, upserts[..n], id, key) + (if key(upserts[n]) in Map(kept, id) then [] else [upserts[n]])
  }

  /** Replacements in place, then additions. */
  function Put<T>(kept: seq<T>, upserts: seq<T>, id: T -> string, key: T -> string): (r: seq<T>)
    ensures |r| >= |kept|
  {
    Overlay(kept, upserts, id, key) + Additions(kept, upserts, id, key)
  }

  function Merged<T>(current: seq<T>, upserts: seq<T>, removeIds: seq<string>, id: T -> string, key: T -> string)
    : Result<seq<T>, IdError>
  {
    var removed := Map(removeIds, TrimSpace);
    if IdListError(removed).Some? then Err(IdListError(removed).value)
    else if IdListError(Map(upserts, key)).Some? then Err(IdListError(Map(upserts, key)).value)
    else
      var kept := Keep(current, ToSet(removed), id);
      Ok(Put(kept, upserts, id, key))
  }

  // ----- the position-index loop refines it -----

  /** `index` sends every ID of `kept` to the position of its last record, and knows besides them
      only IDs of upserts already seen. */
  ghost predicate Indexes<T>(index: map<string, nat>, kept: seq<T>, seen: set<string>, id: T -> string) {
    && (forall i | 0 <= i < |kept| :: id(kept[i]) in index)
    && (forall k | k in index :: k in seen || k in Map(kept, id))
    && (forall k | k in index && k in Map(kept, id) ::
          index[k] < |kept| && id(kept[index[k]]) == k && IsLast(kept, index[k], id))
  }

  method IndexKept<T>(current: seq<T>, drop: set<string>, id: T -> string)
    returns (result: seq<T>, index: map<string, nat>)
    ensures result == Keep(current, drop, id)
    ensures Indexes(index, result, {}, id)
  {
    result, index := [], map[];
    for i := 0 to |current|
      invariant result == Keep(current[..i], drop, id)
      invariant Indexes(index, result, {}, id)
    {
      assert current[..i + 1][..i] == current[..i];
      if id(current[i]) !in drop {
        index := index[id(current[i]) := |result|];
        assert Map(result + [current[i]], id) == Map(result, id) + [id(current[i])];
        result := result + [current[i]];
      }
    }
    assert current[..|current|] == current;
  }

  /** One more upsert, whose key no earlier upsert carries, either replaces the last record with
      that ID or is added at the end. */
  lemma NextUpsert<T>(kept: seq<T>, upserts: seq<T>, n: nat, id: T -> string, key: T -> string)
    requires n < |upserts| && key(upserts[n]) !in Map(upserts[..n], key)
    ensures var before, after := Overlay(kept, upserts[..n], id, key), Overlay(kept, upserts[..n + 1], id, key);
            && (key(upserts[n]) !in Map(kept, id) ==> after == before)
            && (forall p | 0 <= p < |kept| && id(kept[p]) == key(upserts[n]) && IsLast(kept, p, id) ::
                  before[p] == kept[p] && after == before[p := upserts[n]])
    ensures Additions(kept, upserts[..n + 1], id, key) ==
            Additions(kept, upserts[..n], id, key) + (if key(upserts[n]) in Map(kept, id) then [] else [upserts[n]])
  {
    hide Find, IsLast, Additions, OverlayAt;
    AdditionsNext(kept, upserts, n, id, key);
    forall i | 0 <= i < |kept|
      ensures id(kept[i]) != key(upserts[n]) ==> OverlayAt(kept, upserts[..n + 1], i, id, key) == OverlayAt(kept, upserts[..n], i, id, key)
      ensures id(kept[i]) == key(upserts[n]) ==>
                && OverlayAt(kept, upserts[..n], i, id, key) == kept[i]
                && OverlayAt(kept, upserts[..n + 1], i, id, key) == if IsLast(kept, i, id) then upserts[n] else kept[i]
    {
      OverlayNext(kept, upserts, n, i, id, key);
    }
    LastOfId(kept, key(upserts[n]), id);
  }

  lemma OverlayNext<T>(kept: seq<T>, upserts: seq<T>, n: nat, i: nat, id: T -> string, key: T -> string)
    requires n < |upserts| && i < |kept| && key(upserts[n]) !in Map(upserts[..n], key)
    ensures id(kept[i]) != key(upserts[n]) ==> OverlayAt(kept, upserts[..n + 1], i, id, key) == OverlayAt(kept, upserts[..n], i, id, key)
    ensures id(kept[i]) == key(upserts[n]) ==>
              && OverlayAt(kept, upserts[..n], i, id, key) == kept[i]
              && OverlayAt(kept, upserts[..n + 1], i, id, key) == if IsLast(kept, i, id) then upserts[n] else kept[i]
  {
    hide Find, IsLast;
    FindNext(upserts, n, id(kept[i]), key);
  }

  lemma AdditionsNext<T>(kept: seq<T>, upserts: seq<T>, n: nat, id: T -> string, key: T -> string)
    requires n < |upserts|
    ensures Additions(kept, upserts[..n + 1], id, key) ==
            Additions(kept, upserts[..n], id, key) + (if key(upserts[n]) in Map(kept, id) then [] else [upserts[n]])
  {
    assert upserts[..n + 1][..n] == upserts[..n];
  }

  lemma FindNext<T>(upserts: seq<T>, n: nat, k: string, key: T -> string)
    requires n < |upserts|
    ensures Find(upserts[..n + 1], k, key) == if key(upserts[n]) == k then Some(upserts[n]) else Find(upserts[..n], k, key)
  {
    assert upserts[..n + 1][..n] == upserts[..n];
  }

  lemma LastOfId<T>(kept: seq<T>, k: string, id: T -> string)
    ensures forall p, i | 0 <= p < |kept| && 0 <= i < |kept| && id(kept[p]) == k == id(kept[i]) && IsLast(kept, p, id) && IsLast(kept, i, id) :: p == i
    ensures k !in Map(kept, id) ==> forall i | 0 <= i < |kept| :: id(kept[i]) != k
  {
    if k !in Map(kept, id) {
      forall i | 0 <= i < |kept|
        ensures id(kept[i]) != k
      {
        assert Map(kept, id)[i] == id(kept[i]);
      }
    }
  }

  /** An index entry that is not an upsert seen before points at a kept record. */
  lemma IndexHit<T>(index: map<string, nat>, kept: seq<T>, seen: set<string>, k: string, p: nat, id: T -> string)
    requires Indexes(index, kept, seen, id) && k !in seen
    ensures Indexes(index, kept, seen + {k}, id)
    ensures k in index <==> k in Map(kept, id)
    ensures k in index ==> index[k] < |kept| && id(kept[index[k]]) == k && IsLast(kept, index[k], id)
    ensures k !in index ==> Indexes(index[k := p], kept, seen + {k}, id)
  {
  }

  /** Writing at the indexed position, or appending, is putting one more upsert. */
  lemma PutNext<T>(kept: seq<T>, upserts: seq<T>, n: nat, index: map<string, nat>, seen: set<string>,
                   id: T -> string, key: T -> string)
    requires n < |upserts| && key(upserts[n]) !in seen && seen == ToSet(Map(upserts[..n], key))
    requires Indexes(index, kept, seen, id)
    ensures var k, before := key(upserts[n]), Put(kept, upserts[..n], id, key);
            Put(kept, upserts[..n + 1], id, key) ==
            if k in index then
              assert index[k] < |before| by { IndexHit(index, kept, seen, k, 0, id); }
              before[index[k] := upserts[n]]
            else before + [upserts[n]]
  {
    var k := key(upserts[n]);
    IndexHit(index, kept, seen, k, 0, id);
    NextUpsert(kept, upserts, n, id, key);
  }

  method PutUpserts<T>(kept: seq<T>, positions: map<string, nat>, upserts: seq<T>, id: T -> string, key: T -> string)
    returns (r: Result<seq<T>, IdError>)
    requires Indexes(positions, kept, {}, id)
    ensures r == match IdListError(Map(upserts, key))
                 case Some(e) => Err(e)
                 case None => Ok(Put(kept, upserts, id, key))
  {
    var result, index: map<string, nat> := kept, positions;
    ghost var keys := Map(upserts, key);
    var seen: set<string> := {};
    assert Overlay(kept, [], id, key) == kept;
    for n := 0 to |upserts|
      invariant IdListError(keys[..n]).None?
      invariant seen == ToSet(keys[..n])
      invariant Indexes(index, kept, seen, id)
      invariant result == Put(kept, upserts[..n], id, key)
    {
      var k := key(upserts[n]);
      NextId(keys, n);
      if k == "" {
        return Err(EmptyId);
      }
      if k in seen {
        return Err(DuplicateId);
      }
      assert Map(upserts[..n], key) == keys[..n];
      PutNext(kept, upserts, n, index, seen, id, key);
      IndexHit(index, kept, seen, k, |result|, id);
      seen := seen + {k};
      if k in index {
        result := result[index[k] := upserts[n]];
      } else {
        index := index[k := |result|];
        result := result + [upserts[n]];
      }
    }
    assert keys[..|upserts|] == keys && upserts[..|upserts|] == upserts;
    return Ok(result);
  }

  method MergeRecords<T>(current: seq<T>, upserts: seq<T>, removeIds: seq<string>, id: T -> string, key: T -> string)
    returns (r: Result<seq<T>, IdError>)
    ensures r == Merged(current, upserts, removeIds, id, key)
  {
    var remove := NormalizedIdSet(removeIds);
    if remove.Err? {
      return Err(remove.error);
    }
    var kept, index := IndexKept(current, remove.value, id);
    r := PutUpserts(kept, index, upserts, id, key);
  }

  // ----- what the merge means -----

  lemma {:induction false} KeepMembers<T(!new)>(s: seq<T>, drop: set<string>, id: T -> string)
    ensures forall x :: x in Keep(s, drop, id) <==> x in s && id(x) !in drop
    ensures DistinctBy(s, id) ==> DistinctBy(Keep(s, drop, id), id)
  {
    if s != [] {
      var n := |s| - 1;
      assert s == s[..n] + [s[n]];
      KeepMembers(s[..n], drop, id);
      if DistinctBy(s, id) {
        DistinctInit(s, id);
        DistinctSnoc(Keep(s[..n], drop, id), s[n], id);
      }
    }
  }

  /** Keeping splits over concatenation, so it respects permutations. */
  lemma {:induction false} KeepMultiset<T(!new)>(s: seq<T>, drop: set<string>, id: T -> string, x: T)
    ensures multiset(Keep(s, drop, id))[x] == if id(x) in drop then 0 else multiset(s)[x]
  {
    if s != [] {
      var n := |s| - 1;
      assert s == s[..n] + [s[n]];
      KeepMultiset(s[..n], drop, id, x);
    }
  }

  lemma KeepRespectsOrder<T(!new)>(a: seq<T>, b: seq<T>, drop: set<string>, id: T -> string)
    requires SamePermutation(a, b)
    ensures SamePermutation(Keep(a, drop, id), Keep(b, drop, id))
  {
    forall x
      ensures multiset(Keep(a, drop, id))[x] == multiset(Keep(b, drop, id))[x]
    {
      KeepMultiset(a, drop, id, x);
      KeepMultiset(b, drop, id, x);
    }
    SameCounts(multiset(Keep(a, drop, id)), multiset(Keep(b, drop, id)));
  }

  /** Dropping one more ID from a list with distinct IDs loses exactly the record that has it. */
  lemma DropOne<T(!new)>(s: seq<T>, p: nat, drop: set<string>, id: T -> string)
    requires DistinctBy(s, id) && p < |s| && id(s[p]) !in drop
    ensures multiset(Keep(s, drop, id)) == multiset(Keep(s, drop + {id(s[p])}, id)) + multiset{s[p]}
  {
    forall x
      ensures multiset(Keep(s, drop, id))[x] == (multiset(Keep(s, drop + {id(s[p])}, id)) + multiset{s[p]})[x]
    {
      KeepMultiset(s, drop, id, x);
      KeepMultiset(s, drop + {id(s[p])}, id, x);
      DistinctMultiplicity(s, id, x);
      if id(x) == id(s[p]) && x in s {
        assert x == s[p];
      }
      assert s[p] in s;
    }
    SameCounts(multiset(Keep(s, drop, id)), multiset(Keep(s, drop + {id(s[p])}, id)) + multiset{s[p]});
  }

  lemma DropAbsent<T(!new)>(s: seq<T>, k: string, drop: set<string>, id: T -> string)
    requires k !in Map(s, id)
    ensures multiset(Keep(s, drop, id)) == multiset(Keep(s, drop + {k}, id))
  {
    forall x
      ensures multiset(Keep(s, drop, id))[x] == multiset(Keep(s, drop + {k}, id))[x]
    {
      KeepMultiset(s, drop, id, x);
      KeepMultiset(s, drop + {k}, id, x);
      MapMember(s, id, k);
    }
    SameCounts(multiset(Keep(s, drop, id)), multiset(Keep(s, drop + {k}, id)));
  }

  lemma {:induction false} KeepAll<T(!new)>(s: seq<T>, id: T -> string)
    ensures Keep(s, {}, id) == s
  {
    if s != [] {
      KeepAll(s[..|s| - 1], id);
      assert s == s[..|s| - 1] + [s[|s| - 1]];
    }
  }

  /** Replacing one element exchanges it in the multiset. */
  lemma ReplaceCounts<T(!new)>(s: seq<T>, p: nat, u: T)
    requires p < |s|
    ensures multiset(s[p := u]) + multiset{s[p]} == multiset(s) + multiset{u}
  {
  }

  lemma Exchange<T(!new)>(was: multiset<T>, now: multiset<T>, lost: multiset<T>, left: multiset<T>, put: multiset<T>, u: T)
    requires now + lost == was + multiset{u}
    requires was == left + lost + put
    ensures now == left + (put + multiset{u})
  {
    forall x
      ensures now[x] == (left + (put + multiset{u}))[x]
    {
      assert (now + lost)[x] == (was + multiset{u})[x];
      assert was[x] == (left + lost + put)[x];
    }
    SameCounts(now, left + (put + multiset{u}));
  }

  lemma PutLast<T(!new)>(kept: seq<T>, upserts: seq<T>, id: T -> string, key: T -> string)
    requires DistinctBy(kept, id) && DistinctBy(upserts, key) && upserts != []
    ensures var n := |upserts| - 1;
            var before, k := Put(kept, upserts[..n], id, key), key(upserts[n]);
            && (k !in Map(kept, id) ==> Put(kept, upserts, id, key) == before + [upserts[n]])
            && (forall p | 0 <= p < |kept| && id(kept[p]) == k ::
                  before[p] == kept[p] && Put(kept, upserts, id, key) == before[p := upserts[n]])
  {
    var n := |upserts| - 1;
    assert upserts[..n + 1] == upserts;
    FreshKey(upserts, key);
    NextUpsert(kept, upserts, n, id, key);
    forall p | 0 <= p < |kept| && id(kept[p]) == key(upserts[n])
      ensures Put(kept, upserts, id, key) == Put(kept, upserts[..n], id, key)[p := upserts[n]]
    {
      assert Map(kept, id)[p] == key(upserts[n]);
    }
  }

  /** The merged list holds every upsert, and every kept record that no upsert carries, each as
      often as it occurs: nothing is lost and nothing is invented. */
  lemma {:induction false} PutContents<T(!new)>(kept: seq<T>, upserts: seq<T>, id: T -> string, key: T -> string)
    requires DistinctBy(kept, id) && DistinctBy(upserts, key)
    ensures multiset(Put(kept, upserts, id, key)) ==
            multiset(Keep(kept, ToSet(Map(upserts, key)), id)) + multiset(upserts)
  {
    if upserts == [] {
      KeepAll(kept, id);
      assert Overlay(kept, upserts, id, key) == kept;
      assert ToSet(Map(upserts, key)) == {};
    } else {
      var n := |upserts| - 1;
      DistinctInit(upserts, key);
      PutContents(kept, upserts[..n], id, key);
      PutContentsStep(kept, upserts[..n], upserts[n], upserts, id, key);
    }
  }

  lemma PutContentsStep<T(!new)>(kept: seq<T>, before: seq<T>, u: T, upserts: seq<T>, id: T -> string, key: T -> string)
    requires DistinctBy(kept, id) && DistinctBy(upserts, key)
    requires upserts != [] && before == upserts[..|upserts| - 1] && u == upserts[|upserts| - 1]
    requires multiset(Put(kept, before, id, key)) == multiset(Keep(kept, ToSet(Map(before, key)), id)) + multiset(before)
    ensures multiset(Put(kept, upserts, id, key)) == multiset(Keep(kept, ToSet(Map(upserts, key)), id)) + multiset(upserts)
  {
    hide Put, Keep, Map, ToSet;
    var k, seen := key(u), ToSet(Map(before, key));
    PutLast(kept, upserts, id, key);
    KeySetSnoc(before, u, key);
    FreshKey(upserts, key);
    assert upserts == before + [u];
    var after, prior := Put(kept, upserts, id, key), Put(kept, before, id, key);
    if p :| 0 <= p < |kept| && id(kept[p]) == k {
      assert multiset(after) == multiset(Keep(kept, seen + {k}, id)) + (multiset(before) + multiset{u}) by {
        DropOne(kept, p, seen, id);
        ReplaceCounts(prior, p, u);
        Exchange(multiset(prior), multiset(after), multiset{kept[p]}, multiset(Keep(kept, seen + {k}, id)), multiset(before), u);
      }
    } else {
      assert multiset(after) == multiset(Keep(kept, seen + {k}, id)) + (multiset(before) + multiset{u}) by {
        DropAbsent(kept, k, seen, id);
      }
    }
  }

  lemma FreshKey<T(!new)>(upserts: seq<T>, key: T -> string)
    requires upserts != [] && DistinctBy(upserts, key)
    ensures key(upserts[|upserts| - 1]) !in Map(upserts[..|upserts| - 1], key)
    ensures key(upserts[|upserts| - 1]) !in ToSet(Map(upserts[..|upserts| - 1], key))
  {
    DistinctInit(upserts, key);
    MapMember(upserts[..|upserts| - 1], key, key(upserts[|upserts| - 1]));
  }

  lemma KeySetSnoc<T(!new)>(s: seq<T>, u: T, key: T -> string)
    ensures ToSet(Map(s + [u], key)) == ToSet(Map(s, key)) + {key(u)}
  {
    assert Map(s + [u], key) == Map(s, key) + [key(u)];
  }

  lemma CleanIsDistinct<T(!new)>(s: seq<T>, key: T -> string)
    requires IdListError(Map(s, key)).None?
    ensures DistinctBy(s, key)
  {
    IdListAccepted(Map(s, key));
    forall i, j | 0 <= i < j < |s|
      ensures key(s[i]) != key(s[j])
    {
      assert Map(s, key)[i] != Map(s, key)[j];
    }
  }

  /** Merging does not look at the order of the current list: two orderings of the same records
      are refused alike, or merge to two orderings of the same records. */
  lemma MergeRespectsOrder<T(!new)>(a: seq<T>, b: seq<T>, upserts: seq<T>, removeIds: seq<string>, id: T -> string, key: T -> string)
    requires SamePermutation(a, b) && DistinctBy(a, id)
    ensures Merged(a, upserts, removeIds, id, key).Err? ==>
              Merged(b, upserts, removeIds, id, key) == Merged(a, upserts, removeIds, id, key)
    ensures Merged(a, upserts, removeIds, id, key).Ok? ==>
              && Merged(b, upserts, removeIds, id, key).Ok?
              && SamePermutation(Merged(a, upserts, removeIds, id, key).value, Merged(b, upserts, removeIds, id, key).value)
  {
    if Merged(a, upserts, removeIds, id, key).Ok? {
      var removed, put := ToSet(Map(removeIds, TrimSpace)), ToSet(Map(upserts, key));
      DistinctPermutation(a, b, id);
      KeepMembers(a, removed, id);
      KeepMembers(b, removed, id);
      CleanIsDistinct(upserts, key);
      PutContents(Keep(a, removed, id), upserts, id, key);
      PutContents(Keep(b, removed, id), upserts, id, key);
      KeepRespectsOrder(a, b, removed, id);
      KeepRespectsOrder(Keep(a, removed, id), Keep(b, removed, id), put, id);
    }
  }

  /** Reading a list as a map from ID to record. */
  lemma {:induction false} FindMember<T(!new)>(s: seq<T>, k: string, id: T -> string, x: T)
    requires DistinctBy(s, id)
    ensures Find(s, k, id) == Some(x) <==> x in s && id(x) == k
  {
    if s != [] {
      var n := |s| - 1;
      assert s == s[..n] + [s[n]];
      FindMember(s[..n], k, id, x);
      assert forall i | 0 <= i < n :: s[..n][i] == s[i];
    }
  }

  lemma {:induction false} AdditionsMembers<T(!new)>(kept: seq<T>, upserts: seq<T>, id: T -> string, key: T -> string)
    requires DistinctBy(upserts, key)
    ensures forall x :: x in Additions(kept, upserts, id, key) <==> x in upserts && key(x) !in Map(kept, id)
    ensures DistinctBy(Additions(kept, upserts, id, key), key)
  {
    if upserts != [] {
      var n := |upserts| - 1;
      assert upserts == upserts[..n] + [upserts[n]];
      DistinctInit(upserts, key);
      AdditionsMembers(kept, upserts[..n], id, key);
      DistinctSnoc(Additions(kept, upserts[..n], id, key), upserts[n], key);
    }
  }

  /** The members of the result, whatever the IDs look like. */
  lemma MergedMembers<T(!new)>(current: seq<T>, upserts: seq<T>, removeIds: seq<string>, id: T -> string, key: T -> string)
    requires DistinctBy(current, id) && Merged(current, upserts, removeIds, id, key).Ok?
    ensures var removed, kept := ToSet(Map(removeIds, TrimSpace)), Keep(current, ToSet(Map(removeIds, TrimSpace)), id);
            && DistinctBy(kept, id) && DistinctBy(upserts, key)
            && SamePermutation(Merged(current, upserts, removeIds, id, key).value, Keep(kept, ToSet(Map(upserts, key)), id) + upserts)
            && forall x :: x in Merged(current, upserts, removeIds, id, key).value <==>
                           x in upserts || (x in current && id(x) !in removed && id(x) !in ToSet(Map(upserts, key)))
  {
    hide Put;
    var removed, replaced := ToSet(Map(removeIds, TrimSpace)), ToSet(Map(upserts, key));
    var kept := Keep(current, removed, id);
    KeepMembers(current, removed, id);
    CleanIsDistinct(upserts, key);
    PutContents(kept, upserts, id, key);
    KeepMembers(kept, replaced, id);
    MembersOfPermutation(Put(kept, upserts, id, key), Keep(kept, replaced, id) + upserts);
  }

  /** Where the result takes over a kept record's place, it stands there. */
  lemma OverlayInPlace<T(!new)>(kept: seq<T>, upserts: seq<T>, id: T -> string, key: T -> string)
    requires DistinctBy(kept, id)
    ensures forall i | 0 <= i < |kept| ::
              Overlay(kept, upserts, id, key)[i] ==
              match Find(upserts, id(kept[i]), key) case Some(u) => u case None => kept[i]
  {
  }

  /** With IDs distinct in the current list, the merge is the map update "current minus removed,
      overridden by upserts": an upsert takes the place of the record whose ID is its trimmed ID, other
      survivors stay in place and in order, new records follow in the order of the upserts, and an ID
      that is both removed and upserted is present. The update is matched by trimmed IDs and the records
      keep theirs, so IDs stay distinct exactly if no upsert carries, with space around it, the ID of a
      kept record. */
  lemma MergeIsMapUpdate<T(!new)>(current: seq<T>, upserts: seq<T>, removeIds: seq<string>, id: T -> string, key: T -> string)
    requires DistinctBy(current, id)
    requires forall x | x in upserts :: key(x) == TrimSpace(id(x))
    requires Merged(current, upserts, removeIds, id, key).Ok?
    ensures var result := Merged(current, upserts, removeIds, id, key).value;
            var removed, replaced := ToSet(Map(removeIds, TrimSpace)), ToSet(Map(upserts, key));
            var kept := Keep(current, removed, id);
            && |kept| <= |result|
            && (forall i | 0 <= i < |kept| ::
                  result[i] == match Find(upserts, id(kept[i]), key) case Some(u) => u case None => kept[i])
            && result[|kept|..] == Additions(kept, upserts, id, key)
            && (DistinctBy(result, id) <==> forall u | u in upserts && id(u) in Map(kept, id) :: Trimmed(id(u)))
            && (DistinctBy(result, id) ==>
                  forall k :: Find(result, k, id) ==
                              if Find(upserts, k, id).Some? then Find(upserts, k, id)
                              else if k in removed || k in replaced then None
                              else Find(current, k, id))
  {
    hide TrimSpace, Trimmed, Find, IdListError, Keep, Additions, Map, ToSet, DistinctBy;
    var result := Merged(current, upserts, removeIds, id, key).value;
    var removed, replaced := ToSet(Map(removeIds, TrimSpace)), ToSet(Map(upserts, key));
    var kept := Keep(current, removed, id);
    MergedMembers(current, upserts, removeIds, id, key);
    OverlayInPlace(kept, upserts, id, key);
    MergedDistinctIff(kept, upserts, result, id, key);
    if DistinctBy(result, id) {
      KeyDistinctIdDistinct(upserts, id, key);
      forall k
        ensures Find(result, k, id) ==
                if Find(upserts, k, id).Some? then Find(upserts, k, id)
                else if k in removed || k in replaced then None
                else Find(current, k, id)
      {
        MergedFind(current, upserts, removed, replaced, result, id, k);
      }
    }
  }

  lemma KeyDistinctIdDistinct<T(!new)>(upserts: seq<T>, id: T -> string, key: T -> string)
    requires DistinctBy(upserts, key) && forall x | x in upserts :: key(x) == TrimSpace(id(x))
    ensures DistinctBy(upserts, id)
  {
    hide TrimSpace;
    forall i, j | 0 <= i < j < |upserts|
      ensures id(upserts[i]) != id(upserts[j])
    {
      assert key(upserts[i]) != key(upserts[j]);
    }
  }

  lemma MergedDistinctIff<T(!new)>(kept: seq<T>, upserts: seq<T>, result: seq<T>, id: T -> string, key: T -> string)
    requires DistinctBy(kept, id) && DistinctBy(upserts, key)
    requires forall x | x in upserts :: key(x) == TrimSpace(id(x))
    requires SamePermutation(result, Keep(kept, ToSet(Map(upserts, key)), id) + upserts)
    ensures DistinctBy(result, id) <==> forall u | u in upserts && id(u) in Map(kept, id) :: Trimmed(id(u))
  {
    hide TrimSpace, Trimmed, Keep, Map, ToSet, DistinctBy;
    var replaced := ToSet(Map(upserts, key));
    var left := Keep(kept, replaced, id);
    KeepMembers(kept, replaced, id);
    KeyDistinctIdDistinct(upserts, id, key);
    if DistinctBy(result, id) {
      DistinctPermutation(result, left + upserts, id);
      forall u | u in upserts && id(u) in Map(kept, id)
        ensures Trimmed(id(u))
      {
        MapMember(kept, id, id(u));
        var x :| x in kept && id(x) == id(u);
        if x in left {
          Apart(left, upserts, id, x, u);
        }
        ReplacedIsTrimmed(upserts, id, key, id(x));
      }
    } else if forall u | u in upserts && id(u) in Map(kept, id) :: Trimmed(id(u)) {
      forall x, u | x in left && u in upserts
        ensures id(x) != id(u)
      {
        MapMember(kept, id, id(x));
        UpsertIsReplaced(upserts, id, key, u);
      }
      DistinctConcat(left, upserts, id);
      DistinctPermutation(left + upserts, result, id);
    }
  }

  lemma ReplacedIsTrimmed<T(!new)>(upserts: seq<T>, id: T -> string, key: T -> string, k: string)
    requires k in ToSet(Map(upserts, key)) && forall x | x in upserts :: key(x) == TrimSpace(id(x))
    ensures Trimmed(k)
  {
    hide TrimSpace, Trimmed;
    MapMember(upserts, key, k);
    var u :| u in upserts && key(u) == k;
    TrimSpaceIdempotent(id(u));
  }

  lemma UpsertIsReplaced<T(!new)>(upserts: seq<T>, id: T -> string, key: T -> string, u: T)
    requires u in upserts && key(u) == TrimSpace(id(u))
    ensures Trimmed(id(u)) ==> id(u) in ToSet(Map(upserts, key))
  {
    hide TrimSpace, Trimmed;
    TrimSpaceIdempotent(id(u));
    MapMember(upserts, key, key(u));
  }

  /** In a list with distinct IDs no ID occurs in both halves. */
  lemma Apart<T(!new)>(a: seq<T>, b: seq<T>, id: T -> string, x: T, y: T)
    requires DistinctBy(a + b, id) && x in a && y in b
    ensures id(x) != id(y)
  {
    var i :| 0 <= i < |a| && a[i] == x;
    var j :| 0 <= j < |b| && b[j] == y;
    assert (a + b)[i] == x && (a + b)[|a| + j] == y;
  }

  lemma DistinctConcat<T(!new)>(a: seq<T>, b: seq<T>, id: T -> string)
    requires DistinctBy(a, id) && DistinctBy(b, id)
    requires forall x, y | x in a && y in b :: id(x) != id(y)
    ensures DistinctBy(a + b, id)
  {
  }

  lemma MergedFind<T(!new)>(current: seq<T>, upserts: seq<T>, removed: set<string>, replaced: set<string>, result: seq<T>,
                            id: T -> string, k: string)
    requires DistinctBy(current, id) && DistinctBy(upserts, id) && DistinctBy(result, id)
    requires forall x :: x in result <==> x in upserts || (x in current && id(x) !in removed && id(x) !in replaced)
    ensures Find(result, k, id) ==
            if Find(upserts, k, id).Some? then Find(upserts, k, id)
            else if k in removed || k in replaced then None
            else Find(current, k, id)
  {
    hide Find;
    if Find(result, k, id).Some? {
      var x := Find(result, k, id).value;
      FindMember(result, k, id, x);
      FindMember(upserts, k, id, x);
      FindMember(current, k, id, x);
    } else if Find(upserts, k, id).Some? {
      var x := Find(upserts, k, id).value;
      FindMember(upserts, k, id, x);
      FindMember(result, k, id, x);
    } else if k !in removed && k !in replaced && Find(current, k, id).Some? {
      var x := Find(current, k, id).value;
      FindMember(current, k, id, x);
      FindMember(result, k, id, x);
    }
  }

  // ----- records whose ID has space around it -----

  /** Removals and upserts are matched by trimmed IDs, so no delta removes or replaces a record whose
      own ID is not trimmed. */
  lemma UntrimmedStays<T(!new)>(current: seq<T>, upserts: seq<T>, removeIds: seq<string>, id: T -> string, key: T -> string, x: T)
    requires forall u | u in upserts :: key(u) == TrimSpace(id(u))
    requires Merged(current, upserts, removeIds, id, key).Ok?
    requires x in current && !Trimmed(id(x))
    ensures x in Merged(current, upserts, removeIds, id, key).value
  {
    hide TrimSpace, Trimmed;
    var removed := ToSet(Map(removeIds, TrimSpace));
    var kept := Keep(current, removed, id);
    KeepMembers(current, removed, id);
    if id(x) in removed {
      MapMember(removeIds, TrimSpace, id(x));
      var raw :| raw in removeIds && TrimSpace(raw) == id(x);
      TrimSpaceIdempotent(raw);
    }
    var i :| 0 <= i < |kept| && kept[i] == x;
    if id(x) in Map(upserts, key) {
      ReplacedIsTrimmed(upserts, id, key, id(x));
    }
    assert Put(kept, upserts, id, key)[i] == OverlayAt(kept, upserts, i, id, key) == x;
  }

  /** Hence a removal takes effect exactly if the ID of the record is trimmed. */
  lemma RemovalTakesEffectIff<T(!new)>(current: seq<T>, upserts: seq<T>, removeIds: seq<string>, id: T -> string, key: T -> string, x: T)
    requires DistinctBy(current, id) && forall u | u in upserts :: key(u) == TrimSpace(id(u))
    requires Merged(current, upserts, removeIds, id, key).Ok?
    requires x in current && TrimSpace(id(x)) in Map(removeIds, TrimSpace)
    requires forall u | u in upserts :: id(u) != id(x)
    ensures id(x) !in Map(Merged(current, upserts, removeIds, id, key).value, id) <==> Trimmed(id(x))
  {
    hide TrimSpace, Trimmed, Merged;
    var result := Merged(current, upserts, removeIds, id, key).value;
    MergedMembers(current, upserts, removeIds, id, key);
    MapMember(result, id, id(x));
    TrimSpaceIdempotent(id(x));
    if !Trimmed(id(x)) {
      UntrimmedStays(current, upserts, removeIds, id, key, x);
    }
  }

  /** A delta's lists are accepted exactly if no trimmed ID is blank or repeated in either. */
  lemma MergeAcceptedIff<T(!new)>(current: seq<T>, upserts: seq<T>, removeIds: seq<string>, id: T -> string, key: T -> string)
    ensures Merged(current, upserts, removeIds, id, key).Ok? <==> CleanIds(Map(removeIds, TrimSpace)) && CleanIds(Map(upserts, key))
  {
    hide Merged, CleanIds, IdListError;
    MergedOk(current, upserts, removeIds, id, key);
    IdListAccepted(Map(removeIds, TrimSpace));
    IdListAccepted(Map(upserts, key));
  }

  /** Removals are checked first. */
  lemma MergedOk<T(!new)>(current: seq<T>, upserts: seq<T>, removeIds: seq<string>, id: T -> string, key: T -> string)
    ensures Merged(current, upserts, removeIds, id, key).Ok? <==>
              IdListError(Map(removeIds, TrimSpace)).None? && IdListError(Map(upserts, key)).None?
    ensures IdListError(Map(removeIds, TrimSpace)).Some? ==>
              Merged(current, upserts, removeIds, id, key) == Err(IdListError(Map(removeIds, TrimSpace)).value)
  {
    hide IdListError, Put, Keep, ToSet;
  }

  // ----- the change from one list to another -----

  /** The records of `b` that `a` does not have. */
  function Changed<T(==)>(a: seq<T>, b: seq<T>): seq<T> {
    if b == [] then []
    else
      var last := b[|b| - 1];
      Changed(a, b[..|b| - 1]) + (if last in a then [] else [last])
  }

  /** The IDs of `a` that `b` does not have. */
  function Gone<T>(a: seq<T>, b: seq<T>, id: T -> string): seq<string> {
    Map(Keep(a, ToSet(Map(b, id)), id), id)
  }

  /** IDs that are trimmed, not blank and distinct. */
  ghost predicate CleanRecords<T(!new)>(s: seq<T>, id: T -> string) {
    DistinctBy(s, id) && forall x | x in s :: Trimmed(id(x)) && id(x) != ""
  }

  lemma {:induction false} ChangedMembers<T(!new)>(a: seq<T>, b: seq<T>, id: T -> string)
    ensures forall x :: x in Changed(a, b) <==> x in b && x !in a
    ensures DistinctBy(b, id) ==> DistinctBy(Changed(a, b), id)
  {
    if b != [] {
      var n := |b| - 1;
      assert b == b[..n] + [b[n]];
      ChangedMembers(a, b[..n], id);
      if DistinctBy(b, id) {
        DistinctInit(b, id);
        DistinctSnoc(Changed(a, b[..n]), b[n], id);
      }
    }
  }

  /** Clean records pass as upserts, and their IDs as removals. */
  lemma CleanPasses<T(!new)>(s: seq<T>, id: T -> string, key: T -> string)
    requires CleanRecords(s, id) && forall x | x in s :: key(x) == TrimSpace(id(x))
    ensures Map(s, key) == Map(s, id) && Map(Map(s, id), TrimSpace) == Map(s, id)
    ensures IdListError(Map(s, id)).None?
  {
    hide TrimSpace, Trimmed, IdListError;
    forall i | 0 <= i < |s|
      ensures TrimSpace(id(s[i])) == id(s[i]) != "" && key(s[i]) == id(s[i])
    {
      assert s[i] in s;
      TrimSpaceIdempotent(id(s[i]));
    }
    IdListAccepted(Map(s, id));
  }

  /** Every change of a list with clean records is the merge of some upserts and removals: the records
      that are new or different, and the IDs that are gone. */
  lemma ChangeIsMerge<T(!new)>(a: seq<T>, b: seq<T>, id: T -> string, key: T -> string)
    requires CleanRecords(a, id) && CleanRecords(b, id)
    requires forall x | x in a || x in b :: key(x) == TrimSpace(id(x))
    ensures Merged(a, Changed(a, b), Gone(a, b, id), id, key).Ok?
    ensures SamePermutation(Merged(a, Changed(a, b), Gone(a, b, id), id, key).value, b)
  {
    hide TrimSpace, Trimmed, IdListError, Put, Keep, Changed, SamePermutation;
    var upserts, dropped := Changed(a, b), Keep(a, ToSet(Map(b, id)), id);
    ChangedMembers(a, b, id);
    KeepMembers(a, ToSet(Map(b, id)), id);
    CleanPasses(upserts, id, key);
    CleanPasses(dropped, id, x => TrimSpace(id(x)));
    MergedMembers(a, upserts, Gone(a, b, id), id, key);
    MergeIsMapUpdate(a, upserts, Gone(a, b, id), id, key);
    var result := Merged(a, upserts, Gone(a, b, id), id, key).value;
    forall x
      ensures x in result <==> x in b
    {
      MapMember(dropped, id, id(x));
      MapMember(upserts, id, id(x));
      MapMember(b, id, id(x));
      if y :| x in a && x !in b && y in b && id(y) == id(x) {
        if y in a {
          SameId(a, id, x, y);
        }
      }
      if y :| x in b && x in a && y in upserts && id(y) == id(x) {
        SameId(b, id, x, y);
      }
      if y :| x in a && y in dropped && id(y) == id(x) {
        SameId(a, id, x, y);
      }
    }
    assert DistinctBy(result, id) by {
      assert forall u | u in upserts :: Trimmed(id(u));
    }
    SameMembersPermute(result, b, id);
  }

  // ----- merging records of another kind -----

  /** `f` sends records to records with the same ID and the same trimmed ID. */
  ghost predicate KeepsIds<T, U>(s: seq<T>, f: T -> U, id: T -> string, key: T -> string, id2: U -> string, key2: U -> string) {
    forall x | x in s :: id2(f(x)) == id(x) && key2(f(x)) == key(x)
  }

  lemma {:induction false} KeepMapped<T, U>(s: seq<T>, drop: set<string>, f: T -> U, id: T -> string, id2: U -> string)
    requires forall x | x in s :: id2(f(x)) == id(x)
    ensures Keep(Map(s, f), drop, id2) == Map(Keep(s, drop, id), f)
    ensures forall x | x in Keep(s, drop, id) :: x in s
  {
    if s != [] {
      var n := |s| - 1;
      assert s == s[..n] + [s[n]];
      assert Map(s, f)[..n] == Map(s[..n], f);
      KeepMapped(s[..n], drop, f, id, id2);
    }
  }

  lemma {:induction false} FindMapped<T, U>(s: seq<T>, k: string, f: T -> U, key: T -> string, key2: U -> string)
    requires forall x | x in s :: key2(f(x)) == key(x)
    ensures Find(Map(s, f), k, key2) == match Find(s, k, key) case None => None case Some(x) => Some(f(x))
  {
    if s != [] {
      var n := |s| - 1;
      assert s == s[..n] + [s[n]];
      assert Map(s, f)[..n] == Map(s[..n], f);
      FindMapped(s[..n], k, f, key, key2);
    }
  }

  lemma {:induction false} AdditionsMapped<T, U>(kept: seq<T>, upserts: seq<T>, f: T -> U,
                                                 id: T -> string, key: T -> string, id2: U -> string, key2: U -> string)
    requires KeepsIds(kept, f, id, key, id2, key2) && KeepsIds(upserts, f, id, key, id2, key2)
    ensures Additions(Map(kept, f), Map(upserts, f), id2, key2) == Map(Additions(kept, upserts, id, key), f)
  {
    assert Map(Map(kept, f), id2) == Map(kept, id);
    if upserts != [] {
      var n := |upserts| - 1;
      assert upserts == upserts[..n] + [upserts[n]];
      assert Map(upserts, f)[..n] == Map(upserts[..n], f);
      AdditionsMapped(kept, upserts[..n], f, id, key, id2, key2);
    }
  }

  lemma OverlayMapped<T, U>(kept: seq<T>, upserts: seq<T>, f: T -> U,
                            id: T -> string, key: T -> string, id2: U -> string, key2: U -> string)
    requires KeepsIds(kept, f, id, key, id2, key2) && KeepsIds(upserts, f, id, key, id2, key2)
    ensures Overlay(Map(kept, f), Map(upserts, f), id2, key2) == Map(Overlay(kept, upserts, id, key), f)
  {
    hide Find;
    var mapped := Map(kept, f);
    forall i | 0 <= i < |kept|
      ensures OverlayAt(mapped, Map(upserts, f), i, id2, key2) == f(OverlayAt(kept, upserts, i, id, key))
    {
      FindMapped(upserts, id(kept[i]), f, key, key2);
      assert forall j | 0 <= j < |kept| :: kept[j] in kept && id2(mapped[j]) == id(kept[j]);
      assert IsLast(mapped, i, id2) <==> IsLast(kept, i, id);
    }
  }

  /** Merging looks at IDs only: it commutes with any conversion of the records that keeps them. */
  lemma MergeMapped<T, U>(current: seq<T>, upserts: seq<T>, removeIds: seq<string>, f: T -> U,
                          id: T -> string, key: T -> string, id2: U -> string, key2: U -> string)
    requires KeepsIds(current, f, id, key, id2, key2) && KeepsIds(upserts, f, id, key, id2, key2)
    ensures Merged(Map(current, f), Map(upserts, f), removeIds, id2, key2) ==
            match Merged(current, upserts, removeIds, id, key) case Err(e) => Err(e) case Ok(s) => Ok(Map(s, f))
  {
    hide Keep, Overlay, Additions, IdListError;
    var removed := ToSet(Map(removeIds, TrimSpace));
    var kept := Keep(current, removed, id);
    assert Map(Map(upserts, f), key2) == Map(upserts, key);
    KeepMapped(current, removed, f, id, id2);
    OverlayMapped(kept, upserts, f, id, key, id2, key2);
    AdditionsMapped(kept, upserts, f, id, key, id2, key2);
    MapConcat(Overlay(kept, upserts, id, key), Additions(kept, upserts, id, key), f);
  }

  /** Every merged record is a current one or an upsert. */
  lemma MergedFrom<T>(current: seq<T>, upserts: seq<T>, removeIds: seq<string>, id: T -> string, key: T -> string)
    requires Merged(current, upserts, removeIds, id, key).Ok?
    ensures forall i | 0 <= i < |Merged(current, upserts, removeIds, id, key).value| ::
              Merged(current, upserts, removeIds, id, key).value[i] in current + upserts
  {
    var kept := Keep(current, ToSet(Map(removeIds, TrimSpace)), id);
    KeepFrom(current, ToSet(Map(removeIds, TrimSpace)), id);
    AdditionsFrom(kept, upserts, id, key);
    forall i | 0 <= i < |kept|
      ensures OverlayAt(kept, upserts, i, id, key) in current + upserts
    {
      FindFrom(upserts, id(kept[i]), key);
    }
  }

  lemma {:induction false} KeepFrom<T>(s: seq<T>, drop: set<string>, id: T -> string)
    ensures forall i | 0 <= i < |Keep(s, drop, id)| :: Keep(s, drop, id)[i] in s
  {
    if s != [] {
      KeepFrom(s[..|s| - 1], drop, id);
    }
  }

  lemma {:induction false} AdditionsFrom<T>(kept: seq<T>, upserts: seq<T>, id: T -> string, key: T -> string)
    ensures forall i | 0 <= i < |Additions(kept, upserts, id, key)| :: Additions(kept, upserts, id, key)[i] in upserts
  {
    if upserts != [] {
      AdditionsFrom(kept, upserts[..|upserts| - 1], id, key);
    }
  }

  lemma {:induction false} FindFrom<T>(s: seq<T>, k: string, key: T -> string)
    ensures Find(s, k, key).Some? ==> Find(s, k, key).value in s
  {
    if s != [] {
      FindFrom(s[..|s| - 1], k, key);
    }
  }

  lemma MergeNothing<T(!new)>(s: seq<T>, id: T -> string, key: T -> string)
    ensures Merged(s, [], [], id, key) == Ok(s)
  {
    var none: seq<T>, noIds: seq<string> := [], [];
    var removed := Map(noIds, TrimSpace);
    assert removed == [] && Map(none, key) == [];
    assert IdListError(removed).None? && IdListError(Map(none, key)).None?;
    assert ToSet(removed) == {};
    KeepAll(s, id);
    OverlayNothing(s, id, key);
    assert Additions(s, none, id, key) == [];
    assert Put(s, none, id, key) == s;
    assert Merged(s, none, noIds, id, key) == Ok(Put(Keep(s, ToSet(removed), id), none, id, key));
  }

  lemma OverlayNothing<T(!new)>(s: seq<T>, id: T -> string, key: T -> string)
    ensures Overlay(s, [], id, key) == s
  {
  }

  lemma MapConcat<T, U>(a: seq<T>, b: seq<T>, f: T -> U)
    ensures Map(a + b, f) == Map(a, f) + Map(b, f)
  {
  }
}
