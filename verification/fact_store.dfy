/** The `facts` collection and the three operations that change it: `add_fact`,
    `forget_fact` and `replace_fact`. The document store is an ordered sequence of
    records; every lookup is the anchored, escaped, case-insensitive pattern built by
    `term_regex`, which amounts to equality of the case folds. */
module FactStore {
  import opened Wrappers
  import opened Text

  /** One stored fact. A legacy record without `set_by` reads exactly like one with an
      empty `set_by` (`record.get('set_by', '')`), so the author is a plain string; a
      legacy record without `set_date` has `setDate == None`. */
  datatype Record = Record(term: string, fact: string, setBy: string, setDate: Option<int>)

  type Store = seq<Record>

  /** A store after `forget_fact` or `replace_fact`, with the acknowledgement they return. */
  datatype Acked = Acked(store: Store, ack: string)

  /** `term_regex(term)` matches the record's term: the pattern is `^`, the escaped term
      and `$`, matched case-insensitively by the store, so it matches whole terms whose
      case folds agree, never substrings. The ASCII fold approximates the store's. */
  predicate Matches(rec: Record, term: string) {
    Fold(rec.term) == Fold(term)
  }

  /** Some record of the store matches `term` (`find(...).count()` is non-zero). */
  predicate Exists(store: Store, term: string) {
    exists i :: 0 <= i < |store| && Matches(store[i], term)
  }

  /** At most one record per case-folded term. */
  predicate Unique(store: Store) {
    forall i, j :: 0 <= i < j < |store| ==> Fold(store[i].term) != Fold(store[j].term)
  }

  /** `db.facts.find_one({'term': term_regex(term)})`: the first matching record in
      store order, or `None`. */
  function Find(store: Store, term: string): (r: Option<Record>)
    ensures r.None? <==> !Exists(store, term)
    ensures r.Some? ==> exists i :: 0 <= i < |store| && store[i] == r.value && Matches(r.value, term)
                                    && forall k :: 0 <= k < i ==> !Matches(store[k], term)
    decreases |store|
  {
    if |store| == 0 then None
    else if Matches(store[0], term) then Some(store[0])
    else
      var r := Find(store[1..], term);
      if r.Some? then
        var i :| 0 <= i < |store[1..]| && store[1..][i] == r.value && Matches(r.value, term)
                 && forall k :: 0 <= k < i ==> !Matches(store[1..][k], term);
        assert store[i + 1] == r.value;
        r
      else r
  }

  /** `add_fact`: insert a record with the term as typed, the fact, the author and the
      current time, but only when no record matches the term yet (first write wins). */
  function AddFact(store: Store, term: string, fact: string, author: string, now: int): (r: Store)
    ensures Exists(r, term)
    ensures |store| <= |r| <= |store| + 1 && r[..|store|] == store
    ensures |r| == |store| <==> Exists(store, term)
    ensures |r| > |store| ==> r[|store|] == Record(term, fact, author, Some(now))
  {
    if Exists(store, term) then store
    else
      var r := store + [Record(term, fact, author, Some(now))];
      assert Matches(r[|store|], term);
      r
  }

  /** `db.facts.remove({'term': term_regex(term)})`: drop every matching record. */
  function Remove(store: Store, term: string): (r: Store)
    ensures |r| <= |store|
    ensures forall i :: 0 <= i < |r| ==> !Matches(r[i], term)
    ensures forall x :: x in r <==> x in store && !Matches(x, term)
    decreases |store|
  {
    if |store| == 0 then []
    else
      var rest := Remove(store[1..], term);
      assert store == [store[0]] + store[1..];
      if Matches(store[0], term) then rest else [store[0]] + rest
  }

  /** Forgetting a term that nothing matches leaves the store as it was. */
  lemma {:induction false} RemoveAbsent(store: Store, term: string)
    requires !Exists(store, term)
    ensures Remove(store, term) == store
    decreases |store|
  {
    if |store| > 0 {
      assert !Matches(store[0], term);
      assert !Exists(store[1..], term) by {
        forall i | 0 <= i < |store[1..]| ensures !Matches(store[1..][i], term) {
          assert store[1..][i] == store[i + 1];
        }
      }
      RemoveAbsent(store[1..], term);
    }
  }

  /** `random.choice(ACKS)`: the random draw is the parameter `pick`. */
  function Choose(acks: seq<string>, pick: nat): (r: string)
    requires |acks| > 0
    ensures r in acks
  {
    acks[pick % |acks|]
  }

  /** `forget_fact`: remove every matching record and acknowledge, whether or not
      anything was removed. */
  function ForgetFact(store: Store, term: string, acks: seq<string>, pick: nat): (r: Acked)
    requires |acks| > 0
    ensures !Exists(r.store, term)
    ensures !Exists(store, term) ==> r.store == store
    ensures forall x :: x in r.store <==> x in store && !Matches(x, term)
    ensures forall u :: Fold(u) != Fold(term) ==> Find(r.store, u) == Find(store, u)
    ensures r.ack in acks
  {
    var ack := Choose(acks, pick);
    RemoveLeavesOthers(store, term);
    assert !Exists(store, term) ==> Remove(store, term) == store by {
      if !Exists(store, term) { RemoveAbsent(store, term); }
    }
    Acked(Remove(store, term), ack)
  }

  /** `replace_fact`: forget the term, then add the new definition. */
  function ReplaceFact(store: Store, term: string, fact: string, author: string, now: int,
                       acks: seq<string>, pick: nat): (r: Acked)
    requires |acks| > 0
    ensures Find(r.store, term) == Some(Record(term, fact, author, Some(now)))
    ensures forall u :: Fold(u) != Fold(term) ==> Find(r.store, u) == Find(store, u)
    ensures r.ack in acks
  {
    ReplaceLeavesOthers(store, term, fact, author, now);
    var forgotten := ForgetFact(store, term, acks, pick).store;
    var added := AddFact(forgotten, term, fact, author, now);
    FindAppended(forgotten, Record(term, fact, author, Some(now)), term);
    Acked(added, Choose(acks, pick))
  }

  // ---------------------------------------------------------------------------
  // Lookup

  /** Lookup depends on the term only through its case fold: every casing of a term
      finds the same record. */
  lemma {:induction false} FindCaseInsensitive(store: Store, t1: string, t2: string)
    requires Fold(t1) == Fold(t2)
    ensures Find(store, t1) == Find(store, t2)
    decreases |store|
  {
    if |store| > 0 && !Matches(store[0], t1) {
      FindCaseInsensitive(store[1..], t1, t2);
    }
  }

  /** In a store with one record per folded term, the matching record is the one found. */
  lemma FindUnique(store: Store, i: int, term: string)
    requires Unique(store)
    requires 0 <= i < |store| && Matches(store[i], term)
    ensures Find(store, term) == Some(store[i])
  {
    var r := Find(store, term);
    var j :| 0 <= j < |store| && store[j] == r.value && Matches(r.value, term)
             && forall k :: 0 <= k < j ==> !Matches(store[k], term);
    assert !(j < i) && !(i < j);
  }

  /** Appending a record changes lookup only for terms that no earlier record matched. */
  lemma {:induction false} FindAppended(store: Store, rec: Record, u: string)
    ensures Find(store + [rec], u) == if Exists(store, u) then Find(store, u)
                                      else if Matches(rec, u) then Some(rec) else None
    decreases |store|
  {
    if |store| > 0 {
      assert (store + [rec])[1..] == store[1..] + [rec];
      if !Matches(store[0], u) {
        FindAppended(store[1..], rec, u);
        assert Exists(store, u) <==> Exists(store[1..], u) by {
          if Exists(store, u) {
            var i :| 0 <= i < |store| && Matches(store[i], u);
            assert i > 0 && Matches(store[1..][i - 1], u);
          }
          if Exists(store[1..], u) {
            var i :| 0 <= i < |store[1..]| && Matches(store[1..][i], u);
            assert Matches(store[i + 1], u);
          }
        }
      }
    } else {
      assert !Exists(store, u);
      assert [] + [rec] == [rec];
    }
  }

  // ---------------------------------------------------------------------------
  // add_fact

  /** Adding under a term that is already known (in any casing) changes nothing, so a
      second add never overwrites the first definition, author or timestamp. */
  lemma AddFirstWriteWins(store: Store, t1: string, f1: string, a1: string, n1: int,
                          t2: string, f2: string, a2: string, n2: int)
    requires Fold(t1) == Fold(t2)
    ensures AddFact(AddFact(store, t1, f1, a1, n1), t2, f2, a2, n2) == AddFact(store, t1, f1, a1, n1)
  {
    var s := AddFact(store, t1, f1, a1, n1);
    var i :| 0 <= i < |s| && Matches(s[i], t1);
    assert Matches(s[i], t2);
  }

  /** After an add, every casing of the term finds the first definition recorded for it,
      and lookups of every other folded term are what they were. */
  lemma AddLookup(store: Store, term: string, fact: string, author: string, now: int, u: string)
    ensures Fold(u) == Fold(term) && !Exists(store, term) ==>
              Find(AddFact(store, term, fact, author, now), u) == Some(Record(term, fact, author, Some(now)))
    ensures Fold(u) == Fold(term) && Exists(store, term) ==>
              Find(AddFact(store, term, fact, author, now), u) == Find(store, term)
    ensures Fold(u) != Fold(term) ==>
              Find(AddFact(store, term, fact, author, now), u) == Find(store, u)
  {
    var rec := Record(term, fact, author, Some(now));
    FindAppended(store, rec, u);
    if Fold(u) == Fold(term) {
      FindCaseInsensitive(store, u, term);
    }
  }

  /** Adding keeps at most one record per folded term. */
  lemma AddPreservesUnique(store: Store, term: string, fact: string, author: string, now: int)
    requires Unique(store)
    ensures Unique(AddFact(store, term, fact, author, now))
  {
  }

  // ---------------------------------------------------------------------------
  // forget_fact

  /** Removal keeps the surviving records in their original order: removing from a
      concatenation removes from each part. */
  lemma {:induction false} RemoveKeepsOrder(a: Store, b: Store, term: string)
    ensures Remove(a + b, term) == Remove(a, term) + Remove(b, term)
    decreases |a|
  {
    if |a| == 0 {
      assert a + b == b;
    } else {
      assert (a + b)[1..] == a[1..] + b;
      RemoveKeepsOrder(a[1..], b, term);
    }
  }

  /** Removal does not disturb the lookup of any other folded term. */
  lemma {:induction false} RemoveOthers(store: Store, term: string, u: string)
    requires Fold(u) != Fold(term)
    ensures Find(Remove(store, term), u) == Find(store, u)
    decreases |store|
  {
    if |store| > 0 {
      RemoveOthers(store[1..], term, u);
      if !Matches(store[0], term) {
        assert Remove(store, term) == [store[0]] + Remove(store[1..], term);
        assert ([store[0]] + Remove(store[1..], term))[1..] == Remove(store[1..], term);
      }
    }
  }

  /** `RemoveOthers` for every other folded term at once. */
  lemma RemoveLeavesOthers(store: Store, term: string)
    ensures forall u :: Fold(u) != Fold(term) ==> Find(Remove(store, term), u) == Find(store, u)
  {
    forall u | Fold(u) != Fold(term) ensures Find(Remove(store, term), u) == Find(store, u) {
      RemoveOthers(store, term, u);
    }
  }

  /** Forgetting a term, then adding it again, leaves the lookup of every other folded
      term as it was. */
  lemma ReplaceLeavesOthers(store: Store, term: string, fact: string, author: string, now: int)
    ensures forall u :: Fold(u) != Fold(term) ==>
              Find(AddFact(Remove(store, term), term, fact, author, now), u) == Find(store, u)
  {
    forall u | Fold(u) != Fold(term)
      ensures Find(AddFact(Remove(store, term), term, fact, author, now), u) == Find(store, u)
    {
      AddLookup(Remove(store, term), term, fact, author, now, u);
      RemoveOthers(store, term, u);
    }
  }

  /** In a store with one record per folded term, no later record shares the first
      record's folded term. */
  lemma HeadDistinct(store: Store, x: Record)
    requires Unique(store) && |store| > 0 && x in store[1..]
    ensures Fold(store[0].term) != Fold(x.term)
  {
    var k :| 0 <= k < |store[1..]| && store[1..][k] == x;
    assert store[k + 1] == x;
  }

  /** Forgetting keeps at most one record per folded term. */
  lemma {:induction false} RemovePreservesUnique(store: Store, term: string)
    ensures Unique(store) ==> Unique(Remove(store, term))
    decreases |store|
  {
    if |store| > 0 && Unique(store) {
      var tail := store[1..];
      assert Unique(tail) by {
        forall i, j | 0 <= i < j < |tail| ensures Fold(tail[i].term) != Fold(tail[j].term) {
          assert tail[i] == store[i + 1] && tail[j] == store[j + 1];
        }
      }
      RemovePreservesUnique(tail, term);
      var rest := Remove(tail, term);
      if !Matches(store[0], term) {
        var r := [store[0]] + rest;
        forall i, j | 0 <= i < j < |r| ensures Fold(r[i].term) != Fold(r[j].term) {
          assert r[j] == rest[j - 1];
          if i == 0 {
            assert rest[j - 1] in rest;
            HeadDistinct(store, rest[j - 1]);
          } else {
            assert r[i] == rest[i - 1];
          }
        }
      }
    }
  }

  /** Forgetting twice is forgetting once. */
  lemma ForgetIdempotent(store: Store, term: string, acks: seq<string>, pick: nat)
    requires |acks| > 0
    ensures ForgetFact(ForgetFact(store, term, acks, pick).store, term, acks, pick) == ForgetFact(store, term, acks, pick)
  {
  }

  // ---------------------------------------------------------------------------
  // replace_fact

  /** After a replace, every casing of the term finds exactly the new fact and author,
      and every other folded term finds what it found before. */
  lemma ReplaceLookup(store: Store, term: string, fact: string, author: string, now: int,
                      acks: seq<string>, pick: nat, u: string)
    requires |acks| > 0
    ensures Fold(u) == Fold(term) ==>
              Find(ReplaceFact(store, term, fact, author, now, acks, pick).store, u)
                == Some(Record(term, fact, author, Some(now)))
    ensures Fold(u) != Fold(term) ==>
              Find(ReplaceFact(store, term, fact, author, now, acks, pick).store, u) == Find(store, u)
  {
    var forgotten := Remove(store, term);
    AddLookup(forgotten, term, fact, author, now, u);
    if Fold(u) != Fold(term) {
      RemoveOthers(store, term, u);
    }
  }

  /** Replacing keeps at most one record per folded term. */
  lemma ReplacePreservesUnique(store: Store, term: string, fact: string, author: string, now: int,
                               acks: seq<string>, pick: nat)
    requires |acks| > 0
    ensures Unique(store) ==> Unique(ReplaceFact(store, term, fact, author, now, acks, pick).store)
  {
    RemovePreservesUnique(store, term);
    if Unique(store) {
      AddPreservesUnique(Remove(store, term), term, fact, author, now);
    }
  }
}
