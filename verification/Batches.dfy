/** The bounded, ordered reads of the workers: `orderBy … asc, take: limit`.
    Rows with equal keys may come back in any order; a null key sorts last. */
module Batches {
  import opened Prelude

  predicate EarlierKey(a: Option<Instant>, b: Option<Instant>) {
    a.Some? && (b.None? || a.value < b.value)
  }

  ghost predicate IsBatch(batch: seq<nat>, candidates: set<nat>, key: map<nat, Option<Instant>>, limit: nat)
    requires candidates <= key.Keys
  {
    && NoDuplicates(batch)
    && SetOf(batch) <= candidates
    && |batch| == (if |candidates| <= limit then |candidates| else limit)
    && (forall i, j :: 0 <= i < j < |batch| ==> !EarlierKey(key[batch[j]], key[batch[i]]))
    && (forall i, c :: 0 <= i < |batch| && c in candidates - SetOf(batch) ==> !EarlierKey(key[c], key[batch[i]]))
  }

  lemma FirstExists(left: set<nat>, key: map<nat, Option<Instant>>)
    requires left != {} && left <= key.Keys
    ensures exists f :: f in left && forall c :: c in left ==> !EarlierKey(key[c], key[f])
  {
    var x :| x in left;
    if left == {x} {
      assert forall c :: c in left ==> !EarlierKey(key[c], key[x]);
    } else {
      var rest := left - {x};
      FirstExists(rest, key);
      var f :| f in rest && forall c :: c in rest ==> !EarlierKey(key[c], key[f]);
      var best := if EarlierKey(key[x], key[f]) then x else f;
      assert forall c :: c in left ==> c == x || c in rest;
      assert best in left && forall c :: c in left ==> !EarlierKey(key[c], key[best]);
    }
  }

  /** `batch` has been drawn from the candidates in order, `left` remains. */
  ghost predicate Drawn(batch: seq<nat>, left: set<nat>, candidates: set<nat>, key: map<nat, Option<Instant>>)
    requires candidates <= key.Keys
  {
    && NoDuplicates(batch)
    && SetOf(batch) <= candidates && left == candidates - SetOf(batch)
    && (forall i, j :: 0 <= i < j < |batch| ==> !EarlierKey(key[batch[j]], key[batch[i]]))
    && (forall i, c :: 0 <= i < |batch| && c in left ==> !EarlierKey(key[c], key[batch[i]]))
  }

  lemma DrawNext(batch: seq<nat>, left: set<nat>, candidates: set<nat>, key: map<nat, Option<Instant>>, f: nat)
    requires candidates <= key.Keys && Drawn(batch, left, candidates, key)
    requires f in left && forall c :: c in left ==> !EarlierKey(key[c], key[f])
    ensures Drawn(batch + [f], left - {f}, candidates, key)
  {
  }

  method SelectBatch(candidates: set<nat>, key: map<nat, Option<Instant>>, limit: nat) returns (batch: seq<nat>)
    requires candidates <= key.Keys
    ensures IsBatch(batch, candidates, key, limit)
  {
    batch := [];
    var left := candidates;
    while |batch| < limit && left != {}
      invariant Drawn(batch, left, candidates, key)
      invariant |batch| <= limit && |batch| + |left| == |candidates|
      decreases left
    {
      FirstExists(left, key);
      var f :| f in left && forall c :: c in left ==> !EarlierKey(key[c], key[f]);
      DrawNext(batch, left, candidates, key, f);
      batch := batch + [f];
      left := left - {f};
    }
  }

  lemma {:induction false} DrawTheRest(batch: seq<nat>, left: set<nat>, candidates: set<nat>,
      key: map<nat, Option<Instant>>, limit: nat) returns (whole: seq<nat>)
    requires candidates <= key.Keys && Drawn(batch, left, candidates, key)
    requires |batch| <= limit && |batch| + |left| == |candidates|
    ensures IsBatch(whole, candidates, key, limit) && SetOf(batch) <= SetOf(whole)
    decreases left
  {
    if |batch| == limit || left == {} {
      whole := batch;
    } else {
      FirstExists(left, key);
      var f :| f in left && forall c :: c in left ==> !EarlierKey(key[c], key[f]);
      DrawNext(batch, left, candidates, key, f);
      whole := DrawTheRest(batch + [f], left - {f}, candidates, key, limit);
      assert SetOf(batch) <= SetOf(batch + [f]);
    }
  }

  /** A row that none precedes is in some batch the read may return. */
  lemma FirstCanBeTaken(first: nat, candidates: set<nat>, key: map<nat, Option<Instant>>, limit: nat)
    returns (batch: seq<nat>)
    requires candidates <= key.Keys && first in candidates && limit > 0
    requires forall c :: c in candidates ==> !EarlierKey(key[c], key[first])
    ensures IsBatch(batch, candidates, key, limit) && first in batch
  {
    assert SetOf([first]) == {first};
    batch := DrawTheRest([first], candidates - {first}, candidates, key, limit);
    assert first in SetOf(batch);
  }
}
