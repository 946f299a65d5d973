/**
 * The stopping rule shared by both copies of `get_new_posts`: take posts from
 * the stream while their id is not yet stored, storing each one before the
 * next check, and stop at the first post whose id is already stored.
 * Ids are compared by equality (`count_documents({"post_id": ...}) > 0` in one
 * copy, `post in self.config.posts` with `Post.__eq__` in the other).
 */
module Sync {
  import opened Wrappers

  const FIRST_TIME_POSTS_COUNT: int := 10

  /** The `max_posts` that `update` passes: the bootstrap count on an empty store. */
  function RequestedMaxPosts(storeIsEmpty: bool): (m: Option<int>)
    ensures storeIsEmpty ==> m == Some(FIRST_TIME_POSTS_COUNT)
    ensures !storeIsEmpty ==> m == None
  {
    if storeIsEmpty then Some(FIRST_TIME_POSTS_COUNT) else None
  }

  /** How many posts at the head of a stream with ids `ids` are inserted into a
      store that already holds `seen`. */
  function NewCount<K(==)>(ids: seq<K>, seen: seq<K>): (n: nat)
    ensures n <= |ids|
  {
    if ids == [] || ids[0] in seen then 0 else 1 + NewCount(ids[1..], seen + [ids[0]])
  }

  /** The id at position `k` is neither stored nor met earlier in the stream. */
  predicate FreshAt<K(==)>(ids: seq<K>, seen: seq<K>, k: nat)
    requires k < |ids|
  {
    ids[k] !in seen + ids[..k]
  }

  /** `n` is the length of the longest run of fresh ids at the head of the stream:
      every id before `n` is fresh and the one at `n`, if any, is not. */
  predicate StopsAtFirstSeen<K(==)>(ids: seq<K>, seen: seq<K>, n: nat) {
    && n <= |ids|
    && (forall k :: 0 <= k < n ==> FreshAt(ids, seen, k))
    && (n < |ids| ==> !FreshAt(ids, seen, n))
  }

  lemma ShiftSeen<K>(ids: seq<K>, seen: seq<K>, k: nat)
    requires 0 < k < |ids|
    ensures (seen + [ids[0]]) + ids[1..][..k - 1] == seen + ids[..k]
    ensures ids[1..][k - 1] == ids[k]
  {
    assert [ids[0]] + ids[1..][..k - 1] == ids[..k];
  }

  /** `NewCount` stops exactly at the first id already seen. */
  lemma {:induction false} NewCountStopsAtFirstSeen<K>(ids: seq<K>, seen: seq<K>)
    ensures StopsAtFirstSeen(ids, seen, NewCount(ids, seen))
  {
    var n := NewCount(ids, seen);
    if ids != [] && ids[0] !in seen {
      var seen' := seen + [ids[0]];
      NewCountStopsAtFirstSeen(ids[1..], seen');
      forall k | 0 <= k < n ensures FreshAt(ids, seen, k) {
        if k > 0 {
          ShiftSeen(ids, seen, k);
          assert FreshAt(ids[1..], seen', k - 1);
        }
      }
      if n < |ids| {
        ShiftSeen(ids, seen, n);
        assert !FreshAt(ids[1..], seen', n - 1);
      }
    }
  }

  /** The stopping point is unique, so `NewCount` is the only count with that property. */
  lemma StopsAtFirstSeenUnique<K>(ids: seq<K>, seen: seq<K>, m: nat, n: nat)
    requires StopsAtFirstSeen(ids, seen, m) && StopsAtFirstSeen(ids, seen, n)
    ensures m == n
  {
  }

  /** Both directions: `n` is the count `NewCount` gives iff `n` stops at the first seen id. */
  lemma NewCountIsFirstSeen<K>(ids: seq<K>, seen: seq<K>, n: nat)
    ensures StopsAtFirstSeen(ids, seen, n) <==> n == NewCount(ids, seen)
  {
    NewCountStopsAtFirstSeen(ids, seen);
    if StopsAtFirstSeen(ids, seen, n) {
      StopsAtFirstSeenUnique(ids, seen, n, NewCount(ids, seen));
    }
  }

  /** One step of the insertion loop: after `m` inserted posts, the next post is
      inserted iff its id is in neither the old store nor the inserted ids. */
  lemma NewCountStep<K>(ids: seq<K>, seen: seq<K>, m: nat)
    requires m < |ids| && m <= NewCount(ids, seen)
    ensures ids[m] in seen + ids[..m] <==> m == NewCount(ids, seen)
  {
    NewCountStopsAtFirstSeen(ids, seen);
    if m < NewCount(ids, seen) {
      assert FreshAt(ids, seen, m);
    }
  }

  predicate Distinct<K(==)>(s: seq<K>) {
    forall i, j :: 0 <= i < j < |s| ==> s[i] != s[j]
  }

  /** Inserting the new posts keeps the ids in the store pairwise distinct,
      even when the stream repeats an id. */
  lemma NoDuplicateIds<K>(ids: seq<K>, seen: seq<K>)
    requires Distinct(seen)
    ensures Distinct(seen + ids[..NewCount(ids, seen)])
  {
    var n := NewCount(ids, seen);
    NewCountStopsAtFirstSeen(ids, seen);
    var t := seen + ids[..n];
    forall i, j | 0 <= i < j < |t| ensures t[i] != t[j] {
      if j >= |seen| {
        var k := j - |seen|;
        assert FreshAt(ids, seen, k);
        assert t[i] in seen + ids[..k];
      }
    }
  }

  /** A second run over a stream with the same head inserts nothing: the head
      post is either stored already or was inserted by the first run. */
  lemma {:induction false} SecondRunInsertsNothing<K>(ids: seq<K>, seen: seq<K>, ids2: seq<K>)
    requires ids != [] && ids2 != [] && ids2[0] == ids[0]
    ensures NewCount(ids2, seen + ids[..NewCount(ids, seen)]) == 0
  {
    var n := NewCount(ids, seen);
    if n > 0 {
      assert ids[..n][0] == ids[0];
    }
  }
}
