/** The `photos` table and its two operations, `save_photo` and
    `search_photos`. The SQLite and the Postgres branches of each operation
    mean the same thing and are modelled once, on a table held in memory:
    a map from `message_id` to the rest of the row. */
module Catalogue {
  import opened Text

  /** `created_at`, kept as an opaque value that is copied into the row. */
  datatype Timestamp = Timestamp(value: string)

  /** One row of `photos`, without its key. */
  datatype Photo = Photo(fileId: string, caption: string, tags: string, createdAt: Timestamp)

  /** The table, keyed by `message_id` (its primary key). */
  type Table = map<int, Photo>

  /** A search result, the tuple `(file_id, caption, message_id)`. */
  datatype Hit = Hit(fileId: string, caption: string, messageId: int)

  // ---------------------------------------------------------------------------
  // save_photo: insert or replace

  /** `INSERT ... ON CONFLICT (message_id) DO UPDATE` and `INSERT OR REPLACE`:
      afterwards the key has exactly one row, holding the new fields, and
      every other key is as it was. */
  function Upsert(t: Table, id: int, p: Photo): (u: Table)
    ensures id in u && u[id] == p
    ensures forall k :: k != id ==> (k in u <==> k in t)
    ensures forall k :: k != id && k in t ==> u[k] == t[k]
    ensures |u| == if id in t then |t| else |t| + 1
  {
    var u := t[id := p];
    assert id in t ==> u.Keys == t.Keys;
    assert id !in t ==> u.Keys == t.Keys + {id};
    u
  }

  /** Saving the same `message_id` twice leaves the second call's row, and
      the second call does not add a row. */
  lemma UpsertTwice(t: Table, id: int, p1: Photo, p2: Photo)
    ensures Upsert(Upsert(t, id, p1), id, p2) == Upsert(t, id, p2)
    ensures |Upsert(Upsert(t, id, p1), id, p2)| == |Upsert(t, id, p1)|
  {
    var u := Upsert(Upsert(t, id, p1), id, p2);
    assert u.Keys == Upsert(t, id, p2).Keys;
  }

  // ---------------------------------------------------------------------------
  // search_photos: filter, order by message_id descending, limit

  /** `LOWER(caption) LIKE '%q%' OR LOWER(tags) LIKE '%q%'`. */
  predicate Matches(p: Photo, q: string) {
    Contains(Lower(p.caption), q) || Contains(Lower(p.tags), q)
  }

  ghost predicate Descending(ids: seq<int>) {
    forall i, j :: 0 <= i < j < |ids| ==> ids[i] > ids[j]
  }

  lemma NonEmptyHasElement(s: set<int>)
    requires s != {}
    ensures exists x :: x in s
  {
    if forall x :: x !in s {
      assert false;
    }
  }

  ghost function MaxOf(s: set<int>): (m: int)
    requires s != {}
    ensures m in s && forall k :: k in s ==> k <= m
    decreases |s|
  {
    NonEmptyHasElement(s);
    var x :| x in s;
    if s == {x} then x
    else
      var y := MaxOf(s - {x});
      assert forall k :: k in s ==> k == x || k in s - {x};
      if x < y then y else x
  }

  /** The keys of a table in `ORDER BY message_id DESC` order. */
  ghost function SortedDesc(s: set<int>): (r: seq<int>)
    ensures |r| == |s|
    ensures forall i :: 0 <= i < |r| ==> r[i] in s
    ensures forall k :: k in s ==> k in r
    ensures Descending(r)
    decreases |s|
  {
    if s == {} then []
    else
      var m := MaxOf(s);
      var rest := SortedDesc(s - {m});
      assert |s - {m}| == |s| - 1;
      assert forall j :: 0 <= j < |rest| ==> rest[j] < m;
      [m] + rest
  }

  /** The keys of the rows that match `q`: the `WHERE` clause. */
  ghost function MatchingIds(t: Table, q: string): set<int> {
    set k | k in t && Matches(t[k], q)
  }

  /** `LIMIT n`. */
  function Take(ids: seq<int>, n: nat): seq<int> {
    if |ids| <= n then ids else ids[..n]
  }

  function HitOf(t: Table, k: int): Hit
    requires k in t
  {
    Hit(t[k].fileId, t[k].caption, k)
  }

  /** The selected columns of the given keys, as result tuples. */
  function Hits(t: Table, ids: seq<int>): seq<Hit>
    requires forall i :: 0 <= i < |ids| ==> ids[i] in t
  {
    seq(|ids|, i requires 0 <= i < |ids| => HitOf(t, ids[i]))
  }

  function MessageIds(hits: seq<Hit>): seq<int> {
    seq(|hits|, i requires 0 <= i < |hits| => hits[i].messageId)
  }

  /** What `search_photos` returns for the lower-cased query `q`: the
      matching keys, largest first, cut to `limit`, with their columns. */
  ghost function Search(t: Table, q: string, limit: nat): seq<Hit> {
    Hits(t, Take(SortedDesc(MatchingIds(t, q)), limit))
  }

  /** `ids` are the `limit` largest keys of `keep` (all of them when there
      are fewer), from the largest down, stated without saying how they are
      found: at most `limit` keys, all from `keep`, strictly descending,
      every key of `keep` left out below every key taken, and none left out
      when fewer than `limit` are taken. */
  ghost predicate IsNewestFirst(keep: set<int>, limit: nat, ids: seq<int>) {
    && |ids| <= limit
    && (forall i :: 0 <= i < |ids| ==> ids[i] in keep)
    && Descending(ids)
    && (forall k :: k in keep && k !in ids ==> forall i :: 0 <= i < |ids| ==> k < ids[i])
    && (|ids| < limit ==> forall k :: k in keep ==> k in ids)
  }

  /** The contract of a search on the table: every result is a row of the
      table with its own `file_id` and `caption`, and the results' keys are
      the newest `limit` keys of the matching rows, newest first. */
  ghost predicate IsSearchAnswer(t: Table, q: string, limit: nat, hits: seq<Hit>) {
    && (forall i :: 0 <= i < |hits| ==> hits[i].messageId in t && hits[i] == HitOf(t, hits[i].messageId))
    && IsNewestFirst(MatchingIds(t, q), limit, MessageIds(hits))
  }

  lemma TakeSortedLeavesOutOlder(keep: set<int>, limit: nat)
    ensures var ids := Take(SortedDesc(keep), limit);
            forall k :: k in keep && k !in ids ==> forall i :: 0 <= i < |ids| ==> k < ids[i]
  {
  }

  lemma TakeSortedComplete(keep: set<int>, limit: nat)
    ensures var ids := Take(SortedDesc(keep), limit);
            |ids| < limit ==> forall k :: k in keep ==> k in ids
  {
  }

  /** The sorted prefix meets the contract. */
  lemma TakeSortedIsNewestFirst(keep: set<int>, limit: nat)
    ensures IsNewestFirst(keep, limit, Take(SortedDesc(keep), limit))
  {
    TakeSortedLeavesOutOlder(keep, limit);
    TakeSortedComplete(keep, limit);
  }

  lemma {:induction false} NewestFirstAgreeUpTo(keep: set<int>, limit: nat, a: seq<int>, b: seq<int>, n: nat)
    requires IsNewestFirst(keep, limit, a) && IsNewestFirst(keep, limit, b)
    requires n <= |a| && n <= |b|
    ensures a[..n] == b[..n]
  {
    if n > 0 {
      NewestFirstAgreeUpTo(keep, limit, a, b, n - 1);
      NextNotAbove(keep, limit, a, b, n);
      NextNotAbove(keep, limit, b, a, n);
      assert a[n - 1] == b[n - 1];
      assert a[..n] == a[..n - 1] + [a[n - 1]];
      assert b[..n] == b[..n - 1] + [b[n - 1]];
    }
  }

  /** Past a common prefix, the next key of one newest-first list is no
      larger than the next key of another. */
  lemma NextNotAbove(keep: set<int>, limit: nat, a: seq<int>, b: seq<int>, n: nat)
    requires IsNewestFirst(keep, limit, a) && IsNewestFirst(keep, limit, b)
    requires 0 < n <= |a| && n <= |b|
    requires a[..n - 1] == b[..n - 1]
    ensures a[n - 1] <= b[n - 1]
  {
    forall j | 0 <= j < n - 1 ensures b[j] > a[n - 1] {
      assert b[j] == b[..n - 1][j] == a[..n - 1][j] == a[j];
    }
    if a[n - 1] in b {
      var j :| 0 <= j < |b| && b[j] == a[n - 1];
      assert n - 1 <= j;
    }
  }

  /** A strictly descending list drawn from `s` is no longer than `s`. */
  lemma {:induction false} DescendingWithin(ids: seq<int>, s: set<int>)
    requires Descending(ids)
    requires forall i :: 0 <= i < |ids| ==> ids[i] in s
    ensures |ids| <= |s|
  {
    if ids != [] {
      var rest := ids[1..];
      assert forall i :: 0 <= i < |rest| ==> rest[i] == ids[i + 1] && rest[i] < ids[0];
      DescendingWithin(rest, s - {ids[0]});
    }
  }

  /** A list that holds every element of `s` is at least as long as `s`. */
  lemma {:induction false} Covers(s: set<int>, ids: seq<int>)
    requires forall k :: k in s ==> k in ids
    ensures |s| <= |ids|
  {
    if ids != [] {
      var rest := ids[1..];
      forall k | k in s - {ids[0]} ensures k in rest {
        var i :| 0 <= i < |ids| && ids[i] == k;
        assert rest[i - 1] == k;
      }
      Covers(s - {ids[0]}, rest);
    } else {
      assert forall k :: k !in s;
      assert s == {};
    }
  }

  /** Of two lists meeting the contract, the first is not the shorter. */
  lemma NewestFirstNotShorter(keep: set<int>, limit: nat, a: seq<int>, b: seq<int>)
    requires IsNewestFirst(keep, limit, a) && IsNewestFirst(keep, limit, b)
    ensures |b| <= |a|
  {
    if |a| < limit {
      DescendingWithin(b, keep);
      Covers(keep, a);
    }
  }

  /** The contract fixes the keys: they can only be the sorted prefix. */
  lemma NewestFirstUnique(keep: set<int>, limit: nat, ids: seq<int>)
    requires IsNewestFirst(keep, limit, ids)
    ensures ids == Take(SortedDesc(keep), limit)
  {
    var s := Take(SortedDesc(keep), limit);
    TakeSortedIsNewestFirst(keep, limit);
    NewestFirstNotShorter(keep, limit, ids, s);
    NewestFirstNotShorter(keep, limit, s, ids);
    NewestFirstAgreeUpTo(keep, limit, ids, s, |s|);
    assert ids == ids[..|s|] && s == s[..|s|];
  }

  lemma SearchIsAnswer(t: Table, q: string, limit: nat)
    ensures IsSearchAnswer(t, q, limit, Search(t, q, limit))
  {
    var ids := Take(SortedDesc(MatchingIds(t, q)), limit);
    assert MessageIds(Search(t, q, limit)) == ids;
    TakeSortedIsNewestFirst(MatchingIds(t, q), limit);
  }

  /** Nothing but `Search` meets the contract. */
  lemma AnswerIsUnique(t: Table, q: string, limit: nat, hits: seq<Hit>)
    requires IsSearchAnswer(t, q, limit, hits)
    ensures hits == Search(t, q, limit)
  {
    NewestFirstUnique(MatchingIds(t, q), limit, MessageIds(hits));
    HitsOfMessageIds(t, hits);
  }

  lemma HitsOfMessageIds(t: Table, hits: seq<Hit>)
    requires forall i :: 0 <= i < |hits| ==> hits[i].messageId in t && hits[i] == HitOf(t, hits[i].messageId)
    ensures hits == Hits(t, MessageIds(hits))
  {
  }

  /** The plain reading of a search: at most `limit` results, each one a
      row of the table whose lower-cased caption or tags hold the query. */
  lemma SearchResultsMatch(t: Table, q: string, limit: nat)
    ensures var hits := Search(t, q, limit);
            && |hits| <= limit
            && forall i :: 0 <= i < |hits| ==>
                 hits[i].messageId in t && Matches(t[hits[i].messageId], q)
                 && hits[i].fileId == t[hits[i].messageId].fileId
                 && hits[i].caption == t[hits[i].messageId].caption
  {
    var hits := Search(t, q, limit);
    SearchIsAnswer(t, q, limit);
    forall i | 0 <= i < |hits| ensures Matches(t[hits[i].messageId], q) {
      assert MessageIds(hits)[i] in MatchingIds(t, q);
    }
  }

  /** A newly saved row that matches, with a larger `message_id` than every
      other matching row, comes first in any search with a positive limit. */
  lemma NewestMatchComesFirst(t: Table, id: int, p: Photo, q: string, limit: nat)
    requires Matches(p, q) && limit > 0
    requires forall k :: k in t && k != id && Matches(t[k], q) ==> k < id
    ensures var hits := Search(Upsert(t, id, p), q, limit);
            hits != [] && hits[0] == Hit(p.fileId, p.caption, id)
  {
    var u := Upsert(t, id, p);
    var keep := MatchingIds(u, q);
    assert id in keep;
    assert MaxOf(keep) == id;
    var sorted := SortedDesc(keep);
    assert sorted[0] == id;
  }

  // ---------------------------------------------------------------------------
  // The scan that answers a search

  /** Midway through a scan of the keys from the largest down: `remaining`
      are the keys not yet visited, all below the visited ones, and `results`
      holds every visited match, largest first. */
  ghost predicate ScanInvariant(t: Table, q: string, limit: nat, remaining: set<int>, results: seq<Hit>) {
    && remaining <= t.Keys
    && (forall a, b :: a in t.Keys - remaining && b in remaining ==> a > b)
    && (forall i :: 0 <= i < |results| ==>
          results[i].messageId in MatchingIds(t, q) - remaining && results[i] == HitOf(t, results[i].messageId))
    && Descending(MessageIds(results))
    && (forall k :: k in MatchingIds(t, q) - remaining ==> k in MessageIds(results))
    && |results| <= limit
  }

  lemma ScanStart(t: Table, q: string, limit: nat)
    ensures ScanInvariant(t, q, limit, t.Keys, [])
  {
  }

  /** Visiting the largest remaining key keeps the invariant. */
  lemma ScanStep(t: Table, q: string, limit: nat, remaining: set<int>, results: seq<Hit>, m: int)
    requires ScanInvariant(t, q, limit, remaining, results) && |results| < limit
    requires m in remaining && forall k :: k in remaining ==> k <= m
    ensures ScanInvariant(t, q, limit, remaining - {m}, if Matches(t[m], q) then results + [HitOf(t, m)] else results)
  {
    var keep := MatchingIds(t, q);
    assert t.Keys - (remaining - {m}) == (t.Keys - remaining) + {m};
    assert keep - (remaining - {m}) <= (keep - remaining) + {m};
    if Matches(t[m], q) {
      var r := results + [HitOf(t, m)];
      assert MessageIds(r) == MessageIds(results) + [m];
      assert forall i :: 0 <= i < |results| ==> r[i] == results[i];
    }
  }

  /** A scan that visited every key, or collected `limit` results, has the
      answer of the search. */
  lemma ScanDone(t: Table, q: string, limit: nat, remaining: set<int>, results: seq<Hit>)
    requires ScanInvariant(t, q, limit, remaining, results)
    requires remaining == {} || |results| == limit
    ensures results == Search(t, q, limit)
  {
    var keep := MatchingIds(t, q);
    var ids := MessageIds(results);
    assert forall i :: 0 <= i < |ids| ==> ids[i] in keep;
    assert forall k :: k in keep && k !in ids ==> k in remaining;
    forall k, i | k in keep && k !in ids && 0 <= i < |ids| ensures k < ids[i] {
      assert ids[i] == results[i].messageId;
      assert ids[i] in t.Keys - remaining;
    }
    assert |ids| < limit ==> forall k :: k in keep ==> k in ids;
    assert IsNewestFirst(keep, limit, ids);
    AnswerIsUnique(t, q, limit, results);
  }

  // ---------------------------------------------------------------------------
  // The store

  /** The `photos` table behind both backends. */
  class PhotoStore {
    var rows: Table

    /** A store whose table exists and is empty, as after `init_db`. */
    constructor ()
      ensures rows == map[]
    {
      rows := map[];
    }

    /** `save_photo`: insert the row, or replace the one with that key. */
    method SavePhoto(messageId: int, fileId: string, caption: string, tags: string, createdAt: Timestamp)
      modifies this
      ensures rows == Upsert(old(rows), messageId, Photo(fileId, caption, tags, createdAt))
    {
      rows := rows[messageId := Photo(fileId, caption, tags, createdAt)];
    }

    /** `search_photos`: lower-case the query, then visit the rows from the
        largest `message_id` down and collect those that match, until
        `limit` are collected. */
    method SearchPhotos(text: string, limit: nat) returns (results: seq<Hit>)
      ensures results == Search(rows, Lower(text), limit)
    {
      var q := Lower(text);
      var remaining := rows.Keys;
      results := [];
      ScanStart(rows, q, limit);
      while remaining != {} && |results| < limit
        invariant ScanInvariant(rows, q, limit, remaining, results)
        decreases |remaining|
      {
        NonEmptyHasElement(remaining);
        // names the largest key, the witness the choice below needs
        ghost var top := MaxOf(remaining);
        var m :| m in remaining && forall k :: k in remaining ==> k <= m;
        ScanStep(rows, q, limit, remaining, results, m);
        if Matches(rows[m], q) {
          results := results + [HitOf(rows, m)];
        }
        remaining := remaining - {m};
      }
      ScanDone(rows, q, limit, remaining, results);
    }
  }
}
