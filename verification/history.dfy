/**
 * The wake-up history log: a bounded list of execution records, newest first.
 * `AddHistoryItems` is the merge performed between loading and saving the
 * history file; the file itself is left out, so the stored list is passed in
 * and the list to be stored is returned.
 */
module WakeupHistory {
  import opened Base

  /** Capacity of the log. */
  const MaxHistoryItems: nat := 100

  /** One execution record (`timestamp` is milliseconds, `duration` an unsigned count). */
  datatype HistoryItem = HistoryItem(
    id: string,
    timestamp: int,
    triggerType: string,
    triggerSource: string,
    taskName: Option<string>,
    accountEmail: string,
    modelId: string,
    prompt: Option<string>,
    success: bool,
    message: Option<string>,
    duration: Option<nat>)

  /** Newest first: timestamps never increase along the list. */
  predicate SortedByTimestampDesc(s: seq<HistoryItem>) {
    forall i, j :: 0 <= i < j < |s| ==> s[i].timestamp >= s[j].timestamp
  }

  /** What a stored history looks like after any merge: within capacity and newest first. */
  predicate WellFormed(s: seq<HistoryItem>) {
    |s| <= MaxHistoryItems && SortedByTimestampDesc(s)
  }

  function Ids(s: seq<HistoryItem>): set<string> {
    set x | x in s :: x.id
  }

  /**
   * The items of `batch` whose id is not in `known`, in their original order
   * (see `UnknownAppend`), each as often as the batch holds it (see
   * `UnknownCounts`).
   */
  function Unknown(batch: seq<HistoryItem>, known: set<string>): (r: seq<HistoryItem>)
    ensures |r| <= |batch|
    ensures forall x :: x in r <==> x in batch && x.id !in known
    ensures multiset(r) <= multiset(batch)
  {
    if |batch| == 0 then []
    else
      var rest := Unknown(batch[1..], known);
      assert batch == [batch[0]] + batch[1..];
      if batch[0].id in known then rest else [batch[0]] + rest
  }

  /** A survivor occurs as often as in the batch; an item with a known id not at all. */
  lemma {:induction false} UnknownCounts(batch: seq<HistoryItem>, known: set<string>, x: HistoryItem)
    ensures multiset(Unknown(batch, known))[x] == if x.id in known then 0 else multiset(batch)[x]
  {
    if |batch| > 0 {
      var b0, tail := batch[0], batch[1..];
      var rest := Unknown(tail, known);
      UnknownCounts(tail, known, x);
      assert multiset(batch)[x] == multiset(tail)[x] + (if x == b0 then 1 else 0) by {
        assert batch == [b0] + tail;
      }
      if b0.id in known {
        assert Unknown(batch, known) == rest;
      } else {
        assert multiset(Unknown(batch, known))[x] == multiset(rest)[x] + (if x == b0 then 1 else 0) by {
          assert Unknown(batch, known) == [b0] + rest;
        }
      }
    }
  }

  /** Filtering keeps order: the survivors of two batches in a row are those of the first, then those of the second. */
  lemma {:induction false} UnknownAppend(a: seq<HistoryItem>, b: seq<HistoryItem>, known: set<string>)
    ensures Unknown(a + b, known) == Unknown(a, known) + Unknown(b, known)
  {
    if |a| == 0 {
      assert a + b == b;
    } else {
      var ab := a + b;
      assert ab[0] == a[0] && ab[1..] == a[1..] + b;
      UnknownAppend(a[1..], b, known);
      var tail := Unknown(a[1..], known);
      if a[0].id !in known {
        assert Unknown(ab, known) == [a[0]] + (tail + Unknown(b, known));
        assert Unknown(a, known) == [a[0]] + tail;
      }
    }
  }

  /** The items of `s` carrying timestamp `t`, in their original order. */
  function WithTimestamp(s: seq<HistoryItem>, t: int): seq<HistoryItem> {
    if |s| == 0 then []
    else (if s[0].timestamp == t then [s[0]] else []) + WithTimestamp(s[1..], t)
  }

  /**
   * Places `x` before the first item that is not newer than it, so `x`
   * goes ahead of every item with an equal timestamp.
   */
  function Insert(x: HistoryItem, s: seq<HistoryItem>): seq<HistoryItem> {
    if |s| == 0 || s[0].timestamp <= x.timestamp then [x] + s
    else [s[0]] + Insert(x, s[1..])
  }

  /** Inserting adds `x` and loses nothing. */
  lemma {:induction false} InsertPermutes(x: HistoryItem, s: seq<HistoryItem>)
    ensures multiset(Insert(x, s)) == multiset(s) + multiset{x}
  {
    if |s| > 0 && s[0].timestamp > x.timestamp {
      InsertPermutes(x, s[1..]);
      assert s == [s[0]] + s[1..];
    }
  }

  /** Inserting an item no newer than `bound` into items no newer than `bound` keeps them so. */
  lemma InsertBounded(x: HistoryItem, s: seq<HistoryItem>, bound: int)
    requires x.timestamp <= bound
    requires forall i :: 0 <= i < |s| ==> s[i].timestamp <= bound
    ensures forall i :: 0 <= i < |Insert(x, s)| ==> Insert(x, s)[i].timestamp <= bound
  {
    var r := Insert(x, s);
    InsertPermutes(x, s);
    forall i | 0 <= i < |r|
      ensures r[i].timestamp <= bound
    {
      assert r[i] in multiset(r);
      assert r[i] == x || r[i] in multiset(s);
    }
  }

  /** Inserting into a newest-first list keeps it newest first. */
  lemma {:induction false} InsertSorted(x: HistoryItem, s: seq<HistoryItem>)
    requires SortedByTimestampDesc(s)
    ensures SortedByTimestampDesc(Insert(x, s))
  {
    if |s| > 0 && s[0].timestamp > x.timestamp {
      var rest := Insert(x, s[1..]);
      InsertSorted(x, s[1..]);
      InsertBounded(x, s[1..], s[0].timestamp);
      var r := [s[0]] + rest;
      assert Insert(x, s) == r;
      forall i, j | 0 <= i < j < |r|
        ensures r[i].timestamp >= r[j].timestamp
      {
        if i == 0 {
          assert r[j] == rest[j - 1];
        } else {
          assert r[i] == rest[i - 1] && r[j] == rest[j - 1];
        }
      }
    }
  }

  /**
   * The stable sort `add_history_items` applies (`sort_by` on timestamps, reversed):
   * insertion sort from the back, so earlier items stay ahead of later
   * items with the same timestamp.
   */
  function SortByTimestampDesc(s: seq<HistoryItem>): (r: seq<HistoryItem>)
    ensures multiset(r) == multiset(s)
    ensures SortedByTimestampDesc(r)
  {
    if |s| == 0 then []
    else
      assert s == [s[0]] + s[1..];
      var rest := SortByTimestampDesc(s[1..]);
      InsertSorted(s[0], rest);
      InsertPermutes(s[0], rest);
      Insert(s[0], rest)
  }

  /** `Vec::truncate`: keeps at most the first `n` items. */
  function Truncate(s: seq<HistoryItem>, n: nat): (r: seq<HistoryItem>)
    ensures r <= s
    ensures |r| == if |s| <= n then |s| else n
  {
    if |s| <= n then s else s[..n]
  }

  /**
   * The merge of `add_history_items`: new items whose id is already stored
   * are dropped, the survivors are put in front of the stored items, the
   * whole list is stably sorted newest first and cut to capacity. With
   * nothing to add the stored list is left as it is.
   */
  function AddHistoryItems(existing: seq<HistoryItem>, batch: seq<HistoryItem>): (r: seq<HistoryItem>)
    ensures |batch| == 0 ==> r == existing
    ensures |Unknown(batch, Ids(existing))| == 0 ==> r == existing
    ensures |Unknown(batch, Ids(existing))| > 0 ==> WellFormed(r)
    ensures WellFormed(existing) ==> WellFormed(r)
    ensures multiset(r) <= multiset(Unknown(batch, Ids(existing))) + multiset(existing)
    ensures var added := |Unknown(batch, Ids(existing))| + |existing|;
            |Unknown(batch, Ids(existing))| > 0 ==> |r| == if added <= MaxHistoryItems then added else MaxHistoryItems
  {
    if |batch| == 0 then existing
    else
      var survivors := Unknown(batch, Ids(existing));
      if |survivors| == 0 then existing
      else
        var sorted := SortByTimestampDesc(survivors + existing);
        var r := Truncate(sorted, MaxHistoryItems);
        assert sorted == r + sorted[|r|..];
        assert |sorted| == |survivors + existing| by {
          assert |multiset(sorted)| == |multiset(survivors + existing)|;
        }
        r
  }

  /** `clear_history`: whatever was stored, the stored list becomes empty. */
  function ClearHistory(stored: seq<HistoryItem>): (r: seq<HistoryItem>)
    ensures WellFormed(r) && |r| == 0
  {
    []
  }

  // Properties of the merge.

  lemma {:induction false} WithTimestampAppend(a: seq<HistoryItem>, b: seq<HistoryItem>, t: int)
    ensures WithTimestamp(a + b, t) == WithTimestamp(a, t) + WithTimestamp(b, t)
  {
    if |a| > 0 {
      assert (a + b)[1..] == a[1..] + b;
      WithTimestampAppend(a[1..], b, t);
    } else {
      assert a + b == b;
    }
  }

  lemma WithTimestampCons(y: HistoryItem, s: seq<HistoryItem>, t: int)
    ensures WithTimestamp([y] + s, t) == (if y.timestamp == t then [y] else []) + WithTimestamp(s, t)
  {
    assert ([y] + s)[1..] == s;
  }

  /** Inserting `x` adds it in front of the items sharing its timestamp and moves no other item. */
  lemma {:induction false} InsertWithTimestamp(x: HistoryItem, s: seq<HistoryItem>, t: int)
    ensures WithTimestamp(Insert(x, s), t) == (if x.timestamp == t then [x] else []) + WithTimestamp(s, t)
  {
    if |s| == 0 || s[0].timestamp <= x.timestamp {
      WithTimestampCons(x, s, t);
    } else {
      var rest := Insert(x, s[1..]);
      InsertWithTimestamp(x, s[1..], t);
      WithTimestampCons(s[0], rest, t);
      assert s == [s[0]] + s[1..];
      WithTimestampCons(s[0], s[1..], t);
      if x.timestamp == t {
        // `s[0]` is newer than `x`, so it does not carry timestamp `t`.
        assert s[0].timestamp != t;
      }
    }
  }

  /**
   * Stability: among items with one timestamp the sort keeps the input
   * order, so the items with any given timestamp appear in the same order
   * before and after sorting.
   */
  lemma {:induction false} SortIsStable(s: seq<HistoryItem>, t: int)
    ensures WithTimestamp(SortByTimestampDesc(s), t) == WithTimestamp(s, t)
  {
    if |s| > 0 {
      SortIsStable(s[1..], t);
      InsertWithTimestamp(s[0], SortByTimestampDesc(s[1..]), t);
    }
  }

  /** Cutting a list cuts the items of every timestamp to a prefix of themselves. */
  lemma {:induction false} WithTimestampOfPrefix(s: seq<HistoryItem>, n: nat, t: int)
    requires n <= |s|
    ensures WithTimestamp(s[..n], t) <= WithTimestamp(s, t)
  {
    assert s == s[..n] + s[n..];
    WithTimestampAppend(s[..n], s[n..], t);
  }

  /**
   * The merge is stable: among items with equal timestamps the kept new
   * items come first, in batch order, then the kept stored items in stored
   * order; truncation can only cut that run short at its end.
   */
  lemma MergeIsStable(existing: seq<HistoryItem>, batch: seq<HistoryItem>, t: int)
    ensures WithTimestamp(AddHistoryItems(existing, batch), t)
         <= WithTimestamp(Unknown(batch, Ids(existing)), t) + WithTimestamp(existing, t)
  {
    var survivors := Unknown(batch, Ids(existing));
    WithTimestampAppend(survivors, existing, t);
    if |batch| > 0 && |survivors| > 0 {
      var sorted := SortByTimestampDesc(survivors + existing);
      SortIsStable(survivors + existing, t);
      if |sorted| > MaxHistoryItems {
        WithTimestampOfPrefix(sorted, MaxHistoryItems, t);
      }
    } else if |survivors| == 0 {
      assert WithTimestamp(survivors, t) == [];
    }
  }

  /** Every item of the merged list was stored before or is a new item whose id was not stored. */
  lemma MergeOrigins(existing: seq<HistoryItem>, batch: seq<HistoryItem>)
    ensures forall x :: x in AddHistoryItems(existing, batch) ==>
      x in existing || (x in batch && x.id !in Ids(existing))
  {
    var r := AddHistoryItems(existing, batch);
    var survivors := Unknown(batch, Ids(existing));
    forall x | x in r
      ensures x in existing || (x in batch && x.id !in Ids(existing))
    {
      assert x in multiset(r);
      assert x in multiset(survivors) + multiset(existing);
    }
  }

  /**
   * Under capacity nothing is lost: when the surviving new items and the
   * stored items number at most `MaxHistoryItems`, the result holds
   * exactly those items.
   */
  lemma MergeLosesNothingUnderCapacity(existing: seq<HistoryItem>, batch: seq<HistoryItem>)
    requires |Unknown(batch, Ids(existing))| + |existing| <= MaxHistoryItems
    ensures multiset(AddHistoryItems(existing, batch))
         == multiset(Unknown(batch, Ids(existing))) + multiset(existing)
  {
    var survivors := Unknown(batch, Ids(existing));
    if |batch| == 0 {
      assert survivors == [];
    } else if |survivors| > 0 {
      var sorted := SortByTimestampDesc(survivors + existing);
      assert |sorted| == |survivors + existing| by {
        assert |multiset(sorted)| == |multiset(survivors + existing)|;
      }
    }
  }

  /**
   * Truncation drops only the oldest items: every item of the merge input
   * missing from the result is no newer than any item that was kept.
   */
  lemma MergeDropsOnlyOldest(existing: seq<HistoryItem>, batch: seq<HistoryItem>)
    ensures var r := AddHistoryItems(existing, batch);
      forall d, k ::
        d in multiset(Unknown(batch, Ids(existing))) + multiset(existing) - multiset(r) && k in r ==>
        d.timestamp <= k.timestamp
  {
    var r := AddHistoryItems(existing, batch);
    var survivors := Unknown(batch, Ids(existing));
    var all := multiset(survivors) + multiset(existing);
    if |batch| == 0 || |survivors| == 0 {
      if |batch| == 0 {
        assert survivors == [];
      }
      assert all - multiset(r) == multiset{};
    } else {
      var sorted := SortByTimestampDesc(survivors + existing);
      assert r == sorted[..|r|];
      SortedPrefixKeepsNewest(sorted, |r|);
    }
  }

  /** In a newest-first list, whatever lies beyond the first `n` items is no newer than any of them. */
  lemma SortedPrefixKeepsNewest(sorted: seq<HistoryItem>, n: nat)
    requires SortedByTimestampDesc(sorted) && n <= |sorted|
    ensures forall d, k ::
              d in multiset(sorted) - multiset(sorted[..n]) && k in sorted[..n] ==> d.timestamp <= k.timestamp
  {
    assert sorted == sorted[..n] + sorted[n..];
    assert multiset(sorted) - multiset(sorted[..n]) == multiset(sorted[n..]);
    forall d, k | d in multiset(sorted) - multiset(sorted[..n]) && k in sorted[..n]
      ensures d.timestamp <= k.timestamp
    {
      assert d in sorted[n..];
      var j :| n <= j < |sorted| && sorted[j] == d;
      var i :| 0 <= i < n && sorted[i] == k;
    }
  }

  /** Every item whose id is unknown survives, duplicates within the batch included. */
  lemma {:induction false} UnknownKeepsAllNewIds(batch: seq<HistoryItem>, known: set<string>)
    requires forall x :: x in batch ==> x.id !in known
    ensures Unknown(batch, known) == batch
  {
    if |batch| > 0 {
      UnknownKeepsAllNewIds(batch[1..], known);
      assert batch == [batch[0]] + batch[1..];
    }
  }

  /** Two new items sharing one id are both kept: only stored ids are deduplicated against. */
  lemma BatchDuplicatesKept(a: HistoryItem, b: HistoryItem)
    requires a.id == b.id && a != b
    ensures var r := AddHistoryItems([], [a, b]); a in r && b in r && |r| == 2
  {
    assert Ids([]) == {};
    UnknownKeepsAllNewIds([a, b], {});
    MergeLosesNothingUnderCapacity([], [a, b]);
    var r := AddHistoryItems([], [a, b]);
    assert multiset(r) == multiset{a, b};
    assert a in multiset(r) && b in multiset(r);
  }

  /** After clearing, a batch is stored in full up to capacity: no id is known any more. */
  lemma ClearThenAdd(stored: seq<HistoryItem>, batch: seq<HistoryItem>)
    ensures AddHistoryItems(ClearHistory(stored), batch)
         == Truncate(SortByTimestampDesc(batch), MaxHistoryItems)
  {
    assert Ids([]) == {};
    UnknownKeepsAllNewIds(batch, {});
    assert batch + [] == batch;
  }
}
