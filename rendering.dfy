/**
 * The pure part of `RefreshBroadcast`: a player's broadcasts ordered by
 * priority, highest first, then by id in the configured direction (LINQ's
 * `OrderByDescending(...).ThenBy[Descending](...)`, a stable sort), and their
 * texts joined with new lines.
 */
module Rendering {
  import opened Strings

  /** The configured direction of the secondary order on ids. */
  datatype BroadcastOrder = Descending | Ascending

  /** What the renderer reads from one broadcast. */
  datatype Entry = Entry(id: int, priority: int, text: string)

  /** `a` goes strictly above `b`: a higher priority, or the same priority and a larger id (Descending) or a smaller one (otherwise). */
  predicate Above(a: Entry, b: Entry, order: BroadcastOrder)
  {
    a.priority > b.priority
    || (a.priority == b.priority && (if order == Descending then a.id > b.id else a.id < b.id))
  }

  /** No entry goes strictly above one placed before it. */
  predicate Sorted(s: seq<Entry>, order: BroadcastOrder)
  {
    forall i, j :: 0 <= i < j < |s| ==> !Above(s[j], s[i], order)
  }

  /** Places `x` before the first entry it goes strictly above, so after every entry with its own key. */
  function Insert(s: seq<Entry>, x: Entry, order: BroadcastOrder): (r: seq<Entry>)
    ensures multiset(r) == multiset(s) + multiset{x}
  {
    if |s| == 0 then [x]
    else if Above(x, s[0], order) then [x] + s
    else
      assert s == [s[0]] + s[1..];
      [s[0]] + Insert(s[1..], x, order)
  }

  /** Insertion sort, taking the input from the front, so that equal keys keep their input order. */
  function SortEntries(s: seq<Entry>, order: BroadcastOrder): (r: seq<Entry>)
  {
    if |s| == 0 then []
    else Insert(SortEntries(s[..|s| - 1], order), s[|s| - 1], order)
  }

  function Texts(s: seq<Entry>): (r: seq<string>)
    ensures |r| == |s| && forall k :: 0 <= k < |s| ==> r[k] == s[k].text
  {
    if |s| == 0 then [] else [s[0].text] + Texts(s[1..])
  }

  /** The text shown to a player with these broadcasts. */
  function Render(bucket: seq<Entry>, order: BroadcastOrder): string
  {
    Join(Texts(SortEntries(bucket, order)), "\n")
  }

  // ---------------------------------------------------------------------------
  // The sort: ordered, a permutation, stable
  // ---------------------------------------------------------------------------

  lemma {:induction false} InsertSorted(s: seq<Entry>, x: Entry, order: BroadcastOrder)
    requires Sorted(s, order)
    ensures Sorted(Insert(s, x, order), order)
  {
    if |s| > 0 && !Above(x, s[0], order) {
      InsertSorted(s[1..], x, order);
      var r := Insert(s, x, order);
      var tail := Insert(s[1..], x, order);
      assert r == [s[0]] + tail;
      forall j | 0 < j < |r| ensures !Above(r[j], s[0], order) {
        assert r[j] in multiset(tail);
        assert r[j] == x || r[j] in multiset(s[1..]);
      }
    }
  }

  /** The order is sorted by priority and then by id. */
  lemma {:induction false} SortSorts(s: seq<Entry>, order: BroadcastOrder)
    ensures Sorted(SortEntries(s, order), order)
  {
    if |s| > 0 {
      var init := s[..|s| - 1];
      SortSorts(init, order);
      InsertSorted(SortEntries(init, order), s[|s| - 1], order);
    }
  }

  /** The order is a permutation of the broadcasts. */
  lemma {:induction false} SortPermutes(s: seq<Entry>, order: BroadcastOrder)
    ensures multiset(SortEntries(s, order)) == multiset(s)
  {
    if |s| > 0 {
      var init, last := s[..|s| - 1], s[|s| - 1];
      SortPermutes(init, order);
      assert s == init + [last];
      assert multiset(s) == multiset(init) + multiset{last};
    }
  }

  /** The entries of `s` with the given priority and id, in order. */
  function WithKey(s: seq<Entry>, priority: int, id: int): seq<Entry>
  {
    if |s| == 0 then []
    else (if s[0].priority == priority && s[0].id == id then [s[0]] else []) + WithKey(s[1..], priority, id)
  }

  lemma {:induction false} WithKeyAppend(a: seq<Entry>, b: seq<Entry>, priority: int, id: int)
    ensures WithKey(a + b, priority, id) == WithKey(a, priority, id) + WithKey(b, priority, id)
  {
    if |a| > 0 {
      assert (a + b)[1..] == a[1..] + b;
      WithKeyAppend(a[1..], b, priority, id);
    } else {
      assert a + b == b;
    }
  }

  lemma {:induction false} WithKeyNone(s: seq<Entry>, priority: int, id: int)
    requires forall k :: 0 <= k < |s| ==> s[k].priority != priority || s[k].id != id
    ensures WithKey(s, priority, id) == []
  {
    if |s| > 0 {
      WithKeyNone(s[1..], priority, id);
    }
  }

  /** Nothing in a sorted list shares a key with an entry that goes above its head. */
  lemma {:induction false} AboveHeadNoSameKey(s: seq<Entry>, x: Entry, order: BroadcastOrder)
    requires Sorted(s, order) && |s| > 0 && Above(x, s[0], order)
    ensures forall k :: 0 <= k < |s| ==> s[k].priority != x.priority || s[k].id != x.id
  {
    forall k | 0 <= k < |s| ensures s[k].priority != x.priority || s[k].id != x.id {
      if k > 0 {
        assert !Above(s[k], s[0], order);
      }
    }
  }

  lemma {:induction false} InsertStable(s: seq<Entry>, x: Entry, order: BroadcastOrder, priority: int, id: int)
    requires Sorted(s, order)
    ensures WithKey(Insert(s, x, order), priority, id)
         == WithKey(s, priority, id) + WithKey([x], priority, id)
    decreases |s|, 1
  {
    if |s| == 0 {
      assert Insert(s, x, order) == [x];
    } else if Above(x, s[0], order) {
      assert Insert(s, x, order) == [x] + s;
      WithKeyAppend([x], s, priority, id);
      if x.priority == priority && x.id == id {
        AboveHeadNoSameKey(s, x, order);
        WithKeyNone(s, priority, id);
      } else {
        assert WithKey([x], priority, id) == [];
      }
    } else {
      InsertTailStable(s, x, order, priority, id);
    }
  }

  lemma {:induction false} InsertTailStable(s: seq<Entry>, x: Entry, order: BroadcastOrder, priority: int, id: int)
    requires Sorted(s, order) && |s| > 0 && !Above(x, s[0], order)
    ensures WithKey(Insert(s, x, order), priority, id)
         == WithKey(s, priority, id) + WithKey([x], priority, id)
    decreases |s|, 0
  {
    var tail := Insert(s[1..], x, order);
    assert Insert(s, x, order) == [s[0]] + tail;
    SortedTail(s, order);
    InsertStable(s[1..], x, order, priority, id);
    ConsStable(s[0], s[1..], tail, [x], priority, id);
    assert [s[0]] + s[1..] == s;
  }

  lemma {:induction false} SortedTail(s: seq<Entry>, order: BroadcastOrder)
    requires Sorted(s, order) && |s| > 0
    ensures Sorted(s[1..], order)
  {
    forall i, j | 0 <= i < j < |s| - 1 ensures !Above(s[1..][j], s[1..][i], order) {
      assert s[1..][j] == s[j + 1] && s[1..][i] == s[i + 1];
    }
  }

  lemma {:induction false} ConsStable(h: Entry, t: seq<Entry>, t': seq<Entry>, extra: seq<Entry>, priority: int, id: int)
    requires WithKey(t', priority, id) == WithKey(t, priority, id) + WithKey(extra, priority, id)
    ensures WithKey([h] + t', priority, id) == WithKey([h] + t, priority, id) + WithKey(extra, priority, id)
  {
    WithKeyAppend([h], t', priority, id);
    WithKeyAppend([h], t, priority, id);
  }

  /** Broadcasts with the same priority and id stay in the order they have in the player's list. */
  lemma {:induction false} SortIsStable(s: seq<Entry>, order: BroadcastOrder, priority: int, id: int)
    ensures WithKey(SortEntries(s, order), priority, id) == WithKey(s, priority, id)
  {
    if |s| > 0 {
      var init, last := s[..|s| - 1], s[|s| - 1];
      assert SortEntries(s, order) == Insert(SortEntries(init, order), last, order);
      SortIsStable(init, order, priority, id);
      SortSorts(init, order);
      InsertStable(SortEntries(init, order), last, order, priority, id);
      WithKeyAppend(init, [last], priority, id);
      assert init + [last] == s;
    }
  }

  /**
   * Whatever the configured direction, priorities never increase down the
   * list; among equal priorities ids decrease (Descending) or increase (Ascending).
   */
  lemma {:induction false} PriorityThenId(s: seq<Entry>, order: BroadcastOrder, i: int, j: int)
    requires 0 <= i < j < |s|
    ensures |SortEntries(s, order)| == |s|
    ensures SortEntries(s, order)[i].priority >= SortEntries(s, order)[j].priority
    ensures SortEntries(s, order)[i].priority == SortEntries(s, order)[j].priority ==>
              if order == Descending then SortEntries(s, order)[i].id >= SortEntries(s, order)[j].id
              else SortEntries(s, order)[i].id <= SortEntries(s, order)[j].id
  {
    SortSorts(s, order);
    SortPermutes(s, order);
    var r := SortEntries(s, order);
    assert |r| == |multiset(r)| == |multiset(s)| == |s|;
    assert !Above(r[j], r[i], order);
  }

  // ---------------------------------------------------------------------------
  // The rendered text
  // ---------------------------------------------------------------------------

  /** A player whose list is empty is sent the empty text. */
  lemma {:induction false} RenderEmpty(order: BroadcastOrder)
    ensures Render([], order) == ""
  {
  }

  /**
   * The rendered text holds one line per broadcast, in sorted order, with no
   * separator before the first or after the last (texts without new lines).
   */
  lemma {:induction false} RenderLines(bucket: seq<Entry>, order: BroadcastOrder)
    requires |bucket| >= 1
    requires forall k :: 0 <= k < |bucket| ==> '\n' !in bucket[k].text
    ensures Split(Render(bucket, order), '\n') == Texts(SortEntries(bucket, order))
  {
    SortPermutes(bucket, order);
    var r := SortEntries(bucket, order);
    assert |r| == |multiset(r)| == |bucket|;
    forall k | 0 <= k < |r| ensures '\n' !in r[k].text {
      assert r[k] in multiset(bucket);
    }
    assert "\n" == ['\n'];
    SplitJoin(Texts(r), '\n');
  }

  /** Priorities 1, 3, 2 on ids 10, 11, 12: shown as priority 3, then 2, then 1. */
  lemma {:induction false} ExamplePriorities(a: Entry, b: Entry, c: Entry, order: BroadcastOrder)
    requires a == Entry(10, 1, "a") && b == Entry(11, 3, "b") && c == Entry(12, 2, "c")
    ensures SortEntries([a, b, c], order) == [b, c, a]
  {
    assert [a, b, c][..2] == [a, b];
    assert [a, b][..1] == [a];
    assert [a][..0] == [];
    assert SortEntries([a], order) == [a];
    assert SortEntries([a, b], order) == [b, a];
    assert Insert([a], c, order) == [c, a];
  }
}
