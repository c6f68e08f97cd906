/**
 * The manager's bookkeeping as values: the pending expiry coroutines, list
 * operations with `List` semantics, and the functions that describe what a
 * batch of adds leaves behind.
 */
module Bookkeeping {
  import opened NetTypes
  import opened Optional
  import opened Entity
  import opened Rendering

  /** A pending expiry coroutine: its name, the broadcast it will remove, the player captured when it started, and its wait. */
  datatype Timer = Timer(name: int, target: Broadcast, owner: Player, duration: UShort)

  /** What a batch over caller-supplied broadcasts ends with: a returned value, or the `KeyNotFoundException` thrown by indexing a missing bucket. */
  datatype Outcome = Returned(ok: bool) | KeyNotFound

  /** The longest a broadcast may be shown, in seconds. */
  const MAX_DURATION := 300

  // ---------------------------------------------------------------------------
  // Pure bookkeeping
  // ---------------------------------------------------------------------------

  /** A player's list, or the empty list when the player has none. */
  function Bucket(m: map<string, seq<Broadcast>>, u: string): seq<Broadcast>
  {
    if u in m then m[u] else []
  }

  /** Index of the first occurrence of `x` (what `List.IndexOf` finds). */
  function FirstIndex<T(==)>(s: seq<T>, x: T): (i: nat)
    requires x in s
    ensures i < |s| && s[i] == x && x !in s[..i]
  {
    if s[0] == x then 0
    else
      assert s == [s[0]] + s[1..];
      1 + FirstIndex(s[1..], x)
  }

  /** `List.Remove`: drops the first occurrence of `x`, if any. */
  function RemoveFirst<T(==)>(s: seq<T>, x: T): (r: seq<T>)
    ensures forall y :: y in r ==> y in s
    ensures forall y :: y in s && y != x ==> y in r
    ensures x !in s ==> r == s
    ensures |r| == if x in s then |s| - 1 else |s|
  {
    if x in s then
      var i := FirstIndex(s, x);
      assert s == s[..i] + [s[i]] + s[i + 1..];
      s[..i] + s[i + 1..]
    else s
  }

  /** `List.Remove` takes out exactly one occurrence of `x` when there is one, and nothing else. */
  lemma {:induction false} RemoveFirstOne<T>(s: seq<T>, x: T)
    ensures multiset(RemoveFirst(s, x)) == multiset(s) - multiset{x}
  {
    if x in s {
      var i := FirstIndex(s, x);
      assert s == s[..i] + [s[i]] + s[i + 1..];
      assert RemoveFirst(s, x) == s[..i] + s[i + 1..];
    }
  }

  /** Index of the first broadcast with the given id (`FirstOrDefault(b => b.Id == id)` over one list). */
  function FindId(bs: seq<Broadcast>, x: Int32): (r: Option<nat>)
    ensures r.None? <==> forall k :: 0 <= k < |bs| ==> bs[k].id != x
    ensures r.Some? ==> r.value < |bs| && bs[r.value].id == x
                        && forall k :: 0 <= k < r.value ==> bs[k].id != x
  {
    if |bs| == 0 then None
    else if bs[0].id == x then Some(0)
    else match FindId(bs[1..], x)
      case None => None
      case Some(k) => Some(k + 1)
  }

  /** Some list holds a broadcast with this id. */
  predicate HasId(m: map<string, seq<Broadcast>>, x: Int32)
  {
    exists u, k :: u in m && 0 <= k < |m[u]| && m[u][k].id == x
  }

  /** `KillCoroutines` for every name in `names`: the pending timers whose name is not among them, in order. */
  function KillNamed(ts: seq<Timer>, names: set<int>): (r: seq<Timer>)
    ensures forall k :: 0 <= k < |r| ==> r[k] in ts && r[k].name !in names
    ensures forall k :: 0 <= k < |ts| && ts[k].name !in names ==> ts[k] in r
    ensures |r| <= |ts|
  {
    if |ts| == 0 then []
    else (if ts[0].name in names then [] else [ts[0]]) + KillNamed(ts[1..], names)
  }

  /** The timers left after the clearing loops' `KillCoroutines` of names 0 .. n-1, in order. */
  function KillBelow(ts: seq<Timer>, n: int): seq<Timer>
  {
    if |ts| == 0 then []
    else (if 0 <= ts[0].name < n then [] else [ts[0]]) + KillBelow(ts[1..], n)
  }

  /** The players `AddMapBroadcast` serves: non-null and not NPCs, in list order. */
  function Eligible(ps: seq<Player?>): (r: seq<Player>)
    ensures |r| <= |ps|
    ensures forall k :: 0 <= k < |r| ==> !r[k].isNpc
  {
    if |ps| == 0 then []
    else
      var p := ps[|ps| - 1];
      Eligible(ps[..|ps| - 1]) + (if p != null && !p.isNpc then [p] else [])
  }

  /** The lists after appending `bs[k]` to the list of `ps[k]`, in order, creating missing lists. */
  function AppendAll(m: map<string, seq<Broadcast>>, bs: seq<Broadcast>, ps: seq<Player>): (r: map<string, seq<Broadcast>>)
    requires |bs| == |ps|
  {
    if |bs| == 0 then m
    else
      var n := |bs| - 1;
      var m' := AppendAll(m, bs[..n], ps[..n]);
      m'[ps[n].userId := Bucket(m', ps[n].userId) + [bs[n]]]
  }

  /** The timers started for `bs[k]` (owned by `ps[k]`), each named after its broadcast's id. */
  function TimersFor(bs: seq<Broadcast>, ps: seq<Player>, duration: UShort): (r: seq<Timer>)
    requires |bs| == |ps|
    ensures |r| == |bs|
  {
    if |bs| == 0 then []
    else
      var n := |bs| - 1;
      TimersFor(bs[..n], ps[..n], duration) + [Timer(bs[n].id, bs[n], ps[n], duration)]
  }

  /** The user ids of these players. */
  function UserIds(ps: seq<Player>): (r: set<string>)
  {
    if |ps| == 0 then {} else UserIds(ps[..|ps| - 1]) + {ps[|ps| - 1].userId}
  }

  /** Eligibility looks at one player at a time. */
  lemma {:induction false} EligibleSnoc(ps: seq<Player?>, i: nat)
    requires i < |ps|
    ensures Eligible(ps[..i + 1]) == Eligible(ps[..i]) + (if ps[i] != null && !ps[i].isNpc then [ps[i]] else [])
  {
    assert ps[..i + 1][..i] == ps[..i];
  }

  /** One more player adds its user id. */
  lemma {:induction false} UserIdsSnoc(ps: seq<Player>, p: Player)
    ensures UserIds(ps + [p]) == UserIds(ps) + {p.userId}
  {
    assert (ps + [p])[..|ps|] == ps;
  }

  /** One more broadcast adds its timer at the end. */
  lemma {:induction false} TimersForSnoc(ts: seq<Timer>, bs: seq<Broadcast>, ps: seq<Player>, b: Broadcast, p: Player, duration: UShort)
    requires |bs| == |ps|
    ensures ts + TimersFor(bs + [b], ps + [p], duration) == ts + TimersFor(bs, ps, duration) + [Timer(b.id, b, p, duration)]
  {
    assert (bs + [b])[..|bs|] == bs && (ps + [p])[..|ps|] == ps;
  }

  /** One more broadcast is appended to its player's list. */
  lemma {:induction false} AppendAllSnoc(m: map<string, seq<Broadcast>>, bs: seq<Broadcast>, ps: seq<Player>, b: Broadcast, p: Player)
    requires |bs| == |ps|
    ensures var m' := AppendAll(m, bs, ps);
            AppendAll(m, bs + [b], ps + [p]) == m'[p.userId := Bucket(m', p.userId) + [b]]
  {
    assert (bs + [b])[..|bs|] == bs && (ps + [p])[..|ps|] == ps;
  }

  /** `bs[k]` was made for `ps[k]` with these text, duration, priority and tag. */
  ghost predicate Made(bs: seq<Broadcast>, ps: seq<Player>, text: string, duration: UShort, priority: Byte, tag: string)
    reads bs
  {
    |bs| == |ps|
    && forall k :: 0 <= k < |bs| ==>
         bs[k].player == ps[k] && bs[k].text == text && bs[k].duration == duration
         && bs[k].priority == priority && bs[k].tag == tag
  }

  /** `bs` carries the ids handed out after `x`, in order: `bs[k]` has the id of the (k+1)-th `Id++`. */
  predicate Numbered(bs: seq<Broadcast>, x: Int32)
  {
    forall k :: 0 <= k < |bs| ==> bs[k].id == IncN(x, k + 1)
  }

  lemma {:induction false} MadeSnoc(bs: seq<Broadcast>, ps: seq<Player>, b: Broadcast, p: Player,
                 text: string, duration: UShort, priority: Byte, tag: string)
    requires Made(bs, ps, text, duration, priority, tag)
    requires b.player == p && b.text == text && b.duration == duration && b.priority == priority && b.tag == tag
    ensures Made(bs + [b], ps + [p], text, duration, priority, tag)
  {
  }

  lemma {:induction false} NumberedSnoc(bs: seq<Broadcast>, b: Broadcast, x: Int32)
    requires Numbered(bs, x) && b.id == Inc32(IncN(x, |bs|))
    ensures Numbered(bs + [b], x)
  {
  }

  /** The pending timers with this name, in order. */
  function Named(ts: seq<Timer>, x: int): (r: seq<Timer>)
    ensures forall k :: 0 <= k < |r| ==> r[k].name == x && r[k] in ts
  {
    if |ts| == 0 then []
    else (if ts[0].name == x then [ts[0]] else []) + Named(ts[1..], x)
  }

  lemma {:induction false} NamedAppend(a: seq<Timer>, b: seq<Timer>, x: int)
    ensures Named(a + b, x) == Named(a, x) + Named(b, x)
  {
    if |a| > 0 {
      assert (a + b)[1..] == a[1..] + b;
      NamedAppend(a[1..], b, x);
    } else {
      assert a + b == b;
    }
  }

  /** After `KillCoroutines` of some names, no timer of those names is left and every other name keeps its timers. */
  lemma {:induction false} NamedAfterKill(ts: seq<Timer>, names: set<int>, x: int)
    ensures Named(KillNamed(ts, names), x) == if x in names then [] else Named(ts, x)
  {
    if |ts| > 0 {
      var head := if ts[0].name in names then [] else [ts[0]];
      NamedAppend(head, KillNamed(ts[1..], names), x);
      NamedAfterKill(ts[1..], names, x);
    }
  }

  /**
   * Killing the coroutines named `x` and starting one new coroutine under that
   * name leaves exactly that one pending under `x`, and every other name's
   * timers as they were.
   */
  lemma {:induction false} Restarted(ts: seq<Timer>, t: Timer, y: int)
    ensures Named(KillNamed(ts, {t.name}) + [t], y) == if y == t.name then [t] else Named(ts, y)
  {
    NamedAppend(KillNamed(ts, {t.name}), [t], y);
    NamedAfterKill(ts, {t.name}, y);
  }

  /** The user ids of the players of these broadcasts. */
  function Owners(bs: seq<Broadcast>): (r: set<string>)
  {
    if |bs| == 0 then {} else Owners(bs[..|bs| - 1]) + {bs[|bs| - 1].player.userId}
  }

  lemma {:induction false} OwnersSnoc(bs: seq<Broadcast>, b: Broadcast)
    ensures Owners(bs + [b]) == Owners(bs) + {b.player.userId}
  {
    assert (bs + [b])[..|bs|] == bs;
  }

  /** The owners with a list after one more broadcast: `b`'s player joins them if it has a list. */
  lemma {:induction false} OwnersSnocWithin(bs: seq<Broadcast>, b: Broadcast, keys: set<string>)
    ensures Owners(bs + [b]) * keys == Owners(bs) * keys + (if b.player.userId in keys then {b.player.userId} else {})
  {
    OwnersSnoc(bs, b);
  }

  /** The ids of these broadcasts. */
  function Ids(bs: seq<Broadcast>): (r: set<int>)
  {
    if |bs| == 0 then {} else Ids(bs[..|bs| - 1]) + {bs[|bs| - 1].id}
  }

  lemma {:induction false} IdsSnoc(bs: seq<Broadcast>, b: Broadcast)
    ensures Ids(bs + [b]) == Ids(bs) + {b.id}
  {
    assert (bs + [b])[..|bs|] == bs;
  }

  /** Killing no names leaves every timer. */
  lemma {:induction false} KillNamedNone(ts: seq<Timer>)
    ensures KillNamed(ts, {}) == ts
  {
    if |ts| > 0 {
      KillNamedNone(ts[1..]);
      assert [ts[0]] + ts[1..] == ts;
    }
  }

  /** `KillCoroutines` of the names `a`, then of the names `b`, is one kill of both. */
  lemma {:induction false} KillNamedTwice(ts: seq<Timer>, a: set<int>, b: set<int>)
    ensures KillNamed(KillNamed(ts, a), b) == KillNamed(ts, a + b)
  {
    if |ts| > 0 {
      var rest := KillNamed(ts[1..], a);
      KillNamedTwice(ts[1..], a, b);
      assert KillNamed(ts, a) == (if ts[0].name in a then [] else [ts[0]]) + rest;
      if ts[0].name in a {
        assert KillNamed(ts, a) == rest;
      } else {
        var l := [ts[0]] + rest;
        assert l[0] == ts[0] && l[1..] == rest;
        assert KillNamed(l, b) == (if ts[0].name in b then [] else [ts[0]]) + KillNamed(rest, b);
      }
    }
  }

  /** One more turn of the clearing loops' kill loop: killing name `i` after names below `i`. */
  lemma {:induction false} KillBelowStep(ts: seq<Timer>, i: int)
    requires 0 <= i
    ensures KillNamed(KillBelow(ts, i), {i}) == KillBelow(ts, i + 1)
  {
    if |ts| > 0 {
      var rest := KillBelow(ts[1..], i);
      KillBelowStep(ts[1..], i);
      assert KillBelow(ts, i) == (if 0 <= ts[0].name < i then [] else [ts[0]]) + rest;
      if 0 <= ts[0].name < i {
        assert KillBelow(ts, i) == rest;
      } else {
        var l := [ts[0]] + rest;
        assert l[0] == ts[0] && l[1..] == rest;
        assert KillNamed(l, {i}) == (if ts[0].name == i then [] else [ts[0]]) + KillNamed(rest, {i});
      }
    }
  }

  /** When the counter is not positive the kill loop does not run: every timer is left. */
  lemma {:induction false} KillBelowNone(ts: seq<Timer>, n: int)
    requires n <= 0
    ensures KillBelow(ts, n) == ts
  {
    if |ts| > 0 {
      KillBelowNone(ts[1..], n);
      assert [ts[0]] + ts[1..] == ts;
    }
  }

  /** `b` sits in the list kept under its own player's user id. */
  predicate Listed(m: map<string, seq<Broadcast>>, b: Broadcast)
  {
    b.player.userId in m && b in m[b.player.userId]
  }

  /** How many leading ids name a listed broadcast: the batch loops over ids stop at the first one that does not. */
  function FoundPrefix(m: map<string, seq<Broadcast>>, ids: seq<Int32>): (n: nat)
    ensures n <= |ids|
    ensures forall k :: 0 <= k < n ==> HasId(m, ids[k])
    ensures n < |ids| ==> !HasId(m, ids[n])
  {
    if |ids| == 0 || !HasId(m, ids[0]) then 0 else 1 + FoundPrefix(m, ids[1..])
  }

  /** Each broadcast `m` lists is in `live` and sits under its own player's user id. */
  ghost predicate Owned(m: map<string, seq<Broadcast>>, live: set<Broadcast>)
  {
    forall u, b :: u in m && b in m[u] ==> b in live && b.player.userId == u
  }

  /** Appending a broadcast to its own player's list, created if missing, keeps `Owned` once it is live. */
  lemma {:induction false} OwnedAppended(m: map<string, seq<Broadcast>>, live: set<Broadcast>, b: Broadcast)
    requires Owned(m, live)
    ensures var u := b.player.userId; Owned(m[u := Bucket(m, u) + [b]], live + {b})
  {
    var u := b.player.userId;
    var m': map<string, seq<Broadcast>> := m[u := Bucket(m, u) + [b]];
    forall v, x | v in m' && x in m'[v]
      ensures x in live + {b} && x.player.userId == v
    {
      if v == u && x != b {
        assert x in Bucket(m, u);
      }
    }
  }

  /** Removing one broadcast from one list keeps `Owned`. */
  lemma {:induction false} OwnedRemoved(m: map<string, seq<Broadcast>>, live: set<Broadcast>, u: string, b: Broadcast)
    requires Owned(m, live) && u in m
    ensures Owned(m[u := RemoveFirst(m[u], b)], live)
  {
    var m': map<string, seq<Broadcast>> := m[u := RemoveFirst(m[u], b)];
    forall v, x | v in m' && x in m'[v]
      ensures x in live && x.player.userId == v
    {
      if v == u {
        var s: seq<Broadcast> := RemoveFirst(m[u], b);
        assert m'[v] == s && x in s;
        assert x in m[u];
      } else {
        assert m'[v] == m[v];
      }
    }
  }

  /** No element occurs twice in `s`. */
  predicate Distinct<T(==)>(s: seq<T>)
  {
    |s| == 0 || (s[0] !in s[1..] && Distinct(s[1..]))
  }

  /** Away from the first occurrence, `List.Remove` keeps the head and removes from the tail. */
  lemma {:induction false} RemoveFirstCons<T>(s: seq<T>, x: T)
    requires |s| > 0 && s[0] != x
    ensures RemoveFirst(s, x) == [s[0]] + RemoveFirst(s[1..], x)
  {
    if x in s {
      assert s == [s[0]] + s[1..];
      assert x in s[1..];
      var j := FirstIndex(s[1..], x);
      assert FirstIndex(s, x) == 1 + j;
      assert s[..1 + j] == [s[0]] + s[1..][..j];
      assert s[1 + j + 1..] == s[1..][j + 1..];
    } else {
      assert x !in s[1..];
    }
  }

  /** Removing `x` from a list without repeats leaves no `x` behind, and no repeats. */
  lemma {:induction false} RemoveFirstGone<T>(s: seq<T>, x: T)
    requires Distinct(s)
    ensures x !in RemoveFirst(s, x) && Distinct(RemoveFirst(s, x))
    decreases |s|
  {
    if |s| > 0 {
      if s[0] == x {
        assert s == [s[0]] + s[1..];
        assert x in s && FirstIndex(s, x) == 0;
        assert RemoveFirst(s, x) == s[1..];
      } else {
        RemoveFirstCons(s, x);
        RemoveFirstGone(s[1..], x);
        var t := RemoveFirst(s[1..], x);
        assert ([s[0]] + t)[1..] == t;
        assert s[0] !in t;
      }
    }
  }

  /** Appending an element the list does not hold keeps it free of repeats. */
  lemma {:induction false} DistinctAppended<T>(s: seq<T>, x: T)
    requires Distinct(s) && x !in s
    ensures Distinct(s + [x])
    decreases |s|
  {
    if |s| > 0 {
      assert (s + [x])[1..] == s[1..] + [x];
      DistinctAppended(s[1..], x);
      assert s == [s[0]] + s[1..];
    }
  }

  /** No list holds the same broadcast twice: the manager only ever appends a broadcast it has just created. */
  predicate NoRepeats(m: map<string, seq<Broadcast>>)
  {
    forall u :: u in m ==> Distinct(m[u])
  }

  /** Removing `b` from list `u` keeps `NoRepeats`, and `b` is no longer in that list. */
  lemma {:induction false} NoRepeatsRemoved(m: map<string, seq<Broadcast>>, u: string, b: Broadcast)
    requires NoRepeats(m) && u in m
    ensures NoRepeats(m[u := RemoveFirst(m[u], b)]) && b !in RemoveFirst(m[u], b)
  {
    RemoveFirstGone(m[u], b);
  }

  /** Appending a broadcast that its player's list does not hold keeps `NoRepeats`. */
  lemma {:induction false} NoRepeatsAppended(m: map<string, seq<Broadcast>>, b: Broadcast)
    requires NoRepeats(m) && b !in Bucket(m, b.player.userId)
    ensures var u := b.player.userId; NoRepeats(m[u := Bucket(m, u) + [b]])
  {
    DistinctAppended(Bucket(m, b.player.userId), b);
  }

  /** Every broadcast `m` lists under a key, `m0` lists under that key too. */
  predicate Within(m: map<string, seq<Broadcast>>, m0: map<string, seq<Broadcast>>)
  {
    forall u, b :: u in m && b in m[u] ==> u in m0 && b in m0[u]
  }

  /** Every broadcast `m0` lists under a key, except those in `gone`, `m` still lists under that key. */
  predicate Kept(m0: map<string, seq<Broadcast>>, m: map<string, seq<Broadcast>>, gone: seq<Broadcast>)
  {
    forall u, b :: u in m0 && b in m0[u] && b !in gone ==> u in m && b in m[u]
  }

  /** Removing one broadcast from one list keeps `Within`. */
  lemma {:induction false} WithinRemoved(m: map<string, seq<Broadcast>>, m0: map<string, seq<Broadcast>>, u: string, b: Broadcast)
    requires Within(m, m0) && u in m
    ensures Within(m[u := RemoveFirst(m[u], b)], m0)
  {
    var m': map<string, seq<Broadcast>> := m[u := RemoveFirst(m[u], b)];
    forall v, x | v in m' && x in m'[v]
      ensures v in m0 && x in m0[v]
    {
      if v == u {
        var s: seq<Broadcast> := RemoveFirst(m[u], b);
        assert m'[v] == s && x in s;
        assert x in m[u];
      } else {
        assert m'[v] == m[v];
      }
    }
  }

  /** Removing `b` from one list keeps `Kept`, with `b` added to the broadcasts that are gone. */
  lemma {:induction false} KeptRemoved(m0: map<string, seq<Broadcast>>, m: map<string, seq<Broadcast>>, gone: seq<Broadcast>, u: string, b: Broadcast)
    requires Kept(m0, m, gone) && u in m
    ensures Kept(m0, m[u := RemoveFirst(m[u], b)], gone + [b])
  {
    var m': map<string, seq<Broadcast>> := m[u := RemoveFirst(m[u], b)];
    forall v, x | v in m0 && x in m0[v] && x !in gone + [b]
      ensures v in m' && x in m'[v]
    {
      assert x !in gone && x != b;
      assert v in m && x in m[v];
      if v == u {
        var s: seq<Broadcast> := RemoveFirst(m[u], b);
        assert x in s;
        assert m'[v] == s;
      } else {
        assert m'[v] == m[v];
      }
    }
  }

  /** No broadcast of `bs` sits in its own player's list. */
  predicate Gone(m: map<string, seq<Broadcast>>, bs: seq<Broadcast>)
  {
    forall k :: 0 <= k < |bs| ==> !Listed(m, bs[k])
  }

  /** The lists after `List.Remove` of each broadcast of `bs` in turn, from its player's list when that list exists. */
  function RemoveAll(m: map<string, seq<Broadcast>>, bs: seq<Broadcast>): (r: map<string, seq<Broadcast>>)
    ensures r.Keys == m.Keys
  {
    if |bs| == 0 then m
    else
      var m' := RemoveAll(m, bs[..|bs| - 1]);
      var u := bs[|bs| - 1].player.userId;
      if u in m' then m'[u := RemoveFirst(m'[u], bs[|bs| - 1])] else m'
  }

  lemma {:induction false} RemoveAllSnoc(m: map<string, seq<Broadcast>>, bs: seq<Broadcast>, b: Broadcast)
    ensures var m' := RemoveAll(m, bs); var u := b.player.userId;
            RemoveAll(m, bs + [b]) == if u in m' then m'[u := RemoveFirst(m'[u], b)] else m'
  {
    assert (bs + [b])[..|bs|] == bs;
  }

  /** The broadcasts of `bs` that belong to the player with user id `u`, in order. */
  function OwnedBy(bs: seq<Broadcast>, u: string): seq<Broadcast>
  {
    if |bs| == 0 then []
    else OwnedBy(bs[..|bs| - 1], u) + (if bs[|bs| - 1].player.userId == u then [bs[|bs| - 1]] else [])
  }

  lemma {:induction false} MultisetMinusTwice<T>(a: multiset<T>, b: multiset<T>, c: multiset<T>)
    ensures a - b - c == a - (b + c)
  {
    assert forall x :: (a - b - c)[x] == (a - (b + c))[x];
  }

  /**
   * A removal batch, counted: each player's list loses one occurrence of each
   * of its own broadcasts in `bs` while it still holds one, and nothing else.
   */
  lemma {:induction false} RemoveAllCounts(m: map<string, seq<Broadcast>>, bs: seq<Broadcast>, u: string)
    requires u in m
    ensures multiset(RemoveAll(m, bs)[u]) == multiset(m[u]) - multiset(OwnedBy(bs, u))
  {
    if |bs| > 0 {
      var n := |bs| - 1;
      var b := bs[n];
      var m' := RemoveAll(m, bs[..n]);
      RemoveAllCounts(m, bs[..n], u);
      assert u in m';
      if b.player.userId == u {
        assert RemoveAll(m, bs)[u] == RemoveFirst(m'[u], b);
        RemoveFirstOne(m'[u], b);
        assert OwnedBy(bs, u) == OwnedBy(bs[..n], u) + [b];
        MultisetMinusTwice(multiset(m[u]), multiset(OwnedBy(bs[..n], u)), multiset{b});
      } else {
        assert RemoveAll(m, bs)[u] == m'[u];
        assert OwnedBy(bs, u) == OwnedBy(bs[..n], u) + [];
      }
    }
  }

  /** In lists without repeats, every broadcast a removal batch took out is no longer listed, and no repeats appear. */
  lemma {:induction false} RemoveAllGone(m: map<string, seq<Broadcast>>, bs: seq<Broadcast>)
    requires NoRepeats(m)
    ensures NoRepeats(RemoveAll(m, bs)) && Gone(RemoveAll(m, bs), bs)
  {
    if |bs| > 0 {
      var n := |bs| - 1;
      var b := bs[n];
      var u := b.player.userId;
      var m' := RemoveAll(m, bs[..n]);
      RemoveAllGone(m, bs[..n]);
      assert bs[..n] + [b] == bs;
      RemoveAllSnoc(m, bs[..n], b);
      if u in m' {
        NoRepeatsRemoved(m', u, b);
        var r := m'[u := RemoveFirst(m'[u], b)];
        forall k | 0 <= k < |bs|
          ensures !Listed(r, bs[k])
        {
          if k < n {
            assert bs[k] == bs[..n][k] && !Listed(m', bs[k]);
          }
        }
      } else {
        forall k | 0 <= k < |bs|
          ensures !Listed(m', bs[k])
        {
          if k < n {
            assert bs[k] == bs[..n][k];
          }
        }
      }
    }
  }

  /** In lists without repeats, taking `b` out of its player's list leaves it unlisted, and those already gone stay gone. */
  lemma {:induction false} GoneRemoved(m: map<string, seq<Broadcast>>, gone: seq<Broadcast>, b: Broadcast)
    requires NoRepeats(m) && Gone(m, gone) && b.player.userId in m
    ensures var u := b.player.userId; Gone(m[u := RemoveFirst(m[u], b)], gone + [b])
  {
    var u := b.player.userId;
    NoRepeatsRemoved(m, u, b);
    var m' := m[u := RemoveFirst(m[u], b)];
    forall k | 0 <= k < |gone + [b]|
      ensures !Listed(m', (gone + [b])[k])
    {
      if k < |gone| {
        assert (gone + [b])[k] == gone[k] && !Listed(m, gone[k]);
      }
    }
  }

  /** A listed broadcast's id is one that some list holds. */
  lemma {:induction false} ListedHasId(m: map<string, seq<Broadcast>>, b: Broadcast)
    requires Listed(m, b)
    ensures HasId(m, b.id)
  {
    var s := m[b.player.userId];
    var k :| 0 <= k < |s| && s[k] == b;
    assert s[k].id == b.id;
  }

  /** `found[k]` is a listed broadcast with id `ids[k]`, for each of the first `|found|` ids. */
  predicate FoundFor(m: map<string, seq<Broadcast>>, ids: seq<Int32>, found: seq<Broadcast>)
  {
    |found| <= |ids| && forall k :: 0 <= k < |found| ==> found[k].id == ids[k] && Listed(m, found[k])
  }

  lemma {:induction false} FoundForSnoc(m: map<string, seq<Broadcast>>, ids: seq<Int32>, found: seq<Broadcast>, b: Broadcast)
    requires FoundFor(m, ids, found) && |found| < |ids| && b.id == ids[|found|] && Listed(m, b)
    ensures FoundFor(m, ids, found + [b])
  {
  }

  /**
   * A batch over ids that found a listed broadcast for each of its first
   * `|found|` ids and stopped at an id no list holds (or at the end) has run
   * exactly `FoundPrefix` turns, and it ran to the end exactly when every id
   * is held by some list.
   */
  lemma {:induction false} PrefixFound(m: map<string, seq<Broadcast>>, ids: seq<Int32>, found: seq<Broadcast>)
    requires FoundFor(m, ids, found)
    requires |found| < |ids| ==> !HasId(m, ids[|found|])
    ensures |found| == FoundPrefix(m, ids)
    ensures |found| == |ids| <==> forall k :: 0 <= k < |ids| ==> HasId(m, ids[k])
  {
    forall k | 0 <= k < |found|
      ensures HasId(m, ids[k])
    {
      ListedHasId(m, found[k]);
    }
  }

  /** How many leading references are non-null: the batch loops over broadcasts stop at the first null. */
  function NonNullPrefix(refs: seq<Broadcast?>): (n: nat)
    ensures n <= |refs|
    ensures forall k :: 0 <= k < n ==> refs[k] != null
    ensures n < |refs| ==> refs[n] == null
  {
    if |refs| == 0 || refs[0] == null then 0 else 1 + NonNullPrefix(refs[1..])
  }

  /** `done` is the start of `refs`: the references a batch has handled so far. */
  predicate RefsDone(refs: seq<Broadcast?>, done: seq<Broadcast>)
  {
    |done| <= |refs| && forall k :: 0 <= k < |done| ==> done[k] == refs[k]
  }

  lemma {:induction false} RefsDoneSnoc(refs: seq<Broadcast?>, done: seq<Broadcast>)
    requires RefsDone(refs, done) && |done| < |refs| && refs[|done|] != null
    ensures RefsDone(refs, done + [refs[|done|]])
  {
  }

  /**
   * A batch over references that handled a start of them and stopped at a
   * null (or at the end) has run exactly `NonNullPrefix` turns, and it ran to
   * the end exactly when no reference is null.
   */
  lemma {:induction false} NullStop(refs: seq<Broadcast?>, done: seq<Broadcast>)
    requires RefsDone(refs, done) && (|done| < |refs| ==> refs[|done|] == null)
    ensures |done| == NonNullPrefix(refs)
    ensures |done| == |refs| <==> forall k :: 0 <= k < |refs| ==> refs[k] != null
  {
  }

  /**
   * Replacing a listed broadcast by one with the same id in the same list
   * keeps the set of ids that some list holds.
   */
  lemma {:induction false} HasIdReplaced(m: map<string, seq<Broadcast>>, u: string, b: Broadcast, nb: Broadcast, x: Int32)
    requires u in m && b in m[u] && nb.id == b.id
    ensures HasId(m[u := RemoveFirst(m[u], b) + [nb]], x) <==> HasId(m, x)
  {
    var m': map<string, seq<Broadcast>> := m[u := RemoveFirst(m[u], b) + [nb]];
    var s: seq<Broadcast> := m'[u];
    if HasId(m, x) {
      var v: string, k: int :| v in m && 0 <= k < |m[v]| && m[v][k].id == x;
      if v != u {
        assert m'[v][k].id == x;
      } else if m[v][k] == b {
        assert s[|s| - 1].id == x;
      } else {
        assert m[v][k] in RemoveFirst(m[u], b);
        assert m[v][k] in s;
        var j :| 0 <= j < |s| && s[j] == m[v][k];
        assert m'[u][j].id == x;
      }
    }
    if HasId(m', x) {
      var v: string, k: int :| v in m' && 0 <= k < |m'[v]| && m'[v][k].id == x;
      if v != u {
        assert m[v][k].id == x;
      } else if k == |s| - 1 {
        var j :| 0 <= j < |m[u]| && m[u][j] == b;
        assert m[u][j].id == x;
      } else {
        assert s[k] in RemoveFirst(m[u], b);
        var j :| 0 <= j < |m[u]| && m[u][j] == s[k];
        assert m[u][j].id == x;
      }
    }
  }

  // ---------------------------------------------------------------------------
  // Replacement: EditBroadcast with a duration
  // ---------------------------------------------------------------------------

  /** List `u` with the first occurrence of `b` taken out and `nb` appended at its end. */
  function Swap(m: map<string, seq<Broadcast>>, u: string, b: Broadcast, nb: Broadcast): (r: map<string, seq<Broadcast>>)
    requires u in m
    ensures r.Keys == m.Keys
  {
    m[u := RemoveFirst(m[u], b) + [nb]]
  }

  /** Taking `b` out of list `u` and then appending `nb` to that list is `Swap`. */
  lemma {:induction false} SwapInTwo(m: map<string, seq<Broadcast>>, u: string, b: Broadcast, nb: Broadcast)
    requires u in m
    ensures var m1 := m[u := RemoveFirst(m[u], b)]; m1[u := m1[u] + [nb]] == Swap(m, u, b, nb)
  {
  }

  /**
   * The timers as a replacement batch leaves them: the names in `killed` have
   * none, every other name in `latest` has exactly one, started for the
   * broadcast `latest` maps it to with the new duration, and every other name
   * keeps the timers it had in `t0`.
   */
  ghost predicate Rescheduled(ts: seq<Timer>, t0: seq<Timer>, latest: map<int, Broadcast>, killed: set<int>, duration: UShort)
  {
    forall y :: Named(ts, y) == if y in killed then []
                                else if y in latest then [Timer(y, latest[y], latest[y].player, duration)]
                                else Named(t0, y)
  }

  lemma {:induction false} RescheduledStart(t0: seq<Timer>, duration: UShort)
    ensures Rescheduled(t0, t0, map[], {}, duration)
  {
  }

  /** Killing the timers of name `n` and starting one for `nb` under `n` makes `nb` the latest for `n`. */
  lemma {:induction false} RescheduledStep(ts: seq<Timer>, t0: seq<Timer>, latest: map<int, Broadcast>, duration: UShort, n: int, nb: Broadcast)
    requires Rescheduled(ts, t0, latest, {}, duration)
    ensures Rescheduled(KillNamed(ts, {n}) + [Timer(n, nb, nb.player, duration)], t0, latest[n := nb], {}, duration)
  {
    forall y
      ensures Named(KillNamed(ts, {n}) + [Timer(n, nb, nb.player, duration)], y)
              == if y in latest[n := nb] then [Timer(y, latest[n := nb][y], latest[n := nb][y].player, duration)] else Named(t0, y)
    {
      Restarted(ts, Timer(n, nb, nb.player, duration), y);
    }
  }

  /** Killing the timers of name `n` alone leaves `n` with none. */
  lemma {:induction false} RescheduledKill(ts: seq<Timer>, t0: seq<Timer>, latest: map<int, Broadcast>, duration: UShort, n: int)
    requires Rescheduled(ts, t0, latest, {}, duration)
    ensures Rescheduled(KillNamed(ts, {n}), t0, latest, {n}, duration)
  {
    forall y
      ensures Named(KillNamed(ts, {n}), y)
              == if y == n then [] else if y in latest then [Timer(y, latest[y], latest[y].player, duration)] else Named(t0, y)
    {
      NamedAfterKill(ts, {n}, y);
    }
  }

  /** Every broadcast `latest` maps to is listed under its player. */
  predicate AllListed(m: map<string, seq<Broadcast>>, latest: map<int, Broadcast>)
  {
    forall y :: y in latest ==> Listed(m, latest[y])
  }

  /** A swap that takes out none of the other latest broadcasts keeps them listed, and lists the new one. */
  lemma {:induction false} AllListedSwapped(m: map<string, seq<Broadcast>>, latest: map<int, Broadcast>, u: string, b: Broadcast, nb: Broadcast, n: int)
    requires u in m && nb.player.userId == u && AllListed(m, latest)
    requires forall y :: y in latest && y != n ==> latest[y] != b
    ensures AllListed(Swap(m, u, b, nb), latest[n := nb])
  {
    var m' := Swap(m, u, b, nb);
    var l := latest[n := nb];
    forall y | y in l
      ensures Listed(m', l[y])
    {
      if y == n {
        assert m'[u] == RemoveFirst(m[u], b) + [nb];
        assert m'[u][|m'[u]| - 1] == nb;
      } else {
        var x := latest[y];
        var v := x.player.userId;
        if v == u {
          var s: seq<Broadcast> := RemoveFirst(m[u], b);
          assert x in s;
          assert m'[u] == s + [nb];
        } else {
          assert m'[v] == m[v];
        }
      }
    }
  }

  /** A swap keeps `Owned`, with the new broadcast among the live ones. */
  lemma {:induction false} OwnedSwapped(m: map<string, seq<Broadcast>>, live: set<Broadcast>, u: string, b: Broadcast, nb: Broadcast)
    requires Owned(m, live) && u in m && nb.player.userId == u
    ensures Owned(Swap(m, u, b, nb), live + {nb})
  {
    var m1: map<string, seq<Broadcast>> := m[u := RemoveFirst(m[u], b)];
    OwnedRemoved(m, live, u, b);
    OwnedAppended(m1, live, nb);
    assert Bucket(m1, u) == m1[u];
    SwapInTwo(m, u, b, nb);
  }

  /** A swap keeps `Kept`, with the broadcast taken out added to those that are gone. */
  lemma {:induction false} KeptSwapped(m0: map<string, seq<Broadcast>>, m: map<string, seq<Broadcast>>, gone: seq<Broadcast>, u: string, b: Broadcast, nb: Broadcast)
    requires Kept(m0, m, gone) && u in m
    ensures Kept(m0, Swap(m, u, b, nb), gone + [b])
  {
    var m' := Swap(m, u, b, nb);
    forall v, x | v in m0 && x in m0[v] && x !in gone + [b]
      ensures v in m' && x in m'[v]
    {
      assert x !in gone && x != b;
      assert v in m && x in m[v];
      if v == u {
        var s: seq<Broadcast> := RemoveFirst(m[u], b);
        assert x in s;
        assert m'[v] == s + [nb];
      } else {
        assert m'[v] == m[v];
      }
    }
  }

  /** The lists after each `replaced[k]` was swapped for `made[k]` in its player's list, in order. */
  function Swaps(m: map<string, seq<Broadcast>>, replaced: seq<Broadcast>, made: seq<Broadcast>): (r: map<string, seq<Broadcast>>)
    requires |replaced| == |made|
    ensures r.Keys == m.Keys
  {
    if |replaced| == 0 then m
    else
      var n := |replaced| - 1;
      var m' := Swaps(m, replaced[..n], made[..n]);
      var u := replaced[n].player.userId;
      if u in m' then Swap(m', u, replaced[n], made[n]) else m'
  }

  lemma {:induction false} SwapsSnoc(m: map<string, seq<Broadcast>>, replaced: seq<Broadcast>, made: seq<Broadcast>, b: Broadcast, nb: Broadcast)
    requires |replaced| == |made| && b.player.userId in Swaps(m, replaced, made)
    ensures Swaps(m, replaced + [b], made + [nb]) == Swap(Swaps(m, replaced, made), b.player.userId, b, nb)
  {
    assert (replaced + [b])[..|replaced|] == replaced && (made + [nb])[..|made|] == made;
  }

  /**
   * A swap of `b` for a broadcast that is neither `b` nor one of those gone
   * takes `b` out of its list for good, keeps the others gone, and keeps
   * `NoRepeats` when the new broadcast was not in that list.
   */
  lemma {:induction false} GoneSwapped(m: map<string, seq<Broadcast>>, gone: seq<Broadcast>, b: Broadcast, nb: Broadcast)
    requires NoRepeats(m) && Gone(m, gone) && b.player.userId in m
    requires nb.player == b.player && nb != b && nb !in gone && nb !in m[b.player.userId]
    ensures var m' := Swap(m, b.player.userId, b, nb); NoRepeats(m') && Gone(m', gone + [b])
  {
    var u := b.player.userId;
    var m1: map<string, seq<Broadcast>> := m[u := RemoveFirst(m[u], b)];
    NoRepeatsRemoved(m, u, b);
    NoRepeatsAppended(m1, nb);
    assert Bucket(m1, u) == m1[u];
    SwapInTwo(m, u, b, nb);
    var m' := Swap(m, u, b, nb);
    assert m'[u] == RemoveFirst(m[u], b) + [nb];
    forall k | 0 <= k < |gone + [b]|
      ensures !Listed(m', (gone + [b])[k])
    {
      var x := (gone + [b])[k];
      if k < |gone| && x.player.userId == u {
        assert x == gone[k] && x !in m[u] && x != nb;
      }
    }
  }

  /**
   * The lists and timers a replacement batch has reached from lists `b0` and
   * timers `t0`: the lists are `b0` with each replaced broadcast swapped for
   * the new one made for it; every broadcast listed in `b0` and not in
   * `replaced` is still listed, and no replaced one is; the timers of the
   * replaced ids are rescheduled to the latest new broadcast of each id,
   * which is listed, and those in `killed` are gone.
   */
  ghost predicate Rebuilt(b0: map<string, seq<Broadcast>>, m: map<string, seq<Broadcast>>, t0: seq<Timer>, ts: seq<Timer>,
                    replaced: seq<Broadcast>, made: seq<Broadcast>, latest: map<int, Broadcast>, killed: set<int>, duration: UShort)
  {
    |made| == |replaced| && m == Swaps(b0, replaced, made) && Gone(m, replaced)
    && m.Keys == b0.Keys && Kept(b0, m, replaced) && AllListed(m, latest)
    && latest.Keys == Ids(replaced) && Rescheduled(ts, t0, latest, killed, duration)
  }

  /** One replacement, `b` swapped for `nb` in its player's list and `nb` started under `b`'s id, keeps `Rebuilt`. */
  lemma {:induction false} RebuiltSwapped(b0: map<string, seq<Broadcast>>, m: map<string, seq<Broadcast>>, t0: seq<Timer>, ts: seq<Timer>,
                       replaced: seq<Broadcast>, made: seq<Broadcast>, latest: map<int, Broadcast>, duration: UShort, b: Broadcast, nb: Broadcast)
    requires Rebuilt(b0, m, t0, ts, replaced, made, latest, {}, duration) && NoRepeats(m)
    requires b.player.userId in m && nb.player == b.player
    requires nb != b && nb !in replaced && nb !in m[b.player.userId]
    requires forall y :: y in latest && y != b.id ==> latest[y] != b
    ensures Rebuilt(b0, Swap(m, b.player.userId, b, nb), t0, KillNamed(ts, {b.id}) + [Timer(b.id, nb, b.player, duration)],
                    replaced + [b], made + [nb], latest[b.id := nb], {}, duration)
  {
    var u := b.player.userId;
    SwapsSnoc(b0, replaced, made, b, nb);
    GoneSwapped(m, replaced, b, nb);
    AllListedSwapped(m, latest, u, b, nb, b.id);
    KeptSwapped(b0, m, replaced, u, b, nb);
    RescheduledStep(ts, t0, latest, duration, b.id, nb);
    IdsSnoc(replaced, b);
  }

  /**
   * `made[k]` has the id and duration the batch gave the replacement of
   * `replaced[k]`: the old id and the new duration, or, with `swapped`, the
   * other way round, as the `Broadcast[]` form of `EditBroadcast` passes them
   * to the constructor.
   */
  predicate Renumbered(replaced: seq<Broadcast>, made: seq<Broadcast>, duration: UShort, swapped: bool)
  {
    |made| == |replaced|
    && forall k :: 0 <= k < |made| ==>
         if swapped then made[k].id == duration && made[k].duration == replaced[k].id
         else made[k].id == replaced[k].id && made[k].duration == duration
  }

  lemma {:induction false} RenumberedStep(replaced: seq<Broadcast>, made: seq<Broadcast>, duration: UShort, swapped: bool, b: Broadcast, nb: Broadcast)
    requires Renumbered(replaced, made, duration, swapped)
    requires if swapped then nb.id == duration && nb.duration == b.id else nb.id == b.id && nb.duration == duration
    ensures Renumbered(replaced + [b], made + [nb], duration, swapped)
  {
  }

  /** `made[k]` succeeds `replaced[k]`: it is shown to the same player with the same priority. */
  ghost predicate Successors(replaced: seq<Broadcast>, made: seq<Broadcast>)
    reads replaced, made
  {
    |made| == |replaced|
    && forall k :: 0 <= k < |made| ==> made[k].player == replaced[k].player && made[k].priority == replaced[k].priority
  }

  /**
   * Every broadcast of `made` has this text and this tag: the new text, and for
   * `EditBroadcast(text, duration, tag)` the tag (the other two forms pass
   * none, so it is "").
   */
  ghost predicate Labelled(made: seq<Broadcast>, text: string, tag: string)
    reads made
  {
    forall k :: 0 <= k < |made| ==> made[k].text == text && made[k].tag == tag
  }

  /** One more replacement for the same player, with the same priority, the text and the tag, keeps `Successors` and `Labelled`. */
  lemma {:induction false} SucceededSnoc(replaced: seq<Broadcast>, made: seq<Broadcast>, b: Broadcast, nb: Broadcast, text: string, tag: string)
    requires Successors(replaced, made) && Labelled(made, text, tag)
    requires nb.player == b.player && nb.priority == b.priority && nb.text == text && nb.tag == tag
    ensures Successors(replaced + [b], made + [nb]) && Labelled(made + [nb], text, tag)
  {
  }

  /** None of the latest new broadcasts is one of `bs`, the broadcasts a batch was given or collected. */
  predicate Apart(latest: map<int, Broadcast>, bs: seq<Broadcast?>)
  {
    forall y :: y in latest ==> latest[y] !in bs
  }

  lemma {:induction false} ApartSnoc(latest: map<int, Broadcast>, bs: seq<Broadcast?>, n: int, nb: Broadcast)
    requires Apart(latest, bs) && nb !in bs
    ensures Apart(latest[n := nb], bs)
  {
  }

  /** The same ids are held by some list of `m` as by some list of `m0`. */
  predicate SameIds(m: map<string, seq<Broadcast>>, m0: map<string, seq<Broadcast>>)
  {
    forall x :: HasId(m, x) <==> HasId(m0, x)
  }

  /** Swapping a listed broadcast for one with the same id keeps the ids that some list holds. */
  lemma {:induction false} SameIdsSwapped(m: map<string, seq<Broadcast>>, m0: map<string, seq<Broadcast>>, u: string, b: Broadcast, nb: Broadcast)
    requires SameIds(m, m0) && u in m && b in m[u] && nb.id == b.id
    ensures SameIds(Swap(m, u, b, nb), m0)
  {
    forall x
      ensures HasId(Swap(m, u, b, nb), x) <==> HasId(m0, x)
    {
      HasIdReplaced(m, u, b, nb, x);
    }
  }

  /** `done[k]` has id `ids[k]`, which some list of `m` holds, for each of the first `|done|` ids. */
  predicate Held(m: map<string, seq<Broadcast>>, ids: seq<Int32>, done: seq<Broadcast>)
  {
    |done| <= |ids| && forall k :: 0 <= k < |done| ==> done[k].id == ids[k] && HasId(m, ids[k])
  }

  lemma {:induction false} HeldSnoc(m: map<string, seq<Broadcast>>, ids: seq<Int32>, done: seq<Broadcast>, b: Broadcast)
    requires Held(m, ids, done) && |done| < |ids| && b.id == ids[|done|] && HasId(m, b.id)
    ensures Held(m, ids, done + [b])
  {
  }

  /**
   * A batch over ids that found an id some list holds for each of its first
   * `n` ids and stopped at one none holds (or at the end) ran exactly
   * `FoundPrefix` turns, and ran to the end exactly when every id is held.
   */
  lemma {:induction false} PrefixHeld(m: map<string, seq<Broadcast>>, ids: seq<Int32>, n: nat)
    requires n <= |ids| && forall k :: 0 <= k < n ==> HasId(m, ids[k])
    requires n < |ids| ==> !HasId(m, ids[n])
    ensures n == FoundPrefix(m, ids)
    ensures n == |ids| <==> forall k :: 0 <= k < |ids| ==> HasId(m, ids[k])
  {
  }

  // ---------------------------------------------------------------------------
  // Setters
  // ---------------------------------------------------------------------------

  /** The settable part of a broadcast that the manager writes: `Text`, `Priority` and `Tag`. */
  datatype Fields = Fields(text: string, priority: Byte, tag: string)

  /** One setter with its new value. */
  datatype Change = SetText(text: string) | SetPriority(priority: Byte) | SetTag(tag: string)

  /** The fields after the setter has run. */
  function Apply(f: Fields, c: Change): Fields
  {
    match c
    case SetText(t) => f.(text := t)
    case SetPriority(p) => f.(priority := p)
    case SetTag(t) => f.(tag := t)
  }

  /** Running the same setter twice is running it once, and it touches its own field only. */
  lemma {:induction false} ApplyOnce(f: Fields, c: Change)
    ensures Apply(Apply(f, c), c) == Apply(f, c)
    ensures !c.SetText? ==> Apply(f, c).text == f.text
    ensures !c.SetPriority? ==> Apply(f, c).priority == f.priority
    ensures !c.SetTag? ==> Apply(f, c).tag == f.tag
  {
  }

  function FieldsOf(b: Broadcast): Fields
    reads b
  {
    Fields(b.text, b.priority, b.tag)
  }

  /** The settable fields of each broadcast of `s`, as they are now. */
  ghost function Snapshot(s: set<Broadcast>): map<Broadcast, Fields>
    reads s
  {
    map b | b in s :: FieldsOf(b)
  }

  /** The non-null broadcasts of a `params Broadcast[]` argument. */
  ghost function Refs(refs: seq<Broadcast?>): set<Broadcast>
  {
    set b: Broadcast | b in refs
  }

  /** Every broadcast of the snapshot `f0` has had `c` applied if it is in `edited`, and is as in `f0` otherwise. */
  ghost predicate UpdatedFrom(f0: map<Broadcast, Fields>, c: Change, edited: seq<Broadcast>)
    reads f0.Keys
  {
    forall b :: b in f0 ==> FieldsOf(b) == if b in edited then Apply(f0[b], c) else f0[b]
  }

  /** What the renderer reads from a list of broadcasts. */
  function View(bs: seq<Broadcast>): (r: seq<Entry>)
    reads bs
  {
    if |bs| == 0 then [] else [Entry(bs[0].id, bs[0].priority, bs[0].text)] + View(bs[1..])
  }

  // ---------------------------------------------------------------------------
  // Queries over the lists
  // ---------------------------------------------------------------------------

  /** The `Where` filters the manager runs over all listed broadcasts: by id (`ids.Contains`) or by tag. */
  datatype Query = ById(ids: seq<Int32>) | ByTag(tag: string)

  predicate Matches(b: Broadcast, q: Query)
    reads b
  {
    match q
    case ById(ids) => b.id in ids
    case ByTag(t) => b.tag == t
  }

  /** `Where(q)` over one list: the broadcasts that match, in list order. */
  function Filter(bs: seq<Broadcast>, q: Query): (r: seq<Broadcast>)
    reads bs
    ensures forall k :: 0 <= k < |r| ==> r[k] in bs && Matches(r[k], q)
    ensures forall k :: 0 <= k < |bs| && Matches(bs[k], q) ==> bs[k] in r
    ensures |r| <= |bs|
  {
    if |bs| == 0 then []
    else (if Matches(bs[0], q) then [bs[0]] else []) + Filter(bs[1..], q)
  }

  /** `Where` keeps list order: filtering a concatenation filters each part. */
  lemma {:induction false} FilterAppend(a: seq<Broadcast>, b: seq<Broadcast>, q: Query)
    ensures Filter(a + b, q) == Filter(a, q) + Filter(b, q)
    decreases |a|
  {
    if |a| == 0 {
      assert a + b == b;
    } else {
      assert (a + b)[0] == a[0];
      assert (a + b)[1..] == a[1..] + b;
      FilterAppend(a[1..], b, q);
    }
  }

  /** `Where` keeps every match as often as the list holds it, and nothing else. */
  lemma {:induction false} FilterCounts(bs: seq<Broadcast>, q: Query, x: Broadcast)
    ensures multiset(Filter(bs, q))[x] == if Matches(x, q) then multiset(bs)[x] else 0
    decreases |bs|
  {
    if |bs| > 0 {
      FilterCounts(bs[1..], q, x);
      assert bs == [bs[0]] + bs[1..];
    }
  }

  // ---------------------------------------------------------------------------
  // Clearing
  // ---------------------------------------------------------------------------

  /** Every player keeps a list, and every list is empty. */
  function Emptied(m: map<string, seq<Broadcast>>): (r: map<string, seq<Broadcast>>)
    ensures r.Keys == m.Keys
  {
    map u | u in m :: []
  }

  /** What the players in `s` were last sent is an empty list; everybody else's render is as in `r`. */
  function Blanked(r: map<string, seq<Entry>>, s: set<string>): (r': map<string, seq<Entry>>)
    ensures r'.Keys == r.Keys + s
  {
    map u | u in r.Keys + s :: if u in s then [] else r[u]
  }

  /**
   * After the clearing kill loop with bound `n`, which kills the names from
   * 0 while below `n`, a name in that range has no timer left and every other
   * name keeps its timers.
   */
  lemma {:induction false} NamedAfterKillBelow(ts: seq<Timer>, n: int, x: int)
    ensures Named(KillBelow(ts, n), x) == if 0 <= x < n then [] else Named(ts, x)
  {
    if |ts| > 0 {
      var head := if 0 <= ts[0].name < n then [] else [ts[0]];
      NamedAppend(head, KillBelow(ts[1..], n), x);
      NamedAfterKillBelow(ts[1..], n, x);
    }
  }

  /**
   * The kill loop of `ClearAllBroadcasts` and `RestartBroadcasts` as written
   * stops below the counter `Id`, and `Id` is the id of the newest broadcast:
   * every timer of the newest broadcast is still pending after it.
   */
  lemma {:induction false} NewestSurvivesClear(ts: seq<Timer>, id: Int32)
    ensures Named(KillBelow(ts, id), id) == Named(ts, id)
  {
    NamedAfterKillBelow(ts, id, id);
  }

  /** The timers the clearing operations leave with the kill loop bound one higher, so that it reaches `Id`. */
  function Cleared(ts: seq<Timer>, id: Int32): seq<Timer>
  {
    KillBelow(ts, id + 1)
  }

  /**
   * The corrected kill loop kills every name from 0 to `Id`: no timer of any
   * id up to the newest is left, and every other name keeps its timers.
   */
  lemma {:induction false} ClearedThroughNewest(ts: seq<Timer>, id: Int32)
    ensures forall x :: 0 <= x <= id ==> Named(Cleared(ts, id), x) == []
    ensures forall x :: x < 0 || id < x ==> Named(Cleared(ts, id), x) == Named(ts, x)
  {
    forall x
      ensures Named(Cleared(ts, id), x) == if 0 <= x <= id then [] else Named(ts, x)
    {
      NamedAfterKillBelow(ts, id + 1, x);
    }
  }
}
