/**
 * The broadcast manager: per-player lists of broadcasts keyed by user id, a
 * global id counter, the pending expiry coroutines (named "MBroadcast" + id),
 * and the text last sent to each player.
 *
 * A coroutine started with `Timing.RunCoroutine` runs at once up to its first
 * `yield`, so registering a broadcast happens inside the adding call; the
 * part after the wait is the separate step `Expire`. The name
 * "MBroadcast" + n is represented by the integer n (the prefix is fixed, so
 * two names are equal exactly when their numbers are).
 */
module MultiBroadcastApi {
  import opened NetTypes
  import opened Optional
  import opened Entity
  import opened Rendering
  import opened Bookkeeping

  // ---------------------------------------------------------------------------
  // The manager
  // ---------------------------------------------------------------------------

  class Manager {
    /** The configured order; Descending when the library runs as a dependency. */
    const order: BroadcastOrder
    /** `PlayerBroadcasts`: each player's broadcasts, by user id. */
    var buckets: map<string, seq<Broadcast>>
    /** `Id`: the id given to the broadcast added last. */
    var id: Int32
    /** The pending expiry coroutines, oldest first. */
    var timers: seq<Timer>
    /**
     * What each player was last sent, as the renderer read it: the player's
     * broadcasts at that moment. The text on the player's screen is
     * `Render(rendered[u], order)` (see `Screen`).
     */
    var rendered: map<string, seq<Entry>>

    /** Every broadcast the manager has put in a list: a superset of those listed now. */
    ghost var live: set<Broadcast>

    /**
     * Each listed broadcast is in `live` and sits in the list of its own
     * player, once: the manager only ever appends a broadcast it has just
     * created, to the list keyed by its player's user id.
     */
    ghost predicate Valid()
      reads this`buckets, this`live
    {
      Owned(buckets, live) && NoRepeats(buckets)
    }

    /** The text on the screen of the player with this user id, if it was ever sent one. */
    function Screen(u: string): (r: Option<string>)
      reads this`rendered
      ensures r.Some? <==> u in rendered
    {
      if u in rendered then Some(Render(rendered[u], order)) else None
    }

    /** `{u}` if player `u` has a list, otherwise nothing: the players `RefreshBroadcast(u)` sends to. */
    function Present(u: string): (r: set<string>)
      reads this`buckets
      ensures r <= buckets.Keys && (u in buckets <==> r == {u})
    {
      if u in buckets then {u} else {}
    }

    /** A list whose broadcasts are all unchanged reads as before. */
    twostate lemma ViewFrame(bs: seq<Broadcast>)
      requires forall k :: 0 <= k < |bs| ==> unchanged(bs[k])
      ensures View(bs) == old(View(bs))
    {
    }

    /**
     * A step that changed no list but `u`'s and no broadcast of another player
     * leaves the view of every other list of `touched` as it was.
     */
    twostate lemma OthersViewed(new touched: set<string>, new u: string)
      requires old(Valid()) && touched <= old(buckets).Keys <= buckets.Keys
      requires forall v :: v in old(buckets) && v != u ==> buckets[v] == old(buckets[v])
      requires forall b :: b in old(live) && b.player.userId != u ==> unchanged(b)
      ensures forall v :: v in touched && v != u ==> View(buckets[v]) == old(View(buckets[v]))
    {
      forall v | v in touched && v != u
        ensures View(buckets[v]) == old(View(buckets[v]))
      {
        var bs := buckets[v];
        forall k | 0 <= k < |bs|
          ensures unchanged(bs[k])
        {
          assert bs[k] in old(buckets[v]);
          assert bs[k] in old(live) && bs[k].player.userId == v;
        }
        ViewFrame(bs);
      }
    }

    /**
     * A step that re-rendered player `u` last, dropped no list, and changed no
     * other player's list and no broadcast of another player, extends `Shown`
     * by `u` (if `u` has a list).
     */
    twostate lemma ShownExtend(new before: map<string, seq<Entry>>, new touched: set<string>, new u: string)
      requires old(Valid()) && old(Shown(before, touched))
      requires Valid() && Shown(old(rendered), Present(u))
      requires old(buckets).Keys <= buckets.Keys
      requires forall v :: v in old(buckets) && v != u ==> buckets[v] == old(buckets[v])
      requires forall b :: b in old(live) && b.player.userId != u ==> unchanged(b)
      ensures Shown(before, touched + Present(u))
    {
      OthersViewed(touched, u);
      var p := Present(u);
      var t := touched + p;
      assert rendered.Keys == before.Keys + t;
      forall v | v in rendered
        ensures rendered[v] == if v in t then View(buckets[v]) else before[v]
      {
        if v in p {
          assert rendered[v] == View(buckets[v]);
        } else {
          assert rendered[v] == old(rendered[v]);
          if v in touched {
            assert old(rendered[v]) == old(View(buckets[v]));
          }
        }
      }
    }

    /** The players in `touched` were last sent their current list; everybody else's text is as in `before`. */
    ghost predicate Shown(before: map<string, seq<Entry>>, touched: set<string>)
      requires Valid()
      reads this`buckets, this`rendered, this`live, live
    {
      touched <= buckets.Keys
      && rendered.Keys == before.Keys + touched
      && forall u :: u in rendered ==> rendered[u] == if u in touched then View(buckets[u]) else before[u]
    }

    constructor (order: BroadcastOrder)
      ensures this.order == order
      ensures buckets == map[] && id == 0 && timers == [] && rendered == map[]
      ensures Valid()
    {
      this.order := order;
      buckets := map[];
      id := 0;
      timers := [];
      rendered := map[];
      live := {};
    }

    /** `RefreshBroadcast`: sends the player its sorted list, if it has one; otherwise nothing happens. */
    method Refresh(player: Player)
      requires Valid()
      modifies this`rendered
      ensures Shown(old(rendered), Present(player.userId))
    {
      var u := player.userId;
      if u in buckets {
        rendered := rendered[u := View(buckets[u])];
        assert Shown(old(rendered), Present(u));
      } else {
        assert Shown(old(rendered), Present(u));
      }
    }

    /** `KillCoroutines("MBroadcast" + name)`: every pending timer with that name is dropped. */
    method Kill(name: int)
      modifies this`timers
      ensures timers == KillNamed(old(timers), {name})
    {
      timers := KillNamed(timers, {name});
    }

    /**
     * `RunCoroutine(AddPlayerBroadcastCoroutine(b, duration), "MBroadcast" + name)`
     * up to its wait: the timer is pending, `b` is appended to its player's
     * list (created if missing) and that player is re-rendered. Every
     * broadcast started this way has just been created.
     */
    method Launch(b: Broadcast, name: int, duration: UShort)
      requires Valid() && b !in live
      modifies this`timers, this`buckets, this`rendered, this`live
      ensures Valid()
      ensures timers == old(timers) + [Timer(name, b, b.player, duration)]
      ensures buckets == old(buckets)[b.player.userId := Bucket(old(buckets), b.player.userId) + [b]]
      ensures live == old(live) + {b}
      ensures Shown(old(rendered), {b.player.userId})
    {
      timers := timers + [Timer(name, b, b.player, duration)];
      var u := b.player.userId;
      OwnedAppended(buckets, live, b);
      NoRepeatsAppended(buckets, b);
      buckets := buckets[u := Bucket(buckets, u) + [b]];
      live := live + {b};
      assert Owned(buckets, live);
      Refresh(b.player);
    }

    /**
     * The coroutine of timer `k` after its wait: the timer is gone; its
     * broadcast leaves the captured player's list only if that list still
     * exists and still holds that very object; the player is re-rendered
     * either way.
     */
    method Expire(k: nat)
      requires Valid() && k < |timers|
      modifies this`timers, this`buckets, this`rendered
      ensures Valid()
      ensures timers == old(timers[..k] + timers[k + 1..])
      ensures var t := old(timers[k]);
              buckets == if t.owner.userId in old(buckets) && t.target in old(buckets[t.owner.userId])
                         then old(buckets)[t.owner.userId := RemoveFirst(old(buckets[t.owner.userId]), t.target)]
                         else old(buckets)
      ensures var u := old(timers[k]).owner.userId;
              Shown(old(rendered), Present(u))
    {
      var t := timers[k];
      timers := timers[..k] + timers[k + 1..];
      var u := t.owner.userId;
      if u in buckets && t.target in buckets[u] {
        NoRepeatsRemoved(buckets, u, t.target);
        buckets := buckets[u := RemoveFirst(buckets[u], t.target)];
      }
      Refresh(t.owner);
    }

    /**
     * The step both add operations share once the player and the duration are
     * accepted: the counter is incremented, a broadcast with the new id is
     * created, its timer is started under that id and its player re-rendered.
     * `before` and `touched` carry what is known about earlier renders.
     */
    method AddNew(player: Player, duration: UShort, text: string, priority: Byte, tag: string,
               ghost before: map<string, seq<Entry>>, ghost touched: set<string>)
      returns (b: Broadcast)
      requires Valid() && Shown(before, touched)
      modifies this`id, this`timers, this`buckets, this`rendered, this`live
      ensures Valid()
      ensures fresh(b) && id == Inc32(old(id))
      ensures b.id == id && b.player == player && b.text == text && b.duration == duration
      ensures b.priority == priority && b.tag == tag
      ensures timers == old(timers) + [Timer(id, b, player, duration)]
      ensures buckets == old(buckets)[player.userId := Bucket(old(buckets), player.userId) + [b]]
      ensures Shown(before, touched + {player.userId})
    {
      id := Inc32(id);
      b := new Broadcast(player, text, id, duration, priority, tag);
      Launch(b, id, duration);
      ShownExtend(before, touched, player.userId);
    }

    /**
     * `AddPlayerBroadcast`: a missing or NPC player, or a duration of 0 or
     * above 300, gets nothing and changes nothing; otherwise the counter is
     * incremented, a broadcast with that id is created for the player, its
     * timer is started under that id and the player is re-rendered.
     */
    method AddPlayerBroadcast(player: Player?, duration: UShort, text: string, priority: Byte := 0, tag: string := "")
      returns (b: Broadcast?)
      requires Valid()
      modifies this`id, this`timers, this`buckets, this`rendered, this`live
      ensures Valid()
      ensures player == null || player.isNpc || duration == 0 || duration > MAX_DURATION ==>
                b == null && buckets == old(buckets) && id == old(id)
                && timers == old(timers) && rendered == old(rendered)
      ensures player != null && !player.isNpc && 0 < duration <= MAX_DURATION ==>
                b != null && fresh(b) && id == Inc32(old(id))
                && b.id == id && b.player == player && b.text == text && b.duration == duration
                && b.priority == priority && b.tag == tag
                && timers == old(timers) + [Timer(id, b, player, duration)]
                && buckets == old(buckets)[player.userId := Bucket(old(buckets), player.userId) + [b]]
                && Shown(old(rendered), {player.userId})
    {
      if player == null || player.isNpc || duration == 0 || duration > MAX_DURATION {
        return null;
      }
      b := AddNew(player, duration, text, priority, tag, rendered, {});
    }

    /** The state `AddMapBroadcast` has reached once it has served the players `ps` with the broadcasts `bs`. */
    ghost predicate Progress(b0: map<string, seq<Broadcast>>, t0: seq<Timer>, r0: map<string, seq<Entry>>, x0: Int32,
                             bs: seq<Broadcast>, ps: seq<Player>, text: string, duration: UShort, priority: Byte, tag: string)
      reads this`id, this`timers, this`buckets, this`rendered, this`live, live, bs
    {
      Valid()
      && Made(bs, ps, text, duration, priority, tag)
      && Numbered(bs, x0) && id == IncN(x0, |bs|)
      && timers == t0 + TimersFor(bs, ps, duration)
      && buckets == AppendAll(b0, bs, ps)
      && Shown(r0, UserIds(ps))
    }

    /** Before the first player, `AddMapBroadcast` has served nobody and changed nothing. */
    ghost method StartProgress(text: string, duration: UShort, priority: Byte, tag: string)
      requires Valid()
      ensures Progress(buckets, timers, rendered, id, [], [], text, duration, priority, tag)
    {
      assert timers + [] == timers;
    }

    /** `AddNew` for one more player of `AddMapBroadcast`'s loop. */
    method AddFor(p: Player, duration: UShort, text: string, priority: Byte, tag: string,
                  ghost b0: map<string, seq<Broadcast>>, ghost t0: seq<Timer>, ghost r0: map<string, seq<Entry>>, ghost x0: Int32,
                  bs: seq<Broadcast>, ghost ps: seq<Player>)
      returns (b: Broadcast)
      requires Progress(b0, t0, r0, x0, bs, ps, text, duration, priority, tag)
      modifies this`id, this`timers, this`buckets, this`rendered, this`live
      ensures Progress(b0, t0, r0, x0, bs + [b], ps + [p], text, duration, priority, tag)
      ensures fresh(b)
    {
      b := AddNew(p, duration, text, priority, tag, r0, UserIds(ps));
      assert Made(bs, ps, text, duration, priority, tag);
      MadeSnoc(bs, ps, b, p, text, duration, priority, tag);
      NumberedSnoc(bs, b, x0);
      UserIdsSnoc(ps, p);
      TimersForSnoc(t0, bs, ps, b, p, duration);
      AppendAllSnoc(b0, bs, ps, b, p);
    }

    /**
     * One turn of `AddMapBroadcast`'s loop: a null or NPC player is skipped;
     * any other player gets a new broadcast as in `AddNew`.
     */
    method AddStep(players: seq<Player?>, i: nat, duration: UShort, text: string, priority: Byte, tag: string,
                   ghost b0: map<string, seq<Broadcast>>, ghost t0: seq<Timer>, ghost r0: map<string, seq<Entry>>, ghost x0: Int32,
                   bs: seq<Broadcast>, ghost ps: seq<Player>)
      returns (bs': seq<Broadcast>, ghost ps': seq<Player>)
      requires i < |players| && ps == Eligible(players[..i])
      requires Progress(b0, t0, r0, x0, bs, ps, text, duration, priority, tag)
      modifies this`id, this`timers, this`buckets, this`rendered, this`live
      ensures Progress(b0, t0, r0, x0, bs', ps', text, duration, priority, tag)
      ensures ps' == Eligible(players[..i + 1])
      ensures forall b :: b in bs' ==> b in bs || fresh(b)
    {
      var player := players[i];
      EligibleSnoc(players, i);
      if player == null || player.isNpc {
        return bs, ps;
      }
      var b := AddFor(player, duration, text, priority, tag, b0, t0, r0, x0, bs, ps);
      bs', ps' := bs + [b], ps + [player];
    }

    /** The loop over `Player.List` of `AddMapBroadcast`, once the duration is accepted. */
    method AddToEach(players: seq<Player?>, duration: UShort, text: string, priority: Byte, tag: string)
      returns (bs: seq<Broadcast>)
      requires Valid()
      modifies this`id, this`timers, this`buckets, this`rendered, this`live
      ensures Valid() && forall b :: b in bs ==> fresh(b)
      ensures Progress(old(buckets), old(timers), old(rendered), old(id), bs, Eligible(players), text, duration, priority, tag)
    {
      bs := [];
      ghost var ps: seq<Player> := [];
      StartProgress(text, duration, priority, tag);
      for i := 0 to |players|
        invariant ps == Eligible(players[..i])
        invariant forall b :: b in bs ==> fresh(b)
        invariant Progress(old(buckets), old(timers), old(rendered), old(id), bs, ps, text, duration, priority, tag)
      {
        bs, ps := AddStep(players, i, duration, text, priority, tag, old(buckets), old(timers), old(rendered), old(id), bs, ps);
      }
      assert players[..|players|] == players;
    }

    /**
     * `AddMapBroadcast`: a duration of 0 or above 300 gives null and changes
     * nothing; otherwise every non-null, non-NPC player of `players`
     * (`Player.List`), in order, gets a new broadcast numbered by the next
     * counter value, with its own timer, and is re-rendered.
     */
    method AddMapBroadcast(players: seq<Player?>, duration: UShort, text: string, priority: Byte := 0, tag: string := "")
      returns (r: Option<seq<Broadcast>>)
      requires Valid()
      modifies this`id, this`timers, this`buckets, this`rendered, this`live
      ensures Valid()
      ensures duration == 0 || duration > MAX_DURATION ==>
                r.None? && buckets == old(buckets) && id == old(id)
                && timers == old(timers) && rendered == old(rendered)
      ensures 0 < duration <= MAX_DURATION ==>
                r.Some? && (forall b :: b in r.value ==> fresh(b))
                && Progress(old(buckets), old(timers), old(rendered), old(id), r.value, Eligible(players), text, duration, priority, tag)
    {
      if duration == 0 || duration > MAX_DURATION {
        return None;
      }
      var bs := AddToEach(players, duration, text, priority, tag);
      return Some(bs);
    }

    // -------------------------------------------------------------------------
    // Queries
    // -------------------------------------------------------------------------

    /**
     * `GetBroadcast(int id)`: the first broadcast with that id in the first
     * list (in dictionary order, which is left open) that holds one, or null.
     */
    method GetBroadcast(x: Int32) returns (b: Broadcast?)
      requires Valid()
      ensures b == null <==> !HasId(buckets, x)
      ensures b != null ==> b.id == x && Listed(buckets, b)
                            && var s := buckets[b.player.userId];
                               FindId(s, x).Some? && s[FindId(s, x).value] == b
    {
      var keys := buckets.Keys;
      while keys != {}
        invariant keys <= buckets.Keys
        invariant forall u :: u in buckets && u !in keys ==> FindId(buckets[u], x).None?
        decreases keys
      {
        var u :| u in keys;
        var found := FindId(buckets[u], x);
        if found.Some? {
          b := buckets[u][found.value];
          return;
        }
        keys := keys - {u};
      }
      b := null;
    }

    /**
     * `Values.SelectMany(...).Where(q)`: the listed broadcasts that match, one
     * list after another in dictionary order (left open).
     */
    method Collect(q: Query) returns (r: seq<Broadcast>)
      requires Valid()
      ensures forall b :: b in r <==> Listed(buckets, b) && Matches(b, q)
    {
      var keys := buckets.Keys;
      r := [];
      while keys != {}
        invariant keys <= buckets.Keys
        invariant forall b :: b in r <==> Listed(buckets, b) && b.player.userId !in keys && Matches(b, q)
        decreases keys
      {
        var u :| u in keys;
        var found := Filter(buckets[u], q);
        r := r + found;
        keys := keys - {u};
      }
    }

    /** `GetBroadcast(params int[] ids)`: every listed broadcast whose id is one of `ids`. */
    method GetBroadcasts(ids: seq<Int32>) returns (r: seq<Broadcast>)
      requires Valid()
      ensures forall b :: b in r <==> Listed(buckets, b) && b.id in ids
    {
      r := Collect(ById(ids));
    }

    /**
     * `GetPlayerBroadcasts`: a copy of the player's list, or null when the
     * player has none; every broadcast in it belongs to that player.
     */
    function PlayerBroadcasts(player: Player): (r: Option<seq<Broadcast>>)
      requires Valid()
      reads this`buckets, this`live
      ensures r.Some? <==> player.userId in buckets
      ensures r.Some? ==> forall k :: 0 <= k < |r.value| ==> r.value[k].player.userId == player.userId
    {
      if player.userId in buckets then Some(buckets[player.userId]) else None
    }

    // -------------------------------------------------------------------------
    // Setters: EditBroadcast without a duration, SetPriority, SetTag
    // -------------------------------------------------------------------------

    /**
     * A batch of setter calls has reached this state: every broadcast of the
     * snapshot `f0` has `c` applied exactly if it is in `edited`, and the
     * players of the edited broadcasts that have a list were re-rendered.
     */
    ghost predicate Edited(f0: map<Broadcast, Fields>, r0: map<string, seq<Entry>>, c: Change, edited: seq<Broadcast>)
      requires Valid()
      reads this`buckets, this`rendered, this`live, live, f0.Keys
    {
      UpdatedFrom(f0, c, edited) && Shown(r0, Owners(edited) * buckets.Keys)
    }

    /** One setter call (`broadcast.Text = text` and the like) followed by `RefreshBroadcast(broadcast.Player)`. */
    method UpdateOne(b: Broadcast, c: Change, ghost before: map<string, seq<Entry>>, ghost touched: set<string>)
      requires Valid() && Shown(before, touched)
      modifies b, this`rendered
      ensures Valid() && FieldsOf(b) == Apply(old(FieldsOf(b)), c)
      ensures Shown(before, touched + Present(b.player.userId))
    {
      match c {
        case SetText(t) => b.text := t;
        case SetPriority(p) => b.priority := p;
        case SetTag(t) => b.tag := t;
      }
      Refresh(b.player);
      ShownExtend(before, touched, b.player.userId);
    }

    /** One turn of a setter batch: `b` is edited and its player re-rendered. */
    method EditStep(b: Broadcast, c: Change, ghost f0: map<Broadcast, Fields>, ghost r0: map<string, seq<Entry>>,
                    ghost edited: seq<Broadcast>)
      requires Valid() && b in f0 && Edited(f0, r0, c, edited)
      modifies b, this`rendered
      ensures Valid() && Edited(f0, r0, c, edited + [b])
    {
      ghost var touched := Owners(edited) * buckets.Keys;
      UpdateOne(b, c, r0, touched);
      OwnersSnocWithin(edited, b, buckets.Keys);
      forall x | x in f0
        ensures FieldsOf(x) == if x in edited + [b] then Apply(f0[x], c) else f0[x]
      {
        if x == b {
          ApplyOnce(f0[b], c);
        }
      }
    }

    /**
     * The state an id-based setter batch keeps: the lists are untouched, each
     * edited broadcast was found under its id, and `Edited`.
     */
    ghost predicate EditingIds(f0: map<Broadcast, Fields>, r0: map<string, seq<Entry>>, c: Change,
                               ids: seq<Int32>, edited: seq<Broadcast>)
      reads this`buckets, this`rendered, this`live, live, f0.Keys
    {
      Valid() && live <= f0.Keys && FoundFor(buckets, ids, edited) && Edited(f0, r0, c, edited)
    }

    /** One turn of an id-based setter batch: the id is looked up, and if found the broadcast is edited. */
    method EditIdStep(c: Change, ids: seq<Int32>, i: nat, ghost f0: map<Broadcast, Fields>, ghost r0: map<string, seq<Entry>>,
                      ghost edited: seq<Broadcast>)
      returns (found: bool, ghost edited': seq<Broadcast>)
      requires EditingIds(f0, r0, c, ids, edited) && |edited| == i < |ids|
      modifies this`rendered, live
      ensures EditingIds(f0, r0, c, ids, edited')
      ensures found ==> |edited'| == |edited| + 1
      ensures !found ==> edited' == edited && !HasId(buckets, ids[|edited|])
    {
      var b := GetBroadcast(ids[i]);
      assert EditingIds(f0, r0, c, ids, edited);
      if b == null {
        return false, edited;
      }
      EditStep(b, c, f0, r0, edited);
      FoundForSnoc(buckets, ids, edited, b);
      return true, edited + [b];
    }

    /**
     * The id-based setters (`EditBroadcast(text, ids)` and
     * `SetPriority(priority, ids)`): each id in turn is looked up; the first
     * one that names no listed broadcast stops the batch with false, after the
     * earlier ones were applied; every found broadcast gets `c` and its player
     * is re-rendered. There is no `SetTag` over ids.
     */
    method UpdateByIds(c: Change, ids: seq<Int32>) returns (ok: bool, ghost edited: seq<Broadcast>)
      requires Valid() && !c.SetTag?
      modifies this`rendered, live
      ensures Valid()
      ensures ok <==> forall k :: 0 <= k < |ids| ==> HasId(buckets, ids[k])
      ensures |edited| == FoundPrefix(buckets, ids) && FoundFor(buckets, ids, edited)
      ensures Edited(old(Snapshot(live)), old(rendered), c, edited)
    {
      ghost var f0 := Snapshot(live);
      edited := [];
      ok := true;
      var i := 0;
      while ok && i < |ids|
        invariant EditingIds(f0, old(rendered), c, ids, edited) && |edited| == i <= |ids|
        invariant !ok ==> i < |ids| && !HasId(buckets, ids[i])
        decreases |ids| - i, ok
      {
        ok, edited := EditIdStep(c, ids, i, f0, old(rendered), edited);
        if ok {
          i := i + 1;
        }
      }
      PrefixFound(buckets, ids, edited);
    }

    /** One turn of a reference-based setter batch: null stops it, anything else is edited. */
    method EditRefStep(c: Change, refs: seq<Broadcast?>, i: nat, ghost f0: map<Broadcast, Fields>,
                       ghost r0: map<string, seq<Entry>>, ghost edited: seq<Broadcast>)
      returns (found: bool, ghost edited': seq<Broadcast>)
      requires Valid() && Refs(refs) <= f0.Keys && |edited| == i < |refs|
      requires RefsDone(refs, edited) && Edited(f0, r0, c, edited)
      modifies this`rendered, refs
      ensures Valid() && RefsDone(refs, edited') && Edited(f0, r0, c, edited')
      ensures found ==> |edited'| == |edited| + 1
      ensures !found ==> edited' == edited && refs[i] == null
    {
      var b := refs[i];
      if b == null {
        return false, edited;
      }
      assert b in Refs(refs);
      EditStep(b, c, f0, r0, edited);
      RefsDoneSnoc(refs, edited);
      return true, edited + [b];
    }

    /**
     * The reference-based setters (`EditBroadcast(text, broadcasts)`,
     * `SetPriority(priority, broadcasts)`, `SetTag(tag, broadcasts)`): the
     * first null stops the batch with false, after the earlier ones were
     * applied; every other broadcast, listed or not, gets `c` and its player
     * is re-rendered if it has a list.
     */
    method UpdateRefs(c: Change, refs: seq<Broadcast?>) returns (ok: bool, ghost edited: seq<Broadcast>)
      requires Valid()
      modifies this`rendered, refs
      ensures Valid()
      ensures ok <==> forall k :: 0 <= k < |refs| ==> refs[k] != null
      ensures |edited| == NonNullPrefix(refs) && RefsDone(refs, edited)
      ensures Edited(old(Snapshot(live + Refs(refs))), old(rendered), c, edited)
    {
      ghost var f0 := Snapshot(live + Refs(refs));
      edited := [];
      ok := true;
      var i := 0;
      while ok && i < |refs|
        invariant Valid() && |edited| == i <= |refs|
        invariant RefsDone(refs, edited) && Edited(f0, old(rendered), c, edited)
        invariant !ok ==> i < |refs| && refs[i] == null
        decreases |refs| - i, ok
      {
        ok, edited := EditRefStep(c, refs, i, f0, old(rendered), edited);
        if ok {
          i := i + 1;
        }
      }
      NullStop(refs, edited);
    }

    /** `c` applied to each of `bs` in turn, each followed by a refresh of its player. */
    method EditAll(c: Change, bs: seq<Broadcast>, ghost f0: map<Broadcast, Fields>, ghost r0: map<string, seq<Entry>>)
      requires Valid() && (forall b :: b in bs ==> b in f0) && Edited(f0, r0, c, [])
      modifies this`rendered, bs
      ensures Valid() && Edited(f0, r0, c, bs)
    {
      for i := 0 to |bs|
        invariant Valid() && Edited(f0, r0, c, bs[..i])
      {
        EditStep(bs[i], c, f0, r0, bs[..i]);
        assert bs[..i] + [bs[i]] == bs[..i + 1];
      }
      assert bs[..|bs|] == bs;
    }

    /**
     * `EditBroadcast(text, tag)`: the listed broadcasts with that tag are
     * collected first; none gives false and changes nothing; otherwise each
     * gets the new text and its player is re-rendered.
     */
    method EditByTag(text: string, tag: string) returns (ok: bool, ghost edited: seq<Broadcast>)
      requires Valid()
      modifies this`rendered, live
      ensures Valid()
      ensures ok <==> exists b :: Listed(buckets, b) && old(b.tag) == tag
      ensures forall b :: b in edited <==> Listed(buckets, b) && old(b.tag) == tag
      ensures Edited(old(Snapshot(live)), old(rendered), SetText(text), edited)
    {
      ghost var f0 := Snapshot(live);
      var tagged := Collect(ByTag(tag));
      if |tagged| == 0 {
        return false, [];
      }
      assert tagged[0] in tagged;
      assert forall b :: b in tagged ==> Listed(buckets, b) && b in live;
      EditAll(SetText(text), tagged, f0, old(rendered));
      return true, tagged;
    }

    // -------------------------------------------------------------------------
    // EditBroadcast with a duration: replacement
    // -------------------------------------------------------------------------

    /** `PlayerBroadcasts[b.Player.UserId].Remove(b)`, when that list exists. */
    method Drop(b: Broadcast)
      requires Valid() && b.player.userId in buckets
      modifies this`buckets
      ensures Valid()
      ensures var u := b.player.userId; buckets == old(buckets)[u := RemoveFirst(old(buckets[u]), b)]
    {
      var u := b.player.userId;
      OwnedRemoved(buckets, live, u, b);
      NoRepeatsRemoved(buckets, u, b);
      buckets := buckets[u := RemoveFirst(buckets[u], b)];
      assert Owned(buckets, live);
    }

    /** `Drop` followed by `RefreshBroadcast(b.Player)`. */
    method Unlist(b: Broadcast, ghost before: map<string, seq<Entry>>, ghost touched: set<string>)
      requires Valid() && Shown(before, touched) && b.player.userId in buckets
      modifies this`buckets, this`rendered
      ensures Valid()
      ensures var u := b.player.userId; buckets == old(buckets)[u := RemoveFirst(old(buckets[u]), b)]
      ensures Shown(before, touched + {b.player.userId})
    {
      Drop(b);
      Refresh(b.player);
      ShownExtend(before, touched, b.player.userId);
    }

    /** `Launch` with what is known about earlier renders carried along. */
    method Schedule(b: Broadcast, name: int, duration: UShort, ghost before: map<string, seq<Entry>>, ghost touched: set<string>)
      requires Valid() && Shown(before, touched) && b !in live
      modifies this`timers, this`buckets, this`rendered, this`live
      ensures Valid()
      ensures timers == old(timers) + [Timer(name, b, b.player, duration)]
      ensures buckets == old(buckets)[b.player.userId := Bucket(old(buckets), b.player.userId) + [b]]
      ensures live == old(live) + {b}
      ensures Shown(before, touched + {b.player.userId})
    {
      Launch(b, name, duration);
      ShownExtend(before, touched, b.player.userId);
    }

    /** The second half of a replacement: the new broadcast for `b`'s player is created and started under `b`'s id. */
    method Renew(b: Broadcast, text: string, nid: Int32, nduration: Int32, ntag: string, duration: UShort,
                 ghost before: map<string, seq<Entry>>, ghost touched: set<string>)
      returns (nb: Broadcast)
      requires Valid() && Shown(before, touched) && b.player.userId in buckets
      modifies this`timers, this`buckets, this`rendered, this`live
      ensures Valid() && fresh(nb)
      ensures nb.player == b.player && nb.text == text && nb.id == nid && nb.duration == nduration
      ensures nb.priority == b.priority && nb.tag == ntag
      ensures var u := b.player.userId; buckets == old(buckets)[u := old(buckets)[u] + [nb]]
      ensures timers == old(timers) + [Timer(b.id, nb, b.player, duration)]
      ensures live == old(live) + {nb}
      ensures Shown(before, touched + {b.player.userId})
    {
      nb := new Broadcast(b.player, text, nid, nduration, b.priority, ntag);
      Schedule(nb, b.id, duration, before, touched);
    }

    /**
     * One replacement of the duration forms of `EditBroadcast`: the timers
     * named after `b`'s id are killed, `b` leaves its player's list and the
     * player is re-rendered, and a new broadcast for the same player with
     * `b`'s priority is started under `b`'s id, which appends it to the list
     * and re-renders again.
     */
    method ReplaceOne(b: Broadcast, text: string, nid: Int32, nduration: Int32, ntag: string, duration: UShort,
                      ghost before: map<string, seq<Entry>>, ghost touched: set<string>)
      returns (nb: Broadcast)
      requires Valid() && Shown(before, touched) && b.player.userId in buckets
      modifies this`timers, this`buckets, this`rendered, this`live
      ensures Valid() && fresh(nb)
      ensures nb.player == b.player && nb.text == text && nb.id == nid && nb.duration == nduration
      ensures nb.priority == b.priority && nb.tag == ntag
      ensures buckets == Swap(old(buckets), b.player.userId, b, nb)
      ensures timers == KillNamed(old(timers), {b.id}) + [Timer(b.id, nb, b.player, duration)]
      ensures live == old(live) + {nb} && forall x :: x in old(live) ==> unchanged(x)
      ensures Shown(before, touched + {b.player.userId})
    {
      var u := b.player.userId;
      Kill(b.id);
      Unlist(b, before, touched);
      nb := Renew(b, text, nid, nduration, ntag, duration, before, touched + {u});
      SwapInTwo(old(buckets), u, b, nb);
      assert touched + {u} + {u} == touched + {u};
    }

    /**
     * A replacement batch has reached this state from lists `b0`, timers `t0`
     * and renders `r0`: the lists and timers are `Rebuilt` with `made[k]` in
     * place of `replaced[k]`, and the players of the replaced broadcasts were
     * re-rendered.
     */
    ghost predicate Replacing(b0: map<string, seq<Broadcast>>, t0: seq<Timer>, r0: map<string, seq<Entry>>,
                              replaced: seq<Broadcast>, made: seq<Broadcast>, latest: map<int, Broadcast>,
                              killed: set<int>, duration: UShort)
      requires Valid()
      reads this`buckets, this`timers, this`rendered, this`live, live
    {
      Rebuilt(b0, buckets, t0, timers, replaced, made, latest, killed, duration) && Shown(r0, Owners(replaced) * buckets.Keys)
    }

    /** Before the first turn, a replacement batch has replaced nothing. */
    ghost method StartReplacing(duration: UShort)
      requires Valid()
      ensures Replacing(buckets, timers, rendered, [], [], map[], {}, duration)
    {
      RescheduledStart(timers, duration);
    }

    /**
     * What `ReplaceOne` did to `b` in a batch keeps `Replacing`, with `b`
     * replaced by `nb`, which becomes the latest for `b`'s id.
     */
    twostate lemma ReplacedOne(new b: Broadcast, new nb: Broadcast, new duration: UShort, new b0: map<string, seq<Broadcast>>,
                               new t0: seq<Timer>, new r0: map<string, seq<Entry>>, new replaced: seq<Broadcast>,
                               new made: seq<Broadcast>, new latest: map<int, Broadcast>)
      requires old(allocated(b) && allocated(b0) && allocated(t0) && allocated(replaced) && allocated(made) && allocated(latest))
      requires old(Valid()) && old(Replacing(b0, t0, r0, replaced, made, latest, {}, duration))
      requires old(b.player.userId in buckets) && forall y :: y in latest && y != b.id ==> latest[y] != b
      requires Valid() && nb.player == b.player
      requires nb != b && nb !in replaced && nb !in old(buckets[b.player.userId])
      requires buckets == Swap(old(buckets), b.player.userId, b, nb)
      requires timers == KillNamed(old(timers), {b.id}) + [Timer(b.id, nb, b.player, duration)]
      requires Shown(r0, Owners(replaced) * old(buckets).Keys + {b.player.userId})
      ensures Replacing(b0, t0, r0, replaced + [b], made + [nb], latest[b.id := nb], {}, duration)
    {
      RebuiltSwapped(b0, old(buckets), t0, old(timers), replaced, made, latest, duration, b, nb);
      OwnersSnocWithin(replaced, b, buckets.Keys);
    }

    /**
     * `ReplaceOne` within a batch: `b` joins the replaced broadcasts, the new
     * one joins `made` and becomes the latest for `b`'s id. `swapped` says
     * which of the two argument orders of the `Broadcast` constructor the
     * batch uses.
     */
    method ReplaceStep(b: Broadcast, text: string, nid: Int32, nduration: Int32, ntag: string, duration: UShort,
                       ghost swapped: bool, ghost b0: map<string, seq<Broadcast>>, ghost t0: seq<Timer>,
                       ghost r0: map<string, seq<Entry>>, ghost replaced: seq<Broadcast>, ghost made: seq<Broadcast>,
                       ghost latest: map<int, Broadcast>)
      returns (nb: Broadcast)
      requires Valid() && Replacing(b0, t0, r0, replaced, made, latest, {}, duration) && b.player.userId in buckets
      requires Renumbered(replaced, made, duration, swapped) && Successors(replaced, made) && Labelled(made, text, ntag)
      requires if swapped then nid == duration && nduration == b.id else nid == b.id && nduration == duration
      requires forall y :: y in latest && y != b.id ==> latest[y] != b
      modifies this`timers, this`buckets, this`rendered, this`live
      ensures Valid() && Replacing(b0, t0, r0, replaced + [b], made + [nb], latest[b.id := nb], {}, duration)
      ensures Renumbered(replaced + [b], made + [nb], duration, swapped) && Successors(replaced + [b], made + [nb])
      ensures Labelled(made + [nb], text, ntag)
      ensures fresh(nb) && buckets == Swap(old(buckets), b.player.userId, b, nb)
    {
      nb := ReplaceOne(b, text, nid, nduration, ntag, duration, r0, Owners(replaced) * buckets.Keys);
      assert Successors(replaced, made) && Labelled(made, text, ntag);
      SucceededSnoc(replaced, made, b, nb, text, ntag);
      RenumberedStep(replaced, made, duration, swapped, b, nb);
      assert nb != b && nb !in replaced && nb !in old(buckets[b.player.userId]);
      ReplacedOne(b, nb, duration, b0, t0, r0, replaced, made, latest);
    }

    /**
     * The state an id-based replacement batch keeps: the ids of `b0` are
     * still held, each replaced broadcast had its id, `Replacing` holds, and
     * each new broadcast of `made` has the id it replaced, the new duration,
     * the player and priority of the broadcast it replaced, the new text and
     * no tag.
     */
    ghost predicate ReplacingIds(b0: map<string, seq<Broadcast>>, t0: seq<Timer>, r0: map<string, seq<Entry>>,
                                 ids: seq<Int32>, text: string, duration: UShort,
                                 replaced: seq<Broadcast>, made: seq<Broadcast>, latest: map<int, Broadcast>)
      reads this`buckets, this`timers, this`rendered, this`live, live, replaced, made
    {
      Valid() && Held(b0, ids, replaced) && SameIds(buckets, b0)
      && Replacing(b0, t0, r0, replaced, made, latest, {}, duration) && (forall y :: y in latest ==> latest[y].id == y)
      && Renumbered(replaced, made, duration, false) && Successors(replaced, made) && Labelled(made, text, "")
    }

    /** The found broadcast `b` of `ids[i]` is replaced. */
    method ReplaceHeld(b: Broadcast, text: string, duration: UShort, ids: seq<Int32>, i: nat,
                       ghost b0: map<string, seq<Broadcast>>, ghost t0: seq<Timer>, ghost r0: map<string, seq<Entry>>,
                       ghost replaced: seq<Broadcast>, ghost made: seq<Broadcast>, ghost latest: map<int, Broadcast>)
      returns (ghost nb: Broadcast)
      requires ReplacingIds(b0, t0, r0, ids, text, duration, replaced, made, latest)
      requires |replaced| == i < |ids| && b.id == ids[i] && Listed(buckets, b)
      modifies this`timers, this`buckets, this`rendered, this`live
      ensures ReplacingIds(b0, t0, r0, ids, text, duration, replaced + [b], made + [nb], latest[b.id := nb])
    {
      ListedHasId(buckets, b);
      HeldSnoc(b0, ids, replaced, b);
      nb := ReplaceStep(b, text, ids[i], duration, "", duration, false, b0, t0, r0, replaced, made, latest);
      assert (made + [nb])[|made|] == nb && nb.id == b.id;
      SameIdsSwapped(old(buckets), b0, b.player.userId, b, nb);
    }

    /**
     * One turn of `EditBroadcast(text, duration, ids)`: the id is looked up
     * and, if found, its broadcast is replaced; an id no list holds stops the
     * batch.
     */
    method ReplaceIdStep(text: string, duration: UShort, ids: seq<Int32>, i: nat,
                         ghost b0: map<string, seq<Broadcast>>, ghost t0: seq<Timer>, ghost r0: map<string, seq<Entry>>,
                         ghost replaced: seq<Broadcast>, ghost made: seq<Broadcast>, ghost latest: map<int, Broadcast>)
      returns (found: bool, ghost replaced': seq<Broadcast>, ghost made': seq<Broadcast>, ghost latest': map<int, Broadcast>)
      requires ReplacingIds(b0, t0, r0, ids, text, duration, replaced, made, latest) && |replaced| == i < |ids|
      modifies this`timers, this`buckets, this`rendered, this`live
      ensures ReplacingIds(b0, t0, r0, ids, text, duration, replaced', made', latest')
      ensures found ==> |replaced'| == i + 1
      ensures !found ==> replaced' == replaced && made' == made && !HasId(b0, ids[i])
    {
      var b := GetBroadcast(ids[i]);
      assert ReplacingIds(b0, t0, r0, ids, text, duration, replaced, made, latest);
      if b == null {
        return false, replaced, made, latest;
      }
      var listed: Broadcast := b;
      ghost var nb := ReplaceHeld(listed, text, duration, ids, i, b0, t0, r0, replaced, made, latest);
      return true, replaced + [listed], made + [nb], latest[listed.id := nb];
    }

    /**
     * `EditBroadcast(text, duration, ids)` once the duration is accepted: each
     * id in turn is looked up; the first one no list holds stops the batch
     * with false, after the earlier ones were replaced. Every found broadcast
     * `replaced[k]` leaves its list and `made[k]` is appended there in its
     * place: a new broadcast for the same player, with the new text and
     * duration, the same id and priority, and no tag. The ids held by some
     * list stay the same.
     */
    method ReplaceByIds(text: string, duration: UShort, ids: seq<Int32>)
      returns (ok: bool, ghost replaced: seq<Broadcast>, ghost made: seq<Broadcast>, ghost latest: map<int, Broadcast>)
      requires Valid()
      modifies this`timers, this`buckets, this`rendered, this`live
      ensures ok <==> forall k :: 0 <= k < |ids| ==> HasId(old(buckets), ids[k])
      ensures |replaced| == FoundPrefix(old(buckets), ids)
      ensures ReplacingIds(old(buckets), old(timers), old(rendered), ids, text, duration, replaced, made, latest)
      ensures buckets == Swaps(old(buckets), replaced, made) && Gone(buckets, replaced)
    {
      replaced, made, latest := [], [], map[];
      StartReplacing(duration);
      ok := true;
      var i := 0;
      while ok && i < |ids|
        invariant ReplacingIds(old(buckets), old(timers), old(rendered), ids, text, duration, replaced, made, latest)
        invariant |replaced| == i <= |ids|
        invariant !ok ==> i < |ids| && !HasId(old(buckets), ids[i])
        decreases |ids| - i, ok
      {
        ok, replaced, made, latest := ReplaceIdStep(text, duration, ids, i, old(buckets), old(timers), old(rendered),
                                                   replaced, made, latest);
        if ok {
          i := i + 1;
        }
      }
      PrefixHeld(old(buckets), ids, i);
    }

    /**
     * The state a reference-based replacement batch keeps: the references
     * handled so far are the start of `refs`, `Replacing` holds with the
     * names in `killed` left without timers, and each new broadcast of `made`
     * has the duration as its id and the id it replaced as its duration, the
     * player and priority of the broadcast it replaced, the new text and no
     * tag; none of them is one of the references.
     */
    ghost predicate ReplacingRefs(b0: map<string, seq<Broadcast>>, t0: seq<Timer>, r0: map<string, seq<Entry>>,
                                  refs: seq<Broadcast?>, text: string, duration: UShort,
                                  replaced: seq<Broadcast>, made: seq<Broadcast>, latest: map<int, Broadcast>,
                                  killed: set<int>)
      reads this`buckets, this`timers, this`rendered, this`live, live, replaced, made
    {
      Valid() && RefsDone(refs, replaced)
      && Replacing(b0, t0, r0, replaced, made, latest, killed, duration)
      && Renumbered(replaced, made, duration, true) && Successors(replaced, made) && Labelled(made, text, "")
      && Apart(latest, refs)
    }

    /** The non-null reference `refs[i]`, whose player has a list, is replaced. */
    method ReplaceRef(b: Broadcast, text: string, duration: UShort, refs: seq<Broadcast?>, i: nat,
                      ghost b0: map<string, seq<Broadcast>>, ghost t0: seq<Timer>, ghost r0: map<string, seq<Entry>>,
                      ghost replaced: seq<Broadcast>, ghost made: seq<Broadcast>, ghost latest: map<int, Broadcast>)
      returns (ghost nb: Broadcast)
      requires ReplacingRefs(b0, t0, r0, refs, text, duration, replaced, made, latest, {})
      requires |replaced| == i < |refs| && refs[i] == b && b.player.userId in buckets
      modifies this`timers, this`buckets, this`rendered, this`live
      ensures ReplacingRefs(b0, t0, r0, refs, text, duration, replaced + [b], made + [nb], latest[b.id := nb], {})
    {
      RefsDoneSnoc(refs, replaced);
      assert refs[i] in refs;
      nb := ReplaceStep(b, text, duration, b.id, "", duration, true, b0, t0, r0, replaced, made, latest);
      assert nb !in refs;
      ApartSnoc(latest, refs, b.id, nb);
    }

    /** A non-null reference whose player has no list: its timers are killed before the lookup throws. */
    method KillMissing(b: Broadcast, text: string, duration: UShort, refs: seq<Broadcast?>,
                       ghost b0: map<string, seq<Broadcast>>, ghost t0: seq<Timer>, ghost r0: map<string, seq<Entry>>,
                       ghost replaced: seq<Broadcast>, ghost made: seq<Broadcast>, ghost latest: map<int, Broadcast>)
      requires ReplacingRefs(b0, t0, r0, refs, text, duration, replaced, made, latest, {})
      modifies this`timers
      ensures ReplacingRefs(b0, t0, r0, refs, text, duration, replaced, made, latest, {b.id})
      ensures buckets == old(buckets)
    {
      RescheduledKill(timers, t0, latest, duration, b.id);
      Kill(b.id);
    }

    /**
     * One turn of `EditBroadcast(text, duration, params Broadcast[])`: null
     * stops the batch with false; a reference whose player has no list has
     * its timers killed and then throws `KeyNotFoundException`; any other is
     * replaced.
     */
    method ReplaceRefStep(text: string, duration: UShort, refs: seq<Broadcast?>, i: nat,
                          ghost b0: map<string, seq<Broadcast>>, ghost t0: seq<Timer>, ghost r0: map<string, seq<Entry>>,
                          ghost replaced: seq<Broadcast>, ghost made: seq<Broadcast>, ghost latest: map<int, Broadcast>)
      returns (r: Outcome, ghost replaced': seq<Broadcast>, ghost made': seq<Broadcast>, ghost latest': map<int, Broadcast>)
      requires ReplacingRefs(b0, t0, r0, refs, text, duration, replaced, made, latest, {}) && |replaced| == i < |refs|
      modifies this`timers, this`buckets, this`rendered, this`live
      ensures r == Returned(true) ==> |replaced'| == i + 1
      ensures r == Returned(false) ==> replaced' == replaced && made' == made && refs[i] == null
      ensures r.KeyNotFound? ==> replaced' == replaced && made' == made && refs[i] != null
                                 && refs[i].player.userId !in buckets
      ensures ReplacingRefs(b0, t0, r0, refs, text, duration, replaced', made', latest',
                            if r.KeyNotFound? then {refs[i].id} else {})
    {
      var b := refs[i];
      if b == null {
        return Returned(false), replaced, made, latest;
      }
      var given: Broadcast := b;
      if given.player.userId !in buckets {
        KillMissing(given, text, duration, refs, b0, t0, r0, replaced, made, latest);
        return KeyNotFound, replaced, made, latest;
      }
      ghost var nb := ReplaceRef(given, text, duration, refs, i, b0, t0, r0, replaced, made, latest);
      return Returned(true), replaced + [given], made + [nb], latest[given.id := nb];
    }

    /**
     * `EditBroadcast(text, duration, params Broadcast[])` once the duration is
     * accepted: the first null stops the batch with false; a broadcast whose
     * player has no list throws `KeyNotFoundException` after its timers were
     * killed. Every other one, `replaced[k]`, leaves its list and `made[k]` is
     * appended there in its place: a new broadcast for the same player whose
     * id is the duration and whose duration is the old id (the constructor's
     * arguments are passed in the other order), with the same priority and no
     * tag; its timer is named after the old id.
     */
    method ReplaceRefs(text: string, duration: UShort, refs: seq<Broadcast?>)
      returns (r: Outcome, ghost replaced: seq<Broadcast>, ghost made: seq<Broadcast>, ghost latest: map<int, Broadcast>)
      requires Valid()
      modifies this`timers, this`buckets, this`rendered, this`live
      ensures r == Returned(true) <==> |replaced| == |refs|
      ensures r == Returned(false) ==> |replaced| < |refs| && refs[|replaced|] == null
      ensures r.KeyNotFound? ==> |replaced| < |refs| && refs[|replaced|] != null
                                 && refs[|replaced|].player.userId !in old(buckets)
      ensures ReplacingRefs(old(buckets), old(timers), old(rendered), refs, text, duration, replaced, made, latest,
                            if r.KeyNotFound? then {refs[|replaced|].id} else {})
      ensures buckets == Swaps(old(buckets), replaced, made) && Gone(buckets, replaced)
    {
      replaced, made, latest := [], [], map[];
      StartReplacing(duration);
      r := Returned(true);
      var i := 0;
      while r == Returned(true) && i < |refs|
        invariant |replaced| == i <= |refs|
        invariant r == Returned(false) ==> i < |refs| && refs[i] == null
        invariant r.KeyNotFound? ==> i < |refs| && refs[i] != null && refs[i].player.userId !in old(buckets)
        invariant ReplacingRefs(old(buckets), old(timers), old(rendered), refs, text, duration, replaced, made, latest,
                                if r.KeyNotFound? then {refs[i].id} else {})
        decreases |refs| - i, if r == Returned(true) then 1 else 0
      {
        r, replaced, made, latest := ReplaceRefStep(text, duration, refs, i, old(buckets), old(timers), old(rendered),
                                                    replaced, made, latest);
        if r == Returned(true) {
          i := i + 1;
        }
      }
    }

    /**
     * The state a tag-based replacement batch keeps: the broadcasts replaced
     * so far are the start of the collected `tagged`, whose players all have
     * lists in `b0`; `Replacing` holds, and each new broadcast of `made` has
     * the id it replaced, the new duration, the player and priority of the
     * broadcast it replaced, the new text and the tag; none of them is one of
     * the collected broadcasts.
     */
    ghost predicate ReplacingTagged(b0: map<string, seq<Broadcast>>, t0: seq<Timer>, r0: map<string, seq<Entry>>,
                                    tagged: seq<Broadcast>, text: string, tag: string, duration: UShort,
                                    replaced: seq<Broadcast>, made: seq<Broadcast>, latest: map<int, Broadcast>)
      reads this`buckets, this`timers, this`rendered, this`live, live, replaced, made
    {
      Valid() && RefsDone(tagged, replaced)
      && (forall k :: 0 <= k < |tagged| ==> tagged[k].player.userId in b0)
      && Replacing(b0, t0, r0, replaced, made, latest, {}, duration)
      && Renumbered(replaced, made, duration, false) && Successors(replaced, made) && Labelled(made, text, tag)
      && Apart(latest, tagged)
    }

    /** The collected broadcast `tagged[i]` is replaced, keeping its tag. */
    method ReplaceTagged(b: Broadcast, text: string, tag: string, duration: UShort, tagged: seq<Broadcast>, i: nat,
                         ghost b0: map<string, seq<Broadcast>>, ghost t0: seq<Timer>, ghost r0: map<string, seq<Entry>>,
                         ghost replaced: seq<Broadcast>, ghost made: seq<Broadcast>, ghost latest: map<int, Broadcast>)
      returns (ghost nb: Broadcast)
      requires ReplacingTagged(b0, t0, r0, tagged, text, tag, duration, replaced, made, latest)
      requires |replaced| == i < |tagged| && tagged[i] == b
      modifies this`timers, this`buckets, this`rendered, this`live
      ensures ReplacingTagged(b0, t0, r0, tagged, text, tag, duration, replaced + [b], made + [nb], latest[b.id := nb])
    {
      assert b in tagged;
      RefsDoneSnoc(tagged, replaced);
      nb := ReplaceStep(b, text, b.id, duration, tag, duration, false, b0, t0, r0, replaced, made, latest);
      assert nb !in tagged;
      ApartSnoc(latest, tagged, b.id, nb);
    }

    /**
     * `EditBroadcast(text, duration, tag)` once the duration is accepted: the
     * listed broadcasts with that tag are collected first; none gives false
     * and changes nothing. Otherwise each collected broadcast `replaced[k]`
     * leaves its list and `made[k]` is appended there in its place: a new
     * broadcast for the same player with the new text and duration and the
     * same id, priority and tag.
     */
    method ReplaceByTag(text: string, tag: string, duration: UShort)
      returns (ok: bool, ghost replaced: seq<Broadcast>, ghost made: seq<Broadcast>, ghost latest: map<int, Broadcast>)
      requires Valid()
      modifies this`timers, this`buckets, this`rendered, this`live
      ensures ok <==> old(exists b :: Listed(buckets, b) && b.tag == tag)
      ensures old(forall b :: b in replaced <==> Listed(buckets, b) && b.tag == tag)
      ensures Valid() && Replacing(old(buckets), old(timers), old(rendered), replaced, made, latest, {}, duration)
      ensures Renumbered(replaced, made, duration, false) && Successors(replaced, made) && Labelled(made, text, tag)
      ensures buckets == Swaps(old(buckets), replaced, made) && Gone(buckets, replaced)
    {
      var tagged := Collect(ByTag(tag));
      assert old(forall b :: b in tagged <==> Listed(buckets, b) && b.tag == tag);
      replaced, made, latest := [], [], map[];
      StartReplacing(duration);
      if |tagged| == 0 {
        return false, replaced, made, latest;
      }
      assert tagged[0] in tagged;
      forall k | 0 <= k < |tagged|
        ensures tagged[k].player.userId in buckets
      {
        assert tagged[k] in tagged;
      }
      for i := 0 to |tagged|
        invariant |replaced| == i
        invariant ReplacingTagged(old(buckets), old(timers), old(rendered), tagged, text, tag, duration, replaced, made, latest)
      {
        ghost var nb := ReplaceTagged(tagged[i], text, tag, duration, tagged, i, old(buckets), old(timers), old(rendered),
                                      replaced, made, latest);
        replaced, made, latest := replaced + [tagged[i]], made + [nb], latest[tagged[i].id := nb];
      }
      assert replaced == tagged;
      ok := true;
    }

    /**
     * `EditBroadcast(text, duration, params int[] ids)`: a zero duration edits
     * the text in place as `EditBroadcast(text, ids)` does; a duration over
     * the maximum gives false and changes nothing; any other runs the
     * replacement batch of `ReplaceByIds`.
     */
    method EditByIdsTimed(text: string, duration: UShort, ids: seq<Int32>)
      returns (ok: bool, ghost handled: seq<Broadcast>, ghost made: seq<Broadcast>, ghost latest: map<int, Broadcast>)
      requires Valid()
      modifies this`timers, this`buckets, this`rendered, this`live, live
      ensures Valid()
      ensures duration == 0 ==>
                (ok <==> forall k :: 0 <= k < |ids| ==> HasId(old(buckets), ids[k]))
                && |handled| == FoundPrefix(old(buckets), ids) && FoundFor(old(buckets), ids, handled)
                && buckets == old(buckets) && timers == old(timers) && live == old(live)
                && Edited(old(Snapshot(live)), old(rendered), SetText(text), handled)
      ensures duration > MAX_DURATION ==>
                !ok && unchanged(this) && forall x :: x in old(live) ==> unchanged(x)
      ensures 0 < duration <= MAX_DURATION ==>
                (ok <==> forall k :: 0 <= k < |ids| ==> HasId(old(buckets), ids[k]))
                && |handled| == FoundPrefix(old(buckets), ids)
                && ReplacingIds(old(buckets), old(timers), old(rendered), ids, text, duration, handled, made, latest)
                && buckets == Swaps(old(buckets), handled, made) && Gone(buckets, handled)
                && forall x :: x in old(live) ==> unchanged(x)
    {
      if duration == 0 {
        ok, handled := UpdateByIds(SetText(text), ids);
        return ok, handled, [], map[];
      } else if duration > MAX_DURATION {
        return false, [], [], map[];
      }
      ok, handled, made, latest := ReplaceByIds(text, duration, ids);
    }

    /**
     * `EditBroadcast(text, duration, params Broadcast[] broadcasts)`: a zero
     * duration edits the text in place as `EditBroadcast(text, broadcasts)`
     * does; a duration over the maximum gives false and changes nothing; any
     * other runs the replacement batch of `ReplaceRefs`.
     */
    method EditRefsTimed(text: string, duration: UShort, refs: seq<Broadcast?>)
      returns (r: Outcome, ghost handled: seq<Broadcast>, ghost made: seq<Broadcast>, ghost latest: map<int, Broadcast>)
      requires Valid()
      modifies this`timers, this`buckets, this`rendered, this`live, refs
      ensures Valid()
      ensures duration == 0 ==>
                r.Returned? && (r.ok <==> forall k :: 0 <= k < |refs| ==> refs[k] != null)
                && |handled| == NonNullPrefix(refs) && RefsDone(refs, handled)
                && buckets == old(buckets) && timers == old(timers) && live == old(live)
                && Edited(old(Snapshot(live + Refs(refs))), old(rendered), SetText(text), handled)
      ensures duration > MAX_DURATION ==>
                r == Returned(false) && unchanged(this) && forall x :: x in refs && x != null ==> unchanged(x)
      ensures 0 < duration <= MAX_DURATION ==>
                (r == Returned(true) <==> |handled| == |refs|)
                && (r == Returned(false) ==> |handled| < |refs| && refs[|handled|] == null)
                && (r.KeyNotFound? ==> |handled| < |refs| && refs[|handled|] != null
                                       && refs[|handled|].player.userId !in old(buckets))
                && ReplacingRefs(old(buckets), old(timers), old(rendered), refs, text, duration, handled, made, latest,
                                 if r.KeyNotFound? then {refs[|handled|].id} else {})
                && buckets == Swaps(old(buckets), handled, made) && Gone(buckets, handled)
                && forall x: Broadcast :: x in old(live) || x in refs ==> unchanged(x)
    {
      if duration == 0 {
        var ok;
        ok, handled := UpdateRefs(SetText(text), refs);
        return Returned(ok), handled, [], map[];
      } else if duration > MAX_DURATION {
        return Returned(false), [], [], map[];
      }
      r, handled, made, latest := ReplaceRefs(text, duration, refs);
    }

    /**
     * `EditBroadcast(text, duration, tag)`: a zero duration edits the text in
     * place as `EditBroadcast(text, tag)` does; a duration over the maximum
     * gives false and changes nothing; any other runs the replacement batch
     * of `ReplaceByTag`.
     */
    method EditByTagTimed(text: string, duration: UShort, tag: string)
      returns (ok: bool, ghost handled: seq<Broadcast>, ghost made: seq<Broadcast>, ghost latest: map<int, Broadcast>)
      requires Valid()
      modifies this`timers, this`buckets, this`rendered, this`live, live
      ensures Valid()
      ensures duration == 0 ==>
                (ok <==> old(exists b :: Listed(buckets, b) && b.tag == tag))
                && old(forall b :: b in handled <==> Listed(buckets, b) && b.tag == tag)
                && buckets == old(buckets) && timers == old(timers) && live == old(live)
                && Edited(old(Snapshot(live)), old(rendered), SetText(text), handled)
      ensures duration > MAX_DURATION ==>
                !ok && unchanged(this) && forall x :: x in old(live) ==> unchanged(x)
      ensures 0 < duration <= MAX_DURATION ==>
                (ok <==> old(exists b :: Listed(buckets, b) && b.tag == tag))
                && old(forall b :: b in handled <==> Listed(buckets, b) && b.tag == tag)
                && Replacing(old(buckets), old(timers), old(rendered), handled, made, latest, {}, duration)
                && Renumbered(handled, made, duration, false) && Successors(handled, made) && Labelled(made, text, tag)
                && buckets == Swaps(old(buckets), handled, made) && Gone(buckets, handled)
                && forall x :: x in old(live) ==> unchanged(x)
    {
      if duration == 0 {
        ok, handled := EditByTag(text, tag);
        return ok, handled, [], map[];
      } else if duration > MAX_DURATION {
        return false, [], [], map[];
      }
      ok, handled, made, latest := ReplaceByTag(text, tag, duration);
    }

    // -------------------------------------------------------------------------
    // RemoveBroadcast
    // -------------------------------------------------------------------------

    /**
     * A removal batch has reached this state from lists `b0` and renders `r0`:
     * the lists are `b0` after `List.Remove` of each of `removed` in turn, so
     * no list was dropped or added, nothing became listed, every broadcast
     * listed in `b0` and not in `removed` is still listed, and no removed one
     * is; the players of the removed broadcasts were re-rendered.
     */
    ghost predicate Removing(b0: map<string, seq<Broadcast>>, r0: map<string, seq<Entry>>, removed: seq<Broadcast>)
      requires Valid()
      reads this`buckets, this`rendered, this`live, live
    {
      buckets == RemoveAll(b0, removed) && Gone(buckets, removed)
      && buckets.Keys == b0.Keys && Within(buckets, b0) && Kept(b0, buckets, removed)
      && Shown(r0, Owners(removed) * buckets.Keys)
    }

    /** Before the first turn, a removal batch has removed nothing. */
    ghost method StartRemoving()
      requires Valid()
      ensures Removing(buckets, rendered, []) && timers == KillNamed(timers, Ids([]))
    {
      KillNamedNone(timers);
    }

    /** `PlayerBroadcasts[b.Player.UserId].Remove(b)` within a removal batch. */
    method Detach(b: Broadcast, ghost b0: map<string, seq<Broadcast>>, ghost removed: seq<Broadcast>)
      requires Valid() && b.player.userId in buckets
      requires buckets == RemoveAll(b0, removed) && Gone(buckets, removed)
      requires buckets.Keys == b0.Keys && Within(buckets, b0) && Kept(b0, buckets, removed)
      modifies this`buckets
      ensures Valid() && buckets == RemoveAll(b0, removed + [b]) && Gone(buckets, removed + [b])
      ensures buckets.Keys == b0.Keys && Within(buckets, b0) && Kept(b0, buckets, removed + [b])
      ensures var u := b.player.userId; buckets == old(buckets)[u := RemoveFirst(old(buckets[u]), b)]
    {
      var u := b.player.userId;
      WithinRemoved(buckets, b0, u, b);
      KeptRemoved(b0, buckets, removed, u, b);
      RemoveAllSnoc(b0, removed, b);
      GoneRemoved(buckets, removed, b);
      Drop(b);
    }

    /** `PlayerBroadcasts[b.Player.UserId].Remove(b)` followed by `RefreshBroadcast(b.Player)`, when that list exists. */
    method RemoveOne(b: Broadcast, ghost b0: map<string, seq<Broadcast>>, ghost r0: map<string, seq<Entry>>,
                     ghost removed: seq<Broadcast>)
      requires Valid() && Removing(b0, r0, removed) && b.player.userId in buckets
      modifies this`buckets, this`rendered
      ensures Valid() && Removing(b0, r0, removed + [b])
    {
      var u := b.player.userId;
      Detach(b, b0, removed);
      Refresh(b.player);
      ShownExtend(r0, Owners(removed) * buckets.Keys, u);
      OwnersSnocWithin(removed, b, buckets.Keys);
    }

    /**
     * The state an id-based removal batch keeps: each removed broadcast was
     * found under its id, `Removing`, and the timers of the removed ids are killed.
     */
    ghost predicate RemovingIds(b0: map<string, seq<Broadcast>>, t0: seq<Timer>, r0: map<string, seq<Entry>>,
                                ids: seq<Int32>, removed: seq<Broadcast>)
      reads this`timers, this`buckets, this`rendered, this`live, live
    {
      Valid() && FoundFor(b0, ids, removed) && Removing(b0, r0, removed) && timers == KillNamed(t0, Ids(removed))
    }

    /** One turn of `RemoveBroadcast(ids)`: the id is looked up; if found, its timers are killed and it is removed. */
    method RemoveIdStep(ids: seq<Int32>, i: nat, ghost b0: map<string, seq<Broadcast>>, ghost t0: seq<Timer>,
                        ghost r0: map<string, seq<Entry>>, ghost removed: seq<Broadcast>)
      returns (found: bool, ghost removed': seq<Broadcast>)
      requires RemovingIds(b0, t0, r0, ids, removed) && |removed| == i < |ids|
      modifies this`timers, this`buckets, this`rendered
      ensures RemovingIds(b0, t0, r0, ids, removed')
      ensures found ==> |removed'| == i + 1
      ensures !found ==> removed' == removed && !HasId(buckets, ids[i])
    {
      var b := GetBroadcast(ids[i]);
      assert RemovingIds(b0, t0, r0, ids, removed);
      if b == null {
        return false, removed;
      }
      Kill(ids[i]);
      RemoveOne(b, b0, r0, removed);
      KillNamedTwice(t0, Ids(removed), {b.id});
      IdsSnoc(removed, b);
      FoundForSnoc(b0, ids, removed, b);
      return true, removed + [b];
    }

    /**
     * `RemoveBroadcast(params int[] ids)`: each id in turn is looked up; the
     * first one no list holds stops the batch with false, after the earlier
     * ones were removed; a found broadcast has every timer of its id killed,
     * leaves its list for good (`List.Remove` on a list that held it once),
     * and its player is re-rendered.
     */
    method RemoveByIds(ids: seq<Int32>) returns (ok: bool, ghost removed: seq<Broadcast>)
      requires Valid()
      modifies this`timers, this`buckets, this`rendered
      ensures Valid()
      ensures ok <==> |removed| == |ids|
      ensures FoundFor(old(buckets), ids, removed) && (!ok ==> !HasId(buckets, ids[|removed|]))
      ensures timers == KillNamed(old(timers), Ids(removed))
      ensures buckets == RemoveAll(old(buckets), removed) && Gone(buckets, removed)
      ensures Removing(old(buckets), old(rendered), removed)
    {
      removed := [];
      StartRemoving();
      ok := true;
      var i := 0;
      while ok && i < |ids|
        invariant RemovingIds(old(buckets), old(timers), old(rendered), ids, removed) && |removed| == i <= |ids|
        invariant !ok ==> i < |ids| && !HasId(buckets, ids[i])
        decreases |ids| - i, ok
      {
        ok, removed := RemoveIdStep(ids, i, old(buckets), old(timers), old(rendered), removed);
        if ok {
          i := i + 1;
        }
      }
    }

    /**
     * One turn of `RemoveBroadcast(params Broadcast[])`: null stops the batch
     * with false; otherwise the broadcast's timers are killed, and then its
     * player's list is looked up with the indexer, which throws when the
     * player has none; else the broadcast leaves it and the player is
     * re-rendered.
     */
    method RemoveRefStep(refs: seq<Broadcast?>, i: nat, ghost b0: map<string, seq<Broadcast>>, ghost t0: seq<Timer>,
                         ghost r0: map<string, seq<Entry>>, ghost removed: seq<Broadcast>)
      returns (r: Outcome, ghost removed': seq<Broadcast>)
      requires Valid() && |removed| == i < |refs| && RefsDone(refs, removed)
      requires Removing(b0, r0, removed) && timers == KillNamed(t0, Ids(removed))
      modifies this`timers, this`buckets, this`rendered
      ensures Valid() && RefsDone(refs, removed') && Removing(b0, r0, removed')
      ensures r == Returned(true) ==> |removed'| == i + 1 && timers == KillNamed(t0, Ids(removed'))
      ensures r == Returned(false) ==> removed' == removed && refs[i] == null && timers == old(timers)
      ensures r.KeyNotFound? ==> removed' == removed && refs[i] != null && refs[i].player.userId !in buckets
                                 && timers == KillNamed(t0, Ids(removed) + {refs[i].id})
    {
      var b := refs[i];
      if b == null {
        return Returned(false), removed;
      }
      Kill(b.id);
      KillNamedTwice(t0, Ids(removed), {b.id});
      if b.player.userId !in buckets {
        return KeyNotFound, removed;
      }
      RemoveOne(b, b0, r0, removed);
      IdsSnoc(removed, b);
      RefsDoneSnoc(refs, removed);
      return Returned(true), removed + [b];
    }

    /**
     * `RemoveBroadcast(params Broadcast[] broadcasts)`: the first null stops
     * the batch with false; a broadcast whose player has no list throws
     * `KeyNotFoundException` after its timers were killed; every other one
     * has its timers killed, is taken out of its player's list (a no-op when
     * the list does not hold it), and its player is re-rendered.
     */
    method RemoveRefs(refs: seq<Broadcast?>) returns (r: Outcome, ghost removed: seq<Broadcast>)
      requires Valid()
      modifies this`timers, this`buckets, this`rendered
      ensures Valid() && RefsDone(refs, removed)
      ensures r == Returned(true) <==> |removed| == |refs|
      ensures r == Returned(false) ==> refs[|removed|] == null
      ensures r.KeyNotFound? ==> |removed| < |refs| && refs[|removed|] != null
                                 && refs[|removed|].player.userId !in old(buckets)
      ensures timers == KillNamed(old(timers), Ids(removed) + if r.KeyNotFound? then {refs[|removed|].id} else {})
      ensures buckets == RemoveAll(old(buckets), removed) && Gone(buckets, removed)
      ensures Removing(old(buckets), old(rendered), removed)
    {
      removed := [];
      StartRemoving();
      r := Returned(true);
      var i := 0;
      while r == Returned(true) && i < |refs|
        invariant Valid() && |removed| == i <= |refs| && RefsDone(refs, removed)
        invariant Removing(old(buckets), old(rendered), removed)
        invariant r == Returned(true) ==> timers == KillNamed(old(timers), Ids(removed))
        invariant r == Returned(false) ==> i < |refs| && refs[i] == null && timers == KillNamed(old(timers), Ids(removed))
        invariant r.KeyNotFound? ==> i < |refs| && refs[i] != null && refs[i].player.userId !in buckets
                                     && timers == KillNamed(old(timers), Ids(removed) + {refs[i].id})
        decreases |refs| - i, if r == Returned(true) then 1 else 0
      {
        r, removed := RemoveRefStep(refs, i, old(buckets), old(timers), old(rendered), removed);
        if r == Returned(true) {
          i := i + 1;
        }
      }
      assert Ids(removed) + {} == Ids(removed);
    }

    // -------------------------------------------------------------------------
    // Clearing, and the round events
    // -------------------------------------------------------------------------

    /** `for (var i = 0; i < n; i++) Timing.KillCoroutines("MBroadcast" + i)`. */
    method KillNames(n: int)
      modifies this`timers
      ensures timers == KillBelow(old(timers), n)
    {
      if n <= 0 {
        KillBelowNone(timers, n);
        return;
      }
      KillBelowNone(timers, 0);
      var i := 0;
      while i < n
        invariant 0 <= i <= n
        invariant timers == KillBelow(old(timers), i)
      {
        KillNext(old(timers), i);
        i := i + 1;
      }
    }

    /** One turn of the clearing kill loop: name `i` is killed after the names below it. */
    method KillNext(ghost t0: seq<Timer>, i: int)
      requires 0 <= i && timers == KillBelow(t0, i)
      modifies this`timers
      ensures timers == KillBelow(t0, i + 1)
    {
      KillBelowStep(t0, i);
      Kill(i);
    }

    /** `foreach (var broadcasts in PlayerBroadcasts.Values) broadcasts.Clear()`: every player keeps a list, now empty. */
    method EmptyLists()
      requires Valid()
      modifies this`buckets
      ensures Valid() && buckets == Emptied(old(buckets))
    {
      var keys := buckets.Keys;
      while keys != {}
        invariant keys <= buckets.Keys == old(buckets).Keys
        invariant forall u :: u in buckets ==> buckets[u] == if u in keys then old(buckets)[u] else []
        invariant Valid()
        decreases keys
      {
        var u :| u in keys;
        buckets := buckets[u := []];
        keys := keys - {u};
      }
    }

    /** `RefreshBroadcast(player)` with what is known about earlier renders carried along. */
    method RefreshShown(player: Player, ghost before: map<string, seq<Entry>>, ghost touched: set<string>)
      requires Valid() && Shown(before, touched)
      modifies this`rendered
      ensures Shown(before, touched + Present(player.userId))
    {
      Refresh(player);
      ShownExtend(before, touched, player.userId);
    }

    /** `foreach (var player in Player.List) RefreshBroadcast(player)`, with the players online given. */
    method RefreshAll(players: seq<Player>)
      requires Valid()
      modifies this`rendered
      ensures Shown(old(rendered), UserIds(players) * buckets.Keys)
    {
      for i := 0 to |players|
        invariant Shown(old(rendered), UserIds(players[..i]) * buckets.Keys)
      {
        ghost var touched := UserIds(players[..i]) * buckets.Keys;
        RefreshShown(players[i], old(rendered), touched);
        assert players[..i + 1] == players[..i] + [players[i]];
        UserIdsSnoc(players[..i], players[i]);
        assert UserIds(players[..i + 1]) * buckets.Keys == touched + Present(players[i].userId);
      }
      assert players[..|players|] == players;
    }

    /**
     * The part `ClearAllBroadcasts` and `RestartBroadcasts` share before
     * their kill loop: every list is emptied and every online player with a
     * list is sent the empty list.
     */
    method Blank(players: seq<Player>)
      requires Valid()
      modifies this`buckets, this`rendered
      ensures Valid() && buckets == Emptied(old(buckets))
      ensures rendered == Blanked(old(rendered), UserIds(players) * old(buckets).Keys)
    {
      EmptyLists();
      RefreshAll(players);
      var s := UserIds(players) * buckets.Keys;
      forall u | u in rendered
        ensures rendered[u] == Blanked(old(rendered), s)[u]
      {
        if u in s {
          assert View(buckets[u]) == [];
        }
      }
    }

    /**
     * `ClearAllBroadcasts`: every list is emptied (the players keep their
     * lists), every online player with a list is sent the empty text, and the
     * timers named from 0 while below `Id` are killed; the counter is kept.
     * Ids are handed out after the increment, so the newest broadcast has id
     * `Id` and its timers stay pending (see `NewestSurvivesClear`).
     */
    method ClearAllBroadcasts(players: seq<Player>)
      requires Valid()
      modifies this`buckets, this`rendered, this`timers
      ensures Valid() && buckets == Emptied(old(buckets)) && id == old(id)
      ensures rendered == Blanked(old(rendered), UserIds(players) * old(buckets).Keys)
      ensures forall u :: u in UserIds(players) * old(buckets).Keys ==> Screen(u) == Some("")
      ensures timers == KillBelow(old(timers), old(id))
      ensures Named(timers, old(id)) == Named(old(timers), old(id))
    {
      Blank(players);
      RenderEmpty(order);
      KillNames(id);
      NewestSurvivesClear(old(timers), old(id));
    }

    /**
     * `ClearAllBroadcasts` with the kill loop bound the clearing operations
     * evidently intend, `i <= Id`: the timers of every id handed out so far,
     * the newest included, are killed.
     */
    method ClearAllThroughNewest(players: seq<Player>)
      requires Valid()
      modifies this`buckets, this`rendered, this`timers
      ensures Valid() && buckets == Emptied(old(buckets)) && id == old(id)
      ensures rendered == Blanked(old(rendered), UserIds(players) * old(buckets).Keys)
      ensures timers == Cleared(old(timers), old(id))
      ensures forall x :: 0 <= x <= old(id) ==> Named(timers, x) == []
    {
      Blank(players);
      KillNames(id + 1);
      ClearedThroughNewest(old(timers), old(id));
    }

    /**
     * `RestartBroadcasts`: as `ClearAllBroadcasts`, with the same kill loop
     * below `Id`, after which the counter starts again from 0 and every
     * player's list is dropped.
     */
    method RestartBroadcasts(players: seq<Player>)
      requires Valid()
      modifies this`buckets, this`rendered, this`timers, this`id
      ensures Valid() && buckets == map[] && id == 0
      ensures rendered == Blanked(old(rendered), UserIds(players) * old(buckets).Keys)
      ensures forall u :: u in UserIds(players) * old(buckets).Keys ==> Screen(u) == Some("")
      ensures timers == KillBelow(old(timers), old(id))
      ensures Named(timers, old(id)) == Named(old(timers), old(id))
    {
      ClearAllBroadcasts(players);
      id := 0;
      buckets := map[];
    }

    /** The round-restart handler `OnRestarting`: `RestartBroadcasts`. */
    method OnRestarting(players: seq<Player>)
      requires Valid()
      modifies this`buckets, this`rendered, this`timers, this`id
      ensures Valid() && buckets == map[] && id == 0
      ensures rendered == Blanked(old(rendered), UserIds(players) * old(buckets).Keys)
      ensures timers == KillBelow(old(timers), old(id))
      ensures Named(timers, old(id)) == Named(old(timers), old(id))
    {
      RestartBroadcasts(players);
    }

    /**
     * The player-left handler `OnLeft`: a null player is ignored; otherwise
     * the player's list is dropped. Its timers keep running, and what it was
     * last sent is kept.
     */
    method OnLeft(player: Player?)
      requires Valid()
      modifies this`buckets
      ensures Valid()
      ensures buckets == if player == null then old(buckets) else old(buckets) - {player.userId}
    {
      if player == null {
        return;
      }
      buckets := buckets - {player.userId};
    }

    /**
     * `ClearPlayerBroadcasts`: when the player has a list, the ids of its
     * broadcasts are taken first, the list is emptied (the player keeps it),
     * the player is sent the empty text, and the timers of those ids are
     * killed; a player with no list changes nothing.
     */
    method ClearPlayerBroadcasts(player: Player)
      requires Valid()
      modifies this`buckets, this`rendered, this`timers
      ensures Valid()
      ensures var u := player.userId;
              if u in old(buckets) then
                buckets == old(buckets)[u := []] && Shown(old(rendered), {u}) && Screen(u) == Some("")
                && timers == KillNamed(old(timers), Ids(old(buckets[u])))
              else
                buckets == old(buckets) && rendered == old(rendered) && timers == old(timers)
    {
      var u := player.userId;
      if u !in buckets {
        return;
      }
      var bs := buckets[u];
      buckets := buckets[u := []];
      Refresh(player);
      RenderEmpty(order);
      KillEach(bs);
    }

    /**
     * `foreach (var id in ids) Timing.KillCoroutines("MBroadcast" + id)` over
     * the ids of `bs`, taken before the list was emptied.
     */
    method KillEach(bs: seq<Broadcast>)
      modifies this`timers
      ensures timers == KillNamed(old(timers), Ids(bs))
    {
      KillNamedNone(timers);
      for i := 0 to |bs|
        invariant timers == KillNamed(old(timers), Ids(bs[..i]))
      {
        KillNamedTwice(old(timers), Ids(bs[..i]), {bs[i].id});
        assert bs[..i + 1] == bs[..i] + [bs[i]];
        IdsSnoc(bs[..i], bs[i]);
        Kill(bs[i].id);
      }
      assert bs[..|bs|] == bs;
    }
  }
}
