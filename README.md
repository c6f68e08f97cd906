# MultiBroadcast, modelled in Dafny

MultiBroadcast lets a game server show several broadcasts to a player at once.
The manager keeps:

- one list of `Broadcast` objects per player, keyed by user id;
- a global `Id` counter;
- one MEC coroutine per broadcast, named `"MBroadcast" + id`. It registers the
  broadcast, waits for the broadcast's duration, then removes it.

After every change the manager re-renders the affected player. The player's
broadcasts are sorted by priority (highest first), then by id in the configured
direction. Their texts are joined with new lines.

This project models that manager, the `Broadcast` record it updates in place,
the tag auto-closer `AutoCloseTags`, and the two command helpers
`GetIntArguments` and `GetStringFromArray`.

Modules, one per file:

- `NetTypes` (nettypes.dfy): C# `int`, `ushort` and `byte` as subset types. It also has `Id++` with 32-bit wrap-around (`Inc32`, `IncN`).
- `Optional` (optional.dfy): the `Option` datatype that stands for C# `null`.
- `Strings` (strings.dfy): `string.Join` and `string.Split(char)`.
- `Entity` (broadcast.dfy): `Broadcast` as a class. `id` and `duration` are constants; `text`, `priority` and `tag` are fields the manager assigns. `Player` holds the user id and the NPC flag.
- `Rendering` (rendering.dfy): the pure part of `RefreshBroadcast`. This is LINQ's stable `OrderByDescending(Priority).ThenBy[Descending](Id)`, written as an insertion sort, followed by the join.
- `Bookkeeping` (bookkeeping.dfy): the value-level vocabulary the manager's contracts use:
  - pending timers, and `KillCoroutines` as `KillNamed`;
  - `List.Remove` as `RemoveFirst`;
  - the `Where`/`FirstOrDefault` queries;
  - the invariants that the batch loops keep.
- `MultiBroadcastApi` (multibroadcast.dfy): the static class as a `Manager` class. Its fields:
  - `buckets` is `PlayerBroadcasts`;
  - `id` is `Id`;
  - `timers` are the pending coroutines, oldest first;
  - `rendered` is what each player was last sent, as the list the renderer read.

  Every public operation is a method whose `ensures` states its new lists exactly: as a function of the old lists for the single-broadcast operations, and as a fold over the broadcasts the batch handled for the batch operations (`RemoveAll` for removals, `Swaps` for replacements). Timers are stated exactly for adds, removals and clears, and name by name for replacements: each replaced id has exactly one pending timer, its newest broadcast's, and every other name keeps its timers. The batch operations are loops, with invariants stated as predicates over the state reached so far. `Manager.Valid` says that every listed broadcast sits in its own player's list and that no list holds the same broadcast twice.
- `BroadcastUtilities` (tags.dfy): `AutoCloseTags`. The regular expression `<(\w+)(?:=[^>]*)?>` is modelled as a hand-written scanner: left to right, non-overlapping. The method keeps the source's push loop and pop loop.
- `CommandUtilities` (commands.dfy): `GetIntArguments` is a method. It splits the text, then loops over an `array<string>` that it rewrites in place, as the C# does. `int.TryParse` and `int.ToString` are functions. `GetStringFromArray` is `Join(..., ", ")`.

`RunCoroutine` runs a coroutine up to its first `yield` immediately. So an add
registers the broadcast and re-renders the player inside the adding call. The
rest of the coroutine is the separate step `Manager.Expire(k)`: the k-th pending
timer fires. The timer name `"MBroadcast" + n` is represented by the integer
`n`, because the prefix is fixed.

Quirks of the source that the model keeps as written:

- `List.Remove` and `List.Contains` compare references. Broadcasts are objects, and the lists hold those objects.
- The duration forms of `EditBroadcast` over ids and over broadcasts drop the tag. The form over a tag keeps it.
- `EditBroadcast(text, duration, params Broadcast[])` passes `duration` as the new broadcast's id and the old id as its duration (MultiBroadcast/API/MultiBroadcast.cs:325). `Manager.ReplaceRefs` states exactly this, through `Renumbered(..., swapped := true)`.
- Indexing `PlayerBroadcasts[...]` for a player without a list throws `KeyNotFoundException`. In the overloads over broadcast references this can happen, and the model returns the outcome `KeyNotFound` after the effects that came before it. In the overloads over ids and over tags it cannot happen, because a broadcast found in a list sits in its own player's list (`Manager.Valid`).
- The batch loops are not atomic. They stop with `false` at the first missing id or null reference, and the elements before it stay changed.
- `OnLeft` drops the player's list and leaves its timers pending.

## Model

| member | source | states |
|---|---|---|
| Entity.Broadcast.constructor | MultiBroadcast/API/Broadcast.cs:49-57 | every argument lands in the field of the same name; priority defaults to 0 and tag to the empty string |
| NetTypes.IncNNoWrap | MultiBroadcast/API/MultiBroadcast.cs:81 | n increments of `Id` from x give x + n as long as `int.MaxValue` is not passed |
| MultiBroadcastApi.Manager.constructor | MultiBroadcast/API/MultiBroadcast.cs:44-49 | the manager starts with no lists, counter 0, no pending coroutine and nothing sent |
| MultiBroadcastApi.Manager.Screen | MultiBroadcast/API/MultiBroadcast.cs:169-173 | a player has text on screen exactly when something was sent to them |
| MultiBroadcastApi.Manager.Present | MultiBroadcast/API/MultiBroadcast.cs:154-155 | the players a refresh sends to: the player if and only if it has a list |
| MultiBroadcastApi.Manager.Refresh | MultiBroadcast/API/MultiBroadcast.cs:150-174 | a player without a list is sent nothing; a player with one is sent exactly its current list, and every other player's text is as before |
| MultiBroadcastApi.Manager.Kill | MultiBroadcast/API/MultiBroadcast.cs:283 | `KillCoroutines(name)` leaves exactly the pending timers of every other name, in order |
| MultiBroadcastApi.Manager.Launch | MultiBroadcast/API/MultiBroadcast.cs:127-140 | the coroutine up to its wait, for a broadcast not yet in any list: one timer appended; the broadcast appended to its player's list, which is created if missing; that player re-rendered; no list holds a broadcast twice afterwards |
| MultiBroadcastApi.Manager.Expire | MultiBroadcast/API/MultiBroadcast.cs:142-147 | the fired timer is gone; its broadcast leaves the captured player's list only if that list exists and holds that very object; the player is re-rendered either way; every listed broadcast is still under its own player and no list holds one twice |
| MultiBroadcastApi.Manager.AddNew | MultiBroadcast/API/MultiBroadcast.cs:81-90 | the counter goes up by one with 32-bit wrap; a fresh broadcast carries the new id and the given player, text, duration, priority and tag; its timer is named after the new id; it is appended to its player's list, and that player is re-rendered |
| MultiBroadcastApi.Manager.AddPlayerBroadcast | MultiBroadcast/API/MultiBroadcast.cs:105-125 | a null or NPC player, or a duration of 0 or above 300, gives null and changes nothing; otherwise exactly one new broadcast with the next id, its timer, its list entry and a re-render |
| MultiBroadcastApi.Manager.AddFor | MultiBroadcast/API/MultiBroadcast.cs:79-90 | serving one more player extends the loop's progress by that player and its fresh broadcast |
| MultiBroadcastApi.Manager.AddStep | MultiBroadcast/API/MultiBroadcast.cs:73-91 | one loop turn: a null or NPC player is skipped; any other player is served; the players served are the eligible prefix of the list |
| MultiBroadcastApi.Manager.AddToEach | MultiBroadcast/API/MultiBroadcast.cs:73-92 | every non-null, non-NPC player gets its own fresh broadcast, in list order, with consecutive ids after the old counter, a timer each, its list entry and a re-render |
| MultiBroadcastApi.Manager.AddMapBroadcast | MultiBroadcast/API/MultiBroadcast.cs:60-93 | a duration of 0 or above 300 gives null and changes nothing; otherwise one broadcast per eligible player, as `AddToEach` states |
| MultiBroadcastApi.Manager.GetBroadcast | MultiBroadcast/API/MultiBroadcast.cs:507-519 | null if and only if no list holds a broadcast with that id; otherwise a listed broadcast with that id |
| MultiBroadcastApi.Manager.Collect | MultiBroadcast/API/MultiBroadcast.cs:233-236 | the flattened `Where` over all lists returns exactly the listed broadcasts that match the query |
| MultiBroadcastApi.Manager.GetBroadcasts | MultiBroadcast/API/MultiBroadcast.cs:526-544 | exactly the listed broadcasts whose id is among the given ids |
| MultiBroadcastApi.Manager.PlayerBroadcasts | MultiBroadcast/API/MultiBroadcast.cs:552-555 | a list if and only if the player has one, and every broadcast in it belongs to that player |
| MultiBroadcastApi.Manager.UpdateOne | MultiBroadcast/API/MultiBroadcast.cs:194-196 | one setter changes its own field of the broadcast and no other field, then the owner is re-rendered if it has a list |
| MultiBroadcastApi.Manager.EditStep | MultiBroadcast/API/MultiBroadcast.cs:186-197 | one batch turn adds the broadcast to those edited, and every other broadcast keeps its snapshot fields |
| MultiBroadcastApi.Manager.EditIdStep | MultiBroadcast/API/MultiBroadcast.cs:186-197 | one turn over ids: a found id is edited; a missing id means no list holds it |
| MultiBroadcastApi.Manager.UpdateByIds | MultiBroadcast/API/MultiBroadcast.cs:182-200 | `EditBroadcast(text, ids)` and `SetPriority(ids)` (lines 384-402), the only setters the source offers over ids (there is no `SetTag` over ids): true if and only if every id is held; the ids before the first missing one are applied, each to a listed broadcast with that id; every other broadcast is unchanged; lists and timers are untouched; the edited players are re-rendered |
| MultiBroadcastApi.Manager.EditRefStep | MultiBroadcast/API/MultiBroadcast.cs:210-220 | one turn over references: null stops the batch; anything else is edited |
| MultiBroadcastApi.Manager.UpdateRefs | MultiBroadcast/API/MultiBroadcast.cs:208-224 | `EditBroadcast(text, broadcasts)`, `SetPriority` (lines 410-426) and `SetTag` (lines 434-450): true if and only if no reference is null; the references before the first null are edited whether listed or not, and nothing else changes; owners with a list are re-rendered |
| MultiBroadcastApi.Manager.EditAll | MultiBroadcast/API/MultiBroadcast.cs:244-249 | the setter is applied to each collected broadcast in turn |
| MultiBroadcastApi.Manager.EditByTag | MultiBroadcast/API/MultiBroadcast.cs:232-253 | true if and only if some listed broadcast had that tag; exactly those broadcasts get the new text; nothing else changes |
| MultiBroadcastApi.Manager.Drop | MultiBroadcast/API/MultiBroadcast.cs:284 | `List.Remove` on the owner's list: its first occurrence of that object goes, and no other list changes |
| MultiBroadcastApi.Manager.Unlist | MultiBroadcast/API/MultiBroadcast.cs:284-285 | `Drop`, then the owner is re-rendered |
| MultiBroadcastApi.Manager.Schedule | MultiBroadcast/API/MultiBroadcast.cs:286-288 | `Launch`, with earlier renders kept |
| MultiBroadcastApi.Manager.Renew | MultiBroadcast/API/MultiBroadcast.cs:286-288 | the replacement broadcast keeps the old one's player and priority, takes the given text, id, duration and tag, and starts under the old id's timer name |
| MultiBroadcastApi.Manager.ReplaceOne | MultiBroadcast/API/MultiBroadcast.cs:283-288 | the old id's timers are killed, and the old broadcast is swapped for the new one at the end of the owner's list; the new broadcast's timer is named after the old id; no existing broadcast is modified |
| MultiBroadcastApi.Manager.ReplaceStep | MultiBroadcast/API/MultiBroadcast.cs:283-288 | one replacement: the owner's list loses the old broadcast and gains a fresh one at its end, with the old one's player and priority, the batch's text and tag, and (old id, new duration) or, in the `Broadcast[]` form, (new duration, old id); the lists stay the original lists with every pair so far swapped and no replaced broadcast listed; each replaced id has exactly one timer, for its newest broadcast |
| MultiBroadcastApi.Manager.ReplaceHeld | MultiBroadcast/API/MultiBroadcast.cs:283-288 | replacing a found broadcast keeps the set of ids held by some list unchanged |
| MultiBroadcastApi.Manager.ReplaceIdStep | MultiBroadcast/API/MultiBroadcast.cs:273-289 | one turn over ids: found means one more (old, new) pair, with the lists the original lists with every pair swapped, the old broadcasts gone, and each new one with the old one's id, player and priority, the new text and duration, and no tag; missing means no original list held the id and nothing was replaced |
| MultiBroadcastApi.Manager.ReplaceByIds | MultiBroadcast/API/MultiBroadcast.cs:273-292 | true if and only if every id was held; the broadcasts of the ids before the first missing one are replaced: the lists are the old lists with each of them swapped for its successor, and none of them is still listed; each successor has the old one's id, player and priority, the new text and duration, and no tag; each replaced id has exactly one timer, the successor's, and every other name keeps its timers |
| MultiBroadcastApi.Manager.ReplaceRef | MultiBroadcast/API/MultiBroadcast.cs:321-326 | one replaced reference: the new broadcast gets id = duration and duration = old id |
| MultiBroadcastApi.Manager.KillMissing | MultiBroadcast/API/MultiBroadcast.cs:321-322 | a reference whose player has no list has its timers killed before the throw, and the lists are unchanged |
| MultiBroadcastApi.Manager.ReplaceRefStep | MultiBroadcast/API/MultiBroadcast.cs:314-327 | one turn: null gives false; a player without a list gives `KeyNotFound` after the kill; otherwise the broadcast is swapped for a successor with its player and priority, id = duration and duration = old id, the new text and no tag, and it is no longer listed |
| MultiBroadcastApi.Manager.ReplaceRefs | MultiBroadcast/API/MultiBroadcast.cs:314-331 | true if and only if every reference was handled; false at the first null; `KeyNotFound` at the first reference without a list, with its timers killed; the lists are the old lists with each replaced broadcast swapped for its successor, and none of them is still listed; each successor has the old one's player and priority, id and duration swapped, the new text and no tag, and its timer is named after the old id |
| MultiBroadcastApi.Manager.ReplaceTagged | MultiBroadcast/API/MultiBroadcast.cs:363-372 | one collected broadcast is swapped for a successor with its id, player, priority and tag and the new text and duration; it is no longer listed |
| MultiBroadcastApi.Manager.ReplaceByTag | MultiBroadcast/API/MultiBroadcast.cs:351-375 | true if and only if some listed broadcast had the tag; exactly those are replaced: the lists are the old lists with each of them swapped for its successor, none of them is still listed, and each successor has the old one's id, player, priority and tag and the new text and duration |
| MultiBroadcastApi.Manager.EditByIdsTimed | MultiBroadcast/API/MultiBroadcast.cs:262-293 | duration 0: the text-only edit over ids, with lists and timers untouched; above 300: false and nothing changes; otherwise `ReplaceByIds`: the old lists with each replaced broadcast swapped for its successor (same id, player and priority), the replaced ones gone, and no existing broadcast has any field changed |
| MultiBroadcastApi.Manager.EditRefsTimed | MultiBroadcast/API/MultiBroadcast.cs:302-332 | duration 0: the text-only edit over references; above 300: false and nothing changes; otherwise `ReplaceRefs`: each replaced broadcast swapped for a successor with its player and priority and id and duration swapped, the replaced ones gone, and no existing or referenced broadcast has any field changed |
| MultiBroadcastApi.Manager.EditByTagTimed | MultiBroadcast/API/MultiBroadcast.cs:341-376 | duration 0: the text-only edit over the tag; above 300: false and nothing changes; otherwise `ReplaceByTag`: each tagged broadcast swapped for a successor with its id, player, priority and tag, the replaced ones gone, and no existing broadcast has any field changed |
| MultiBroadcastApi.Manager.Detach | MultiBroadcast/API/MultiBroadcast.cs:470 | one `List.Remove`: the lists are the original lists with every broadcast removed so far taken out of its owner's list, and none of those is still listed; the keys are kept and every other broadcast stays listed |
| MultiBroadcastApi.Manager.RemoveOne | MultiBroadcast/API/MultiBroadcast.cs:470-471 | removal followed by a re-render: the lists are the original lists minus the removed broadcasts, none of which is listed, and their owners are re-rendered |
| MultiBroadcastApi.Manager.RemoveIdStep | MultiBroadcast/API/MultiBroadcast.cs:461-473 | one turn over ids: a found broadcast has its timers killed and leaves its list, so the lists are the original lists minus the removed broadcasts; a missing id is held by no list |
| MultiBroadcastApi.Manager.RemoveByIds | MultiBroadcast/API/MultiBroadcast.cs:457-476 | true if and only if every id was found; the found broadcasts had their timers killed; the lists are the old lists with each of them taken out, and none of them is still listed; every other broadcast stays listed; at a false return the first missing id is held by no list |
| MultiBroadcastApi.Manager.RemoveRefStep | MultiBroadcast/API/MultiBroadcast.cs:485-497 | one turn: null gives false with timers untouched; otherwise the timers are killed first, then a player without a list gives `KeyNotFound`, and a player with one loses the broadcast, which is then listed nowhere, and is re-rendered |
| MultiBroadcastApi.Manager.RemoveRefs | MultiBroadcast/API/MultiBroadcast.cs:483-500 | true if and only if every reference was removed; false at the first null; `KeyNotFound` at the first reference whose player has no list, with that reference's timers killed as well; the lists are the old lists with each removed broadcast taken out, and none of them is still listed |
| MultiBroadcastApi.Manager.KillNames | MultiBroadcast/API/MultiBroadcast.cs:594 | the kill loop leaves exactly the timers whose name is not in 0 .. n-1 |
| MultiBroadcastApi.Manager.KillNext | MultiBroadcast/API/MultiBroadcast.cs:594 | one turn of that loop |
| MultiBroadcastApi.Manager.EmptyLists | MultiBroadcast/API/MultiBroadcast.cs:588 | every player keeps a list, and every list is empty |
| MultiBroadcastApi.Manager.RefreshShown | MultiBroadcast/API/MultiBroadcast.cs:150-174 | a refresh with earlier renders carried along |
| MultiBroadcastApi.Manager.RefreshAll | MultiBroadcast/API/MultiBroadcast.cs:590 | every online player with a list is sent its current list, and everybody else's text is as before |
| MultiBroadcastApi.Manager.Blank | MultiBroadcast/API/MultiBroadcast.cs:588-590 | every list is emptied, and every online player with a list is sent the empty list |
| MultiBroadcastApi.Manager.ClearAllBroadcasts | MultiBroadcast/API/MultiBroadcast.cs:586-595 | as written: the lists are emptied but kept; each online player with a list now shows ""; the counter is kept; the loop `i < Id` kills the timers named 0 .. `Id` - 1, and the newest broadcast's timers (name `Id`) stay pending (see Findings) |
| MultiBroadcastApi.Manager.ClearAllThroughNewest | MultiBroadcast/API/MultiBroadcast.cs:586-595 | the corrected clear (`i <= Id`): the same lists, screens and counter, and no timer named 0 through `Id` is left |
| MultiBroadcastApi.Manager.RestartBroadcasts | MultiBroadcast/API/MultiBroadcast.cs:569-581 | as written: the clear of `ClearAllBroadcasts` with its `i < Id` bound, so the newest broadcast's timers stay pending; then no player has a list and the counter is 0, so the next add gets id 1 |
| MultiBroadcastApi.Manager.OnRestarting | MultiBroadcast/API/MultiBroadcast.cs:25-29 | the round-restart handler is `RestartBroadcasts`, with the same surviving timers |
| MultiBroadcastApi.Manager.OnLeft | MultiBroadcast/API/MultiBroadcast.cs:31-37 | a null player changes nothing; otherwise only that player's list is dropped (timers untouched) |
| MultiBroadcastApi.Manager.ClearPlayerBroadcasts | MultiBroadcast/API/MultiBroadcast.cs:601-612 | a player with a list keeps an emptied list, shows "", and loses exactly the timers of the ids its list held; a player without a list changes nothing; no other list changes |
| MultiBroadcastApi.Manager.KillEach | MultiBroadcast/API/MultiBroadcast.cs:610 | the per-id kill loop leaves exactly the timers not named after those ids |
| Bookkeeping.FirstIndex | MultiBroadcast/API/MultiBroadcast.cs:145 | the index `List.Remove` uses: an occurrence, with none before it |
| Bookkeeping.RemoveFirst | MultiBroadcast/API/MultiBroadcast.cs:145 | `List.Remove`: no element is gained; every other element is kept; an absent element leaves the list as it is; exactly one element goes when present |
| Bookkeeping.RemoveFirstOne | MultiBroadcast/API/MultiBroadcast.cs:145 | as multisets, `List.Remove` takes away exactly one occurrence |
| Bookkeeping.RemoveFirstCons | MultiBroadcast/API/MultiBroadcast.cs:145 | `List.Remove` of an element other than the head keeps the head and removes from the tail |
| Bookkeeping.RemoveFirstGone | MultiBroadcast/API/MultiBroadcast.cs:145 | on a list without repeats, `List.Remove` leaves no occurrence of the element and no repeats |
| Bookkeeping.DistinctAppended | MultiBroadcast/API/MultiBroadcast.cs:135-138 | appending an element the list does not hold keeps it without repeats |
| Bookkeeping.NoRepeatsAppended | MultiBroadcast/API/MultiBroadcast.cs:135-138 | appending a new broadcast to its player's list keeps every list free of repeats |
| Bookkeeping.NoRepeatsRemoved | MultiBroadcast/API/MultiBroadcast.cs:145 | removing a broadcast keeps every list free of repeats, and the broadcast is no longer in its list |
| Bookkeeping.FindId | MultiBroadcast/API/MultiBroadcast.cs:512-513 | `FirstOrDefault` by id over one list: absent if and only if no broadcast has the id; otherwise an index holding it |
| Bookkeeping.KillNamed | MultiBroadcast/API/MultiBroadcast.cs:283 | after killing a set of names, every remaining timer is one of the old ones with a name outside the set, and every such old timer remains |
| Bookkeeping.KillNamedNone | MultiBroadcast/API/MultiBroadcast.cs:283 | killing no names changes nothing |
| Bookkeeping.KillNamedTwice | MultiBroadcast/API/MultiBroadcast.cs:469 | successive kills of two name sets equal one kill of their union |
| Bookkeeping.NamedAfterKill | MultiBroadcast/API/MultiBroadcast.cs:283 | a killed name has no timer left; every other name keeps all its timers |
| Bookkeeping.Restarted | MultiBroadcast/API/MultiBroadcast.cs:283-288 | kill-then-run under one name leaves exactly one timer under it, the new one, and other names unchanged |
| Bookkeeping.NamedAppend | MultiBroadcast/API/MultiBroadcast.cs:286-288 | the timers of a name in two concatenated lists are those of each list, in order |
| Bookkeeping.KillBelowStep | MultiBroadcast/API/MultiBroadcast.cs:594 | each turn of the clearing kill loop extends the killed range by one name |
| Bookkeeping.KillBelowNone | MultiBroadcast/API/MultiBroadcast.cs:594 | with a counter at or below 0 the loop kills nothing |
| Bookkeeping.NamedAfterKillBelow | MultiBroadcast/API/MultiBroadcast.cs:594 | after the loop to n, names 0 .. n-1 have no timers, and all other names keep theirs |
| Bookkeeping.NewestSurvivesClear | MultiBroadcast/API/MultiBroadcast.cs:594 | as written (`i < Id`), the newest broadcast's timers survive the clear |
| Bookkeeping.ClearedThroughNewest | MultiBroadcast/API/MultiBroadcast.cs:594 | with the bound corrected, names 0 through `Id` have no timers left, and every other name keeps its timers |
| Bookkeeping.Eligible | MultiBroadcast/API/MultiBroadcast.cs:75-77 | the served players are no more than the given ones, and none is an NPC |
| Bookkeeping.EligibleSnoc | MultiBroadcast/API/MultiBroadcast.cs:75-77 | eligibility decides one player at a time, in list order |
| Bookkeeping.TimersFor | MultiBroadcast/API/MultiBroadcast.cs:86-88 | one timer per new broadcast |
| Bookkeeping.TimersForSnoc | MultiBroadcast/API/MultiBroadcast.cs:86-88 | one more broadcast adds its timer, named after its id, at the end |
| Bookkeeping.AppendAllSnoc | MultiBroadcast/API/MultiBroadcast.cs:135-138 | one more broadcast is appended to its player's list, which is created if missing |
| Bookkeeping.MadeSnoc | MultiBroadcast/API/MultiBroadcast.cs:83 | every broadcast made by the loop carries its player and the given text, duration, priority and tag |
| Bookkeeping.NumberedSnoc | MultiBroadcast/API/MultiBroadcast.cs:81-83 | the k-th broadcast made has the id of the k-th `Id++` |
| Bookkeeping.UserIdsSnoc | MultiBroadcast/API/MultiBroadcast.cs:73 | one more player adds its user id |
| Bookkeeping.Named | MultiBroadcast/API/MultiBroadcast.cs:283 | the timers under a name all carry that name and are pending |
| Bookkeeping.IdsSnoc | MultiBroadcast/API/MultiBroadcast.cs:469 | one more removed broadcast adds its id to the killed names |
| Bookkeeping.FoundPrefix | MultiBroadcast/API/MultiBroadcast.cs:186-192 | where an id batch stops: every id before it is held, and the id at it is not |
| Bookkeeping.PrefixFound | MultiBroadcast/API/MultiBroadcast.cs:186-199 | a batch that found broadcasts for its ids and stopped at a missing one stopped at `FoundPrefix`; it handled all of them if and only if every id is held |
| Bookkeeping.PrefixHeld | MultiBroadcast/API/MultiBroadcast.cs:273-292 | the same for the replacement batch, whose lists keep the same ids |
| Bookkeeping.FoundForSnoc | MultiBroadcast/API/MultiBroadcast.cs:186-197 | one more found broadcast extends the found prefix |
| Bookkeeping.HeldSnoc | MultiBroadcast/API/MultiBroadcast.cs:275-288 | one more held id extends the replaced prefix |
| Bookkeeping.ListedHasId | MultiBroadcast/API/MultiBroadcast.cs:512-513 | a listed broadcast's id is one that some list holds |
| Bookkeeping.NonNullPrefix | MultiBroadcast/API/MultiBroadcast.cs:212-216 | where a reference batch stops: every reference before it is non-null, and the one at it is null |
| Bookkeeping.RefsDoneSnoc | MultiBroadcast/API/MultiBroadcast.cs:212-220 | one more non-null reference extends the handled prefix |
| Bookkeeping.NullStop | MultiBroadcast/API/MultiBroadcast.cs:212-223 | a reference batch that stopped at a null stopped at `NonNullPrefix`; it handled all of them if and only if none is null |
| Bookkeeping.OwnedAppended | MultiBroadcast/API/MultiBroadcast.cs:135-138 | appending a broadcast to its own player's list keeps every listed broadcast under its own player |
| Bookkeeping.OwnedRemoved | MultiBroadcast/API/MultiBroadcast.cs:145 | `List.Remove` keeps the same invariant |
| Bookkeeping.OwnedSwapped | MultiBroadcast/API/MultiBroadcast.cs:284-288 | so does a replacement |
| Bookkeeping.WithinRemoved | MultiBroadcast/API/MultiBroadcast.cs:470 | a removal lists nothing new |
| Bookkeeping.KeptRemoved | MultiBroadcast/API/MultiBroadcast.cs:470 | a removal keeps every broadcast other than the removed ones listed |
| Bookkeeping.RemoveAll | MultiBroadcast/API/MultiBroadcast.cs:470 | the lists after a batch of `List.Remove`s, one per removed broadcast on its owner's list: the same players keep lists |
| Bookkeeping.RemoveAllSnoc | MultiBroadcast/API/MultiBroadcast.cs:470 | one more removal extends the batch by one `List.Remove` |
| Bookkeeping.RemoveAllCounts | MultiBroadcast/API/MultiBroadcast.cs:470 | as multisets, each list loses exactly the removed broadcasts of its player, once each |
| Bookkeeping.RemoveAllGone | MultiBroadcast/API/MultiBroadcast.cs:470 | on lists without repeats, no removed broadcast is listed afterwards, and the lists stay without repeats |
| Bookkeeping.GoneRemoved | MultiBroadcast/API/MultiBroadcast.cs:470 | one more removal keeps the removed ones unlisted and adds the new one |
| Bookkeeping.KeptSwapped | MultiBroadcast/API/MultiBroadcast.cs:284-288 | a replacement keeps every broadcast other than the replaced ones listed |
| Bookkeeping.HasIdReplaced | MultiBroadcast/API/MultiBroadcast.cs:284-288 | replacing a broadcast by one with the same id leaves the set of held ids as it was |
| Bookkeeping.Swap | MultiBroadcast/API/MultiBroadcast.cs:284-288 | a replacement keeps the set of players with lists |
| Bookkeeping.SwapInTwo | MultiBroadcast/API/MultiBroadcast.cs:284-288 | remove-then-append on one list is the swap |
| Bookkeeping.Swaps | MultiBroadcast/API/MultiBroadcast.cs:284-288 | the lists after a batch of replacements, each old broadcast swapped for its new one: the same players keep lists |
| Bookkeeping.SwapsSnoc | MultiBroadcast/API/MultiBroadcast.cs:284-288 | one more replacement extends the batch by one swap |
| Bookkeeping.GoneSwapped | MultiBroadcast/API/MultiBroadcast.cs:284-288 | a swap for a fresh broadcast of the same player keeps the replaced ones unlisted, adds the old one, and keeps the lists without repeats |
| Bookkeeping.SameIdsSwapped | MultiBroadcast/API/MultiBroadcast.cs:284-288 | swapping a broadcast for one with the same id keeps the ids the lists hold |
| Bookkeeping.AllListedSwapped | MultiBroadcast/API/MultiBroadcast.cs:284-288 | the newest replacements stay listed across later replacements in the batch |
| Bookkeeping.RescheduledStart | MultiBroadcast/API/MultiBroadcast.cs:273 | before the first replacement, every name keeps its timers |
| Bookkeeping.RescheduledStep | MultiBroadcast/API/MultiBroadcast.cs:283-288 | kill then run under a name leaves one timer under it, for the new broadcast with the new duration |
| Bookkeeping.RescheduledKill | MultiBroadcast/API/MultiBroadcast.cs:321-322 | a kill with no run leaves that name with no timer |
| Bookkeeping.RebuiltSwapped | MultiBroadcast/API/MultiBroadcast.cs:283-288 | one replacement keeps the lists-and-timers invariant of a replacement batch |
| Bookkeeping.RenumberedStep | MultiBroadcast/API/MultiBroadcast.cs:325 | the new broadcasts carry (old id, new duration) as at line 287, or (new duration, old id) with the `Broadcast[]` form at line 325 |
| Bookkeeping.SucceededSnoc | MultiBroadcast/API/MultiBroadcast.cs:286-287 | the new broadcast of a replacement has the old one's player and priority and the batch's text and tag |
| Bookkeeping.ApartSnoc | MultiBroadcast/API/MultiBroadcast.cs:283-288 | a new broadcast is none of the broadcasts the batch still has to replace |
| Bookkeeping.ApplyOnce | MultiBroadcast/API/MultiBroadcast.cs:194 | each setter (`Text` here, `Priority` at line 396, `Tag` at line 444) is idempotent and touches only its own field |
| Bookkeeping.Filter | MultiBroadcast/API/MultiBroadcast.cs:235-236 | `Where` over one list: every result matches and is in the list, every match in the list is in the result, and the result is no longer than the list; order and multiplicity are stated by `FilterAppend` and `FilterCounts` |
| Bookkeeping.FilterAppend | MultiBroadcast/API/MultiBroadcast.cs:235-236 | `Where` keeps list order: filtering a concatenation is filtering each part, in order |
| Bookkeeping.FilterCounts | MultiBroadcast/API/MultiBroadcast.cs:235-236 | `Where` keeps each matching broadcast exactly as often as the list holds it, and no other broadcast |
| Bookkeeping.Emptied | MultiBroadcast/API/MultiBroadcast.cs:588 | clearing the lists keeps every player's key |
| Bookkeeping.Blanked | MultiBroadcast/API/MultiBroadcast.cs:590 | the players refreshed after a clear are added to those sent something |
| Rendering.Insert | MultiBroadcast/API/MultiBroadcast.cs:157-167 | inserting adds exactly that one entry (as multisets) |
| Rendering.InsertSorted | MultiBroadcast/API/MultiBroadcast.cs:157-167 | insertion keeps the order |
| Rendering.SortSorts | MultiBroadcast/API/MultiBroadcast.cs:157-167 | the result is ordered by priority, then by id in the configured direction |
| Rendering.SortPermutes | MultiBroadcast/API/MultiBroadcast.cs:157-167 | the result is a permutation of the player's list |
| Rendering.SortIsStable | MultiBroadcast/API/MultiBroadcast.cs:157-167 | entries with equal priority and id keep their list order (LINQ's sort is stable) |
| Rendering.PriorityThenId | MultiBroadcast/API/MultiBroadcast.cs:157-167 | at any two positions, priority does not increase; at equal priority ids decrease (Descending) or increase (Ascending) |
| Rendering.InsertStable | MultiBroadcast/API/MultiBroadcast.cs:157-167 | insertion appends the new entry after those with its key |
| Rendering.InsertTailStable | MultiBroadcast/API/MultiBroadcast.cs:157-167 | the same, past the head |
| Rendering.ConsStable | MultiBroadcast/API/MultiBroadcast.cs:157-167 | stability survives putting an entry in front |
| Rendering.SortedTail | MultiBroadcast/API/MultiBroadcast.cs:157-167 | the tail of an ordered list is ordered |
| Rendering.AboveHeadNoSameKey | MultiBroadcast/API/MultiBroadcast.cs:157-167 | an entry placed above the head shares its key with nothing in the list |
| Rendering.WithKeyAppend | MultiBroadcast/API/MultiBroadcast.cs:157-167 | the entries with a key in a concatenation are those of each part, in order |
| Rendering.WithKeyNone | MultiBroadcast/API/MultiBroadcast.cs:157-167 | no entry with the key gives none |
| Rendering.Texts | MultiBroadcast/API/MultiBroadcast.cs:169 | `Select(b => b.Text)`: one text per broadcast, in order |
| Rendering.RenderEmpty | MultiBroadcast/API/MultiBroadcast.cs:169 | an existing but empty list renders "" |
| Rendering.RenderLines | MultiBroadcast/API/MultiBroadcast.cs:157-169 | splitting the rendered text on new lines gives the texts in sorted order: no leading or trailing separator (texts without new lines) |
| Rendering.ExamplePriorities | MultiBroadcast/API/MultiBroadcast.cs:157-167 | priorities 1, 3, 2 are shown as 3, 2, 1 in either direction |
| Strings.IndexOf | MultiBroadcast/Commands/Utilties.cs:19 | the first occurrence of the separator |
| Strings.Split | MultiBroadcast/Commands/Utilties.cs:19 | `Split` always yields at least one piece |
| Strings.IndexOfAfterPrefix | MultiBroadcast/Commands/Utilties.cs:19 | the first separator after a separator-free prefix sits right after it |
| Strings.IndexOfFirst | MultiBroadcast/Commands/Utilties.cs:19 | a separator with none before it is the one found |
| Strings.SplitAt | MultiBroadcast/Commands/Utilties.cs:19 | splitting at the first separator: its prefix, then the split of the rest |
| Strings.SplitJoin | MultiBroadcast/Commands/Utilties.cs:19 | `Split` undoes `Join` on pieces without the separator |
| Strings.SplitTrailing | MultiBroadcast/Commands/Utilties.cs:19 | a trailing separator produces an empty piece |
| Strings.SplitDouble | MultiBroadcast/Commands/Utilties.cs:19 | two separators in a row produce an empty piece |
| CommandUtilities.TrimStart | MultiBroadcast/Commands/Utilties.cs:23 | after trimming, no leading white space is left |
| CommandUtilities.TrimEnd | MultiBroadcast/Commands/Utilties.cs:23 | after trimming, no trailing white space is left |
| CommandUtilities.TrimNuls | MultiBroadcast/Commands/Utilties.cs:23 | the trailing run of `'\0'` characters `TryParse` accepts after a number: what is left does not end in one |
| CommandUtilities.TrimNulsPrefix | MultiBroadcast/Commands/Utilties.cs:23 | what is left is a prefix of the text, and everything dropped is `'\0'` |
| CommandUtilities.TrimNothing | MultiBroadcast/Commands/Utilties.cs:23 | text with no white space at either end is left as it is |
| CommandUtilities.NatToStringDigits | MultiBroadcast/Commands/Utilties.cs:29 | `ToString` of a natural number is a non-empty digit run whose value is the number |
| CommandUtilities.ParseToString | MultiBroadcast/Commands/Utilties.cs:23-29 | `TryParse(x.ToString())` is x for every `int`: `ToString` and `TryParse` are inverse |
| CommandUtilities.ParseNonNegative | MultiBroadcast/Commands/Utilties.cs:23-29 | the same for x ≥ 0 |
| CommandUtilities.ParseNegative | MultiBroadcast/Commands/Utilties.cs:23-29 | the same for x < 0 |
| CommandUtilities.ParseSkipsLeadingWhite | MultiBroadcast/Commands/Utilties.cs:23 | leading white space does not change what `TryParse` reads |
| CommandUtilities.NulsAfterWhite | MultiBroadcast/Commands/Utilties.cs:23 | trailing `'\0'`s are taken from the text after a white prefix, never from the prefix |
| CommandUtilities.TrailingNul | MultiBroadcast/Commands/Utilties.cs:23 | `"1\0"` parses as 1: a `'\0'` may follow the digits |
| CommandUtilities.NulsAfterTrailingWhite | MultiBroadcast/Commands/Utilties.cs:23 | `"12 \0\0"` parses as 12: `'\0'`s may follow the trailing white space |
| CommandUtilities.WhiteAfterNulFails | MultiBroadcast/Commands/Utilties.cs:23 | `"1\0 "` and `"\0"` do not parse: only `'\0'`s may come last, and digits are still needed |
| CommandUtilities.TrimStartWhite | MultiBroadcast/Commands/Utilties.cs:23 | trimming drops a leading run of white space |
| CommandUtilities.ParseTokens | MultiBroadcast/Commands/Utilties.cs:21-33 | succeeds if and only if every token parses; then one value per token, in order, each what `TryParse` gives |
| CommandUtilities.GetIntArguments | MultiBroadcast/Commands/Utilties.cs:17-34 | true if and only if every '.'-separated token is an `int`; then the values in token order; otherwise false and an empty array |
| CommandUtilities.Canonicalize | MultiBroadcast/Commands/Utilties.cs:21-30 | the rewrite loop: false if and only if some token does not parse; otherwise each slot holds the decimal form of its token's value |
| CommandUtilities.ParseAll | MultiBroadcast/Commands/Utilties.cs:32 | `Select(int.Parse)`: one value per piece, the one `TryParse` gives |
| CommandUtilities.ParseTokensAll | MultiBroadcast/Commands/Utilties.cs:32-33 | tokens that all parse give exactly their values |
| CommandUtilities.IntStrings | MultiBroadcast/Commands/Utilties.cs:29 | the decimal forms, one per element, in order |
| CommandUtilities.ParseIdListRoundTrip | MultiBroadcast/Commands/Utilties.cs:17-34 | printing a non-empty id list joined by '.' and parsing it back gives the list |
| CommandUtilities.NoSeparatorInNumber | MultiBroadcast/Commands/Utilties.cs:29 | a printed `int` holds neither '.' nor ',' |
| CommandUtilities.EmptyTokenFails | MultiBroadcast/Commands/Utilties.cs:19-26 | any empty token fails the whole parse |
| CommandUtilities.EmptyTextFails | MultiBroadcast/Commands/Utilties.cs:19-26 | empty input fails |
| CommandUtilities.TrailingDotFails | MultiBroadcast/Commands/Utilties.cs:19-26 | a trailing '.' fails |
| CommandUtilities.DoubleDotFails | MultiBroadcast/Commands/Utilties.cs:19-26 | ".." anywhere fails |
| CommandUtilities.PrefixSpaces | MultiBroadcast/Commands/Utilties.cs:44 | each part with a space in front |
| CommandUtilities.JoinCommaSpace | MultiBroadcast/Commands/Utilties.cs:44 | joining with ", " is joining with "," after giving each later part a leading space |
| CommandUtilities.JoinSpaceFirst | MultiBroadcast/Commands/Utilties.cs:44 | a leading space on the first part comes out in front of the join |
| CommandUtilities.PrintedListSplitsOnComma | MultiBroadcast/Commands/Utilties.cs:42-45 | `GetStringFromArray` of a non-empty `int` list, split on ',' and parsed, gives the list back; so the separator is exactly ", " between elements, none before or after |
| CommandUtilities.PrintedListNotReparsable | MultiBroadcast/Commands/Utilties.cs:17-45 | `GetIntArguments` rejects a list of two ids printed by `GetStringFromArray` |
| CommandUtilities.GetStringFromArray | MultiBroadcast/Commands/Utilties.cs:42-45 | `string.Join(", ", array)` over the printed `int`s: empty exactly for an empty array; its round trip is `PrintedListSplitsOnComma`, and `PrintedListNotReparsable` shows `GetIntArguments` cannot read it back |
| CommandUtilities.CommaNeverParses | MultiBroadcast/Commands/Utilties.cs:23 | no text with a comma parses as an `int` |
| CommandUtilities.TrimKeepsNonWhite | MultiBroadcast/Commands/Utilties.cs:23 | trimming keeps every character that is not white space |
| CommandUtilities.TrimEndKeepsNonWhite | MultiBroadcast/Commands/Utilties.cs:23 | the same for the end |
| BroadcastUtilities.WordEnd | MultiBroadcast/API/BroadcastUtilities.cs:18 | greedy `\w+`: the longest run of word characters |
| BroadcastUtilities.AngleFrom | MultiBroadcast/API/BroadcastUtilities.cs:18 | `[^>]*>`: the first '>' from a position, or none |
| BroadcastUtilities.MatchAt | MultiBroadcast/API/BroadcastUtilities.cs:18-25 | a match starts with '<' and ends with '>'; its name is the non-empty word run right after '<', and any `=value` part is not in it |
| BroadcastUtilities.AutoCloseTags | MultiBroadcast/API/BroadcastUtilities.cs:16-35 | the output is the input followed by the closers of the stacked names; the input is a prefix; the output equals the input if and only if nothing matches |
| BroadcastUtilities.ClosingTagsEmpty | MultiBroadcast/API/BroadcastUtilities.cs:28-32 | nothing is appended if and only if the stack is empty |
| BroadcastUtilities.Reverse | MultiBroadcast/API/BroadcastUtilities.cs:28-32 | reversal keeps the length |
| BroadcastUtilities.ReverseSnoc | MultiBroadcast/API/BroadcastUtilities.cs:28-32 | the last element pushed comes first in the reversal |
| BroadcastUtilities.CloseEachAppend | MultiBroadcast/API/BroadcastUtilities.cs:28-32 | the closers of a concatenation are those of each part |
| BroadcastUtilities.ClosingTagsReversed | MultiBroadcast/API/BroadcastUtilities.cs:21-32 | the appended text is one closer per match, in reverse order of the openers |
| BroadcastUtilities.FirstOpenedClosedLast | MultiBroadcast/API/BroadcastUtilities.cs:21-32 | the first tag opened is closed last |
| BroadcastUtilities.ClosingTagNeverMatches | MultiBroadcast/API/BroadcastUtilities.cs:18 | "</" never starts a match, since '/' is not a word character |
| BroadcastUtilities.NoAngleNoMatch | MultiBroadcast/API/BroadcastUtilities.cs:23-34 | text without '<' has no match and comes back unchanged |
| BroadcastUtilities.WordEndExtend | MultiBroadcast/API/BroadcastUtilities.cs:18 | a word run that ends inside the text ends there in every extension |
| BroadcastUtilities.AngleFromExtend | MultiBroadcast/API/BroadcastUtilities.cs:18 | a '>' found inside the text is found there in every extension |
| BroadcastUtilities.NameExtend | MultiBroadcast/API/BroadcastUtilities.cs:18 | a tag name and the character after it read the same in every extension |
| BroadcastUtilities.MatchAtExtend | MultiBroadcast/API/BroadcastUtilities.cs:18 | a match is still found, unchanged, in every extension of the text |
| BroadcastUtilities.MatchesSurviveExtension | MultiBroadcast/API/BroadcastUtilities.cs:23 | appending text never removes every match |
| BroadcastUtilities.NotIdempotent | MultiBroadcast/API/BroadcastUtilities.cs:16-35 | running it twice on text with a tag appends closers again |
| BroadcastUtilities.ExampleBold | MultiBroadcast/API/BroadcastUtilities.cs:16-35 | "<b>hi" becomes "<b>hi</b>" |
| BroadcastUtilities.NestedOuterMatch | MultiBroadcast/API/BroadcastUtilities.cs:18 | "<color=red>" matches with name "color", and the value is excluded |
| BroadcastUtilities.NestedInnerMatch | MultiBroadcast/API/BroadcastUtilities.cs:23 | the search resumes after the first match's '>' and finds "b" |
| BroadcastUtilities.NestedMatches | MultiBroadcast/API/BroadcastUtilities.cs:23-26 | the names pushed for "<color=red>x<b>y" are "color", then "b" |
| BroadcastUtilities.ExampleNested | MultiBroadcast/API/BroadcastUtilities.cs:16-35 | "<color=red>x<b>y" becomes "...</b></color>" |
| BroadcastUtilities.ClosingTagsOfOne | MultiBroadcast/API/BroadcastUtilities.cs:28-32 | popping one name appends its closer |
| BroadcastUtilities.ClosingTagsOfTwo | MultiBroadcast/API/BroadcastUtilities.cs:28-32 | popping two names closes the second first |
| BroadcastUtilities.ExampleBalanced | MultiBroadcast/API/BroadcastUtilities.cs:16-35 | already balanced "<b>x</b>" still gets an extra "</b>" |

## Left out

- Real time and coroutine scheduling: the wait is not modelled. A pending timer fires only when `Manager.Expire` is called for it, and any pending timer may fire next.
- The display transport (`TargetClearElements`/`TargetAddElement`, MultiBroadcast/API/MultiBroadcast.cs:171-173) is an external call. The model records what the renderer read in `rendered`, and `Rendering.Render` gives the text sent.
- `Log.Debug` calls, the static constructor's event subscriptions, and the plugin's enable and disable. `OnRestarting` and `OnLeft` are plain methods.
- The configuration: the sort direction is a constructor parameter, which covers both `IsDependency` and `Plugin.Instance.Config.Order`. The configuration enum spells its member `Desending`; Config.cs is not part of this model.
- `Player.List` is a parameter (`players`) of the operations that read it.
- Dictionary enumeration order is not specified by .NET, so it is left open. `GetBroadcast` and `Collect` visit the lists in an arbitrary order.
- MultiBroadcastApi.Manager.GetBroadcast: states only that the result is some listed broadcast with the id, not the first one in enumeration order. When two broadcasts share an id (possible after 32-bit wrap-around or the `Broadcast[]` edit's swapped id), which one is found is left open.
- MultiBroadcastApi.Manager.GetBroadcasts: states which broadcasts are returned, as a set, not their order.
- MultiBroadcastApi.Manager.Collect: states which broadcasts are returned, as a set, not their order.
- MultiBroadcastApi.Manager.Refresh: records only the last render per player. The intermediate renders inside a batch are not part of the state.
- `GetAllBroadcasts` (MultiBroadcast/API/MultiBroadcast.cs:561-564) hands out the live dictionary, so callers can change it through aliasing. It is not modelled.
- The extension-method wrappers (MultiBroadcast/API/MultiBroadcast.cs:618-712) are one-line delegations to the modelled operations.
- `Broadcast.Player` has a setter, but nothing in the core assigns it, so it is a constant here.
- Null arguments the C# would dereference (`RefreshBroadcast(null)`, `ClearPlayerBroadcasts(null)`) throw `NullReferenceException` there. In the model those parameters have a non-null type.
- CommandUtilities.GetStringFromArray: modelled only for the `int` arrays the commands print, not for an arbitrary `IEnumerable<T>`. Its properties are stated by `PrintedListSplitsOnComma` and `PrintedListNotReparsable`.
- `int.TryParse` is modelled with invariant-culture signs, the white space of `NumberStyles.Integer` and the run of `'\0'` characters .NET accepts at the end of the text. Culture-specific sign symbols are not modelled.
- `\w` is ASCII letters, digits and `_` only. .NET's `\w` also matches other Unicode letters and digits.
- Strings.SplitTrailing: states only that an empty piece exists, not that it is the last piece.
- `Rendering.SortEntries` is an insertion sort, not LINQ's algorithm. Only the result matters: it is ordered, a permutation, and stable.

## Findings

| source | as written | input that shows it | evidently intended | confidence | as-written member | corrected member |
|---|---|---|---|---|---|---|
| MultiBroadcast/API/MultiBroadcast.cs:594 (and :577) | the kill loop runs `for (i = 0; i < Id; i++)`, but ids are handed out by `Id++` before use, so they run 1 .. `Id` | on a fresh manager one `AddPlayerBroadcast` (so `Id` becomes 1), then `ClearAllBroadcasts`: the loop kills only `"MBroadcast0"`, and the timer `"MBroadcast1"` stays pending | kill every name up to and including `Id` (`i <= Id`) | not executed | Bookkeeping.NewestSurvivesClear, MultiBroadcastApi.Manager.ClearAllBroadcasts | Bookkeeping.ClearedThroughNewest, MultiBroadcastApi.Manager.ClearAllThroughNewest |

The manager's `ClearAllBroadcasts`, `RestartBroadcasts` and `OnRestarting` keep
the bound as written (`Bookkeeping.KillBelow`); `Manager.ClearAllThroughNewest`
is the clear with the corrected bound (`Bookkeeping.Cleared`).
