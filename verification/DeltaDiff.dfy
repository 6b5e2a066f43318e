// The fast diff of an incremental delta, and exactly when it reports what applying the delta reports.
module DeltaDiff {
  import opened Results
  import opened UserSync

  datatype ListDiff = ListDiff(deleted: seq<UserInfo>, added: seq<UserInfo>, updated: seq<UserInfo>)

  const NO_DIFF := ListDiff([], [], [])

  function DiffOf(r: DeltaResult): ListDiff {
    ListDiff(r.deletedApplied, r.added, r.updated)
  }

  // What the fast diff has seen: the upserts not yet matched, and the deletions and updates found.
  datatype Matching = Matching(rest: UserMap, deleted: seq<UserInfo>, updated: seq<UserInfo>) {
    function See(gone: set<Uuid>, user: UserInfo): Matching {
      if user.uuid in gone then this.(deleted := deleted + [user])
      else if user.uuid in rest then
        var now := rest[user.uuid];
        this.(rest := rest - {user.uuid}, updated := if Changed(user, now) then updated + [now] else updated)
      else this
    }
  }

  function SeeAll(before: seq<UserInfo>, gone: set<Uuid>, upsert: seq<UserInfo>): Matching {
    if before == [] then Matching(ByUuid(upsert), [], [])
    else SeeAll(before[..|before| - 1], gone, upsert).See(gone, before[|before| - 1])
  }

  function FastDiff(before: seq<UserInfo>, deleted: seq<UserInfo>, upsert: seq<UserInfo>): ListDiff {
    var m := SeeAll(before, Uuids(deleted), upsert);
    ListDiff(m.deleted, Values(m.rest), m.updated)
  }

  method CompareIncrementalDelta(before: seq<UserInfo>, deleted: seq<UserInfo>, upsert: seq<UserInfo>)
    returns (diff: ListDiff)
    ensures diff == FastDiff(before, deleted, upsert)
  {
    var gone := Uuids(deleted);
    var rest := CollectByUuid(upsert);
    var found: seq<UserInfo>, updated: seq<UserInfo> := [], [];
    for i := 0 to |before|
      invariant Matching(rest, found, updated) == SeeAll(before[..i], gone, upsert)
    {
      assert before[..i + 1][..i] == before[..i];
      var user := before[i];
      if user.uuid in gone {
        found := found + [user];
        continue;
      }
      if user.uuid in rest {
        var now := rest[user.uuid];
        rest := rest - {user.uuid};
        if Changed(user, now) {
          updated := updated + [now];
        }
      }
    }
    assert before[..|before|] == before;
    diff := ListDiff(found, Values(rest), updated);
  }

  // ----- The fast diff, one uuid at a time -----

  function OneIfChanged(was: UserInfo, now: UserInfo): seq<UserInfo> {
    if Changed(was, now) then [now] else []
  }

  // What the fast diff has found under one uuid, given the old users and the upserts that carry it.
  predicate SeenUnder(uuid: Uuid, gone: bool, held: seq<UserInfo>, sent: seq<UserInfo>, m: Matching) {
    && Of(m.deleted, uuid) == (if gone then held else [])
    && Lookup(m.rest, uuid) == (if gone || held == [] then Latest(sent, None) else None)
    && Of(m.updated, uuid) ==
       (if gone || held == [] || sent == [] then [] else OneIfChanged(held[0], sent[|sent| - 1]))
  }

  // Seeing a user with another uuid changes nothing under this one.
  lemma SeeOther(uuid: Uuid, gone: set<Uuid>, m: Matching, user: UserInfo)
    requires user.uuid != uuid && Keyed(m.rest)
    ensures var m' := m.See(gone, user);
            && Of(m'.deleted, uuid) == Of(m.deleted, uuid)
            && Of(m'.updated, uuid) == Of(m.updated, uuid)
            && Lookup(m'.rest, uuid) == Lookup(m.rest, uuid)
  {
    OfSnoc(m.deleted, user, uuid);
    if user.uuid in m.rest {
      OfSnoc(m.updated, m.rest[user.uuid], uuid);
    }
    hide Of, Changed;
  }

  lemma SeeSame(uuid: Uuid, gone: set<Uuid>, m: Matching, user: UserInfo)
    requires user.uuid == uuid && Keyed(m.rest)
    ensures var m', now := m.See(gone, user), Lookup(m.rest, uuid);
            && Of(m'.deleted, uuid) == Of(m.deleted, uuid) + (if uuid in gone then [user] else [])
            && Lookup(m'.rest, uuid) == (if uuid in gone then now else None)
            && Of(m'.updated, uuid) ==
               Of(m.updated, uuid) + (if uuid in gone || now.None? then [] else OneIfChanged(user, now.value))
  {
    OfSnoc(m.deleted, user, uuid);
    if uuid in m.rest {
      OfSnoc(m.updated, m.rest[uuid], uuid);
    }
    hide Of, Changed;
  }

  lemma SeeUnder(uuid: Uuid, gone: set<Uuid>, held: seq<UserInfo>, sent: seq<UserInfo>, m: Matching, user: UserInfo)
    requires SeenUnder(uuid, uuid in gone, held, sent, m) && Keyed(m.rest)
    ensures Keyed(m.See(gone, user).rest)
    ensures SeenUnder(uuid, uuid in gone, held + if user.uuid == uuid then [user] else [], sent, m.See(gone, user))
  {
    assert Keyed(m.See(gone, user).rest);
    hide Of, OneIfChanged, Matching.See, Lookup, Keyed;
    if user.uuid == uuid {
      SeeSame(uuid, gone, m, user);
      assert held != [] ==> (held + [user])[0] == held[0];
    } else {
      SeeOther(uuid, gone, m, user);
      assert held + [] == held;
    }
  }

  lemma {:induction false} SeeAllUnder(before: seq<UserInfo>, gone: set<Uuid>, upsert: seq<UserInfo>, uuid: Uuid)
    ensures Keyed(SeeAll(before, gone, upsert).rest)
    ensures SeenUnder(uuid, uuid in gone, Of(before, uuid), Of(upsert, uuid), SeeAll(before, gone, upsert))
  {
    if before == [] {
      InsertAllKeys(map[], upsert);
      InsertAllKeepsTheLatest(map[], upsert, uuid);
    } else {
      var init, last := before[..|before| - 1], before[|before| - 1];
      SeeAllUnder(init, gone, upsert, uuid);
      hide SeenUnder, Keyed, Matching.See;
      SeeUnder(uuid, gone, Of(init, uuid), Of(upsert, uuid), SeeAll(init, gone, upsert), last);
    }
  }

  lemma ValuesAreDistinct(users: UserMap)
    requires Keyed(users)
    ensures DistinctUuids(Values(users))
  {
    hide Values, DistinctUuids, Keyed;
    ValuesAreTheMap(users);
    SortedIsDistinct(Values(users));
  }

  /** Reading one uuid from a map's values finds the user the map holds for it, once. */
  lemma {:induction false} OfValues(users: UserMap, uuid: Uuid)
    requires Keyed(users)
    ensures Of(Values(users), uuid) == if uuid in users then [users[uuid]] else []
  {
    hide Values, DistinctUuids, Keyed, ListsMap, Of, InsertAll;
    ValuesAreTheMap(users);
    ValuesAreDistinct(users);
    OfDistinct(Values(users), uuid);
    InsertAllKeepsTheLatest(map[], Values(users), uuid);
  }

  lemma SortedIsDistinct(list: seq<UserInfo>)
    requires SortedByUuid(list)
    ensures DistinctUuids(list)
  {
    forall i, j | 0 <= i < j < |list| ensures list[i].uuid != list[j].uuid {
      LessIsTotal(list[i].uuid, list[j].uuid);
    }
  }

  // ----- Applying the delta, one uuid at a time -----

  /** The values a sequence of upserts changes to, starting from the user held before them, if any. */
  function Changes(held: Option<UserInfo>, sent: seq<UserInfo>): seq<UserInfo> {
    if sent == [] then []
    else
      var init, last := sent[..|sent| - 1], sent[|sent| - 1];
      var was := Latest(init, held);
      Changes(held, init) + if was.Some? then OneIfChanged(was.value, last) else []
  }

  lemma ChangesSnoc(held: Option<UserInfo>, sent: seq<UserInfo>, user: UserInfo)
    ensures var was := Latest(sent, held);
            Changes(held, sent + [user]) ==
            Changes(held, sent) + if was.Some? then OneIfChanged(was.value, user) else []
  {
    assert (sent + [user])[..|sent|] == sent;
  }

  predicate UpsertedUnder(uuid: Uuid, held: Option<UserInfo>, sent: seq<UserInfo>, a: Applied) {
    && Lookup(a.next, uuid) == Latest(sent, held)
    && Of(a.added, uuid) == (if held.None? && sent != [] then [sent[0]] else [])
    && Of(a.updated, uuid) == Changes(held, sent)
  }

  lemma UpsertOther(uuid: Uuid, a: Applied, user: UserInfo)
    requires user.uuid != uuid
    ensures var a' := a.Upsert(user);
            && Of(a'.added, uuid) == Of(a.added, uuid) && Of(a'.updated, uuid) == Of(a.updated, uuid)
            && Lookup(a'.next, uuid) == Lookup(a.next, uuid)
  {
    OfSnoc(a.added, user, uuid);
    OfSnoc(a.updated, user, uuid);
    hide Of, Changed;
  }

  lemma UpsertSame(uuid: Uuid, a: Applied, user: UserInfo)
    requires user.uuid == uuid
    ensures var a', was := a.Upsert(user), Lookup(a.next, uuid);
            && Of(a'.added, uuid) == Of(a.added, uuid) + (if was.None? then [user] else [])
            && Of(a'.updated, uuid) ==
               Of(a.updated, uuid) + (if was.Some? then OneIfChanged(was.value, user) else [])
            && Lookup(a'.next, uuid) == Some(user)
  {
    OfSnoc(a.added, user, uuid);
    OfSnoc(a.updated, user, uuid);
    hide Of, Changed;
  }

  lemma UpsertUnder(uuid: Uuid, held: Option<UserInfo>, sent: seq<UserInfo>, a: Applied, user: UserInfo)
    requires UpsertedUnder(uuid, held, sent, a)
    ensures UpsertedUnder(uuid, held, sent + if user.uuid == uuid then [user] else [], a.Upsert(user))
  {
    hide Of, Applied.Upsert, Lookup, OneIfChanged, Changes;
    if user.uuid == uuid {
      UpsertSame(uuid, a, user);
      ChangesSnoc(held, sent, user);
      assert sent != [] ==> (sent + [user])[0] == sent[0];
    } else {
      UpsertOther(uuid, a, user);
      assert sent + [] == sent;
    }
  }

  lemma {:induction false} UpsertAllUnder(start: Applied, upsert: seq<UserInfo>, uuid: Uuid)
    requires start.added == [] && start.updated == []
    ensures UpsertedUnder(uuid, Lookup(start.next, uuid), Of(upsert, uuid), UpsertAll(start, upsert))
    ensures UpsertAll(start, upsert).deletedApplied == start.deletedApplied
  {
    if upsert != [] {
      var init, last := upsert[..|upsert| - 1], upsert[|upsert| - 1];
      UpsertAllUnder(start, init, uuid);
      hide UpsertedUnder;
      UpsertUnder(uuid, Lookup(start.next, uuid), Of(init, uuid), UpsertAll(start, init), last);
    }
  }

  // What deleting has left and reported under one uuid.
  predicate DeletedUnder(uuid: Uuid, was: Option<UserInfo>, gone: bool, a: Applied) {
    && Lookup(a.next, uuid) == (if gone then None else was)
    && Of(a.deletedApplied, uuid) == if was.Some? && gone then [was.value] else []
  }

  lemma DeleteUnder(uuid: Uuid, was: Option<UserInfo>, gone: bool, a: Applied, user: UserInfo)
    requires Keyed(a.next) && DeletedUnder(uuid, was, gone, a)
    ensures Keyed(a.Delete(user).next) && DeletedUnder(uuid, was, gone || user.uuid == uuid, a.Delete(user))
  {
    if user.uuid in a.next {
      OfSnoc(a.deletedApplied, a.next[user.uuid], uuid);
    }
    hide Of;
  }

  lemma {:induction false} DeleteAllUnder(before: UserMap, deleted: seq<UserInfo>, uuid: Uuid)
    requires Keyed(before)
    ensures var a := DeleteAll(before, deleted);
            && Keyed(a.next) && a.added == [] && a.updated == []
            && DeletedUnder(uuid, Lookup(before, uuid), uuid in Uuids(deleted), a)
  {
    if deleted != [] {
      var init, last := deleted[..|deleted| - 1], deleted[|deleted| - 1];
      DeleteAllUnder(before, init, uuid);
      UuidsSnoc(init, last);
      assert deleted == init + [last];
      hide Uuids, Keyed, DeletedUnder;
      DeleteUnder(uuid, Lookup(before, uuid), uuid in Uuids(init), DeleteAll(before, init), last);
    }
  }

  // ----- Multisets, one uuid at a time -----

  lemma {:induction false} OfCounts(list: seq<UserInfo>, user: UserInfo)
    ensures multiset(Of(list, user.uuid))[user] == multiset(list)[user]
  {
    if list != [] {
      var init, last := list[..|list| - 1], list[|list| - 1];
      OfCounts(init, user);
      assert list == init + [last];
    }
  }

  lemma OfForeign(list: seq<UserInfo>, uuid: Uuid, user: UserInfo)
    requires user.uuid != uuid
    ensures multiset(Of(list, uuid))[user] == 0
  {
    assert user !in Of(list, uuid);
  }

  predicate SameUnder(a: seq<UserInfo>, b: seq<UserInfo>, uuid: Uuid) {
    multiset(Of(a, uuid)) == multiset(Of(b, uuid))
  }

  lemma EqualIsSameUnder(a: seq<UserInfo>, b: seq<UserInfo>, uuid: Uuid)
    requires multiset(a) == multiset(b)
    ensures SameUnder(a, b, uuid)
  {
    forall user ensures multiset(Of(a, uuid))[user] == multiset(Of(b, uuid))[user] {
      if user.uuid == uuid {
        OfCounts(a, user);
        OfCounts(b, user);
      } else {
        OfForeign(a, uuid, user);
        OfForeign(b, uuid, user);
      }
    }
  }

  /** Two lists hold the same users just when they do under each uuid. */
  lemma SameUnderEach(a: seq<UserInfo>, b: seq<UserInfo>)
    ensures multiset(a) == multiset(b) <==> forall uuid :: SameUnder(a, b, uuid)
  {
    if multiset(a) == multiset(b) {
      forall uuid ensures SameUnder(a, b, uuid) {
        EqualIsSameUnder(a, b, uuid);
      }
    }
    if forall uuid :: SameUnder(a, b, uuid) {
      forall user ensures multiset(a)[user] == multiset(b)[user] {
        OfCounts(a, user);
        OfCounts(b, user);
        assert SameUnder(a, b, user.uuid);
      }
      assert multiset(a) == multiset(b);
    }
  }

  // ----- When the two agree -----

  predicate AllSame(sent: seq<UserInfo>) {
    forall i :: 0 <= i < |sent| ==> sent[i] == sent[0]
  }

  /** The upserts stay at the user already held, or move once to the last of them and stay there. */
  predicate MovesOnce(held: UserInfo, sent: seq<UserInfo>) {
    sent != [] ==>
      var now := sent[|sent| - 1];
      && (forall i :: 0 <= i < |sent| ==> sent[i] == held || sent[i] == now)
      && (forall i, j :: 0 <= i < j < |sent| && sent[i] == now ==> sent[j] == now)
  }

  /**
   * What a caller can check about one uuid: an old user being deleted is listed once; upserts of a uuid that is
   * not (or no longer) held all say the same; upserts of a held uuid change it at most once, and not between two
   * different old copies of it.
   */
  predicate Agreeable(gone: bool, held: seq<UserInfo>, sent: seq<UserInfo>) {
    && (gone ==> |held| <= 1)
    && (if gone || held == [] then AllSame(sent)
        else
          var last := held[|held| - 1];
          && MovesOnce(last, sent)
          && (sent != [] ==> (held[0] == sent[|sent| - 1] <==> last == sent[|sent| - 1])))
  }

  predicate AllOf(uuid: Uuid, list: seq<UserInfo>) {
    forall i :: 0 <= i < |list| ==> list[i].uuid == uuid
  }

  lemma {:induction false} NoChangesFromHeld(uuid: Uuid, held: UserInfo, sent: seq<UserInfo>)
    requires held.uuid == uuid && AllOf(uuid, sent)
    ensures Changes(Some(held), sent) == [] <==> forall i :: 0 <= i < |sent| ==> sent[i] == held
  {
    if sent != [] {
      NoChangesFromHeld(uuid, held, sent[..|sent| - 1]);
    }
  }

  lemma {:induction false} NoChangesFromNothing(uuid: Uuid, sent: seq<UserInfo>)
    requires AllOf(uuid, sent)
    ensures Changes(None, sent) == [] <==> AllSame(sent)
  {
    if sent != [] {
      NoChangesFromNothing(uuid, sent[..|sent| - 1]);
    }
  }

  lemma {:induction false} MovingOnceChangesOnce(uuid: Uuid, held: UserInfo, sent: seq<UserInfo>)
    requires held.uuid == uuid && AllOf(uuid, sent) && sent != [] && MovesOnce(held, sent)
    ensures Changes(Some(held), sent) == OneIfChanged(held, sent[|sent| - 1])
  {
    var init, now := sent[..|sent| - 1], sent[|sent| - 1];
    if init == [] {
    } else if init[|init| - 1] == now {
      MovingOnceChangesOnce(uuid, held, init);
    } else {
      NoChangesFromHeld(uuid, held, init);
    }
  }

  lemma MovesOnceAndStays(held: UserInfo, init: seq<UserInfo>, now: UserInfo)
    requires init != [] && MovesOnce(held, init) && init[|init| - 1] == now
    ensures MovesOnce(held, init + [now])
  {
    var sent := init + [now];
    forall i | 0 <= i < |sent| ensures sent[i] == held || sent[i] == now {
      assert i < |init| ==> sent[i] == init[i];
    }
    forall i, j | 0 <= i < j < |sent| && sent[i] == now ensures sent[j] == now {
      assert sent[i] == init[i];
      assert j < |init| ==> sent[j] == init[j];
    }
  }

  lemma StaysThenMoves(held: UserInfo, init: seq<UserInfo>, now: UserInfo)
    requires forall i :: 0 <= i < |init| ==> init[i] == held
    requires init != [] ==> held != now
    ensures MovesOnce(held, init + [now])
  {
    var sent := init + [now];
    assert forall i :: 0 <= i < |init| ==> sent[i] == init[i];
  }

  lemma {:induction false} ChangingOnceMovesOnce(uuid: Uuid, held: UserInfo, sent: seq<UserInfo>)
    requires held.uuid == uuid && AllOf(uuid, sent) && |Changes(Some(held), sent)| <= 1
    ensures MovesOnce(held, sent)
  {
    if sent != [] {
      hide MovesOnce;
      var init, now := sent[..|sent| - 1], sent[|sent| - 1];
      assert sent == init + [now];
      if init != [] && init[|init| - 1] == now {
        ChangingOnceMovesOnce(uuid, held, init);
        MovesOnceAndStays(held, init, now);
      } else {
        NoChangesFromHeld(uuid, held, init);
        StaysThenMoves(held, init, now);
      }
    }
  }

  lemma SameAsOne<T>(list: seq<T>, one: seq<T>)
    requires |one| <= 1 && multiset(list) == multiset(one)
    ensures |list| == |one|
  {
    assert |multiset(list)| == |list| && |multiset(one)| == |one|;
  }

  lemma OneIfDifferent(uuid: Uuid, a: UserInfo, b: UserInfo, now: UserInfo)
    requires a.uuid == b.uuid == now.uuid == uuid
    ensures multiset(OneIfChanged(a, now)) == multiset(OneIfChanged(b, now)) <==> (a == now <==> b == now)
  {
    assert multiset([now])[now] == 1 && multiset([])[now] == 0;
  }

  lemma {:induction false} UpdatesAgreeWhenSent(uuid: Uuid, first: UserInfo, last: UserInfo, sent: seq<UserInfo>)
    requires first.uuid == last.uuid == uuid && sent != [] && AllOf(uuid, sent)
    ensures var now := sent[|sent| - 1];
            multiset(Changes(Some(last), sent)) == multiset(OneIfChanged(first, now))
            <==> MovesOnce(last, sent) && (first == now <==> last == now)
  {
    hide MovesOnce, Changes, OneIfChanged;
    var now := sent[|sent| - 1];
    if MovesOnce(last, sent) {
      MovingOnceChangesOnce(uuid, last, sent);
      OneIfDifferent(uuid, first, last, now);
    } else if multiset(Changes(Some(last), sent)) == multiset(OneIfChanged(first, now)) {
      AtMostOne(first, now);
      SameAsOne(Changes(Some(last), sent), OneIfChanged(first, now));
      ChangingOnceMovesOnce(uuid, last, sent);
      assert false;
    }
  }

  lemma AtMostOne(was: UserInfo, now: UserInfo)
    ensures |OneIfChanged(was, now)| <= 1
  {
  }

  lemma {:induction false} UpdatesAgree(uuid: Uuid, held: seq<UserInfo>, sent: seq<UserInfo>)
    requires held != [] && AllOf(uuid, held) && AllOf(uuid, sent)
    ensures var last := held[|held| - 1];
            multiset(Changes(Some(last), sent)) ==
            multiset(if sent == [] then [] else OneIfChanged(held[0], sent[|sent| - 1]))
            <==> Agreeable(false, held, sent)
  {
    if sent != [] {
      hide MovesOnce, Changes, OneIfChanged;
      UpdatesAgreeWhenSent(uuid, held[0], held[|held| - 1], sent);
    }
  }

  lemma {:induction false} AdditionsAgree(uuid: Uuid, sent: seq<UserInfo>)
    requires AllOf(uuid, sent)
    ensures && multiset(Changes(None, sent)) == multiset([])
            && multiset(if sent == [] then [] else [sent[0]]) ==
               multiset(if sent == [] then [] else [sent[|sent| - 1]])
            <==> AllSame(sent)
  {
    NoChangesFromNothing(uuid, sent);
    hide Changes;
    if multiset(Changes(None, sent)) == multiset([]) {
      SameAsOne(Changes(None, sent), []);
    }
  }

  lemma DeletionsAgree(held: seq<UserInfo>)
    ensures multiset(held) == multiset(if held == [] then [] else [held[|held| - 1]]) <==> |held| <= 1
  {
    if held != [] {
      var one := [held[|held| - 1]];
      if multiset(held) == multiset(one) {
        SameAsOne(held, one);
      } else {
        assert |held| == 1 ==> held == one;
      }
    }
  }

  predicate DiffsSameUnder(a: ListDiff, b: ListDiff, uuid: Uuid) {
    SameUnder(a.deleted, b.deleted, uuid) && SameUnder(a.added, b.added, uuid) && SameUnder(a.updated, b.updated, uuid)
  }

  // What the fast diff reports under one uuid.
  predicate FastReport(uuid: Uuid, gone: bool, held: seq<UserInfo>, sent: seq<UserInfo>, d: ListDiff) {
    && Of(d.deleted, uuid) == (if gone then held else [])
    && Of(d.added, uuid) == (if (gone || held == []) && sent != [] then [sent[|sent| - 1]] else [])
    && Of(d.updated, uuid) ==
       (if gone || held == [] || sent == [] then [] else OneIfChanged(held[0], sent[|sent| - 1]))
  }

  // What applying the delta reports under one uuid.
  predicate AppliedReport(uuid: Uuid, gone: bool, held: seq<UserInfo>, sent: seq<UserInfo>, d: ListDiff) {
    var was := if gone then None else Latest(held, None);
    && Of(d.deleted, uuid) == (if gone && held != [] then [held[|held| - 1]] else [])
    && Of(d.added, uuid) == (if was.None? && sent != [] then [sent[0]] else [])
    && Of(d.updated, uuid) == Changes(was, sent)
  }

  lemma FastReports(before: seq<UserInfo>, deleted: seq<UserInfo>, upsert: seq<UserInfo>, uuid: Uuid)
    ensures FastReport(uuid, uuid in Uuids(deleted), Of(before, uuid), Of(upsert, uuid),
                       FastDiff(before, deleted, upsert))
  {
    var m := SeeAll(before, Uuids(deleted), upsert);
    SeeAllUnder(before, Uuids(deleted), upsert, uuid);
    OfValues(m.rest, uuid);
    hide Of, SeeAll, Uuids, Keyed, Values, OneIfChanged;
  }

  lemma AppliedReports(before: seq<UserInfo>, deleted: seq<UserInfo>, upsert: seq<UserInfo>, uuid: Uuid)
    ensures AppliedReport(uuid, uuid in Uuids(deleted), Of(before, uuid), Of(upsert, uuid),
                          DiffOf(ApplyDelta(before, deleted, upsert)))
  {
    assert Keyed(map[]);
    hide Of, InsertAll, DeleteAll, UpsertAll, Changes, Uuids, Keyed, Values, UpsertedUnder, AppliedReport;
    InsertAllKeys(map[], before);
    InsertAllKeepsTheLatest(map[], before, uuid);
    var m := ByUuid(before);
    var a := DeleteAll(m, deleted);
    DeleteAllUnder(m, deleted, uuid);
    UpsertAllUnder(a, upsert, uuid);
    AppliedUnder(uuid, uuid in Uuids(deleted), Of(before, uuid), Of(upsert, uuid), UpsertAll(a, upsert),
                 if uuid in Uuids(deleted) then None else Lookup(m, uuid));
  }

  lemma AppliedUnder(
    uuid: Uuid, gone: bool, held: seq<UserInfo>, sent: seq<UserInfo>, a: Applied, was: Option<UserInfo>)
    requires was == if gone then None else Latest(held, None)
    requires Of(a.deletedApplied, uuid) == if gone && held != [] then [held[|held| - 1]] else []
    requires UpsertedUnder(uuid, was, sent, a)
    ensures AppliedReport(uuid, gone, held, sent, ListDiff(a.deletedApplied, a.added, a.updated))
  {
    hide Of, Changes;
  }

  lemma FreshReportsAgree(
    uuid: Uuid, gone: bool, held: seq<UserInfo>, sent: seq<UserInfo>, a: ListDiff, b: ListDiff)
    requires AllOf(uuid, sent) && (gone || held == [])
    requires FastReport(uuid, gone, held, sent, a) && AppliedReport(uuid, gone, held, sent, b)
    ensures DiffsSameUnder(a, b, uuid) <==> Agreeable(gone, held, sent)
  {
    hide Of, Changes, AllSame, MovesOnce, OneIfChanged;
    if gone {
      DeletionsAgree(held);
    }
    AdditionsAgree(uuid, sent);
  }

  lemma HeldReportsAgree(uuid: Uuid, held: seq<UserInfo>, sent: seq<UserInfo>, a: ListDiff, b: ListDiff)
    requires AllOf(uuid, held) && AllOf(uuid, sent) && held != []
    requires FastReport(uuid, false, held, sent, a) && AppliedReport(uuid, false, held, sent, b)
    ensures DiffsSameUnder(a, b, uuid) <==> Agreeable(false, held, sent)
  {
    hide Of, Changes, OneIfChanged, Agreeable;
    UpdatesAgree(uuid, held, sent);
  }

  lemma ReportsAgree(uuid: Uuid, gone: bool, held: seq<UserInfo>, sent: seq<UserInfo>, a: ListDiff, b: ListDiff)
    requires AllOf(uuid, held) && AllOf(uuid, sent)
    requires FastReport(uuid, gone, held, sent, a) && AppliedReport(uuid, gone, held, sent, b)
    ensures DiffsSameUnder(a, b, uuid) <==> Agreeable(gone, held, sent)
  {
    hide FastReport, AppliedReport, DiffsSameUnder, Agreeable, AllOf;
    if gone || held == [] {
      FreshReportsAgree(uuid, gone, held, sent, a, b);
    } else {
      HeldReportsAgree(uuid, held, sent, a, b);
    }
  }

  predicate AgreeableUnder(before: seq<UserInfo>, deleted: seq<UserInfo>, upsert: seq<UserInfo>, uuid: Uuid) {
    Agreeable(uuid in Uuids(deleted), Of(before, uuid), Of(upsert, uuid))
  }

  lemma AgreeUnder(before: seq<UserInfo>, deleted: seq<UserInfo>, upsert: seq<UserInfo>, uuid: Uuid)
    ensures DiffsSameUnder(FastDiff(before, deleted, upsert), DiffOf(ApplyDelta(before, deleted, upsert)), uuid)
            <==> AgreeableUnder(before, deleted, upsert, uuid)
  {
    FastReports(before, deleted, upsert, uuid);
    AppliedReports(before, deleted, upsert, uuid);
    hide FastReport, AppliedReport, FastDiff, ApplyDelta, DiffsSameUnder, Agreeable, Uuids;
    ReportsAgree(uuid, uuid in Uuids(deleted), Of(before, uuid), Of(upsert, uuid),
                 FastDiff(before, deleted, upsert), DiffOf(ApplyDelta(before, deleted, upsert)));
  }

  predicate SameReports(a: ListDiff, b: ListDiff) {
    && multiset(a.deleted) == multiset(b.deleted)
    && multiset(a.added) == multiset(b.added)
    && multiset(a.updated) == multiset(b.updated)
  }

  lemma SameReportsUnderEach(a: ListDiff, b: ListDiff)
    ensures SameReports(a, b) <==> forall uuid :: DiffsSameUnder(a, b, uuid)
  {
    SameUnderEach(a.deleted, b.deleted);
    SameUnderEach(a.added, b.added);
    SameUnderEach(a.updated, b.updated);
    hide SameUnder;
    if forall uuid :: DiffsSameUnder(a, b, uuid) {
      forall uuid
        ensures SameUnder(a.deleted, b.deleted, uuid)
        ensures SameUnder(a.added, b.added, uuid)
        ensures SameUnder(a.updated, b.updated, uuid)
      {
        assert DiffsSameUnder(a, b, uuid);
      }
    }
  }

  /** The fast diff reports what applying the delta reports exactly when every uuid is agreeable. */
  lemma FastDiffAgreesExactly(before: seq<UserInfo>, deleted: seq<UserInfo>, upsert: seq<UserInfo>)
    ensures SameReports(FastDiff(before, deleted, upsert), DiffOf(ApplyDelta(before, deleted, upsert)))
            <==> forall uuid :: AgreeableUnder(before, deleted, upsert, uuid)
  {
    var a, b := FastDiff(before, deleted, upsert), DiffOf(ApplyDelta(before, deleted, upsert));
    forall uuid
      ensures DiffsSameUnder(a, b, uuid) <==> AgreeableUnder(before, deleted, upsert, uuid)
    {
      AgreeUnder(before, deleted, upsert, uuid);
    }
    SameReportsUnderEach(a, b);
    hide DiffsSameUnder, SameReports, AgreeableUnder, FastDiff, ApplyDelta;
  }

  lemma DistinctIsAgreeable(gone: bool, held: seq<UserInfo>, sent: seq<UserInfo>)
    requires |held| <= 1 && |sent| <= 1
    ensures Agreeable(gone, held, sent)
  {
  }

  /**
   * With distinct uuids among the old users and among the upserts the fast diff always agrees, even for a uuid
   * both deleted and upserted.
   */
  lemma FastDiffAgrees(before: seq<UserInfo>, deleted: seq<UserInfo>, upsert: seq<UserInfo>)
    requires DistinctUuids(before) && DistinctUuids(upsert)
    ensures SameReports(FastDiff(before, deleted, upsert), DiffOf(ApplyDelta(before, deleted, upsert)))
  {
    FastDiffAgreesExactly(before, deleted, upsert);
    hide Agreeable, SameReports, FastDiff, ApplyDelta, Uuids, Of;
    forall uuid ensures AgreeableUnder(before, deleted, upsert, uuid) {
      OfDistinct(before, uuid);
      OfDistinct(upsert, uuid);
      DistinctIsAgreeable(uuid in Uuids(deleted), Of(before, uuid), Of(upsert, uuid));
    }
  }

  /** A uuid upserted twice with different values: applying reports the first as added, the fast diff the second. */
  lemma RepeatedUpsertsDisagree(user: UserInfo, later: UserInfo)
    requires user.uuid == later.uuid && Changed(user, later)
    ensures ApplyDelta([], [], [user, later]).added == [user] && ApplyDelta([], [], [user, later]).updated == [later]
    ensures FastDiff([], [], [user, later]) == ListDiff([], [later], [])
  {
    var upsert := [user, later];
    assert upsert[..1] == [user] && upsert[..1][..0] == [];
    InsertAllKeys(map[], upsert);
    var rest := ByUuid(upsert);
    assert rest == map[user.uuid := later];
    OneValue(later);
    var start := DeleteAll(ByUuid([]), []);
    assert UpsertAll(start, []) == start;
    assert UpsertAll(start, [user]) == start.Upsert(user);
    assert UpsertAll(start, upsert) == start.Upsert(user).Upsert(later);
  }

  lemma OneValue(user: UserInfo)
    ensures Values(map[user.uuid := user]) == [user]
  {
    var m := map[user.uuid := user];
    assert LeastKey(m.Keys) == user.uuid;
    assert m - {user.uuid} == map[];
  }
}
