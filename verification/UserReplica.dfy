// The replica of a node's users: whole-list comparison, delta bodies, and convergence with the panel.
module UserReplica {
  import opened Results
  import opened UserSync
  import opened DeltaDiff

  // ----- Comparing two whole lists -----

  datatype Comparing = Comparing(rest: UserMap, added: seq<UserInfo>, updated: seq<UserInfo>) {
    function See(user: UserInfo): Comparing {
      if user.uuid in rest then
        var was := rest[user.uuid];
        this.(rest := rest - {user.uuid}, updated := if Changed(was, user) then updated + [user] else updated)
      else this.(added := added + [user])
    }
  }

  function CompareAll(before: seq<UserInfo>, now: seq<UserInfo>): Comparing {
    if now == [] then Comparing(ByUuid(before), [], [])
    else CompareAll(before, now[..|now| - 1]).See(now[|now| - 1])
  }

  function CompareLists(before: seq<UserInfo>, now: seq<UserInfo>): ListDiff {
    var c := CompareAll(before, now);
    ListDiff(Values(c.rest), c.added, c.updated)
  }

  method CompareUserList(before: seq<UserInfo>, now: seq<UserInfo>) returns (diff: ListDiff)
    ensures diff == CompareLists(before, now)
  {
    var rest := CollectByUuid(before);
    var added: seq<UserInfo>, updated: seq<UserInfo> := [], [];
    for i := 0 to |now|
      invariant Comparing(rest, added, updated) == CompareAll(before, now[..i])
    {
      assert now[..i + 1][..i] == now[..i];
      var user := now[i];
      if user.uuid !in rest {
        added := added + [user];
        continue;
      }
      var was := rest[user.uuid];
      rest := rest - {user.uuid};
      if Changed(was, user) {
        updated := updated + [user];
      }
    }
    assert now[..|now|] == now;
    diff := ListDiff(Values(rest), added, updated);
  }

  // What comparing has found under one uuid, given the old user and the new users that carry it.
  predicate ComparedUnder(uuid: Uuid, was: Option<UserInfo>, now: seq<UserInfo>, c: Comparing) {
    && Lookup(c.rest, uuid) == (if now == [] then was else None)
    && Of(c.added, uuid) == (if was.Some? && now != [] then now[1..] else now)
    && Of(c.updated, uuid) == (if was.Some? && now != [] then OneIfChanged(was.value, now[0]) else [])
  }

  lemma CompareUnder(uuid: Uuid, was: Option<UserInfo>, now: seq<UserInfo>, c: Comparing, user: UserInfo)
    requires Keyed(c.rest) && ComparedUnder(uuid, was, now, c)
    ensures Keyed(c.See(user).rest)
    ensures ComparedUnder(uuid, was, now + if user.uuid == uuid then [user] else [], c.See(user))
  {
    OfSnoc(c.added, user, uuid);
    OfSnoc(c.updated, user, uuid);
    hide Of, Changed;
    if user.uuid == uuid {
      assert now != [] ==> (now + [user])[1..] == now[1..] + [user];
    } else {
      assert now + [] == now;
    }
  }

  lemma {:induction false} CompareAllUnder(before: seq<UserInfo>, now: seq<UserInfo>, uuid: Uuid)
    ensures Keyed(CompareAll(before, now).rest)
    ensures ComparedUnder(uuid, Lookup(ByUuid(before), uuid), Of(now, uuid), CompareAll(before, now))
  {
    if now == [] {
      InsertAllKeys(map[], before);
    } else {
      var init, last := now[..|now| - 1], now[|now| - 1];
      CompareAllUnder(before, init, uuid);
      hide ComparedUnder, Keyed, Comparing.See;
      CompareUnder(uuid, Lookup(ByUuid(before), uuid), Of(init, uuid), CompareAll(before, init), last);
    }
  }

  // The whole-list diff under one uuid.
  predicate ListReport(uuid: Uuid, was: Option<UserInfo>, now: seq<UserInfo>, d: ListDiff) {
    && (uuid in Uuids(d.deleted) <==> was.Some? && now == [])
    && Of(d.added, uuid) == (if was.Some? && now != [] then now[1..] else now)
    && Of(d.updated, uuid) == (if was.Some? && now != [] then OneIfChanged(was.value, now[0]) else [])
  }

  lemma {:induction false} CompareReports(before: seq<UserInfo>, now: seq<UserInfo>, uuid: Uuid)
    ensures ListReport(uuid, Lookup(ByUuid(before), uuid), Of(now, uuid), CompareLists(before, now))
  {
    CompareAllUnder(before, now, uuid);
    var c := CompareAll(before, now);
    OfValues(c.rest, uuid);
    OfIsEmpty(Values(c.rest), uuid);
    hide Of, Values, CompareAll, InsertAll, Keyed, OneIfChanged, Uuids;
  }

  // ----- Feeding the diff back -----

  lemma RebuildUnder(uuid: Uuid, was: Option<UserInfo>, now: seq<UserInfo>, d: ListDiff)
    requires ListReport(uuid, was, now, d)
    requires was.Some? ==> was.value.uuid == uuid
    requires AllOf(uuid, now)
    ensures Latest(Of(d.updated, uuid) + Of(d.added, uuid), if uuid in Uuids(d.deleted) then None else was)
            == Latest(now, None)
  {
    hide Of, Uuids;
  }

  /** The diff of two lists, deletions then updates then additions, rebuilds the new list's map from the old one. */
  lemma DiffRebuilds(before: seq<UserInfo>, now: seq<UserInfo>)
    ensures var d := CompareLists(before, now);
            ByUuid(ApplyDelta(before, d.deleted, d.updated + d.added).next) == ByUuid(now)
  {
    var d := CompareLists(before, now);
    var next := ByUuid(ApplyDelta(before, d.deleted, d.updated + d.added).next);
    InsertAllKeys(map[], before);
    hide CompareLists, ApplyDelta, Of, Uuids, ListReport;
    forall uuid ensures Lookup(next, uuid) == Lookup(ByUuid(now), uuid) {
      CompareReports(before, now, uuid);
      DeltaLookup(before, d.deleted, d.updated + d.added, uuid);
      OfConcat(d.updated, d.added, uuid);
      InsertAllKeepsTheLatest(map[], now, uuid);
      RebuildUnder(uuid, Lookup(ByUuid(before), uuid), Of(now, uuid), d);
    }
    SameLookupsSameMap(next, ByUuid(now));
  }

  /** The first new user under a held uuid either says nothing new or is also the last. */
  predicate FirstIsLast(before: seq<UserInfo>, now: seq<UserInfo>, uuid: Uuid) {
    var was, found := Lookup(ByUuid(before), uuid), Of(now, uuid);
    was.Some? && found != [] && Changed(was.value, found[0]) ==> found[0] == found[|found| - 1]
  }

  lemma RebuildAddedFirstUnder(uuid: Uuid, was: Option<UserInfo>, now: seq<UserInfo>, d: ListDiff)
    requires ListReport(uuid, was, now, d)
    requires was.Some? ==> was.value.uuid == uuid
    requires AllOf(uuid, now)
    ensures Latest(Of(d.added, uuid) + Of(d.updated, uuid), if uuid in Uuids(d.deleted) then None else was)
            == Latest(now, None)
            <==> (was.Some? && now != [] && Changed(was.value, now[0]) ==> now[0] == now[|now| - 1])
  {
    hide Of, Uuids;
  }

  /**
   * Additions then updates rebuild the new map exactly when no held uuid is listed first with one new value and
   * last with another.
   */
  lemma DiffRebuildsAddedFirst(before: seq<UserInfo>, now: seq<UserInfo>)
    ensures var d := CompareLists(before, now);
            ByUuid(ApplyDelta(before, d.deleted, d.added + d.updated).next) == ByUuid(now)
            <==> forall uuid :: FirstIsLast(before, now, uuid)
  {
    var d := CompareLists(before, now);
    var next := ByUuid(ApplyDelta(before, d.deleted, d.added + d.updated).next);
    InsertAllKeys(map[], before);
    hide CompareLists, ApplyDelta, Of, Uuids, ListReport, Changed;
    forall uuid ensures Lookup(next, uuid) == Lookup(ByUuid(now), uuid) <==> FirstIsLast(before, now, uuid) {
      CompareReports(before, now, uuid);
      DeltaLookup(before, d.deleted, d.added + d.updated, uuid);
      OfConcat(d.added, d.updated, uuid);
      InsertAllKeepsTheLatest(map[], now, uuid);
      RebuildAddedFirstUnder(uuid, Lookup(ByUuid(before), uuid), Of(now, uuid), d);
    }
    hide FirstIsLast, Lookup;
    if forall uuid :: FirstIsLast(before, now, uuid) {
      SameLookupsSameMap(next, ByUuid(now));
    } else {
      var uuid :| !FirstIsLast(before, now, uuid);
      assert Lookup(next, uuid) != Lookup(ByUuid(now), uuid);
    }
  }

  // ----- Delta bodies -----

  datatype SyncState = SyncState(revision: int, users: seq<UserInfo>, updatedAt: Option<string>)

  datatype DeltaBody = DeltaBody(
    full: bool, revision: int, users: seq<UserInfo>, deleted: seq<UserInfo>, upsert: seq<UserInfo>)

  datatype SyncStep = SyncStep(state: SyncState, diff: ListDiff)

  function ApplyBody(state: SyncState, body: DeltaBody): SyncStep {
    var moved := state.(revision := body.revision);
    if body.full then
      if body.users == [] then SyncStep(moved, NO_DIFF)
      else SyncStep(moved.(users := body.users), CompareLists(state.users, body.users))
    else if body.deleted == [] && body.upsert == [] then SyncStep(moved, NO_DIFF)
    else
      var r := ApplyDelta(state.users, body.deleted, body.upsert);
      SyncStep(moved.(users := r.next), DiffOf(r))
  }

  method ApplyUserDeltaBody(state: SyncState, body: DeltaBody) returns (step: SyncStep)
    ensures step == ApplyBody(state, body)
  {
    var next := state.(revision := body.revision);
    var diff := NO_DIFF;
    if body.full {
      if body.users != [] {
        diff := CompareUserList(state.users, body.users);
        next := next.(users := body.users);
      }
    } else if body.deleted != [] || body.upsert != [] {
      var r := ApplyUserDelta(state.users, body.deleted, body.upsert);
      next := next.(users := r.next);
      diff := ListDiff(r.deletedApplied, r.added, r.updated);
    }
    step := SyncStep(next, diff);
  }

  function BodyDiff(state: SyncState, body: DeltaBody): ListDiff {
    if body.full then
      if body.users == [] then NO_DIFF else CompareLists(state.users, body.users)
    else FastDiff(state.users, body.deleted, body.upsert)
  }

  lemma {:induction false} NothingToSee(before: seq<UserInfo>)
    ensures SeeAll(before, {}, []) == Matching(map[], [], [])
  {
    if before != [] {
      NothingToSee(before[..|before| - 1]);
    }
  }

  /**
   * The diff a body announces is the diff applying it reports: always for full bodies and empty deltas, and for
   * the other deltas exactly when every uuid is agreeable.
   */
  lemma BodyDiffAgreesExactly(state: SyncState, body: DeltaBody)
    ensures SameReports(BodyDiff(state, body), ApplyBody(state, body).diff)
            <==> body.full || (body.deleted == [] && body.upsert == []) ||
                 forall uuid :: AgreeableUnder(state.users, body.deleted, body.upsert, uuid)
  {
    if body.full {
    } else if body.deleted == [] && body.upsert == [] {
      NothingToSee(state.users);
      assert Uuids([]) == {};
      assert Values(map[]) == [];
    } else {
      FastDiffAgreesExactly(state.users, body.deleted, body.upsert);
      hide FastDiff, ApplyDelta, SameReports, AgreeableUnder;
    }
  }

  /** The body lists nobody: a full one is ignored, and an incremental one says nothing. */
  predicate NamesNobody(body: DeltaBody) {
    if body.full then body.users == [] else body.deleted == [] && body.upsert == []
  }

  /**
   * What a body does to the replica: only revision and users move; a full listing is taken as it is, an increment
   * leaves the users sorted, and feeding the reported diff back gives the users the replica ends with.
   */
  lemma BodyIsApplied(state: SyncState, body: DeltaBody)
    ensures var step := ApplyBody(state, body);
            && step.state == SyncState(body.revision, step.state.users, state.updatedAt)
            && (NamesNobody(body) ==> step.state.users == state.users && step.diff == ListDiff([], [], []))
            && (!NamesNobody(body) && body.full ==>
                  step.state.users == body.users && ByUuid(body.users) == ByUuid(
                    ApplyDelta(state.users, step.diff.deleted, step.diff.updated + step.diff.added).next))
            && (!NamesNobody(body) && !body.full ==>
                  SortedByUuid(step.state.users) && ByUuid(step.state.users) == InsertAll(
                    InsertAll(ByUuid(state.users) - Uuids(step.diff.deleted), step.diff.added), step.diff.updated))
  {
    DiffRebuilds(state.users, body.users);
    DeltaReplays(state.users, body.deleted, body.upsert);
    hide CompareLists, ApplyDelta, InsertAll, Uuids, SortedByUuid;
  }

  /** A plain full list, outside a delta: an empty one is ignored, and the revision never moves. */
  function ApplyFull(state: SyncState, users: seq<UserInfo>): SyncStep {
    if users == [] then SyncStep(state, NO_DIFF)
    else SyncStep(state.(users := users), CompareLists(state.users, users))
  }

  /** The listing is taken over exactly when it names someone or nobody was held; nothing else moves. */
  lemma FullListIsTaken(state: SyncState, users: seq<UserInfo>)
    ensures var step := ApplyFull(state, users);
            && step.state == state.(users := step.state.users)
            && (ByUuid(step.state.users) == ByUuid(users) <==> users != [] || state.users == [])
            && ByUuid(ApplyDelta(state.users, step.diff.deleted, step.diff.updated + step.diff.added).next)
               == ByUuid(step.state.users)
  {
    if users == [] {
      EmptyMapOfNoUsers(state.users);
      InsertAllKeys(map[], state.users);
      ValuesAreTheMap(ByUuid(state.users));
    } else {
      DiffRebuilds(state.users, users);
    }
  }

  // ----- Convergence -----

  /** The panel's own move: what a body tells about the users before and after it, uuid by uuid. */
  ghost predicate Describes(before: UserMap, body: DeltaBody, after: UserMap) {
    forall uuid ::
      Lookup(after, uuid) ==
      if body.full then Latest(Of(body.users, uuid), None)
      else Latest(Of(body.upsert, uuid), if uuid in Uuids(body.deleted) then None else Lookup(before, uuid))
  }

  datatype Move = Move(body: DeltaBody, after: UserMap)

  function PanelUsers(start: UserMap, moves: seq<Move>): UserMap {
    if moves == [] then start else moves[|moves| - 1].after
  }

  /** A history the panel went through, each move told by its body. */
  ghost predicate History(start: UserMap, moves: seq<Move>) {
    forall i :: 0 <= i < |moves| ==> Describes(PanelUsers(start, moves[..i]), moves[i].body, moves[i].after)
  }

  function Follow(state: SyncState, moves: seq<Move>): SyncState {
    if moves == [] then state
    else ApplyBody(Follow(state, moves[..|moves| - 1]), moves[|moves| - 1].body).state
  }

  /** The body is a full listing of nobody, which replicas ignore. */
  predicate EmptyListing(body: DeltaBody) {
    body.full && body.users == []
  }

  lemma DescribedMap(body: DeltaBody, before: UserMap, after: UserMap, users: seq<UserInfo>)
    requires Describes(before, body, after) && body.full && users == body.users
    ensures ByUuid(users) == after
  {
    forall uuid ensures Lookup(ByUuid(users), uuid) == Lookup(after, uuid) {
      InsertAllKeepsTheLatest(map[], users, uuid);
    }
    hide Lookup, InsertAll, Of, Uuids;
    SameLookupsSameMap(ByUuid(users), after);
  }

  lemma IncrementConverges(state: SyncState, body: DeltaBody, before: UserMap, after: UserMap)
    requires ByUuid(state.users) == before && Describes(before, body, after) && !body.full
    ensures ByUuid(ApplyBody(state, body).state.users) == after
  {
    var next := ByUuid(ApplyBody(state, body).state.users);
    forall uuid ensures Lookup(next, uuid) == Lookup(after, uuid) {
      if body.deleted == [] && body.upsert == [] {
        assert uuid !in Uuids([]) && Of([], uuid) == [];
      } else {
        DeltaLookup(state.users, body.deleted, body.upsert, uuid);
      }
    }
    hide Lookup, InsertAll, Of, Uuids, ApplyBody, Describes;
    SameLookupsSameMap(next, after);
  }

  lemma EmptyMapOfNoUsers(users: seq<UserInfo>)
    ensures ByUuid(users) == map[] <==> users == []
  {
    InsertAllKeys(map[], users);
    if users != [] {
      assert users[0].uuid in Uuids(users);
    }
  }

  /** One move: a replica in step stays in step, except that it keeps its users when told that nobody is left. */
  lemma MoveConverges(state: SyncState, body: DeltaBody, before: UserMap, after: UserMap)
    requires ByUuid(state.users) == before && Describes(before, body, after)
    ensures ApplyBody(state, body).state.revision == body.revision
    ensures ByUuid(ApplyBody(state, body).state.users) == after
            <==> (EmptyListing(body) ==> before == map[])
  {
    if body.full {
      DescribedMap(body, before, after, body.users);
      EmptyMapOfNoUsers(body.users);
      hide Describes, InsertAll, CompareLists;
    } else {
      IncrementConverges(state, body, before, after);
      hide Describes, InsertAll, ApplyDelta;
    }
  }

  /** The replica holds the panel's users, and the revision last announced, after each of the moves. */
  ghost predicate InStep(state: SyncState, start: UserMap, moves: seq<Move>) {
    forall i :: 0 <= i <= |moves| ==> InStepAfter(state, start, moves, i)
  }

  predicate InStepAfter(state: SyncState, start: UserMap, moves: seq<Move>, i: nat)
    requires i <= |moves|
  {
    var replica := Follow(state, moves[..i]);
    && ByUuid(replica.users) == PanelUsers(start, moves[..i])
    && replica.revision == if i == 0 then state.revision else moves[i - 1].body.revision
  }

  /** Nobody is ever dropped by an empty listing. */
  predicate NoOneDropped(start: UserMap, moves: seq<Move>) {
    forall i :: 0 <= i < |moves| && EmptyListing(moves[i].body) ==> PanelUsers(start, moves[..i]) == map[]
  }

  lemma StepOfHistory(state: SyncState, start: UserMap, moves: seq<Move>, i: nat)
    requires i < |moves| && History(start, moves) && InStepAfter(state, start, moves, i)
    ensures InStepAfter(state, start, moves, i + 1)
            <==> (EmptyListing(moves[i].body) ==> PanelUsers(start, moves[..i]) == map[])
  {
    assert moves[..i + 1][..i] == moves[..i] && moves[..i + 1][i] == moves[i];
    MoveConverges(Follow(state, moves[..i]), moves[i].body, PanelUsers(start, moves[..i]), moves[i].after);
    hide Describes, ApplyBody, InsertAll, EmptyListing;
  }

  lemma {:induction false} StaysInStep(state: SyncState, start: UserMap, moves: seq<Move>, i: nat)
    requires i <= |moves| && ByUuid(state.users) == start && History(start, moves) && NoOneDropped(start, moves)
    ensures InStepAfter(state, start, moves, i)
  {
    if i == 0 {
      assert moves[..0] == [];
    } else {
      StaysInStep(state, start, moves, i - 1);
      hide History, InStepAfter, EmptyListing;
      StepOfHistory(state, start, moves, i - 1);
    }
  }

  /**
   * A replica that starts with the panel's users and is fed any history of full and incremental bodies holds the
   * panel's users and revision after every one of them exactly when no empty full listing drops a user.
   */
  lemma ReplicaConverges(state: SyncState, start: UserMap, moves: seq<Move>)
    requires ByUuid(state.users) == start && History(start, moves)
    ensures InStep(state, start, moves) <==> NoOneDropped(start, moves)
  {
    hide History, InStepAfter, EmptyListing, InsertAll;
    if NoOneDropped(start, moves) {
      forall i | 0 <= i <= |moves| ensures InStepAfter(state, start, moves, i) {
        StaysInStep(state, start, moves, i);
      }
    } else {
      var i :| 0 <= i < |moves| && EmptyListing(moves[i].body) && PanelUsers(start, moves[..i]) != map[];
      if InStep(state, start, moves) {
        assert InStepAfter(state, start, moves, i) && InStepAfter(state, start, moves, i + 1);
        StepOfHistory(state, start, moves, i);
        assert false;
      }
    }
  }
}
