// User replication: a uuid-keyed map fed by full and incremental deltas, and the fast diff beside it.
module UserSync {
  import opened Results

  datatype Uuid = Uuid(text: string)

  datatype UserInfo = UserInfo(id: nat, uuid: Uuid, speedLimit: nat, deviceLimit: nat)

  predicate Changed(was: UserInfo, now: UserInfo) {
    was.id != now.id || was.speedLimit != now.speedLimit || was.deviceLimit != now.deviceLimit
  }

  type UserMap = map<Uuid, UserInfo>

  predicate Keyed(users: UserMap) {
    forall uuid :: uuid in users ==> users[uuid].uuid == uuid
  }

  function Uuids(users: seq<UserInfo>): set<Uuid> {
    set user | user in users :: user.uuid
  }

  predicate DistinctUuids(users: seq<UserInfo>) {
    forall i, j :: 0 <= i < j < |users| ==> users[i].uuid != users[j].uuid
  }

  /** Inserts users in order; a later user replaces an earlier one with the same uuid. */
  function InsertAll(users: UserMap, list: seq<UserInfo>): UserMap {
    if list == [] then users
    else
      var user := list[|list| - 1];
      InsertAll(users, list[..|list| - 1])[user.uuid := user]
  }

  function ByUuid(list: seq<UserInfo>): UserMap {
    InsertAll(map[], list)
  }

  // ----- The order in which an ordered map lists its values -----

  predicate TextLess(a: string, b: string) {
    if b == "" then false
    else if a == "" then true
    else if a[0] != b[0] then a[0] < b[0]
    else TextLess(a[1..], b[1..])
  }

  lemma {:induction false} TextLessIsTotal(a: string, b: string)
    ensures a == b || TextLess(a, b) || TextLess(b, a)
    ensures !(TextLess(a, b) && TextLess(b, a)) && !TextLess(a, a)
  {
    if a != "" && b != "" {
      TextLessIsTotal(a[1..], b[1..]);
      assert a == [a[0]] + a[1..] && b == [b[0]] + b[1..];
    }
    if a != "" {
      TextLessIsTotal(a[1..], a[1..]);
    }
  }

  lemma {:induction false} TextLessIsTransitive(a: string, b: string, c: string)
    requires TextLess(a, b) && TextLess(b, c)
    ensures TextLess(a, c)
  {
    if a != "" && a[0] == b[0] && b[0] == c[0] {
      TextLessIsTransitive(a[1..], b[1..], c[1..]);
    }
  }

  /** The texts agree up to k, and there the first has the smaller character. */
  predicate PartsAt(a: string, b: string, k: nat) {
    k < |a| && k < |b| && a[..k] == b[..k] && a[k] < b[k]
  }

  predicate ProperPrefix(a: string, b: string) {
    |a| < |b| && a == b[..|a|]
  }

  lemma OneFurther(head: char, x: string, y: string, k: nat)
    ensures PartsAt([head] + x, [head] + y, k + 1) <==> PartsAt(x, y, k)
    ensures !PartsAt([head] + x, [head] + y, 0)
  {
    var a, b := [head] + x, [head] + y;
    if k < |x| && k < |y| {
      assert a[..k + 1] == [head] + x[..k] && b[..k + 1] == [head] + y[..k];
      assert a[..k + 1][1..] == x[..k] && b[..k + 1][1..] == y[..k];
    }
  }

  lemma PrefixFurther(head: char, x: string, y: string)
    ensures ProperPrefix([head] + x, [head] + y) <==> ProperPrefix(x, y)
  {
    if |x| < |y| {
      assert ([head] + y)[..|x| + 1] == [head] + y[..|x|];
      assert ([head] + y[..|x|])[1..] == y[..|x|] && ([head] + x)[1..] == x;
    }
  }

  lemma PartsAtOnce(a: string, b: string)
    requires a != "" && b != "" && a[0] != b[0]
    ensures !ProperPrefix(a, b)
    ensures forall k: nat :: PartsAt(a, b, k) <==> k == 0 && a[0] < b[0]
  {
    assert a[..0] == b[..0];
    forall k: nat | k > 0 ensures !PartsAt(a, b, k) {
      if k < |a| && k < |b| {
        assert a[..k][0] == a[0] && b[..k][0] == b[0];
      }
    }
    if |a| < |b| {
      assert b[..|a|][0] == b[0];
    }
  }

  /** One text comes before another where it is a proper prefix, or has the smaller character where they part. */
  lemma {:induction false} TextLessIsLexicographic(a: string, b: string)
    ensures TextLess(a, b) <==> ProperPrefix(a, b) || exists k: nat :: PartsAt(a, b, k)
  {
    if a == "" || b == "" {
    } else if a[0] != b[0] {
      PartsAtOnce(a, b);
      assert PartsAt(a, b, 0) <==> a[0] < b[0];
    } else {
      var head, x, y := a[0], a[1..], b[1..];
      TextLessIsLexicographic(x, y);
      PrefixFurther(head, x, y);
      hide PartsAt, ProperPrefix;
      assert a == [head] + x && b == [head] + y;
      if k: nat :| PartsAt(x, y, k) {
        OneFurther(head, x, y, k);
      }
      if k: nat :| PartsAt(a, b, k) {
        OneFurther(head, x, y, if k == 0 then 0 else k - 1);
      }
    }
  }

  predicate Less(a: Uuid, b: Uuid) {
    TextLess(a.text, b.text)
  }

  lemma LessIsTotal(a: Uuid, b: Uuid)
    ensures a == b || Less(a, b) || Less(b, a)
    ensures !(Less(a, b) && Less(b, a)) && !Less(a, a)
  {
    TextLessIsTotal(a.text, b.text);
  }

  lemma LessIsTransitive(a: Uuid, b: Uuid, c: Uuid)
    requires Less(a, b) && Less(b, c)
    ensures Less(a, c)
  {
    TextLessIsTransitive(a.text, b.text, c.text);
  }

  predicate IsLeast(key: Uuid, keys: set<Uuid>) {
    key in keys && forall other :: other in keys && other != key ==> Less(key, other)
  }

  lemma {:induction false} LeastExists(keys: set<Uuid>)
    requires keys != {}
    ensures exists key :: IsLeast(key, keys)
  {
    hide Less;
    var some :| some in keys;
    if keys == {some} {
      assert IsLeast(some, keys);
    } else {
      LeastExists(keys - {some});
      var least :| IsLeast(least, keys - {some});
      LessIsTotal(some, least);
      if Less(some, least) {
        forall other | other in keys && other != some ensures Less(some, other) {
          if other != least {
            LessIsTransitive(some, least, other);
          }
        }
        assert IsLeast(some, keys);
      } else {
        assert IsLeast(least, keys);
      }
    }
  }

  lemma LeastIsUnique(a: Uuid, b: Uuid, keys: set<Uuid>)
    requires IsLeast(a, keys) && IsLeast(b, keys)
    ensures a == b
  {
    LessIsTotal(a, b);
  }

  function LeastKey(keys: set<Uuid>): (key: Uuid)
    requires keys != {}
    ensures IsLeast(key, keys)
  {
    LeastExists(keys);
    assert forall a, b :: IsLeast(a, keys) && IsLeast(b, keys) ==> a == b by {
      forall a, b | IsLeast(a, keys) && IsLeast(b, keys) ensures a == b {
        LeastIsUnique(a, b, keys);
      }
    }
    var key :| IsLeast(key, keys);
    key
  }

  predicate SortedByUuid(users: seq<UserInfo>) {
    forall i, j :: 0 <= i < j < |users| ==> Less(users[i].uuid, users[j].uuid)
  }

  /** The values of an ordered map, by ascending key. */
  function Values(users: UserMap): (list: seq<UserInfo>)
    decreases |users|
  {
    if users == map[] then []
    else
      var key := LeastKey(users.Keys);
      [users[key]] + Values(users - {key})
  }

  ghost predicate ListsMap(list: seq<UserInfo>, users: UserMap) {
    && (forall user :: user in list <==> user.uuid in users && users[user.uuid] == user)
    && SortedByUuid(list)
    && |list| == |users|
  }

  lemma ListsCons(users: UserMap, key: Uuid, tail: seq<UserInfo>)
    requires Keyed(users) && IsLeast(key, users.Keys) && ListsMap(tail, users - {key})
    ensures ListsMap([users[key]] + tail, users)
  {
    hide Less, SortedByUuid;
    var list, rest := [users[key]] + tail, users - {key};
    assert users.Keys == rest.Keys + {key};
    forall user | user in tail ensures Less(key, user.uuid) {
      assert user.uuid in rest;
    }
    SortedCons(users[key], tail);
    hide IsLeast;
    forall user ensures user in list <==> user.uuid in users && users[user.uuid] == user {
      assert user in list <==> user == users[key] || user in tail;
    }
  }

  lemma SortedCons(user: UserInfo, tail: seq<UserInfo>)
    requires SortedByUuid(tail) && forall other :: other in tail ==> Less(user.uuid, other.uuid)
    ensures SortedByUuid([user] + tail)
  {
    hide Less;
    var list := [user] + tail;
    forall i, j | 0 <= i < j < |list| ensures Less(list[i].uuid, list[j].uuid) {
      assert list[j] == tail[j - 1] && tail[j - 1] in tail;
      assert i > 0 ==> list[i] == tail[i - 1];
    }
  }

  /** The values are exactly the map's users, strictly sorted. */
  lemma {:induction false} ValuesListTheMap(users: UserMap)
    requires Keyed(users)
    ensures ListsMap(Values(users), users)
    decreases |users|
  {
    if users != map[] {
      hide ListsMap, IsLeast;
      var key := LeastKey(users.Keys);
      ValuesListTheMap(users - {key});
      ListsCons(users, key, Values(users - {key}));
    }
  }

  /** Reading the values back gives the map. */
  lemma {:induction false} ValuesAreTheMap(users: UserMap)
    requires Keyed(users)
    ensures ListsMap(Values(users), users) && ByUuid(Values(users)) == users
    decreases |users|
  {
    ValuesListTheMap(users);
    if users != map[] {
      var key := LeastKey(users.Keys);
      var rest := users - {key};
      ValuesAreTheMap(rest);
      hide Less, LeastKey, IsLeast, SortedByUuid, InsertAll;
      assert Values(users) == [users[key]] + Values(rest);
      InsertFirst(users[key], Values(rest));
      assert rest[key := users[key]] == users;
    }
  }

  /** Inserting a user first makes no difference to the others when no later user has the same uuid. */
  lemma {:induction false} InsertFirst(user: UserInfo, list: seq<UserInfo>)
    requires forall other :: other in list ==> other.uuid != user.uuid
    ensures ByUuid([user] + list) == ByUuid(list)[user.uuid := user]
  {
    var all := [user] + list;
    if list == [] {
      assert all[..0] == [];
    } else {
      var n := |list| - 1;
      assert list[n] in list;
      InsertFirst(user, list[..n]);
      assert all[..n + 1] == [user] + list[..n];
    }
  }

  // ----- Applying a delta -----

  datatype Applied = Applied(
    next: UserMap, deletedApplied: seq<UserInfo>, added: seq<UserInfo>, updated: seq<UserInfo>)
  {
    function Delete(user: UserInfo): Applied {
      if user.uuid in next
      then this.(next := next - {user.uuid}, deletedApplied := deletedApplied + [next[user.uuid]])
      else this
    }

    function Upsert(user: UserInfo): Applied {
      var noted :=
        if user.uuid !in next then this.(added := added + [user])
        else if Changed(next[user.uuid], user) then this.(updated := updated + [user])
        else this;
      noted.(next := next[user.uuid := user])
    }
  }

  function DeleteAll(before: UserMap, deleted: seq<UserInfo>): Applied {
    if deleted == [] then Applied(before, [], [], [])
    else DeleteAll(before, deleted[..|deleted| - 1]).Delete(deleted[|deleted| - 1])
  }

  function UpsertAll(start: Applied, upsert: seq<UserInfo>): Applied {
    if upsert == [] then start
    else UpsertAll(start, upsert[..|upsert| - 1]).Upsert(upsert[|upsert| - 1])
  }

  function ApplyToMap(before: seq<UserInfo>, deleted: seq<UserInfo>, upsert: seq<UserInfo>): Applied {
    UpsertAll(DeleteAll(ByUuid(before), deleted), upsert)
  }

  datatype DeltaResult = DeltaResult(
    next: seq<UserInfo>, deletedApplied: seq<UserInfo>, added: seq<UserInfo>, updated: seq<UserInfo>)

  function ApplyDelta(before: seq<UserInfo>, deleted: seq<UserInfo>, upsert: seq<UserInfo>): DeltaResult {
    var a := ApplyToMap(before, deleted, upsert);
    DeltaResult(Values(a.next), a.deletedApplied, a.added, a.updated)
  }

  method CollectByUuid(list: seq<UserInfo>) returns (users: UserMap)
    ensures users == ByUuid(list)
  {
    users := map[];
    for i := 0 to |list|
      invariant users == ByUuid(list[..i])
    {
      assert list[..i + 1][..i] == list[..i];
      users := users[list[i].uuid := list[i]];
    }
    assert list[..|list|] == list;
  }

  method ApplyUserDelta(before: seq<UserInfo>, deleted: seq<UserInfo>, upsert: seq<UserInfo>)
    returns (result: DeltaResult)
    ensures result == ApplyDelta(before, deleted, upsert)
  {
    var next := CollectByUuid(before);
    var deletedApplied: seq<UserInfo> := [];
    for i := 0 to |deleted|
      invariant Applied(next, deletedApplied, [], []) == DeleteAll(ByUuid(before), deleted[..i])
    {
      assert deleted[..i + 1][..i] == deleted[..i];
      var uuid := deleted[i].uuid;
      if uuid in next {
        deletedApplied := deletedApplied + [next[uuid]];
        next := next - {uuid};
      }
    }
    assert deleted[..|deleted|] == deleted;
    ghost var start := DeleteAll(ByUuid(before), deleted);
    var added: seq<UserInfo>, updated: seq<UserInfo> := [], [];
    for i := 0 to |upsert|
      invariant Applied(next, deletedApplied, added, updated) == UpsertAll(start, upsert[..i])
    {
      assert upsert[..i + 1][..i] == upsert[..i];
      var user := upsert[i];
      if user.uuid in next {
        if Changed(next[user.uuid], user) {
          updated := updated + [user];
        }
      } else {
        added := added + [user];
      }
      next := next[user.uuid := user];
    }
    assert upsert[..|upsert|] == upsert;
    result := DeltaResult(Values(next), deletedApplied, added, updated);
  }

  // ----- Replay and conservation -----

  lemma {:induction false} InsertAllKeys(users: UserMap, list: seq<UserInfo>)
    ensures InsertAll(users, list).Keys == users.Keys + Uuids(list)
    ensures Keyed(users) ==> Keyed(InsertAll(users, list))
  {
    if list != [] {
      var init, last := list[..|list| - 1], list[|list| - 1];
      InsertAllKeys(users, init);
      assert list == init + [last];
      assert Uuids(list) == Uuids(init) + {last.uuid};
    }
  }

  lemma {:induction false} InsertAllCommutes(users: UserMap, user: UserInfo, list: seq<UserInfo>)
    requires user.uuid !in Uuids(list)
    ensures InsertAll(users[user.uuid := user], list) == InsertAll(users, list)[user.uuid := user]
  {
    if list != [] {
      var init, last := list[..|list| - 1], list[|list| - 1];
      assert last in list;
      assert Uuids(init) <= Uuids(list);
      InsertAllCommutes(users, user, init);
    }
  }

  /** The list reports exactly the users with these uuids, each once. */
  predicate ReportOf(before: UserMap, uuids: set<Uuid>, list: seq<UserInfo>) {
    && Uuids(list) == before.Keys * uuids
    && (forall user :: user in list ==> user.uuid in before && before[user.uuid] == user)
    && DistinctUuids(list)
  }

  /** Exactly the users with these uuids were taken out and reported. */
  predicate TookOut(before: UserMap, uuids: set<Uuid>, a: Applied) {
    && a.next == before - uuids
    && ReportOf(before, uuids, a.deletedApplied)
    && |a.next| + |a.deletedApplied| == |before|
    && a.added == [] && a.updated == []
  }

  lemma ReportOneMore(before: UserMap, uuids: set<Uuid>, list: seq<UserInfo>, key: Uuid)
    requires Keyed(before) && ReportOf(before, uuids, list)
    ensures key in before && key !in uuids ==> ReportOf(before, uuids + {key}, list + [before[key]])
    ensures key !in before || key in uuids ==> ReportOf(before, uuids + {key}, list)
  {
    TakeOneMore(before, uuids, key);
    if key in before && key !in uuids {
      UuidsSnoc(list, before[key]);
      DistinctSnoc(list, before[key]);
      hide Uuids, DistinctUuids;
      assert forall user :: user in list + [before[key]] ==> user in list || user == before[key];
    } else {
      hide Uuids, DistinctUuids;
    }
  }

  lemma TakeOneMore<K, V>(m: map<K, V>, keys: set<K>, key: K)
    ensures (m - keys) - {key} == m - (keys + {key})
    ensures key in m - keys ==> |(m - keys) - {key}| == |m - keys| - 1
    ensures key in m - keys ==> m.Keys * (keys + {key}) == m.Keys * keys + {key}
    ensures key !in m - keys ==> m.Keys * (keys + {key}) == m.Keys * keys && m - (keys + {key}) == m - keys
  {
    var rest := m - keys;
    if key in rest {
      assert rest.Keys == (rest - {key}).Keys + {key};
    }
  }

  lemma UuidsSnoc(list: seq<UserInfo>, user: UserInfo)
    ensures Uuids(list + [user]) == Uuids(list) + {user.uuid}
  {
    assert user in list + [user];
  }

  lemma DistinctSnoc(list: seq<UserInfo>, user: UserInfo)
    requires DistinctUuids(list) && user.uuid !in Uuids(list)
    ensures DistinctUuids(list + [user])
  {
    forall i | 0 <= i < |list| ensures list[i].uuid != user.uuid {
      assert list[i].uuid in Uuids(list);
    }
    hide Uuids;
  }

  lemma DeleteTakesOut(before: UserMap, uuids: set<Uuid>, a: Applied, user: UserInfo)
    requires Keyed(before) && TookOut(before, uuids, a)
    ensures TookOut(before, uuids + {user.uuid}, a.Delete(user))
  {
    TakeOneMore(before, uuids, user.uuid);
    ReportOneMore(before, uuids, a.deletedApplied, user.uuid);
    hide ReportOf, Keyed;
  }

  lemma NothingTaken(before: UserMap)
    ensures TookOut(before, Uuids([]), Applied(before, [], [], []))
  {
    assert Uuids([]) == {} && before - {} == before;
  }

  lemma {:induction false} DeleteAllTakesOut(before: UserMap, deleted: seq<UserInfo>)
    requires Keyed(before)
    ensures TookOut(before, Uuids(deleted), DeleteAll(before, deleted))
  {
    hide TookOut, Keyed, Uuids, Applied.Delete;
    if deleted == [] {
      NothingTaken(before);
    } else {
      var init, last := deleted[..|deleted| - 1], deleted[|deleted| - 1];
      DeleteAllTakesOut(before, init);
      DeleteTakesOut(before, Uuids(init), DeleteAll(before, init), last);
      UuidsSnoc(init, last);
      assert deleted == init + [last];
    }
  }

  /** The upserts so far are the added users, then the updated ones, inserted on top of where they started. */
  predicate Replays(start: UserMap, a: Applied) {
    && a.next == InsertAll(InsertAll(start, a.added), a.updated)
    && |a.next| == |start| + |a.added|
  }

  lemma InsertCounts<K, V>(m: map<K, V>, key: K, value: V)
    ensures |m[key := value]| == if key in m then |m| else |m| + 1
    ensures key in m && m[key] == value ==> m[key := value] == m
  {
    assert m[key := value].Keys == m.Keys + {key};
  }

  lemma UpsertReplays(start: UserMap, a: Applied, user: UserInfo)
    requires Keyed(start) && Keyed(a.next) && Replays(start, a)
    ensures Keyed(a.Upsert(user).next) && Replays(start, a.Upsert(user))
  {
    InsertCounts(a.next, user.uuid, user);
    if user.uuid !in a.next {
      InsertAllKeys(InsertAll(start, a.added), a.updated);
      InsertAllSnoc(start, a.added, user);
      InsertAllCommutes(InsertAll(start, a.added), user, a.updated);
      hide InsertAll, Uuids;
    } else {
      InsertAllSnoc(InsertAll(start, a.added), a.updated, user);
      hide InsertAll;
    }
  }

  lemma InsertAllSnoc(users: UserMap, list: seq<UserInfo>, user: UserInfo)
    ensures InsertAll(users, list + [user]) == InsertAll(users, list)[user.uuid := user]
  {
    assert (list + [user])[..|list|] == list;
  }

  lemma {:induction false} UpsertAllReplays(start: Applied, upsert: seq<UserInfo>)
    requires Keyed(start.next) && start.added == [] && start.updated == []
    ensures var a := UpsertAll(start, upsert);
            Keyed(a.next) && Replays(start.next, a) && a.deletedApplied == start.deletedApplied
  {
    if upsert != [] {
      UpsertAllReplays(start, upsert[..|upsert| - 1]);
      UpsertReplays(start.next, UpsertAll(start, upsert[..|upsert| - 1]), upsert[|upsert| - 1]);
    }
  }

  lemma SameWithoutForeignKeys<K, V>(m: map<K, V>, keys: set<K>)
    ensures m - m.Keys * keys == m - keys
  {
  }

  /**
   * What a delta reports is what it did, duplicates and overlaps included: taking the reported deletions out of
   * the old users, then inserting the reported additions and updates in order, gives exactly the next users,
   * which are strictly sorted, and the counts add up.
   */
  lemma DeltaReplays(before: seq<UserInfo>, deleted: seq<UserInfo>, upsert: seq<UserInfo>)
    ensures var r := ApplyDelta(before, deleted, upsert);
            && ByUuid(r.next) ==
               InsertAll(InsertAll(ByUuid(before) - Uuids(r.deletedApplied), r.added), r.updated)
            && SortedByUuid(r.next)
            && |r.next| == |ByUuid(before)| - |r.deletedApplied| + |r.added|
  {
    InsertAllKeys(map[], before);
    hide InsertAll, DeleteAll, UpsertAll, Uuids;
    DeleteAllTakesOut(ByUuid(before), deleted);
    UpsertAllReplays(DeleteAll(ByUuid(before), deleted), upsert);
    ValuesAreTheMap(ApplyToMap(before, deleted, upsert).next);
    var m, a := ByUuid(before), DeleteAll(ByUuid(before), deleted);
    SameWithoutForeignKeys(m, Uuids(deleted));
  }

  // ----- One uuid at a time -----

  /** The users of a list with this uuid, in order. */
  function Of(list: seq<UserInfo>, uuid: Uuid): (found: seq<UserInfo>)
    ensures forall i :: 0 <= i < |found| ==> found[i].uuid == uuid
  {
    if list == [] then []
    else
      var last := list[|list| - 1];
      Of(list[..|list| - 1], uuid) + if last.uuid == uuid then [last] else []
  }

  function Lookup(users: UserMap, uuid: Uuid): Option<UserInfo> {
    if uuid in users then Some(users[uuid]) else None
  }

  function Latest(list: seq<UserInfo>, otherwise: Option<UserInfo>): Option<UserInfo> {
    if list == [] then otherwise else Some(list[|list| - 1])
  }

  lemma OfSnoc(list: seq<UserInfo>, user: UserInfo, uuid: Uuid)
    ensures Of(list + [user], uuid) == Of(list, uuid) + if user.uuid == uuid then [user] else []
  {
    assert (list + [user])[..|list|] == list;
  }

  lemma {:induction false} OfConcat(a: seq<UserInfo>, b: seq<UserInfo>, uuid: Uuid)
    ensures Of(a + b, uuid) == Of(a, uuid) + Of(b, uuid)
  {
    if b == [] {
      assert a + b == a;
    } else {
      var init, last := b[..|b| - 1], b[|b| - 1];
      OfConcat(a, init, uuid);
      assert a + b == (a + init) + [last];
      OfSnoc(a + init, last, uuid);
    }
  }

  lemma {:induction false} OfIsEmpty(list: seq<UserInfo>, uuid: Uuid)
    ensures Of(list, uuid) == [] <==> uuid !in Uuids(list)
  {
    if list != [] {
      var init, last := list[..|list| - 1], list[|list| - 1];
      OfIsEmpty(init, uuid);
      UuidsSnoc(init, last);
      assert list == init + [last];
      hide Uuids;
    }
  }

  lemma DistinctInit(list: seq<UserInfo>)
    requires DistinctUuids(list) && list != []
    ensures DistinctUuids(list[..|list| - 1])
    ensures list[|list| - 1].uuid !in Uuids(list[..|list| - 1])
  {
    var init, last := list[..|list| - 1], list[|list| - 1];
    forall user | user in init ensures user.uuid != last.uuid {
      var i :| 0 <= i < |init| && init[i] == user;
      assert list[i] == user;
    }
  }

  lemma {:induction false} OfDistinct(list: seq<UserInfo>, uuid: Uuid)
    requires DistinctUuids(list)
    ensures |Of(list, uuid)| <= 1
  {
    if list != [] {
      var init, last := list[..|list| - 1], list[|list| - 1];
      DistinctInit(list);
      OfDistinct(init, uuid);
      OfIsEmpty(init, uuid);
      hide Uuids, DistinctUuids;
    }
  }

  /** Inserting a list leaves, for each uuid, the last user of the list that carries it. */
  lemma {:induction false} InsertAllKeepsTheLatest(users: UserMap, list: seq<UserInfo>, uuid: Uuid)
    ensures Lookup(InsertAll(users, list), uuid) == Latest(Of(list, uuid), Lookup(users, uuid))
  {
    if list != [] {
      InsertAllKeepsTheLatest(users, list[..|list| - 1], uuid);
    }
  }

  lemma SameLookupsSameMap(a: UserMap, b: UserMap)
    requires forall uuid :: Lookup(a, uuid) == Lookup(b, uuid)
    ensures a == b
  {
    assert forall uuid :: uuid in a <==> Lookup(a, uuid).Some?;
    assert forall uuid :: uuid in b <==> Lookup(b, uuid).Some?;
    assert forall uuid | uuid in a :: a[uuid] == Lookup(a, uuid).value;
    assert forall uuid | uuid in b :: b[uuid] == Lookup(b, uuid).value;
  }

  /** What a delta leaves under each uuid: the last upsert, else what was there unless it was deleted. */
  lemma DeltaLookup(before: seq<UserInfo>, deleted: seq<UserInfo>, upsert: seq<UserInfo>, uuid: Uuid)
    ensures Lookup(ByUuid(ApplyDelta(before, deleted, upsert).next), uuid)
            == Latest(Of(upsert, uuid), if uuid in Uuids(deleted) then None else Lookup(ByUuid(before), uuid))
  {
    InsertAllKeys(map[], before);
    var m, a := ByUuid(before), DeleteAll(ByUuid(before), deleted);
    hide InsertAll, DeleteAll, UpsertAll, Uuids, Of;
    DeleteAllTakesOut(m, deleted);
    UpsertAllReplays(a, upsert);
    ValuesAreTheMap(ApplyToMap(before, deleted, upsert).next);
    UpsertAllKeepsTheLatest(a, upsert, uuid);
  }

  lemma {:induction false} UpsertAllKeepsTheLatest(start: Applied, upsert: seq<UserInfo>, uuid: Uuid)
    ensures Lookup(UpsertAll(start, upsert).next, uuid) == Latest(Of(upsert, uuid), Lookup(start.next, uuid))
  {
    if upsert != [] {
      UpsertAllKeepsTheLatest(start, upsert[..|upsert| - 1], uuid);
    }
  }
}
