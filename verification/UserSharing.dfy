// Hash-consing of the inbounds' user lists: equal lists end up as one shared object.
module UserSharing {
  import opened Results

  datatype UserPlan = UserPlan(id: nat, uuid: string, email: string, speedLimit: nat, deviceLimit: nat)

  /** A reference-counted, immutable list of users. */
  class UserList {
    const items: seq<UserPlan>

    constructor (items: seq<UserPlan>)
      ensures this.items == items
    {
      this.items := items;
    }
  }

  datatype Inbound = Inbound(tag: string, users: UserList)

  /** Any function will do, including one under which different lists collide. */
  type Fingerprint = seq<UserPlan> -> nat

  /** The first of these lists with these items. */
  function FirstOf(lists: seq<UserList>, items: seq<UserPlan>): Option<UserList> {
    if lists == [] then None
    else
      var found := FirstOf(lists[..|lists| - 1], items);
      if found.Some? then found
      else if lists[|lists| - 1].items == items then Some(lists[|lists| - 1])
      else None
  }

  function ListsOf(inbounds: seq<Inbound>): seq<UserList> {
    seq(|inbounds|, i requires 0 <= i < |inbounds| => inbounds[i].users)
  }

  lemma FirstOfSnoc(lists: seq<UserList>, last: UserList, items: seq<UserPlan>)
    ensures FirstOf(lists + [last], items) ==
            if FirstOf(lists, items).Some? then FirstOf(lists, items)
            else if last.items == items then Some(last) else None
  {
    assert (lists + [last])[..|lists|] == lists;
  }

  lemma {:induction false} FirstOfHasItems(lists: seq<UserList>, items: seq<UserPlan>)
    ensures var found := FirstOf(lists, items);
            && (found.Some? ==> found.value.items == items && found.value in lists)
            && (found.Some? <==> exists i :: 0 <= i < |lists| && lists[i].items == items)
  {
    if lists != [] {
      var init, last := lists[..|lists| - 1], lists[|lists| - 1];
      FirstOfHasItems(init, items);
      assert lists == init + [last];
      if FirstOf(init, items).Some? {
        var i :| 0 <= i < |init| && init[i].items == items;
        assert lists[i].items == items;
      }
      if i :| 0 <= i < |lists| && lists[i].items == items {
        assert i < |init| ==> init[i].items == items;
      }
    }
  }

  /** Every inbound holds the first of the old lists that equals its own. */
  ghost predicate Shares(before: seq<Inbound>, after: seq<Inbound>) {
    && |after| == |before|
    && forall i :: 0 <= i < |before| ==>
         && after[i].tag == before[i].tag
         && Some(after[i].users) == FirstOf(ListsOf(before), before[i].users.items)
  }

  /** Sharing keeps every value, and two inbounds hold the same object exactly when their lists are equal. */
  lemma SharingIsExact(before: seq<Inbound>, after: seq<Inbound>)
    requires Shares(before, after)
    ensures forall i :: 0 <= i < |before| ==>
              after[i].tag == before[i].tag && after[i].users.items == before[i].users.items
    ensures forall i, j :: 0 <= i < |before| && 0 <= j < |before| ==>
              (after[i].users == after[j].users <==> before[i].users.items == before[j].users.items)
    ensures forall i :: 0 <= i < |before| ==> after[i].users in ListsOf(before)
  {
    forall i | 0 <= i < |before|
      ensures after[i].users.items == before[i].users.items && after[i].users in ListsOf(before)
    {
      FirstOfHasItems(ListsOf(before), before[i].users.items);
    }
  }

  // ----- The pass -----

  function Bucket(buckets: map<nat, seq<UserList>>, fingerprint: nat): seq<UserList> {
    if fingerprint in buckets then buckets[fingerprint] else []
  }

  /** Looking a list up in its bucket finds what looking through all lists seen finds. */
  ghost predicate Indexes(buckets: map<nat, seq<UserList>>, fingerprint: Fingerprint, seen: seq<UserList>) {
    forall items :: FirstOf(Bucket(buckets, fingerprint(items)), items) == FirstOf(seen, items)
  }

  lemma IndexesFound(
    buckets: map<nat, seq<UserList>>, fingerprint: Fingerprint, seen: seq<UserList>, last: UserList)
    requires Indexes(buckets, fingerprint, seen) && FirstOf(seen, last.items).Some?
    ensures Indexes(buckets, fingerprint, seen + [last])
  {
    forall items ensures FirstOf(Bucket(buckets, fingerprint(items)), items) == FirstOf(seen + [last], items) {
      FirstOfSnoc(seen, last, items);
    }
  }

  lemma IndexesNew(
    buckets: map<nat, seq<UserList>>, fingerprint: Fingerprint, seen: seq<UserList>, last: UserList)
    requires Indexes(buckets, fingerprint, seen)
    ensures var mark := fingerprint(last.items);
            Indexes(buckets[mark := Bucket(buckets, mark) + [last]], fingerprint, seen + [last])
  {
    var mark := fingerprint(last.items);
    var more := buckets[mark := Bucket(buckets, mark) + [last]];
    forall items ensures FirstOf(Bucket(more, fingerprint(items)), items) == FirstOf(seen + [last], items) {
      FirstOfSnoc(seen, last, items);
      FirstOfSnoc(Bucket(buckets, mark), last, items);
    }
  }

  method Find(bucket: seq<UserList>, items: seq<UserPlan>) returns (found: Option<UserList>)
    ensures found == FirstOf(bucket, items)
  {
    for i := 0 to |bucket|
      invariant FirstOf(bucket[..i], items) == None
    {
      assert bucket[..i + 1] == bucket[..i] + [bucket[i]];
      FirstOfSnoc(bucket[..i], bucket[i], items);
      if bucket[i].items == items {
        FirstOfPrefix(bucket, i + 1, items);
        return Some(bucket[i]);
      }
    }
    assert bucket[..|bucket|] == bucket;
    return None;
  }

  lemma {:induction false} FirstOfPrefix(lists: seq<UserList>, i: nat, items: seq<UserPlan>)
    requires i <= |lists| && FirstOf(lists[..i], items).Some?
    ensures FirstOf(lists, items) == FirstOf(lists[..i], items)
    decreases |lists|
  {
    if i == |lists| {
      assert lists[..i] == lists;
    } else {
      var init := lists[..|lists| - 1];
      assert init[..i] == lists[..i];
      FirstOfPrefix(init, i, items);
    }
  }

  // The list an inbound is given: the one found among those seen, else its own.
  lemma {:induction false} SharedAt(lists: seq<UserList>, i: nat)
    requires i < |lists|
    ensures var own := lists[i];
            && lists[..i + 1] == lists[..i] + [own]
            && FirstOf(lists, own.items) ==
               if FirstOf(lists[..i], own.items).Some? then FirstOf(lists[..i], own.items) else Some(own)
  {
    hide FirstOf;
    var own := lists[i];
    assert lists[..i + 1] == lists[..i] + [own];
    FirstOfSnoc(lists[..i], own, own.items);
    FirstOfPrefix(lists, i + 1, own.items);
  }

  method ShareIdenticalUserLists(inbounds: array<Inbound>, fingerprint: Fingerprint)
    modifies inbounds
    ensures Shares(old(inbounds[..]), inbounds[..])
  {
    hide FirstOf, Indexes, Bucket;
    ghost var before := inbounds[..];
    ghost var lists := ListsOf(before);
    var buckets: map<nat, seq<UserList>> := map[];
    NothingIndexed(fingerprint, lists);
    for i := 0 to inbounds.Length
      invariant forall j :: i <= j < inbounds.Length ==> inbounds[j] == before[j]
      invariant forall j :: 0 <= j < i ==>
                  inbounds[j].tag == before[j].tag && Some(inbounds[j].users) == FirstOf(lists, before[j].users.items)
      invariant Indexes(buckets, fingerprint, lists[..i])
    {
      var own := inbounds[i].users;
      var mark := fingerprint(own.items);
      var bucket := Bucket(buckets, mark);
      var existing := Find(bucket, own.items);
      SharedAt(lists, i);
      Looked(buckets, fingerprint, lists[..i], own.items);
      if existing.Some? {
        IndexesFound(buckets, fingerprint, lists[..i], own);
        inbounds[i] := inbounds[i].(users := existing.value);
      } else {
        IndexesNew(buckets, fingerprint, lists[..i], own);
        buckets := buckets[mark := bucket + [own]];
      }
    }
  }

  lemma NothingIndexed(fingerprint: Fingerprint, lists: seq<UserList>)
    ensures Indexes(map[], fingerprint, lists[..0])
  {
  }

  lemma Looked(buckets: map<nat, seq<UserList>>, fingerprint: Fingerprint, seen: seq<UserList>, items: seq<UserPlan>)
    requires Indexes(buckets, fingerprint, seen)
    ensures FirstOf(Bucket(buckets, fingerprint(items)), items) == FirstOf(seen, items)
  {
  }
}
