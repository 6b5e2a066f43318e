// What a reconcile call answers, said from the desired nodes and what loading them answers: the failures noted,
// the error it ends in, and the exit it takes.
module NodeLaws {
  import opened Sequences
  import opened Results
  import opened Nodes

  // ----- The failures -----

  /** Why a node fails. */
  function Reason(desired: seq<NodeConfig>, load: Loader, i: nat): string
    requires i < |desired|
  {
    var key := NodeKey(desired[i]);
    if key == Key("") then "node config requires api host and node id"
    else if exists j :: 0 <= j < i && NodeKey(desired[j]) == key then "duplicate node config: " + key.text
    else
      match load(i, desired[i])
      case Err(error) => error
      case Ok(_) => "received empty node info"
  }

  /** The nodes that fail among the first n, each with its reason, in order. */
  function FailureList(desired: seq<NodeConfig>, current: Slots, load: Loader, n: nat): seq<Failure>
    requires n <= |desired|
  {
    if n == 0 then []
    else
      FailureList(desired, current, load, n - 1)
      + if FailsAt(desired, current, load, n - 1) then [Failure(desired[n - 1], Reason(desired, load, n - 1))] else []
  }

  lemma ReasonInPrefix(desired: seq<NodeConfig>, load: Loader, n: nat, i: nat)
    requires i < n <= |desired|
    ensures Reason(desired[..n], load, i) == Reason(desired, load, i)
  {
    hide NodeKey;
    assert forall j :: 0 <= j < n ==> desired[..n][j] == desired[j];
  }

  lemma {:induction false} ListInPrefix(desired: seq<NodeConfig>, current: Slots, load: Loader, n: nat)
    requires n < |desired|
    ensures FailureList(desired[..|desired| - 1], current, load, n) == FailureList(desired, current, load, n)
  {
    hide FailsAt, Reason;
    if n > 0 {
      ListInPrefix(desired, current, load, n - 1);
      FailsInPrefix(desired, current, load, n - 1);
      ReasonInPrefix(desired, load, |desired| - 1, n - 1);
    }
  }

  /** Why a visit fails, from what the scan has seen. */
  function VisitReason(scan: Scan, key: Key, answer: Answer): string {
    if key == Key("") then "node config requires api host and node id"
    else if key in scan.desired then "duplicate node config: " + key.text
    else
      match answer
      case Err(error) => error
      case Ok(_) => "received empty node info"
  }

  lemma VisitFailsFor(scan: Scan, config: NodeConfig, answer: Answer, current: Slots, options: Options)
    ensures var key, visited := NodeKey(config), scan.Visit(config, answer, current, options);
            if key == NO_KEY || key in scan.desired || AnswerFails(answer, key, current) then
              if options.continueOnError
              then visited.Ok? && visited.value.failures
                                  == scan.failures + [Failure(config, VisitReason(scan, key, answer))]
              else visited == Err(VisitReason(scan, key, answer))
            else visited.Ok? && visited.value.failures == scan.failures
  {
    hide NodeKey;
  }

  /** A visit that fails does so for the node's reason. */
  lemma VisitSaysWhy(desired: seq<NodeConfig>, current: Slots, options: Options, load: Loader, scan: Scan)
    requires desired != [] && ScanAll(desired[..|desired| - 1], current, options, load) == Ok(scan)
    ensures var n := |desired| - 1;
            var visited := scan.Visit(desired[n], load(n, desired[n]), current, options);
            && (FailsAt(desired, current, load, n) ==>
                  if options.continueOnError
                  then visited.Ok? && visited.value.failures
                                      == scan.failures + [Failure(desired[n], Reason(desired, load, n))]
                  else visited == Err(Reason(desired, load, n)))
            && (!FailsAt(desired, current, load, n) ==> visited.Ok? && visited.value.failures == scan.failures)
  {
    hide NodeKey, ScanAll, FailsAt, Scan.Visit, AnswerFails;
    var n := |desired| - 1;
    RefusedIsFailing(desired, current, options, load, scan);
    SeenIsRepeated(desired, current, options, load, scan);
    VisitFailsFor(scan, desired[n], load(n, desired[n]), current, options);
  }

  lemma SeenIsRepeated(desired: seq<NodeConfig>, current: Slots, options: Options, load: Loader, scan: Scan)
    requires desired != [] && ScanAll(desired[..|desired| - 1], current, options, load) == Ok(scan)
    ensures var n, key := |desired| - 1, NodeKey(desired[|desired| - 1]);
            key != NO_KEY ==> (key in scan.desired <==> exists j :: 0 <= j < n && NodeKey(desired[j]) == key)
  {
    hide NodeKey, ScanAll, Answered, Keyed, DistinctKeys, Firsts, Found;
    var n := |desired| - 1;
    ScanAllScans(desired[..n], current, options, load);
    assert forall j :: 0 <= j < n ==> Keys(desired[..n])[j] == NodeKey(desired[j]);
    var key := NodeKey(desired[n]);
    if j :| 0 <= j < n && NodeKey(desired[j]) == key {
      assert Keys(desired[..n])[j] in Keys(desired[..n]);
    }
  }

  /** When errors are tolerated the failures noted are those of the failing nodes, in order, each with its reason. */
  lemma {:induction false} FailuresAreListed(
      desired: seq<NodeConfig>, current: Slots, options: Options, load: Loader)
    requires ScanAll(desired, current, options, load).Ok?
    ensures ScanAll(desired, current, options, load).value.failures
         == FailureList(desired, current, load, |desired|)
  {
    if desired != [] {
      hide Reason, FailsAt, Scan.Visit;
      var n := |desired| - 1;
      ScanSplits(desired, current, options, load);
      FailuresAreListed(desired[..n], current, options, load);
      ListInPrefix(desired, current, load, n);
      VisitSaysWhy(desired, current, options, load, ScanAll(desired[..n], current, options, load).value);
      AddNothing(FailureList(desired, current, load, n));
    }
  }

  /** When they are not, a scan ends with the reason of the first node that fails. */
  lemma {:induction false} FirstFailureEnds(
      desired: seq<NodeConfig>, current: Slots, options: Options, load: Loader, k: nat)
    requires k < |desired| && !options.continueOnError && FailsAt(desired, current, load, k)
    requires forall i :: 0 <= i < k ==> !FailsAt(desired, current, load, i)
    ensures ScanAll(desired, current, options, load) == Err(Reason(desired, load, k))
  {
    hide Reason, FailsAt, Scan.Visit;
    var n := |desired| - 1;
    if k < n {
      FailsInPrefix(desired, current, load, k);
      forall i | 0 <= i < k ensures !FailsAt(desired[..n], current, load, i) {
        FailsInPrefix(desired, current, load, i);
      }
      FirstFailureEnds(desired[..n], current, options, load, k);
      ReasonInPrefix(desired, load, n, k);
    } else {
      forall i ensures !FailsAt(desired[..n], current, load, i) {
        FailsInPrefix(desired, current, load, i);
        NoFailureOutside(desired[..n], current, load, i);
      }
      ScanErrsExactly(desired[..n], current, options, load);
      VisitSaysWhy(desired, current, options, load, ScanAll(desired[..n], current, options, load).value);
    }
  }

  lemma NoFailureOutside(desired: seq<NodeConfig>, current: Slots, load: Loader, i: int)
    ensures !(0 <= i < |desired|) ==> !FailsAt(desired, current, load, i)
  {
  }

  // ----- The exits -----

  /** Loading some node, the first with its key, gave info. */
  predicate SomeLoaded(desired: seq<NodeConfig>, load: Loader) {
    exists i :: 0 <= i < |desired| && IsFirst(Keys(desired), i) && load(i, desired[i]).Ok? &&
                load(i, desired[i]).value.Some?
  }

  predicate SomeFails(desired: seq<NodeConfig>, current: Slots, load: Loader) {
    exists i :: 0 <= i < |desired| && FailsAt(desired, current, load, i)
  }

  lemma {:induction false} FirstsOccur(keys: seq<Key>, key: Key)
    requires key in Firsts(keys)
    ensures exists i :: IsFirst(keys, i) && keys[i] == key
  {
    var n := |keys| - 1;
    var init, last := keys[..n], keys[n];
    InitLast(keys);
    if key in Firsts(init) {
      FirstsOccur(init, key);
      var i :| IsFirst(init, i) && init[i] == key;
      FirstSnoc(init, last, i);
      assert IsFirst(keys, i) && keys[i] == key;
    } else {
      FirstsAreKeys(init, last);
      FirstSnoc(init, last, n);
      assert IsFirst(keys, n) && keys[n] == key;
    }
  }

  lemma {:induction false} FirstsAreKeys(keys: seq<Key>, key: Key)
    requires key != NO_KEY
    ensures key in keys <==> key in Firsts(keys)
  {
    if keys != [] {
      FirstsAreKeys(keys[..|keys| - 1], key);
      InitLast(keys);
    }
  }

  /** There are candidates exactly when loading gave info for some node. */
  lemma CandidatesAreLoaded(desired: seq<NodeConfig>, current: Slots, options: Options, load: Loader)
    requires ScanAll(desired, current, options, load).Ok?
    ensures ScanAll(desired, current, options, load).value.candidates == map[] <==> !SomeLoaded(desired, load)
  {
    hide NodeKey, ScanAll, Keyed, DistinctKeys, Firsts, IsFirst;
    var scan, keys := ScanAll(desired, current, options, load).value, Keys(desired);
    ScanAllScans(desired, current, options, load);
    InBounds(keys);
    if i :| 0 <= i < |desired| && IsFirst(keys, i) && load(i, desired[i]).Ok? && load(i, desired[i]).value.Some? {
      assert Slot(scan.candidates, keys[i]) == Found(desired, load)[i];
      assert Found(desired, load)[i].Some?;
    }
    if scan.candidates != map[] {
      var key :| key in scan.candidates;
      FirstsOccur(keys, key);
      var i :| IsFirst(keys, i) && keys[i] == key;
      assert Slot(scan.candidates, keys[i]) == Found(desired, load)[i];
    }
  }

  lemma InBounds(keys: seq<Key>)
    ensures forall i :: IsFirst(keys, i) ==> 0 <= i < |keys|
  {
  }

  /**
   * The exit a call takes, for a manager whose nodes have keys of their own: the first failure's error where
   * failures are not tolerated; noting the failures only where they are and loading gave no info at all; the answer
   * that a full reload is needed; or the commit, which takes over what the call was given.
   */
  lemma ExitsAreExact(state: State, desired: seq<NodeConfig>, realtime: string, options: Options, load: Loader)
    requires SlotsOf(state.runtimes).Ok?
    ensures var current, o := SlotsOf(state.runtimes).value, Reconciled(state, desired, realtime, options, load);
            var failed := SomeFails(desired, current, load);
            var failures := FailureList(desired, current, load, |desired|);
            && (!options.continueOnError && failed ==> o.result.Err? && o.state == state)
            && (options.continueOnError && failed && !SomeLoaded(desired, load) ==>
                  && o.state == state.(failures := failures) && o.result.Ok?
                  && o.result.value == Summary(0, 0, 0, 0, o.result.value.skipped, false, failures))
            && (!failed || (options.continueOnError && SomeLoaded(desired, load)) ==>
                  && o.result.Ok? && o.result.value.failures == failures
                  && if o.result.value.fullReload
                     then o.state == state && o.result.value
                            == Summary(0, 0, 0, 0, o.result.value.skipped, true, failures)
                     else o.state == State(o.state.runtimes, failures, realtime, options.continueOnError))
  {
    hide SlotsOf, ScanAll, NeedsFullReload, Build, FailureList, FailsAt, SomeLoaded;
    var current := SlotsOf(state.runtimes).value;
    ScanErrsExactly(desired, current, options, load);
    forall i | FailsAt(desired, current, load, i) ensures 0 <= i < |desired| {
      NoFailureOutside(desired, current, load, i);
    }
    if ScanAll(desired, current, options, load).Ok? {
      FailuresAreListed(desired, current, options, load);
      CandidatesAreLoaded(desired, current, options, load);
    }
  }

  // ----- Nodes that cannot be told apart -----

  lemma HeldKeys(slots: Slots, keys: seq<Key>, runtimes: seq<Runtime>, key: Key)
    requires Hold(slots, keys, runtimes)
    ensures key in slots <==> key in keys
  {
  }

  lemma LastClashEnds(init: seq<Runtime>, last: Runtime)
    requires DistinctKeys(KeysOf(init)) && !DistinctKeys(KeysOf(init + [last]))
    ensures var key := NodeKey(last.config);
            SlotsOf(init + [last]) == Err(if key == Key("") then "current node config requires api host and node id"
                                          else "duplicate current node config: " + key.text)
  {
    hide NodeKey, DistinctKeys, KeysOf, Hold;
    SlotsOfDistinct(init);
    KeysOfSnoc(init, last);
    DistinctSnoc(KeysOf(init), NodeKey(last.config));
    HeldKeys(SlotsOf(init).value, KeysOf(init), init, NodeKey(last.config));
    assert (init + [last])[..|init|] == init;
  }

  /** A running node without a key, or with that of an earlier one, makes every call end with this error. */
  lemma FirstClashEnds(runtimes: seq<Runtime>, k: nat)
    requires k < |runtimes| && DistinctKeys(KeysOf(runtimes[..k])) && !DistinctKeys(KeysOf(runtimes[..k + 1]))
    ensures var key := NodeKey(runtimes[k].config);
            SlotsOf(runtimes) == Err(if key == Key("") then "current node config requires api host and node id"
                                     else "duplicate current node config: " + key.text)
  {
    hide NodeKey, DistinctKeys, KeysOf, SlotsOf;
    assert runtimes[..k + 1] == runtimes[..k] + [runtimes[k]];
    LastClashEnds(runtimes[..k], runtimes[k]);
    SlotsOfStops(runtimes, k + 1);
  }
}
