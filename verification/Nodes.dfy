// The node manager: the running nodes, and the transactional step that reconciles them with the desired ones.
module Nodes {
  import opened Sequences
  import opened Results
  import opened Text

  // `settings` stands for every field reconciliation only compares.
  datatype NodeConfig = NodeConfig(url: string, nodeId: nat, settings: string)

  datatype NodeInfo = NodeInfo(routes: seq<string>, settings: string) {
    predicate HasCustomRoutes() {
      routes != []
    }
  }

  datatype Runtime = Runtime(config: NodeConfig, info: NodeInfo)

  datatype Failure = Failure(config: NodeConfig, error: string)

  datatype Options = Options(continueOnError: bool)

  /** What loading a node's info answers. */
  type Answer = Result<Option<NodeInfo>, string>

  // ----- Keys -----

  datatype Key = Key(text: string)

  const NO_KEY := Key("")

  function WithoutTrailing(s: string, c: char): (r: string)
    ensures r <= s && (r != "" ==> r[|r| - 1] != c)
  {
    if s != "" && s[|s| - 1] == c then WithoutTrailing(s[..|s| - 1], c) else s
  }

  function ApiHost(config: NodeConfig): string {
    WithoutTrailing(Trim(config.url), '/')
  }

  function NodeKey(config: NodeConfig): Key {
    var host := ApiHost(config);
    if host == "" || config.nodeId == 0 then NO_KEY else Key(host + "#" + Decimal(config.nodeId))
  }

  lemma {:induction false} CutAtLast(a: string, b: string, c: string, d: string, sep: char)
    requires sep !in b && sep !in d
    requires a + [sep] + b == c + [sep] + d
    ensures a == c && b == d
  {
    var x, y := a + [sep] + b, c + [sep] + d;
    assert x[|a|] == sep && y[|c|] == sep;
    assert forall i :: |a| < i < |x| ==> x[i] == b[i - |a| - 1];
    assert forall i :: |c| < i < |y| ==> y[i] == d[i - |c| - 1];
    assert |a| == |c|;
    assert a == x[..|a|] && c == y[..|c|];
    assert b == x[|a| + 1..] && d == y[|c| + 1..];
  }

  /** Two usable nodes have the same key exactly when they have the same host and id. */
  lemma KeyIsInjective(a: NodeConfig, b: NodeConfig)
    requires NodeKey(a) != NO_KEY && NodeKey(b) != NO_KEY
    ensures NodeKey(a) == NodeKey(b) <==> ApiHost(a) == ApiHost(b) && a.nodeId == b.nodeId
  {
    if NodeKey(a) == NodeKey(b) {
      var m, n := Decimal(a.nodeId), Decimal(b.nodeId);
      assert ApiHost(a) + ['#'] + m == ApiHost(b) + ['#'] + n;
      CutAtLast(ApiHost(a), m, ApiHost(b), n, '#');
      DecimalInjective(a.nodeId, b.nodeId);
    }
  }

  predicate SlashesOnly(s: string) {
    forall i :: 0 <= i < |s| ==> s[i] == '/'
  }

  lemma {:induction false} SlashesGo(host: string, slashes: string)
    requires SlashesOnly(slashes) && (host != "" ==> host[|host| - 1] != '/')
    ensures WithoutTrailing(host + slashes, '/') == host
  {
    if slashes == "" {
      assert host + slashes == host;
    } else {
      var n := |slashes| - 1;
      SlashesGo(host, slashes[..n]);
      assert (host + slashes)[..|host + slashes| - 1] == host + slashes[..n];
    }
  }

  /**
   * The key of a node read off its url: the host without the whitespace around it and the slashes behind it, a hash
   * sign and the id. Without a host or an id there is none.
   */
  lemma KeyFromUrl(config: NodeConfig, front: string, host: string, slashes: string, back: string)
    requires config.url == front + (host + slashes) + back && AllWhitespace(front) && AllWhitespace(back)
    requires SlashesOnly(slashes) && (host != "" ==> host[|host| - 1] != '/')
    requires var text := host + slashes;
             text != "" ==> !IsWhitespace(text[0]) && !IsWhitespace(text[|text| - 1])
    ensures NodeKey(config) ==
            if host == "" || config.nodeId == 0 then Key("") else Key(host + "#" + Decimal(config.nodeId))
  {
    var text := host + slashes;
    TrimAround(front, text, back);
    BareText(text);
    SlashesGo(host, slashes);
    hide Trim, WithoutTrailing, Decimal;
  }

  lemma BareText(text: string)
    requires text != "" ==> !IsWhitespace(text[0]) && !IsWhitespace(text[|text| - 1])
    ensures Trim(text) == text
  {
  }

  // ----- The slots of the running nodes -----

  type Slots = map<Key, Runtime>

  function Slot(slots: Slots, key: Key): Option<Runtime> {
    if key in slots then Some(slots[key]) else None
  }

  function AddSlot(slots: Slots, runtime: Runtime): Result<Slots, string> {
    var key := NodeKey(runtime.config);
    if key == NO_KEY then Err("current node config requires api host and node id")
    else if key in slots then Err("duplicate current node config: " + key.text)
    else Ok(slots[key := runtime])
  }

  /** The running nodes by key, or the first node that has no key or repeats one. */
  function SlotsOf(runtimes: seq<Runtime>): Result<Slots, string> {
    if runtimes == [] then Ok(map[])
    else
      var slots :- SlotsOf(runtimes[..|runtimes| - 1]);
      AddSlot(slots, runtimes[|runtimes| - 1])
  }

  function KeysOf(runtimes: seq<Runtime>): seq<Key> {
    seq(|runtimes|, i requires 0 <= i < |runtimes| => NodeKey(runtimes[i].config))
  }

  predicate DistinctKeys(keys: seq<Key>) {
    && NO_KEY !in keys
    && forall i, j :: 0 <= i < j < |keys| ==> keys[i] != keys[j]
  }

  /** The slots are these nodes under these keys, in whatever order. */
  ghost predicate Hold(slots: Slots, keys: seq<Key>, runtimes: seq<Runtime>) {
    && |keys| == |runtimes| == |slots|
    && (forall key :: key in slots <==> key in keys)
    && (forall i :: 0 <= i < |keys| ==> Slot(slots, keys[i]) == Some(runtimes[i]))
    && (forall key :: key in slots ==> NodeKey(slots[key].config) == key)
  }

  lemma KeysOfSnoc(runtimes: seq<Runtime>, last: Runtime)
    ensures KeysOf(runtimes + [last]) == KeysOf(runtimes) + [NodeKey(last.config)]
  {
  }

  lemma DistinctSnoc(keys: seq<Key>, key: Key)
    ensures DistinctKeys(keys + [key]) <==> DistinctKeys(keys) && key != NO_KEY && key !in keys
  {
    var all := keys + [key];
    assert all[|keys|] == key;
    assert forall i :: 0 <= i < |keys| ==> all[i] == keys[i];
  }

  lemma SlotsAt(slots: Slots, keys: seq<Key>, runtimes: seq<Runtime>, key: Key, last: Runtime)
    requires |keys| == |runtimes| && key !in keys
    requires forall i :: 0 <= i < |keys| ==> Slot(slots, keys[i]) == Some(runtimes[i])
    ensures forall i :: 0 <= i < |keys| + 1 ==>
              Slot(slots[key := last], (keys + [key])[i]) == Some((runtimes + [last])[i])
  {
    forall i | 0 <= i < |keys| + 1
      ensures Slot(slots[key := last], (keys + [key])[i]) == Some((runtimes + [last])[i])
    {
      if i < |keys| {
        assert keys[i] in keys;
      }
    }
  }

  lemma SlotsGrow(slots: Slots, key: Key, last: Runtime)
    requires key !in slots && NodeKey(last.config) == key
    requires forall other :: other in slots ==> NodeKey(slots[other].config) == other
    ensures var more := slots[key := last];
            && |more| == |slots| + 1
            && (forall other :: other in more <==> other in slots || other == key)
            && (forall other :: other in more ==> NodeKey(more[other].config) == other)
  {
    hide NodeKey;
    assert slots[key := last].Keys == slots.Keys + {key};
  }

  lemma HoldSnoc(slots: Slots, keys: seq<Key>, runtimes: seq<Runtime>, key: Key, last: Runtime)
    requires Hold(slots, keys, runtimes) && key !in keys && NodeKey(last.config) == key
    ensures Hold(slots[key := last], keys + [key], runtimes + [last])
  {
    hide NodeKey, Slot;
    SlotsGrow(slots, key, last);
    OneMoreKey(keys, key);
    SlotsAt(slots, keys, runtimes, key, last);
  }

  lemma SlotsOfSnoc(init: seq<Runtime>, last: Runtime)
    ensures SlotsOf(init + [last]) ==
            match SlotsOf(init) case Err(error) => Err(error) case Ok(slots) => AddSlot(slots, last)
  {
    assert (init + [last])[..|init|] == init;
    hide AddSlot;
  }

  lemma AddSlotAdds(slots: Slots, last: Runtime)
    ensures var key := NodeKey(last.config);
            && (AddSlot(slots, last).Ok? <==> key != NO_KEY && key !in slots)
            && (AddSlot(slots, last).Ok? ==> AddSlot(slots, last).value == slots[key := last])
  {
    hide NodeKey;
  }

  lemma NothingHeld()
    ensures SlotsOf([]) == Ok(map[]) && DistinctKeys(KeysOf([])) && Hold(map[], KeysOf([]), [])
  {
    assert KeysOf([]) == [];
  }

  lemma HoldsKeys(slots: Slots, keys: seq<Key>, runtimes: seq<Runtime>, key: Key)
    requires Hold(slots, keys, runtimes)
    ensures key in slots <==> key in keys
  {
  }

  /** The slots exist exactly when every running node has a key of its own, and then they hold the nodes. */
  lemma {:induction false} SlotsOfDistinct(runtimes: seq<Runtime>)
    ensures SlotsOf(runtimes).Ok? <==> DistinctKeys(KeysOf(runtimes))
    ensures SlotsOf(runtimes).Ok? ==> Hold(SlotsOf(runtimes).value, KeysOf(runtimes), runtimes)
  {
    hide SlotsOf, AddSlot, KeysOf, DistinctKeys, NodeKey, Hold;
    if runtimes == [] {
      NothingHeld();
    } else {
      var init, last := runtimes[..|runtimes| - 1], runtimes[|runtimes| - 1];
      InitLast(runtimes);
      SlotsOfDistinct(init);
      SlotsOfSnoc(init, last);
      KeysOfSnoc(init, last);
      DistinctSnoc(KeysOf(init), NodeKey(last.config));
      if SlotsOf(init).Ok? {
        var slots := SlotsOf(init).value;
        AddSlotAdds(slots, last);
        HoldsKeys(slots, KeysOf(init), init, NodeKey(last.config));
        if AddSlot(slots, last).Ok? {
          HoldSnoc(slots, KeysOf(init), init, NodeKey(last.config), last);
        }
      }
    }
  }

  // ----- Scanning the desired nodes -----

  datatype Scan = Scan(
    desired: set<Key>, candidates: Slots, ordered: seq<Key>, skipped: nat, failures: seq<Failure>)
  {
    /** A failed node is skipped and noted when errors are tolerated; otherwise its error ends the scan. */
    function Fail(config: NodeConfig, error: string, options: Options): Result<Scan, string> {
      if options.continueOnError
      then Ok(this.(skipped := skipped + 1, failures := failures + [Failure(config, error)]))
      else Err(error)
    }

    function Visit(config: NodeConfig, answer: Answer, current: Slots, options: Options): Result<Scan, string> {
      var key := NodeKey(config);
      if key == NO_KEY then Fail(config, "node config requires api host and node id", options)
      else if key in desired then Fail(config, "duplicate node config: " + key.text, options)
      else
        var seen := this.(desired := desired + {key}, ordered := ordered + [key]);
        match answer
        case Ok(Some(info)) => Ok(seen.(candidates := candidates[key := Runtime(config, info)]))
        case Ok(None) =>
          if key in current then Ok(seen.(skipped := skipped + 1))
          else seen.Fail(config, "received empty node info", options)
        case Err(error) => seen.Fail(config, error, options)
    }
  }

  const NOTHING_SCANNED := Scan({}, map[], [], 0, [])

  /** Loading is a function of the position and the config: any answers a loader may give, in order. */
  type Loader = (nat, NodeConfig) -> Answer

  function ScanAll(desired: seq<NodeConfig>, current: Slots, options: Options, load: Loader): Result<Scan, string> {
    if desired == [] then Ok(NOTHING_SCANNED)
    else
      var n := |desired| - 1;
      var scan :- ScanAll(desired[..n], current, options, load);
      scan.Visit(desired[n], load(n, desired[n]), current, options)
  }

  // ----- Building the next runtimes -----

  datatype Built = Built(next: seq<Runtime>, added: nat, restarted: nat, kept: nat) {
    function Place(candidate: Option<Runtime>, slot: Option<Runtime>): Built {
      match (candidate, slot)
      case (None, Some(existing)) => this.(next := next + [existing], kept := kept + 1)
      case (None, None) => this
      case (Some(loaded), Some(existing)) =>
        if loaded == existing then this.(next := next + [existing], kept := kept + 1)
        else this.(next := next + [loaded], restarted := restarted + 1)
      case (Some(loaded), None) => this.(next := next + [loaded], added := added + 1)
    }
  }

  function Build(ordered: seq<Key>, candidates: Slots, current: Slots): Built {
    if ordered == [] then Built([], 0, 0, 0)
    else
      var key := ordered[|ordered| - 1];
      Build(ordered[..|ordered| - 1], candidates, current).Place(Slot(candidates, key), Slot(current, key))
  }

  /** A node with custom routes would be dropped, added or changed. */
  predicate NeedsFullReload(current: Slots, desired: set<Key>, candidates: Slots) {
    || (exists key :: key in current && key !in desired && current[key].info.HasCustomRoutes())
    || (exists key :: key in candidates && key !in current && candidates[key].info.HasCustomRoutes())
    || (exists key :: key in candidates && key in current && current[key] != candidates[key] &&
          (current[key].info.HasCustomRoutes() || candidates[key].info.HasCustomRoutes()))
  }

  // ----- One reconciliation -----

  datatype Summary = Summary(
    added: nat, removed: nat, restarted: nat, kept: nat, skipped: nat, fullReload: bool, failures: seq<Failure>)

  datatype State = State(runtimes: seq<Runtime>, failures: seq<Failure>, realtime: string, continueOnError: bool)

  datatype Outcome = Outcome(state: State, result: Result<Summary, string>)

  /** No node could be loaded, some failed, and errors are tolerated: only the failures are recorded. */
  predicate AllFailed(scan: Scan, options: Options) {
    scan.candidates == map[] && scan.failures != [] && options.continueOnError
  }

  function Conclude(state: State, current: Slots, scan: Scan, realtime: string, options: Options): Outcome {
    var summary := Summary(0, 0, 0, 0, scan.skipped, false, scan.failures);
    if AllFailed(scan, options) then Outcome(state.(failures := scan.failures), Ok(summary))
    else if NeedsFullReload(current, scan.desired, scan.candidates) then
      Outcome(state, Ok(summary.(fullReload := true)))
    else
      var b := Build(scan.ordered, scan.candidates, current);
      Outcome(State(b.next, scan.failures, realtime, options.continueOnError),
              Ok(summary.(added := b.added, removed := |current.Keys - scan.desired|, restarted := b.restarted,
                          kept := b.kept)))
  }

  function Reconciled(state: State, desired: seq<NodeConfig>, realtime: string, options: Options, load: Loader)
    : Outcome
  {
    match SlotsOf(state.runtimes)
    case Err(error) => Outcome(state, Err(error))
    case Ok(current) =>
      match ScanAll(desired, current, options, load)
      case Err(error) => Outcome(state, Err(error))
      case Ok(scan) => Conclude(state, current, scan, realtime, options)
  }

  class NodeManager {
    var runtimes: seq<Runtime>
    var failures: seq<Failure>
    var realtime: string
    var continueOnError: bool

    ghost function Contents(): State
      reads this
    {
      State(runtimes, failures, realtime, continueOnError)
    }

    method CurrentSlots() returns (r: Result<Slots, string>)
      ensures r == SlotsOf(runtimes)
    {
      var slots: Slots := map[];
      for i := 0 to |runtimes|
        invariant Ok(slots) == SlotsOf(runtimes[..i])
      {
        assert runtimes[..i + 1][..i] == runtimes[..i];
        var added := AddSlot(slots, runtimes[i]);
        if added.Err? {
          SlotsOfStops(runtimes, i + 1);
          return added;
        }
        slots := added.value;
      }
      assert runtimes[..|runtimes|] == runtimes;
      return Ok(slots);
    }

    method ScanDesired(desired: seq<NodeConfig>, current: Slots, options: Options, load: Loader)
      returns (r: Result<Scan, string>)
      ensures r == ScanAll(desired, current, options, load)
    {
      var scan := NOTHING_SCANNED;
      for i := 0 to |desired|
        invariant Ok(scan) == ScanAll(desired[..i], current, options, load)
      {
        assert desired[..i + 1][..i] == desired[..i];
        var visited := scan.Visit(desired[i], load(i, desired[i]), current, options);
        if visited.Err? {
          ScanStops(desired, i + 1, current, options, load);
          return visited;
        }
        scan := visited.value;
      }
      assert desired[..|desired|] == desired;
      return Ok(scan);
    }

    method Reconcile(desired: seq<NodeConfig>, realtime: string, options: Options, load: Loader)
      returns (result: Result<Summary, string>)
      modifies this
      ensures Outcome(Contents(), result) == Reconciled(old(Contents()), desired, realtime, options, load)
    {
      hide SlotsOf, ScanAll, Build, NeedsFullReload;
      var slots := CurrentSlots();
      if slots.Err? {
        return Err(slots.error);
      }
      var current := slots.value;
      var scanned := ScanDesired(desired, current, options, load);
      if scanned.Err? {
        return Err(scanned.error);
      }
      var scan := scanned.value;
      var summary := Summary(0, 0, 0, 0, scan.skipped, false, scan.failures);
      if scan.candidates == map[] && scan.failures != [] && options.continueOnError {
        failures := scan.failures;
        return Ok(summary);
      }
      if NeedsFullReload(current, scan.desired, scan.candidates) {
        return Ok(summary.(fullReload := true));
      }
      var removed := CountRemoved(current, scan.desired);
      var b := BuildNext(scan.ordered, scan.candidates, current);
      runtimes := b.next;
      failures := scan.failures;
      this.realtime := realtime;
      continueOnError := options.continueOnError;
      return Ok(summary.(added := b.added, removed := removed, restarted := b.restarted, kept := b.kept));
    }
  }

  method BuildNext(ordered: seq<Key>, candidates: Slots, current: Slots) returns (b: Built)
    ensures b == Build(ordered, candidates, current)
  {
    b := Built([], 0, 0, 0);
    for i := 0 to |ordered|
      invariant b == Build(ordered[..i], candidates, current)
    {
      assert ordered[..i + 1][..i] == ordered[..i];
      b := b.Place(Slot(candidates, ordered[i]), Slot(current, ordered[i]));
    }
    assert ordered[..|ordered|] == ordered;
  }

  method CountRemoved(current: Slots, desired: set<Key>) returns (removed: nat)
    ensures removed == |current.Keys - desired|
  {
    removed := 0;
    var left, gone: set<Key> := current.Keys, {};
    while left != {}
      invariant left <= current.Keys && gone == current.Keys - desired - left && removed == |gone|
      decreases left
    {
      var key :| key in left;
      left := left - {key};
      if key !in desired {
        gone := gone + {key};
        removed := removed + 1;
      }
    }
  }

  lemma {:induction false} SlotsOfStops(runtimes: seq<Runtime>, i: nat)
    requires i <= |runtimes| && SlotsOf(runtimes[..i]).Err?
    ensures SlotsOf(runtimes) == SlotsOf(runtimes[..i])
    decreases |runtimes|
  {
    if i == |runtimes| {
      assert runtimes[..i] == runtimes;
    } else {
      var init := runtimes[..|runtimes| - 1];
      assert init[..i] == runtimes[..i];
      SlotsOfStops(init, i);
    }
  }

  lemma {:induction false} ScanStops(
    desired: seq<NodeConfig>, i: nat, current: Slots, options: Options, load: Loader)
    requires i <= |desired| && ScanAll(desired[..i], current, options, load).Err?
    ensures ScanAll(desired, current, options, load) == ScanAll(desired[..i], current, options, load)
    decreases |desired|
  {
    if i == |desired| {
      assert desired[..i] == desired;
    } else {
      var init := desired[..|desired| - 1];
      assert init[..i] == desired[..i];
      ScanStops(init, i, current, options, load);
    }
  }

  // ----- What a scan has found -----

  function Keys(configs: seq<NodeConfig>): (keys: seq<Key>)
    ensures |keys| == |configs|
  {
    seq(|configs|, i requires 0 <= i < |configs| => NodeKey(configs[i]))
  }

  /** The i-th key is usable and did not occur before. */
  predicate IsFirst(keys: seq<Key>, i: int) {
    0 <= i < |keys| && keys[i] != NO_KEY && keys[i] !in keys[..i]
  }

  function Loaded(config: NodeConfig, answer: Answer): Option<Runtime> {
    match answer
    case Ok(Some(info)) => Some(Runtime(config, info))
    case _ => None
  }

  predicate Keyed(slots: Slots) {
    forall key :: key in slots ==> NodeKey(slots[key].config) == key
  }

  /** What loading each node would find. */
  function Found(configs: seq<NodeConfig>, load: Loader): (found: seq<Option<Runtime>>)
    ensures |found| == |configs|
  {
    seq(|configs|, i requires 0 <= i < |configs| => Loaded(configs[i], load(i, configs[i])))
  }

  /** The usable keys, each at its first occurrence. */
  function Firsts(keys: seq<Key>): seq<Key> {
    if keys == [] then []
    else
      var firsts, last := Firsts(keys[..|keys| - 1]), keys[|keys| - 1];
      if last == NO_KEY || last in firsts then firsts else firsts + [last]
  }

  lemma FirstsSnoc(keys: seq<Key>, key: Key)
    ensures Firsts(keys + [key]) ==
            if key == NO_KEY || key in Firsts(keys) then Firsts(keys) else Firsts(keys) + [key]
  {
    assert (keys + [key])[..|keys|] == keys;
  }

  /** The scan lists each usable key once, in the order in which they first occur. */
  ghost predicate Listed(keys: seq<Key>, scan: Scan) {
    && scan.ordered == Firsts(keys)
    && DistinctKeys(scan.ordered)
    && (forall key :: key in scan.ordered <==> key in scan.desired)
    && (forall key :: key in scan.desired <==> key != NO_KEY && key in keys)
    && scan.candidates.Keys <= scan.desired && Keyed(scan.candidates)
  }

  /** The candidates are what loading found for the first node with each key. */
  ghost predicate Answered(keys: seq<Key>, found: seq<Option<Runtime>>, candidates: Slots)
    requires |keys| == |found|
  {
    forall i :: IsFirst(keys, i) ==> Slot(candidates, keys[i]) == found[i]
  }

  ghost predicate Scanned(keys: seq<Key>, found: seq<Option<Runtime>>, scan: Scan)
    requires |keys| == |found|
  {
    Listed(keys, scan) && Answered(keys, found, scan.candidates)
  }

  lemma KeysSnoc(configs: seq<NodeConfig>, last: NodeConfig, load: Loader)
    ensures Keys(configs + [last]) == Keys(configs) + [NodeKey(last)]
    ensures Found(configs + [last], load) == Found(configs, load) + [Loaded(last, load(|configs|, last))]
  {
    hide NodeKey, Loaded;
    var all := configs + [last];
    assert forall i :: 0 <= i < |configs| ==> all[i] == configs[i];
  }

  lemma FirstSnoc(keys: seq<Key>, key: Key, i: int)
    ensures i < |keys| ==> (IsFirst(keys + [key], i) <==> IsFirst(keys, i))
    ensures IsFirst(keys + [key], |keys|) <==> key != NO_KEY && key !in keys
    ensures i > |keys| ==> !IsFirst(keys + [key], i)
  {
    if 0 <= i < |keys| {
      assert (keys + [key])[..i] == keys[..i];
    }
    assert (keys + [key])[..|keys|] == keys;
  }

  lemma AnsweredAgain(keys: seq<Key>, found: seq<Option<Runtime>>, candidates: Slots, key: Key, last: Option<Runtime>)
    requires |keys| == |found| && Answered(keys, found, candidates) && (key == NO_KEY || key in keys)
    ensures Answered(keys + [key], found + [last], candidates)
  {
    var more := keys + [key];
    forall i | IsFirst(more, i) ensures Slot(candidates, more[i]) == (found + [last])[i] {
      FirstSnoc(keys, key, i);
    }
  }

  function WithFound(candidates: Slots, key: Key, found: Option<Runtime>): Slots {
    if found.Some? then candidates[key := found.value] else candidates
  }

  lemma AnsweredNew(keys: seq<Key>, found: seq<Option<Runtime>>, candidates: Slots, key: Key, last: Option<Runtime>)
    requires |keys| == |found| && Answered(keys, found, candidates)
    requires key != NO_KEY && key !in keys && key !in candidates
    ensures Answered(keys + [key], found + [last], WithFound(candidates, key, last))
  {
    var more := keys + [key];
    forall i | IsFirst(more, i)
      ensures Slot(WithFound(candidates, key, last), more[i]) == (found + [last])[i]
    {
      FirstSnoc(keys, key, i);
      if i < |keys| {
        assert keys[i] in keys;
      }
    }
  }

  lemma OneMoreKey(keys: seq<Key>, key: Key)
    ensures forall other :: other in keys + [key] <==> other in keys || other == key
  {
  }

  lemma KeyedWithFound(candidates: Slots, key: Key, found: Option<Runtime>)
    requires Keyed(candidates) && (found.Some? ==> NodeKey(found.value.config) == key)
    ensures Keyed(WithFound(candidates, key, found))
    ensures WithFound(candidates, key, found).Keys <= candidates.Keys + {key}
  {
    hide NodeKey;
  }

  lemma ListedNew(keys: seq<Key>, scan: Scan, key: Key, found: Option<Runtime>, scan': Scan)
    requires Listed(keys, scan) && key != NO_KEY && key !in scan.desired
    requires found.Some? ==> NodeKey(found.value.config) == key
    requires scan'.desired == scan.desired + {key} && scan'.ordered == scan.ordered + [key]
    requires scan'.candidates == WithFound(scan.candidates, key, found)
    ensures Listed(keys + [key], scan')
  {
    hide NodeKey, DistinctKeys, Firsts, WithFound, Keyed;
    DistinctSnoc(scan.ordered, key);
    FirstsSnoc(keys, key);
    OneMoreKey(keys, key);
    OneMoreKey(scan.ordered, key);
    KeyedWithFound(scan.candidates, key, found);
  }

  // A visit notes the node again, or takes its key up with what loading answered.
  lemma VisitTakesUp(scan: Scan, last: NodeConfig, answer: Answer, current: Slots, options: Options)
    requires scan.Visit(last, answer, current, options).Ok?
    ensures var key, scan' := NodeKey(last), scan.Visit(last, answer, current, options).value;
            if key == NO_KEY || key in scan.desired
            then scan' == scan.(skipped := scan'.skipped, failures := scan'.failures)
            else
              && scan'.desired == scan.desired + {key} && scan'.ordered == scan.ordered + [key]
              && scan'.candidates == WithFound(scan.candidates, key, Loaded(last, answer))
  {
    hide NodeKey;
  }

  lemma ListedAgain(keys: seq<Key>, scan: Scan, key: Key, scan': Scan)
    requires Listed(keys, scan) && (key == NO_KEY || key in scan.desired)
    requires scan' == scan.(skipped := scan'.skipped, failures := scan'.failures)
    ensures Listed(keys + [key], scan')
  {
    hide NodeKey, DistinctKeys, Firsts, Keyed;
    FirstsSnoc(keys, key);
    OneMoreKey(keys, key);
  }

  lemma VisitScans(
    keys: seq<Key>, found: seq<Option<Runtime>>, scan: Scan, last: NodeConfig, answer: Answer, current: Slots,
    options: Options)
    requires |keys| == |found| && Scanned(keys, found, scan)
    requires scan.Visit(last, answer, current, options).Ok?
    ensures Scanned(keys + [NodeKey(last)], found + [Loaded(last, answer)],
                    scan.Visit(last, answer, current, options).value)
  {
    hide NodeKey, Scan.Visit, Answered, Keyed, DistinctKeys, WithFound, Firsts, Loaded;
    var key, scan' := NodeKey(last), scan.Visit(last, answer, current, options).value;
    VisitTakesUp(scan, last, answer, current, options);
    if key == NO_KEY || key in scan.desired {
      AnsweredAgain(keys, found, scan.candidates, key, Loaded(last, answer));
      ListedAgain(keys, scan, key, scan');
    } else {
      LoadedKey(last, answer);
      AnsweredNew(keys, found, scan.candidates, key, Loaded(last, answer));
      ListedNew(keys, scan, key, Loaded(last, answer), scan');
    }
  }

  lemma LoadedKey(config: NodeConfig, answer: Answer)
    ensures Loaded(config, answer).Some? ==> Loaded(config, answer).value.config == config
  {
  }

  lemma NothingScanned(keys: seq<Key>, found: seq<Option<Runtime>>)
    requires keys == [] && found == []
    ensures Scanned(keys, found, NOTHING_SCANNED)
  {
  }

  lemma ScanSplits(desired: seq<NodeConfig>, current: Slots, options: Options, load: Loader)
    requires desired != [] && ScanAll(desired, current, options, load).Ok?
    ensures var n := |desired| - 1;
            var before := ScanAll(desired[..n], current, options, load);
            && before.Ok?
            && before.value.Visit(desired[n], load(n, desired[n]), current, options)
               == ScanAll(desired, current, options, load)
  {
    hide Scan.Visit;
  }

  lemma {:induction false} ScanAllScans(desired: seq<NodeConfig>, current: Slots, options: Options, load: Loader)
    requires ScanAll(desired, current, options, load).Ok?
    ensures Scanned(Keys(desired), Found(desired, load), ScanAll(desired, current, options, load).value)
  {
    if desired == [] {
      NothingScanned(Keys(desired), Found(desired, load));
    } else {
      hide ScanAll, Scanned, NodeKey, Scan.Visit, Loaded, Keys, Found;
      var n := |desired| - 1;
      ScanSplits(desired, current, options, load);
      KeysSnoc(desired[..n], desired[n], load);
      assert desired == desired[..n] + [desired[n]];
      ScanAllScans(desired[..n], current, options, load);
      VisitScans(Keys(desired[..n]), Found(desired[..n], load), ScanAll(desired[..n], current, options, load).value,
                 desired[n], load(n, desired[n]), current, options);
    }
  }

  predicate AnswerFails(answer: Answer, key: Key, current: Slots) {
    match answer
    case Ok(Some(_)) => false
    case Ok(None) => key !in current
    case Err(_) => true
  }

  /** The i-th node fails: no usable key, a repeated key, an error, or no info for a node that is not running. */
  predicate FailsAt(desired: seq<NodeConfig>, current: Slots, load: Loader, i: int) {
    && 0 <= i < |desired|
    && (!IsFirst(Keys(desired), i) || AnswerFails(load(i, desired[i]), NodeKey(desired[i]), current))
  }

  lemma FailsInPrefix(desired: seq<NodeConfig>, current: Slots, load: Loader, i: int)
    requires desired != []
    ensures i < |desired| - 1 ==>
              (FailsAt(desired[..|desired| - 1], current, load, i) <==> FailsAt(desired, current, load, i))
  {
    var n := |desired| - 1;
    KeysSnoc(desired[..n], desired[n], load);
    assert desired == desired[..n] + [desired[n]];
    FirstSnoc(Keys(desired[..n]), NodeKey(desired[n]), i);
    hide IsFirst, Keys, NodeKey;
  }

  lemma VisitRefuses(scan: Scan, config: NodeConfig, answer: Answer, current: Slots, options: Options)
    ensures var key, visited := NodeKey(config), scan.Visit(config, answer, current, options);
            var refused := key == NO_KEY || key in scan.desired || AnswerFails(answer, key, current);
            && (visited.Err? <==> !options.continueOnError && refused)
            && (visited.Ok? ==>
                  (visited.value.failures != scan.failures <==> refused)
                  && |scan.failures| <= |visited.value.failures|)
  {
    hide NodeKey;
    assert forall f: Failure :: scan.failures + [f] != scan.failures by {
      assert forall f: Failure :: |scan.failures + [f]| == |scan.failures| + 1;
    }
  }

  lemma VisitFails(desired: seq<NodeConfig>, current: Slots, options: Options, load: Loader, scan: Scan)
    requires desired != []
    requires ScanAll(desired[..|desired| - 1], current, options, load) == Ok(scan)
    ensures var n := |desired| - 1;
            var visited := scan.Visit(desired[n], load(n, desired[n]), current, options);
            && (visited.Err? <==> !options.continueOnError && FailsAt(desired, current, load, n))
            && (visited.Ok? ==>
                  (visited.value.failures != scan.failures <==> FailsAt(desired, current, load, n))
                  && |scan.failures| <= |visited.value.failures|)
  {
    hide IsFirst, Keys, NodeKey, ScanAll, Scan.Visit, AnswerFails, FailsAt;
    var n := |desired| - 1;
    VisitRefuses(scan, desired[n], load(n, desired[n]), current, options);
    RefusedIsFailing(desired, current, options, load, scan);
  }

  /** Scanning ends in an error exactly when errors are not tolerated and some node fails. */
  lemma {:induction false} ScanErrsExactly(desired: seq<NodeConfig>, current: Slots, options: Options, load: Loader)
    ensures var scanned := ScanAll(desired, current, options, load);
            && (scanned.Err? <==> !options.continueOnError && exists i :: FailsAt(desired, current, load, i))
            && (scanned.Ok? ==>
                  (scanned.value.failures != [] <==> exists i :: FailsAt(desired, current, load, i)))
  {
    if desired != [] {
      var n := |desired| - 1;
      ScanErrsExactly(desired[..n], current, options, load);
      forall i ensures i < n ==>
          (FailsAt(desired[..n], current, load, i) <==> FailsAt(desired, current, load, i)) {
        FailsInPrefix(desired, current, load, i);
      }
      assert forall i :: i >= n ==> !FailsAt(desired[..n], current, load, i);
      assert forall i :: i > n ==> !FailsAt(desired, current, load, i);
      if ScanAll(desired[..n], current, options, load).Ok? {
        VisitFails(desired, current, options, load, ScanAll(desired[..n], current, options, load).value);
      }
      hide FailsAt, Scan.Visit;
    }
  }

  /** The i-th node rests: loading it answered nothing, and it is running. */
  predicate RestsAt(desired: seq<NodeConfig>, current: Slots, load: Loader, i: int) {
    0 <= i < |desired| && !FailsAt(desired, current, load, i) && load(i, desired[i]) == Ok(None)
  }

  function Failing(desired: seq<NodeConfig>, current: Slots, load: Loader): set<int> {
    set i | 0 <= i < |desired| && FailsAt(desired, current, load, i)
  }

  function Resting(desired: seq<NodeConfig>, current: Slots, load: Loader): set<int> {
    set i | 0 <= i < |desired| && RestsAt(desired, current, load, i)
  }

  lemma VisitNotes(scan: Scan, config: NodeConfig, answer: Answer, current: Slots, options: Options)
    requires scan.Visit(config, answer, current, options).Ok?
    ensures var key, scan' := NodeKey(config), scan.Visit(config, answer, current, options).value;
            var refused := key == NO_KEY || key in scan.desired || AnswerFails(answer, key, current);
            && |scan'.failures| == |scan.failures| + (if refused then 1 else 0)
            && scan'.skipped == scan.skipped + (if refused || answer == Ok(None) then 1 else 0)
  {
    hide NodeKey;
  }

  lemma RestsInPrefix(desired: seq<NodeConfig>, current: Slots, load: Loader, i: int)
    requires desired != []
    ensures i < |desired| - 1 ==>
              (RestsAt(desired[..|desired| - 1], current, load, i) <==> RestsAt(desired, current, load, i))
  {
    FailsInPrefix(desired, current, load, i);
    hide FailsAt;
  }

  lemma FailingGrows(desired: seq<NodeConfig>, current: Slots, load: Loader)
    requires desired != []
    ensures var n := |desired| - 1;
            |Failing(desired, current, load)|
            == |Failing(desired[..n], current, load)| + if FailsAt(desired, current, load, n) then 1 else 0
  {
    hide FailsAt;
    var n := |desired| - 1;
    var before, after := Failing(desired[..n], current, load), Failing(desired, current, load);
    forall i ensures i in before <==> i in after && i < n {
      FailsInPrefix(desired, current, load, i);
    }
    hide Failing;
    GrowsByOne(before, after, n);
  }

  lemma RestingGrows(desired: seq<NodeConfig>, current: Slots, load: Loader)
    requires desired != []
    ensures var n := |desired| - 1;
            |Resting(desired, current, load)|
            == |Resting(desired[..n], current, load)| + if RestsAt(desired, current, load, n) then 1 else 0
  {
    hide RestsAt;
    var n := |desired| - 1;
    var before, after := Resting(desired[..n], current, load), Resting(desired, current, load);
    forall i ensures i in before <==> i in after && i < n {
      RestsInPrefix(desired, current, load, i);
    }
    hide Resting;
    GrowsByOne(before, after, n);
  }

  lemma GrowsByOne(a: set<int>, b: set<int>, n: int)
    requires forall i :: i in a <==> i in b && i < n
    requires forall i :: i in b ==> i <= n
    ensures |b| == |a| + if n in b then 1 else 0
  {
    if n in b {
      forall i ensures i in b <==> i in a + {n} {
        assert i in a <==> i in b && i < n;
      }
      assert b == a + {n} && n !in a;
    } else {
      forall i ensures i in b <==> i in a {
        assert i in a <==> i in b && i < n;
      }
      assert b == a;
    }
  }

  /** What is skipped is what fails, each noted once, and what rests. */
  lemma {:induction false} SkippedIsExact(desired: seq<NodeConfig>, current: Slots, options: Options, load: Loader)
    requires ScanAll(desired, current, options, load).Ok?
    ensures var scan := ScanAll(desired, current, options, load).value;
            && |scan.failures| == |Failing(desired, current, load)|
            && scan.skipped == |Failing(desired, current, load)| + |Resting(desired, current, load)|
  {
    hide FailsAt, Scan.Visit, AnswerFails, IsFirst, Keys;
    if desired == [] {
      assert Failing(desired, current, load) == {} && Resting(desired, current, load) == {};
    } else {
      hide ScanAll, Failing, Resting;
      var n := |desired| - 1;
      ScanSplits(desired, current, options, load);
      var before := ScanAll(desired[..n], current, options, load).value;
      SkippedIsExact(desired[..n], current, options, load);
      FailingGrows(desired, current, load);
      RestingGrows(desired, current, load);
      VisitNotes(before, desired[n], load(n, desired[n]), current, options);
      RefusedIsFailing(desired, current, options, load, before);
    }
  }

  lemma RefusedIsFailing(desired: seq<NodeConfig>, current: Slots, options: Options, load: Loader, scan: Scan)
    requires desired != []
    requires ScanAll(desired[..|desired| - 1], current, options, load) == Ok(scan)
    ensures var n := |desired| - 1;
            var key := NodeKey(desired[n]);
            (key == NO_KEY || key in scan.desired || AnswerFails(load(n, desired[n]), key, current))
            <==> FailsAt(desired, current, load, n)
  {
    hide IsFirst, Keys, NodeKey, ScanAll, Answered, Keyed, DistinctKeys, Found, AnswerFails, Loaded;
    var n := |desired| - 1;
    ScanAllScans(desired[..n], current, options, load);
    KeysSnoc(desired[..n], desired[n], load);
    assert desired == desired[..n] + [desired[n]];
    FirstSnoc(Keys(desired[..n]), NodeKey(desired[n]), n);
  }

  // ----- What building leaves -----

  /** The node a key ends up with: the one just loaded, else the one running. */
  function Kept(candidates: Slots, current: Slots, key: Key): Option<Runtime> {
    if key in candidates then Some(candidates[key]) else Slot(current, key)
  }

  function Present(ordered: seq<Key>, candidates: Slots, current: Slots): seq<Key> {
    if ordered == [] then []
    else
      var last := ordered[|ordered| - 1];
      Present(ordered[..|ordered| - 1], candidates, current) +
      if Kept(candidates, current, last).Some? then [last] else []
  }

  function NewKeys(candidates: Slots, current: Slots): set<Key> {
    candidates.Keys - current.Keys
  }

  function ChangedKeys(candidates: Slots, current: Slots): set<Key> {
    set key | key in candidates && key in current && candidates[key] != current[key]
  }

  /** The nodes kept are those with a place among the keys seen, each what its key ends up with. */
  ghost predicate Placed(keys: seq<Key>, seen: set<Key>, candidates: Slots, current: Slots, next: seq<Runtime>) {
    && |keys| == |next| && DistinctKeys(keys)
    && (forall key :: key in keys <==> key in seen && Kept(candidates, current, key).Some?)
    && (forall i :: 0 <= i < |keys| ==> Kept(candidates, current, keys[i]) == Some(next[i]))
  }

  predicate Counted(seen: set<Key>, candidates: Slots, current: Slots, b: Built) {
    && b.added + b.restarted + b.kept == |b.next|
    && b.added == |NewKeys(candidates, current) * seen|
    && b.restarted == |ChangedKeys(candidates, current) * seen|
    && b.restarted + b.kept == |current.Keys * seen|
  }

  lemma CountOneMore<T>(keys: set<T>, seen: set<T>, key: T)
    requires key !in seen
    ensures |keys * (seen + {key})| == |keys * seen| + if key in keys then 1 else 0
  {
    if key in keys {
      assert keys * (seen + {key}) == keys * seen + {key};
    } else {
      assert keys * (seen + {key}) == keys * seen;
    }
  }

  lemma PlacedOneMore(
    keys: seq<Key>, seen: set<Key>, candidates: Slots, current: Slots, next: seq<Runtime>, key: Key)
    requires Placed(keys, seen, candidates, current, next) && key !in seen && key != NO_KEY
    ensures var kept := Kept(candidates, current, key);
            if kept.Some? then Placed(keys + [key], seen + {key}, candidates, current, next + [kept.value])
            else Placed(keys, seen + {key}, candidates, current, next)
  {
    hide Kept;
    if Kept(candidates, current, key).Some? {
      DistinctSnoc(keys, key);
      assert forall other :: other in keys + [key] <==> other in keys || other == key;
    }
    hide DistinctKeys;
  }

  lemma CountedOneMore(seen: set<Key>, candidates: Slots, current: Slots, b: Built, key: Key)
    requires Counted(seen, candidates, current, b) && key !in seen
    ensures Counted(seen + {key}, candidates, current, b.Place(Slot(candidates, key), Slot(current, key)))
  {
    CountOneMore(NewKeys(candidates, current), seen, key);
    CountOneMore(ChangedKeys(candidates, current), seen, key);
    CountOneMore(current.Keys, seen, key);
  }

  lemma PlaceKeeps(candidates: Slots, current: Slots, b: Built, key: Key)
    requires Keyed(candidates) && Keyed(current)
    ensures var kept := Kept(candidates, current, key);
            var next := b.Place(Slot(candidates, key), Slot(current, key)).next;
            if kept.Some? then next == b.next + [kept.value] && KeysOf(next) == KeysOf(b.next) + [key]
            else next == b.next
  {
    var kept := Kept(candidates, current, key);
    if kept.Some? {
      KeysOfSnoc(b.next, kept.value);
    }
    hide NodeKey, KeysOf;
  }

  ghost predicate BuiltFrom(ordered: seq<Key>, seen: set<Key>, candidates: Slots, current: Slots, b: Built) {
    && Placed(KeysOf(b.next), seen, candidates, current, b.next)
    && KeysOf(b.next) == Present(ordered, candidates, current)
    && Counted(seen, candidates, current, b)
  }

  lemma NothingSeen<T>(keys: set<T>)
    ensures |keys * {}| == 0
  {
    assert keys * {} == {};
  }

  lemma SplitCount<T>(keys: set<T>, seen: set<T>)
    ensures |keys| == |keys * seen| + |keys - seen|
    ensures keys <= seen ==> keys * seen == keys
  {
    assert keys == keys * seen + (keys - seen);
  }

  lemma NothingCounted(candidates: Slots, current: Slots)
    ensures Counted({}, candidates, current, Built([], 0, 0, 0))
  {
    NothingSeen(NewKeys(candidates, current));
    NothingSeen(ChangedKeys(candidates, current));
    NothingSeen(current.Keys);
    hide NewKeys, ChangedKeys;
  }

  lemma NothingBuilt(candidates: Slots, current: Slots)
    ensures BuiltFrom([], {}, candidates, current, Built([], 0, 0, 0))
  {
    NothingCounted(candidates, current);
    hide Counted, Kept, NodeKey;
    assert KeysOf([]) == [];
  }

  lemma PresentSnoc(ordered: seq<Key>, candidates: Slots, current: Slots, key: Key)
    ensures Present(ordered + [key], candidates, current) ==
            Present(ordered, candidates, current) + if Kept(candidates, current, key).Some? then [key] else []
  {
    assert (ordered + [key])[..|ordered|] == ordered;
  }

  lemma BuiltOneMore(ordered: seq<Key>, seen: set<Key>, candidates: Slots, current: Slots, b: Built, key: Key)
    requires BuiltFrom(ordered, seen, candidates, current, b) && key !in seen && key != NO_KEY
    requires Keyed(candidates) && Keyed(current)
    ensures BuiltFrom(ordered + [key], seen + {key}, candidates, current,
                      b.Place(Slot(candidates, key), Slot(current, key)))
  {
    PlacedOneMore(KeysOf(b.next), seen, candidates, current, b.next, key);
    CountedOneMore(seen, candidates, current, b, key);
    PlaceKeeps(candidates, current, b, key);
    PresentSnoc(ordered, candidates, current, key);
    hide Placed, Counted, Keyed, Built.Place, Kept, KeysOf, Present;
  }

  ghost predicate Lists(ordered: seq<Key>, seen: set<Key>) {
    DistinctKeys(ordered) && forall key :: key in ordered <==> key in seen
  }

  lemma ListsInit(ordered: seq<Key>, seen: set<Key>)
    requires Lists(ordered, seen) && ordered != []
    ensures var init, last := ordered[..|ordered| - 1], ordered[|ordered| - 1];
            Lists(init, seen - {last}) && last != NO_KEY && seen == (seen - {last}) + {last}
  {
    var init, last := ordered[..|ordered| - 1], ordered[|ordered| - 1];
    assert ordered == init + [last];
    DistinctSnoc(init, last);
    assert forall key :: key in ordered <==> key in init || key == last;
  }

  lemma BuildSplits(ordered: seq<Key>, candidates: Slots, current: Slots)
    requires ordered != []
    ensures var init, key := ordered[..|ordered| - 1], ordered[|ordered| - 1];
            && Build(ordered, candidates, current)
               == Build(init, candidates, current).Place(Slot(candidates, key), Slot(current, key))
            && ordered == init + [key]
  {
    hide Slot, Built.Place;
  }

  lemma {:induction false} BuildPlaces(ordered: seq<Key>, seen: set<Key>, candidates: Slots, current: Slots)
    requires Lists(ordered, seen) && Keyed(candidates) && Keyed(current)
    ensures BuiltFrom(ordered, seen, candidates, current, Build(ordered, candidates, current))
  {
    if ordered == [] {
      assert seen == {};
      NothingBuilt(candidates, current);
    } else {
      hide BuiltFrom, Lists, Keyed, Built.Place, Slot, Build;
      var init, last := ordered[..|ordered| - 1], ordered[|ordered| - 1];
      ListsInit(ordered, seen);
      BuildSplits(ordered, candidates, current);
      BuildPlaces(init, seen - {last}, candidates, current);
      BuiltOneMore(init, seen - {last}, candidates, current, Build(init, candidates, current), last);
    }
  }

  // ----- What one reconciliation does -----

  function Routed(slot: Option<Runtime>): Option<Runtime> {
    if slot.Some? && slot.value.info.HasCustomRoutes() then slot else None
  }

  /** What a key would hold after a commit. */
  function After(current: Slots, scan: Scan, key: Key): Option<Runtime> {
    if key in scan.desired then Kept(scan.candidates, current, key) else None
  }

  /** A full reload is asked for exactly when committing would add, drop or change a node with custom routes. */
  lemma FullReloadIsExact(current: Slots, scan: Scan)
    requires scan.candidates.Keys <= scan.desired
    ensures NeedsFullReload(current, scan.desired, scan.candidates)
            <==> exists key :: Routed(Slot(current, key)) != Routed(After(current, scan, key))
  {
    if NeedsFullReload(current, scan.desired, scan.candidates) {
      var key :| (key in current || key in scan.candidates) &&
                 Routed(Slot(current, key)) != Routed(After(current, scan, key));
    }
  }

  ghost predicate Commits(state: State, desired: seq<NodeConfig>, options: Options, load: Loader) {
    && SlotsOf(state.runtimes).Ok?
    && var current := SlotsOf(state.runtimes).value;
    && ScanAll(desired, current, options, load).Ok?
    && var scan := ScanAll(desired, current, options, load).value;
    && !AllFailed(scan, options)
    && !NeedsFullReload(current, scan.desired, scan.candidates)
  }

  /** What a commit leaves, in terms of the slots before it and what the scan found. */
  ghost predicate Committed(state: State, current: Slots, scan: Scan, after: State, summary: Summary) {
    && SlotsOf(after.runtimes).Ok?
    && KeysOf(after.runtimes) == Present(scan.ordered, scan.candidates, current)
    && (forall key :: Slot(SlotsOf(after.runtimes).value, key) == After(current, scan, key))
    && summary.kept + summary.restarted + summary.removed == |state.runtimes|
    && summary.kept + summary.restarted + summary.added == |after.runtimes|
    && summary.added == |NewKeys(scan.candidates, current)|
    && summary.restarted == |ChangedKeys(scan.candidates, current)|
    && summary.removed == |current.Keys - scan.desired|
  }

  /** The summary passes on what the scan noted. */
  predicate Noted(scan: Scan, summary: Summary) {
    summary.skipped == scan.skipped && summary.failures == scan.failures && !summary.fullReload
  }

  lemma SlotsAfter(current: Slots, scan: Scan, next: seq<Runtime>)
    requires Placed(KeysOf(next), scan.desired, scan.candidates, current, next)
    ensures SlotsOf(next).Ok?
    ensures forall key :: Slot(SlotsOf(next).value, key) == After(current, scan, key)
  {
    SlotsOfDistinct(next);
    hide SlotsOf, KeysOf, Kept, NodeKey, DistinctKeys;
    var slots, keys := SlotsOf(next).value, KeysOf(next);
    forall key ensures Slot(slots, key) == After(current, scan, key) {
      if key in keys {
        var i :| 0 <= i < |keys| && keys[i] == key;
      }
    }
  }

  lemma CountsAddUp(current: Slots, scan: Scan, b: Built)
    requires Counted(scan.desired, scan.candidates, current, b) && scan.candidates.Keys <= scan.desired
    ensures b.added == |NewKeys(scan.candidates, current)|
    ensures b.restarted == |ChangedKeys(scan.candidates, current)|
    ensures b.kept + b.restarted + |current.Keys - scan.desired| == |current|
    ensures b.kept + b.restarted + b.added == |b.next|
  {
    assert NewKeys(scan.candidates, current) <= scan.desired;
    assert ChangedKeys(scan.candidates, current) <= scan.desired;
    hide NewKeys, ChangedKeys;
    SplitCount(NewKeys(scan.candidates, current), scan.desired);
    SplitCount(ChangedKeys(scan.candidates, current), scan.desired);
    SplitCount(current.Keys, scan.desired);
  }

  lemma ListedLists(keys: seq<Key>, scan: Scan)
    requires Listed(keys, scan)
    ensures Lists(scan.ordered, scan.desired) && scan.ordered == Firsts(keys)
    ensures Keyed(scan.candidates) && scan.candidates.Keys <= scan.desired
  {
  }

  lemma HeldSlots(runtimes: seq<Runtime>)
    requires SlotsOf(runtimes).Ok?
    ensures Keyed(SlotsOf(runtimes).value) && |SlotsOf(runtimes).value| == |runtimes|
  {
    SlotsOfDistinct(runtimes);
  }

  lemma BuiltCommits(state: State, current: Slots, scan: Scan, b: Built, after: State, summary: Summary)
    requires |current| == |state.runtimes| && scan.candidates.Keys <= scan.desired
    requires BuiltFrom(scan.ordered, scan.desired, scan.candidates, current, b)
    requires after.runtimes == b.next && summary.removed == |current.Keys - scan.desired|
    requires summary.added == b.added && summary.restarted == b.restarted && summary.kept == b.kept
    ensures Committed(state, current, scan, after, summary)
  {
    hide SlotsOf, KeysOf, Present, Placed, Counted, NewKeys, ChangedKeys, After;
    SlotsAfter(current, scan, b.next);
    CountsAddUp(current, scan, b);
  }

  lemma ConcludeCommits(state: State, current: Slots, scan: Scan, realtime: string, options: Options)
    requires Keyed(current) && |current| == |state.runtimes|
    requires Lists(scan.ordered, scan.desired) && Keyed(scan.candidates) && scan.candidates.Keys <= scan.desired
    requires !AllFailed(scan, options) && !NeedsFullReload(current, scan.desired, scan.candidates)
    ensures var o := Conclude(state, current, scan, realtime, options);
            && o.result.Ok? && Committed(state, current, scan, o.state, o.result.value)
            && o.state == State(o.state.runtimes, scan.failures, realtime, options.continueOnError)
            && Noted(scan, o.result.value)
  {
    var b := Build(scan.ordered, scan.candidates, current);
    hide SlotsOf, NeedsFullReload, Build, BuiltFrom, Keyed, Lists, Committed, AllFailed;
    BuildPlaces(scan.ordered, scan.desired, scan.candidates, current);
    var o := Conclude(state, current, scan, realtime, options);
    BuiltCommits(state, current, scan, b, o.state, o.result.value);
  }

  /**
   * A commit keeps keys distinct and in the desired order; every key ends up with what was just loaded, else with
   * the node running (so a failed refresh keeps its node), and undesired keys go; the counters add up.
   */
  lemma CommitConserves(state: State, desired: seq<NodeConfig>, realtime: string, options: Options, load: Loader)
    requires Commits(state, desired, options, load)
    ensures var current := SlotsOf(state.runtimes).value;
            var scan := ScanAll(desired, current, options, load).value;
            var o := Reconciled(state, desired, realtime, options, load);
            && Scanned(Keys(desired), Found(desired, load), scan)
            && o.result.Ok? && Committed(state, current, scan, o.state, o.result.value)
            && KeysOf(o.state.runtimes) == Present(Firsts(Keys(desired)), scan.candidates, current)
            && o.state == State(o.state.runtimes, scan.failures, realtime, options.continueOnError)
            && Noted(scan, o.result.value)
  {
    var current := SlotsOf(state.runtimes).value;
    var scan := ScanAll(desired, current, options, load).value;
    ScanAllScans(desired, current, options, load);
    HeldSlots(state.runtimes);
    hide SlotsOf, ScanAll, NeedsFullReload, Conclude, Keys, Found, Listed, Answered, Keyed, AllFailed, KeysOf, After;
    ListedLists(Keys(desired), scan);
    ConcludeCommits(state, current, scan, realtime, options);
  }

  /** A commit leaves every node with custom routes exactly as it was: none added, dropped or changed. */
  lemma CommitKeepsRoutes(state: State, desired: seq<NodeConfig>, realtime: string, options: Options, load: Loader)
    requires Commits(state, desired, options, load)
    ensures var o := Reconciled(state, desired, realtime, options, load);
            && SlotsOf(o.state.runtimes).Ok?
            && forall key :: Routed(Slot(SlotsOf(state.runtimes).value, key))
                             == Routed(Slot(SlotsOf(o.state.runtimes).value, key))
  {
    CommitConserves(state, desired, realtime, options, load);
    var current := SlotsOf(state.runtimes).value;
    var scan := ScanAll(desired, current, options, load).value;
    hide SlotsOf, ScanAll, NeedsFullReload, Reconciled, Keys, Found, Answered, Keyed, Lists, Routed, Slot, After;
    ListedLists(Keys(desired), scan);
    FullReloadIsExact(current, scan);
  }

  lemma {:induction false} RunningSlot(runtimes: seq<Runtime>, i: nat)
    requires SlotsOf(runtimes).Ok? && i < |runtimes|
    ensures var key := NodeKey(runtimes[i].config);
            key != NO_KEY && Slot(SlotsOf(runtimes).value, key) == Some(runtimes[i])
  {
    SlotsOfDistinct(runtimes);
    assert KeysOf(runtimes)[i] == NodeKey(runtimes[i].config);
    hide NodeKey, SlotsOf;
  }

  /** A running node that is still desired is still there after a commit, whatever its refresh answered. */
  lemma DesiredNodesStay(
    state: State, desired: seq<NodeConfig>, realtime: string, options: Options, load: Loader, i: nat, j: nat)
    requires Commits(state, desired, options, load)
    requires i < |state.runtimes| && j < |desired| && NodeKey(state.runtimes[i].config) == NodeKey(desired[j])
    ensures var key, o := NodeKey(desired[j]), Reconciled(state, desired, realtime, options, load);
            && SlotsOf(o.state.runtimes).Ok?
            && key in SlotsOf(o.state.runtimes).value
            && (IsFirst(Keys(desired), j) && Loaded(desired[j], load(j, desired[j])).None? ==>
                  SlotsOf(o.state.runtimes).value[key] == state.runtimes[i])
  {
    CommitConserves(state, desired, realtime, options, load);
    RunningSlot(state.runtimes, i);
    var current := SlotsOf(state.runtimes).value;
    var scan := ScanAll(desired, current, options, load).value;
    var o := Reconciled(state, desired, realtime, options, load);
    var key := NodeKey(desired[j]);
    assert Keys(desired)[j] == key;
    hide SlotsOf, ScanAll, NeedsFullReload, Reconciled, NodeKey, Keys, Found, Lists, KeysOf, Loaded, Keyed;
    assert key in Keys(desired);
    assert Slot(SlotsOf(o.state.runtimes).value, key) == After(current, scan, key);
  }

  // ----- Reconciling again -----

  ghost predicate Settled(current: Slots, scan: Scan, after: Slots) {
    forall key :: Slot(after, key) == After(current, scan, key)
  }

  lemma PrefixScans(desired: seq<NodeConfig>, i: nat, current: Slots, options: Options, load: Loader)
    requires i < |desired| && ScanAll(desired, current, options, load).Ok?
    ensures var before := ScanAll(desired[..i], current, options, load);
            && before.Ok?
            && (NodeKey(desired[i]) != NO_KEY && NodeKey(desired[i]) !in before.value.desired ==>
                  IsFirst(Keys(desired), i))
  {
    if ScanAll(desired[..i], current, options, load).Err? {
      ScanStops(desired, i, current, options, load);
    }
    ScanAllScans(desired[..i], current, options, load);
    assert Keys(desired)[i] == NodeKey(desired[i]) && Keys(desired)[..i] == Keys(desired[..i]);
    hide ScanAll, NodeKey, Keys, DistinctKeys, Keyed, Answered;
  }

  lemma VisitAgain(
    scan: Scan, config: NodeConfig, answer: Answer, current: Slots, after: Slots, options: Options)
    requires NodeKey(config) != NO_KEY && NodeKey(config) !in scan.desired && Loaded(config, answer).None? ==>
               (NodeKey(config) in current <==> NodeKey(config) in after)
    ensures scan.Visit(config, answer, current, options) == scan.Visit(config, answer, after, options)
  {
    hide NodeKey;
  }

  lemma FirstAnswer(desired: seq<NodeConfig>, current: Slots, options: Options, load: Loader, i: nat)
    requires ScanAll(desired, current, options, load).Ok? && IsFirst(Keys(desired), i)
    ensures var scan := ScanAll(desired, current, options, load).value;
            && NodeKey(desired[i]) in scan.desired
            && Slot(scan.candidates, NodeKey(desired[i])) == Loaded(desired[i], load(i, desired[i]))
  {
    ScanAllScans(desired, current, options, load);
    assert Keys(desired)[i] == NodeKey(desired[i]) && Keys(desired)[i] in Keys(desired);
    assert Found(desired, load)[i] == Loaded(desired[i], load(i, desired[i]));
    hide ScanAll, NodeKey, Keys, Found, DistinctKeys, Keyed, Loaded;
  }

  lemma SettledFirst(current: Slots, scan: Scan, after: Slots, key: Key)
    requires Settled(current, scan, after) && key in scan.desired && key !in scan.candidates
    ensures key in after <==> key in current
  {
    assert Slot(after, key) == After(current, scan, key);
  }

  lemma VisitSettles(desired: seq<NodeConfig>, current: Slots, after: Slots, options: Options, load: Loader, i: nat)
    requires i < |desired| && ScanAll(desired, current, options, load).Ok?
    requires Settled(current, ScanAll(desired, current, options, load).value, after)
    ensures var before := ScanAll(desired[..i], current, options, load);
            && before.Ok?
            && before.value.Visit(desired[i], load(i, desired[i]), current, options)
               == before.value.Visit(desired[i], load(i, desired[i]), after, options)
  {
    PrefixScans(desired, i, current, options, load);
    var before, config, answer := ScanAll(desired[..i], current, options, load).value, desired[i], load(i, desired[i]);
    hide ScanAll, Scan.Visit, Settled, NodeKey, Keys, Loaded, IsFirst;
    if NodeKey(config) != NO_KEY && NodeKey(config) !in before.desired && Loaded(config, answer).None? {
      FirstAnswer(desired, current, options, load, i);
      SettledFirst(current, ScanAll(desired, current, options, load).value, after, NodeKey(config));
    }
    VisitAgain(before, config, answer, current, after, options);
  }

  lemma ScanOneMore(desired: seq<NodeConfig>, current: Slots, options: Options, load: Loader, i: nat)
    requires i < |desired| && ScanAll(desired[..i], current, options, load).Ok?
    ensures ScanAll(desired[..i + 1], current, options, load)
            == ScanAll(desired[..i], current, options, load).value
                 .Visit(desired[i], load(i, desired[i]), current, options)
  {
    assert desired[..i + 1][..i] == desired[..i];
    hide Scan.Visit;
  }

  lemma {:induction false} ScanAgain(
    desired: seq<NodeConfig>, current: Slots, after: Slots, options: Options, load: Loader, i: nat)
    requires i <= |desired| && ScanAll(desired, current, options, load).Ok?
    requires Settled(current, ScanAll(desired, current, options, load).value, after)
    ensures ScanAll(desired[..i], after, options, load) == ScanAll(desired[..i], current, options, load)
  {
    if i > 0 {
      hide ScanAll, Scan.Visit, Settled;
      ScanAgain(desired, current, after, options, load, i - 1);
      VisitSettles(desired, current, after, options, load, i - 1);
      ScanOneMore(desired, current, options, load, i - 1);
      ScanOneMore(desired, after, options, load, i - 1);
    }
  }

  lemma SettledIsQuiet(current: Slots, scan: Scan, after: Slots)
    requires Settled(current, scan, after) && scan.candidates.Keys <= scan.desired
    ensures !NeedsFullReload(after, scan.desired, scan.candidates)
    ensures NewKeys(scan.candidates, after) == {} && ChangedKeys(scan.candidates, after) == {}
    ensures after.Keys - scan.desired == {}
    ensures Settled(after, scan, after)
  {
    forall key ensures Slot(after, key) == After(after, scan, key)
      ensures key in after ==> key in scan.desired
      ensures key in scan.candidates ==> key in after && after[key] == scan.candidates[key]
    {
      assert Slot(after, key) == After(current, scan, key);
    }
  }

  lemma {:induction false} PresentAgain(ordered: seq<Key>, current: Slots, scan: Scan, after: Slots)
    requires Settled(current, scan, after)
    requires forall key :: key in ordered ==> key in scan.desired
    ensures Present(ordered, scan.candidates, after) == Present(ordered, scan.candidates, current)
  {
    if ordered != [] {
      var init, last := ordered[..|ordered| - 1], ordered[|ordered| - 1];
      assert forall key :: key in init ==> key in ordered;
      PresentAgain(init, current, scan, after);
      assert Slot(after, last) == After(current, scan, last);
    }
  }

  /** Nodes are told by their keys in order and the slots under them. */
  lemma SameSlotsSameNodes(a: seq<Runtime>, b: seq<Runtime>)
    requires SlotsOf(a).Ok? && SlotsOf(b).Ok? && KeysOf(a) == KeysOf(b)
    requires forall key :: Slot(SlotsOf(a).value, key) == Slot(SlotsOf(b).value, key)
    ensures a == b
  {
    SlotsOfDistinct(a);
    SlotsOfDistinct(b);
    hide SlotsOf, KeysOf, NodeKey, DistinctKeys;
    assert |KeysOf(a)| == |a| && |KeysOf(b)| == |b|;
    forall i | 0 <= i < |a| ensures a[i] == b[i] {
      assert Slot(SlotsOf(a).value, KeysOf(a)[i]) == Some(a[i]);
    }
  }

  lemma CommitsAgain(state: State, desired: seq<NodeConfig>, realtime: string, options: Options, load: Loader)
    requires Commits(state, desired, options, load)
    ensures var current := SlotsOf(state.runtimes).value;
            var scan := ScanAll(desired, current, options, load).value;
            var next := Reconciled(state, desired, realtime, options, load).state;
            && Commits(next, desired, options, load)
            && ScanAll(desired, SlotsOf(next.runtimes).value, options, load) == Ok(scan)
            && Settled(current, scan, SlotsOf(next.runtimes).value)
            && scan.candidates.Keys <= scan.desired && Lists(scan.ordered, scan.desired)
  {
    CommitConserves(state, desired, realtime, options, load);
    var current := SlotsOf(state.runtimes).value;
    var scan := ScanAll(desired, current, options, load).value;
    var next := Reconciled(state, desired, realtime, options, load).state;
    var after := SlotsOf(next.runtimes).value;
    hide SlotsOf, ScanAll, NeedsFullReload, Reconciled, Keys, Found, Listed, Answered, Keyed, Lists, Present, KeysOf;
    ListedLists(Keys(desired), scan);
    assert Settled(current, scan, after);
    ScanAgain(desired, current, after, options, load, |desired|);
    assert desired[..|desired|] == desired;
    SettledIsQuiet(current, scan, after);
  }

  /**
   * When the loader answers the same again, reconciling again changes nothing: what did not commit answers the
   * same, and what committed reports every node kept.
   */
  lemma ReconcileIsIdempotent(
    state: State, desired: seq<NodeConfig>, realtime: string, options: Options, load: Loader)
    ensures var first := Reconciled(state, desired, realtime, options, load);
            var again := Reconciled(first.state, desired, realtime, options, load);
            && again.state == first.state
            && (!Commits(state, desired, options, load) ==> again.result == first.result)
            && (Commits(state, desired, options, load) ==>
                  again.result == Ok(first.result.value.(added := 0, removed := 0, restarted := 0,
                                                         kept := |first.state.runtimes|)))
  {
    if Commits(state, desired, options, load) {
      CommittedAgain(state, desired, realtime, options, load);
    } else {
      hide SlotsOf, ScanAll, NeedsFullReload, Build;
    }
  }

  lemma CommittedAgain(state: State, desired: seq<NodeConfig>, realtime: string, options: Options, load: Loader)
    requires Commits(state, desired, options, load)
    ensures var first := Reconciled(state, desired, realtime, options, load);
            var again := Reconciled(first.state, desired, realtime, options, load);
            && again.state == first.state
            && first.result.Ok?
            && again.result == Ok(first.result.value.(added := 0, removed := 0, restarted := 0,
                                                      kept := |first.state.runtimes|))
  {
    CommitConserves(state, desired, realtime, options, load);
    CommitsAgain(state, desired, realtime, options, load);
    var first := Reconciled(state, desired, realtime, options, load);
    CommitConserves(first.state, desired, realtime, options, load);
    var again := Reconciled(first.state, desired, realtime, options, load);
    var current, after := SlotsOf(state.runtimes).value, SlotsOf(first.state.runtimes).value;
    var scan := ScanAll(desired, current, options, load).value;
    hide SlotsOf, ScanAll, NeedsFullReload, Keys, Found, Scanned, Lists, Reconciled, Commits, Committed;
    CommittedTwice(state, current, scan, first.state, first.result.value, again.state, again.result.value);
  }

  lemma CommittedTwice(
    state: State, current: Slots, scan: Scan, first: State, firstSummary: Summary, again: State, summary: Summary)
    requires Committed(state, current, scan, first, firstSummary)
    requires Settled(current, scan, SlotsOf(first.runtimes).value)
    requires Committed(first, SlotsOf(first.runtimes).value, scan, again, summary)
    requires scan.candidates.Keys <= scan.desired && Lists(scan.ordered, scan.desired)
    requires Noted(scan, firstSummary) && Noted(scan, summary)
    ensures again.runtimes == first.runtimes
    ensures summary == firstSummary.(added := 0, removed := 0, restarted := 0, kept := |first.runtimes|)
  {
    var after := SlotsOf(first.runtimes).value;
    SettledIsQuiet(current, scan, after);
    PresentAgain(scan.ordered, current, scan, after);
    hide SlotsOf, NeedsFullReload, DistinctKeys, Present, KeysOf, After, NewKeys, ChangedKeys;
    forall key ensures Slot(SlotsOf(again.runtimes).value, key) == Slot(after, key) {
      assert Slot(after, key) == After(after, scan, key);
    }
    SameSlotsSameNodes(first.runtimes, again.runtimes);
  }

  // ----- Runs -----

  datatype Call = Call(desired: seq<NodeConfig>, realtime: string, options: Options, load: Loader)

  function RunAll(state: State, calls: seq<Call>): State {
    if calls == [] then state
    else
      var call := calls[|calls| - 1];
      Reconciled(RunAll(state, calls[..|calls| - 1]), call.desired, call.realtime, call.options, call.load).state
  }

  /** Every running node has a key of its own. */
  predicate WellKeyed(state: State) {
    DistinctKeys(KeysOf(state.runtimes))
  }

  /** An error or a full-reload answer changes nothing, and a failure of every node only the failures noted. */
  predicate AllOrNothing(state: State, o: Outcome, commits: bool) {
    && (o.result.Err? || o.result.value.fullReload ==> o.state == state)
    && (!commits ==> o.state == state.(failures := o.state.failures))
    && (!commits && o.result.Ok? && !o.result.value.fullReload ==> o.state.failures == o.result.value.failures)
    && (commits ==> o.result.Ok? && !o.result.value.fullReload)
  }

  /**
   * One call is all or nothing, keeps keys distinct and nodes with custom routes as they are, and is refused when
   * nodes share a key.
   */
  lemma OneCallKeeps(state: State, desired: seq<NodeConfig>, realtime: string, options: Options, load: Loader)
    ensures var o := Reconciled(state, desired, realtime, options, load);
            && AllOrNothing(state, o, Commits(state, desired, options, load))
            && if WellKeyed(state) then
                 && WellKeyed(o.state)
                 && SlotsOf(state.runtimes).Ok? && SlotsOf(o.state.runtimes).Ok?
                 && forall key :: Routed(Slot(SlotsOf(o.state.runtimes).value, key))
                                  == Routed(Slot(SlotsOf(state.runtimes).value, key))
               else o.result.Err? && o.state == state
  {
    SlotsOfDistinct(state.runtimes);
    if Commits(state, desired, options, load) {
      CommitKeepsRoutes(state, desired, realtime, options, load);
      CommitConserves(state, desired, realtime, options, load);
      SlotsOfDistinct(Reconciled(state, desired, realtime, options, load).state.runtimes);
      hide Reconciled, SlotsOf, Commits, DistinctKeys, KeysOf, Routed, Committed, Scanned;
    } else {
      hide SlotsOf, ScanAll, NeedsFullReload, Build, DistinctKeys, KeysOf, Routed, Slot, Hold;
    }
  }

  /**
   * Over any run, keys stay distinct and no call ever adds, drops or changes a node with custom routes; a manager
   * that starts with nodes sharing a key refuses every call and stays as it is.
   */
  lemma {:induction false} RunsKeepRoutes(state: State, calls: seq<Call>)
    ensures var last := RunAll(state, calls);
            if WellKeyed(state) then
              && WellKeyed(last)
              && SlotsOf(state.runtimes).Ok? && SlotsOf(last.runtimes).Ok?
              && forall key :: Routed(Slot(SlotsOf(last.runtimes).value, key))
                               == Routed(Slot(SlotsOf(state.runtimes).value, key))
            else last == state
  {
    SlotsOfDistinct(state.runtimes);
    if calls != [] {
      var init, call := calls[..|calls| - 1], calls[|calls| - 1];
      RunsKeepRoutes(state, init);
      hide Reconciled, SlotsOf, WellKeyed, Routed;
      OneCallKeeps(RunAll(state, init), call.desired, call.realtime, call.options, call.load);
    }
  }
}
