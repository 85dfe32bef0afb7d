/**
 Extraction of a channel's configuration: a recursion over the tree of config groups that builds a
 mirrored tree of versions and collects MSPs, anchor peers, orderer addresses and capabilities.
 Go visits the entries of a map in any order, and so does the model.
 */
module ChannelConfig {
  import opened Collections

  const FABRIC := 0

  /** The key of a config value: the four the program looks for, or any other. */
  datatype ValueKey = AnchorPeersKey | MspKey | CapabilitiesKey | OrdererAddressesKey | OtherKey(name: string)

  datatype AnchorPeer = AnchorPeer(host: string, port: int)
  datatype OrgAnchorPeer = OrgAnchorPeer(org: string, host: string, port: int)
  datatype MspConfig = MspConfig(kind: int, config: string)

  /** A value's bytes, with what each protobuf message type decodes them to. */
  datatype Payload = Payload(
    bytes: string,
    asAnchorPeers: Option<seq<AnchorPeer>>,
    asMsp: Option<MspConfig>,
    asAddresses: Option<seq<string>>,
    asCapabilities: Option<set<string>>)

  datatype ConfigValue = ConfigValue(version: nat, value: Payload, modPolicy: string)
  datatype ConfigPolicy = ConfigPolicy(version: nat, policy: string, modPolicy: string)

  /** A config group; `NilGroup` is a nil pointer.  A nil map is an empty map. */
  datatype ConfigGroup =
    | NilGroup
    | ConfigGroup(version: nat, modPolicy: string,
                  groups: map<string, ConfigGroup>,
                  values: map<ValueKey, ConfigValue>,
                  policies: map<string, ConfigPolicy>)

  const EMPTY_GROUP := ConfigGroup(0, "", map[], map[], map[])

  /** The versions: the same tree, except that values lose their mod-policy and a nil group becomes
      an empty one. */
  ghost function Mirror(g: ConfigGroup): ConfigGroup
    decreases g, 1
  {
    if g.NilGroup? then EMPTY_GROUP
    else ConfigGroup(g.version, g.modPolicy, MirrorGroups(g), MirrorValues(g.values), g.policies)
  }

  ghost function MirrorGroups(g: ConfigGroup): map<string, ConfigGroup>
    requires g.ConfigGroup?
    decreases g, 0
  {
    map k | k in g.groups :: Mirror(g.groups[k])
  }

  function MirrorValues(values: map<ValueKey, ConfigValue>): map<ValueKey, ConfigValue> {
    map k | k in values :: values[k].(modPolicy := "")
  }

  // ----- what a tree holds -----

  type CapabilitySet = map<string, bool>

  /** One thing found in the tree: an item, or the group itself. */
  datatype Entry =
    | Msp(msp: MspConfig)
    | Anchor(peer: OrgAnchorPeer)
    | Orderer(address: string)
    | Capable(name: string, capabilities: CapabilitySet)
    | GroupSeen(name: string)

  type Found = multiset<Entry>

  /** The sum over some keys of a map; no order is involved. */
  ghost function Sum<K>(m: map<K, Found>, keys: set<K>): Found
    requires keys <= m.Keys
    decreases |keys|
  {
    if keys == {} then multiset{}
    else var k :| k in keys; m[k] + Sum(m, keys - {k})
  }

  lemma {:induction false} SumStep<K>(m: map<K, Found>, keys: set<K>, k: K)
    requires keys <= m.Keys && k in keys
    ensures Sum(m, keys) == m[k] + Sum(m, keys - {k})
    decreases |keys|
  {
    var j :| j in keys && Sum(m, keys) == m[j] + Sum(m, keys - {j});
    if j != k {
      SumStep(m, keys - {j}, k);
      SumStep(m, keys - {k}, j);
      assert keys - {j} - {k} == keys - {k} - {j};
    }
  }

  function AllTrue(names: set<string>): CapabilitySet {
    map n | n in names :: true
  }

  function AnchorEntries(peers: seq<AnchorPeer>, org: string): seq<Entry> {
    seq(|peers|, i requires 0 <= i < |peers| => Anchor(OrgAnchorPeer(org, peers[i].host, peers[i].port)))
  }

  function OrdererEntries(addresses: seq<string>): seq<Entry> {
    seq(|addresses|, i requires 0 <= i < |addresses| => Orderer(addresses[i]))
  }

  /** What one value holds, for the group called `name`. */
  function EntriesOf(key: ValueKey, v: Payload, name: string): seq<Entry> {
    if key == AnchorPeersKey && v.asAnchorPeers.Some? then AnchorEntries(v.asAnchorPeers.value, name)
    else if key == MspKey && v.asMsp.Some? then [Msp(v.asMsp.value)]
    else if key == CapabilitiesKey && v.asCapabilities.Some? then [Capable(name, AllTrue(v.asCapabilities.value))]
    else if key == OrdererAddressesKey && v.asAddresses.Some? then OrdererEntries(v.asAddresses.value)
    else []
  }

  ghost function FoundInValues(values: map<ValueKey, ConfigValue>, name: string): map<ValueKey, Found> {
    map k | k in values :: multiset(EntriesOf(k, values[k].value, name))
  }

  /** Everything found in the group called `name` and below it. */
  ghost function FoundIn(g: ConfigGroup, name: string): Found {
    match g
    case NilGroup => multiset{}
    case ConfigGroup(_, _, groups, values, _) =>
      var below := map k | k in groups :: FoundIn(groups[k], k);
      var here := FoundInValues(values, name);
      Sum(below, below.Keys) + Sum(here, here.Keys) + multiset{GroupSeen(name)}
  }

  // ----- which trees load -----

  predicate ValidValue(key: ValueKey, v: Payload) {
    if key == AnchorPeersKey then v.asAnchorPeers.Some?
    else if key == MspKey then v.asMsp.Some? && v.asMsp.value.kind == FABRIC
    else if key == CapabilitiesKey then v.asCapabilities.Some?
    else if key == OrdererAddressesKey then v.asAddresses.Some?
    else true
  }

  ghost predicate Loadable(g: ConfigGroup) {
    match g
    case NilGroup => true
    case ConfigGroup(_, _, groups, values, _) =>
      && (forall k | k in groups :: Loadable(groups[k]))
      && (forall k | k in values :: ValidValue(k, values[k].value))
  }

  // ----- the order of the visits -----

  /** In which order a run visits the groups and values of a group, and so on below. */
  datatype Order = Order(groups: seq<string>, below: map<string, Order>, values: seq<ValueKey>)

  ghost predicate Visits(o: Order, g: ConfigGroup)
    decreases g
  {
    g.ConfigGroup? ==>
      && Lists(o.groups, g.groups.Keys)
      && Lists(o.values, g.values.Keys)
      && g.groups.Keys <= o.below.Keys
      && forall k | k in g.groups :: Visits(o.below[k], g.groups[k])
  }

  /** What a run in a given order finds, in the order in which it finds it. */
  ghost function ValuesLog(values: map<ValueKey, ConfigValue>, order: seq<ValueKey>, name: string): seq<Entry>
    requires forall k | k in order :: k in values
  {
    if order == [] then []
    else
      var k := order[|order| - 1];
      ValuesLog(values, order[..|order| - 1], name) + EntriesOf(k, values[k].value, name)
  }

  ghost function GroupsLog(g: ConfigGroup, order: seq<string>, below: map<string, Order>): seq<Entry>
    requires g.ConfigGroup?
    requires forall k | k in order :: k in g.groups && k in below && Visits(below[k], g.groups[k])
    decreases g, |order|
  {
    if order == [] then []
    else
      var k := order[|order| - 1];
      GroupsLog(g, order[..|order| - 1], below) + Log(g.groups[k], k, below[k])
  }

  ghost function Log(g: ConfigGroup, name: string, o: Order): seq<Entry>
    requires Visits(o, g)
    decreases g, |o.groups| + 1
  {
    if g.NilGroup? then []
    else GroupsLog(g, o.groups, o.below) + ValuesLog(g.values, o.values, name) + [GroupSeen(name)]
  }

  // ----- the program -----

  datatype Items = Items(
    msps: seq<MspConfig>, anchorPeers: seq<OrgAnchorPeer>, orderers: seq<string>,
    capabilities: map<string, CapabilitySet>)

  ghost function Add(items: Items, e: Entry): Items {
    match e
    case Msp(m) => items.(msps := items.msps + [m])
    case Anchor(p) => items.(anchorPeers := items.anchorPeers + [p])
    case Orderer(a) => items.(orderers := items.orderers + [a])
    case Capable(n, c) => items.(capabilities := items.capabilities[n := c])
    case GroupSeen(_) => items
  }

  /** The items after finding the entries of a log one after another. */
  ghost function Replay(log: seq<Entry>): Items {
    if log == [] then Items([], [], [], map[])
    else Add(Replay(log[..|log| - 1]), log[|log| - 1])
  }

  lemma ReplayOne(log: seq<Entry>, e: Entry)
    ensures Replay(log + [e]) == Add(Replay(log), e)
  {
    assert (log + [e])[..|log|] == log;
  }

  /** The collected items; the ghost field is the log of what was found. */
  class ChannelCfg {
    var msps: seq<MspConfig>
    var anchorPeers: seq<OrgAnchorPeer>
    var orderers: seq<string>
    var capabilities: map<string, CapabilitySet>
    ghost var log: seq<Entry>

    constructor ()
      ensures Valid() && log == []
    {
      msps, anchorPeers, orderers, capabilities := [], [], [], map[];
      log := [];
    }

    ghost predicate Valid()
      reads this
    {
      Contents() == Replay(log)
    }

    function Contents(): Items
      reads this
    {
      Items(msps, anchorPeers, orderers, capabilities)
    }

    ghost method Found(e: Entry)
      requires Contents() == Add(Replay(log), e)
      modifies this`log
      ensures Valid() && log == old(log) + [e]
    {
      ReplayOne(log, e);
      log := log + [e];
    }
  }

  method LoadAnchorPeers(items: ChannelCfg, v: Payload, org: string) returns (ok: bool)
    requires items.Valid()
    modifies items`anchorPeers, items`log
    ensures items.Valid()
    ensures ok <==> v.asAnchorPeers.Some?
    ensures ok ==> items.log == old(items.log) + AnchorEntries(v.asAnchorPeers.value, org)
    ensures ok ==> var peers := v.asAnchorPeers.value;
      items.anchorPeers == old(items.anchorPeers) +
        seq(|peers|, i requires 0 <= i < |peers| => OrgAnchorPeer(org, peers[i].host, peers[i].port))
  {
    if v.asAnchorPeers.None? {
      return false;
    }
    var peers := v.asAnchorPeers.value;
    ghost var entries := AnchorEntries(peers, org);
    ghost var added := seq(|peers|, i requires 0 <= i < |peers| => OrgAnchorPeer(org, peers[i].host, peers[i].port));
    for i := 0 to |peers|
      invariant items.Valid()
      invariant items.log == old(items.log) + entries[..i]
      invariant items.anchorPeers == old(items.anchorPeers) + added[..i]
    {
      items.anchorPeers := items.anchorPeers + [OrgAnchorPeer(org, peers[i].host, peers[i].port)];
      items.Found(entries[i]);
      Assoc(old(items.log), entries[..i], [entries[i]]);
      assert entries[..i + 1] == entries[..i] + [entries[i]];
    }
    assert entries[..|peers|] == entries && added[..|peers|] == added;
    return true;
  }

  method LoadOrdererAddresses(items: ChannelCfg, v: Payload) returns (ok: bool)
    requires items.Valid()
    modifies items`orderers, items`log
    ensures items.Valid()
    ensures ok <==> v.asAddresses.Some?
    ensures ok ==> items.log == old(items.log) + OrdererEntries(v.asAddresses.value)
    ensures ok ==> items.orderers == old(items.orderers) + v.asAddresses.value
  {
    if v.asAddresses.None? {
      return false;
    }
    ReplayOrderers(items.log, v.asAddresses.value);
    items.orderers := items.orderers + v.asAddresses.value;
    items.log := items.log + OrdererEntries(v.asAddresses.value);
    return true;
  }

  lemma {:induction false} ReplayOrderers(log: seq<Entry>, addresses: seq<string>)
    ensures var items := Replay(log);
      Replay(log + OrdererEntries(addresses)) == items.(orderers := items.orderers + addresses)
    decreases |addresses|
  {
    if addresses == [] {
      assert log + [] == log;
      assert Replay(log).orderers + [] == Replay(log).orderers;
    } else {
      var init, last := addresses[..|addresses| - 1], addresses[|addresses| - 1];
      ReplayOrderers(log, init);
      LastOrderer(log, addresses);
      ReplayOne(log + OrdererEntries(init), Orderer(last));
      LastAddress(Replay(log).orderers, addresses);
    }
  }

  lemma LastOrderer(log: seq<Entry>, addresses: seq<string>)
    requires addresses != []
    ensures var n := |addresses| - 1;
      log + OrdererEntries(addresses) == log + OrdererEntries(addresses[..n]) + [Orderer(addresses[n])]
  {
    var n := |addresses| - 1;
    assert OrdererEntries(addresses) == OrdererEntries(addresses[..n]) + [Orderer(addresses[n])];
    Assoc(log, OrdererEntries(addresses[..n]), [Orderer(addresses[n])]);
  }

  lemma LastAddress(before: seq<string>, addresses: seq<string>)
    requires addresses != []
    ensures var n := |addresses| - 1;
      before + addresses == before + addresses[..n] + [addresses[n]]
  {
    var n := |addresses| - 1;
    assert addresses == addresses[..n] + [addresses[n]];
    Assoc(before, addresses[..n], [addresses[n]]);
  }

  lemma Assoc<T>(a: seq<T>, b: seq<T>, c: seq<T>)
    ensures a + b + c == a + (b + c)
  {
  }

  method LoadConfigValue(items: ChannelCfg, key: ValueKey, v: ConfigValue, name: string)
    returns (versions: ConfigValue, ok: bool)
    requires items.Valid()
    modifies items
    ensures versions == v.(modPolicy := "")
    ensures ok <==> ValidValue(key, v.value)
    ensures items.Valid()
    ensures ok ==> items.log == old(items.log) + EntriesOf(key, v.value, name)
    ensures key == AnchorPeersKey ==> (ok <==> v.value.asAnchorPeers.Some?)
    ensures key == MspKey ==> (ok <==> v.value.asMsp.Some? && v.value.asMsp.value.kind == FABRIC)
    ensures key == CapabilitiesKey ==> (ok <==> v.value.asCapabilities.Some?)
    ensures key == OrdererAddressesKey ==> (ok <==> v.value.asAddresses.Some?)
    ensures key.OtherKey? ==> ok && items.Contents() == old(items.Contents())
    ensures ok && key == AnchorPeersKey ==>
      var peers := v.value.asAnchorPeers.value;
      items.Contents() == old(items.Contents()).(anchorPeers := old(items.anchorPeers) +
        seq(|peers|, i requires 0 <= i < |peers| => OrgAnchorPeer(name, peers[i].host, peers[i].port)))
    ensures ok && key == MspKey ==>
      items.Contents() == old(items.Contents()).(msps := old(items.msps) + [v.value.asMsp.value])
    ensures ok && key == CapabilitiesKey ==>
      items.Contents() == old(items.Contents()).(capabilities :=
        old(items.capabilities)[name := map c | c in v.value.asCapabilities.value :: true])
    ensures ok && key == OrdererAddressesKey ==>
      items.Contents() == old(items.Contents()).(orderers := old(items.orderers) + v.value.asAddresses.value)
  {
    versions, ok := ConfigValue(v.version, v.value, ""), true;
    if key == AnchorPeersKey {
      ok := LoadAnchorPeers(items, v.value, name);
    } else if key == MspKey {
      ok := v.value.asMsp.Some? && v.value.asMsp.value.kind == FABRIC;
      if ok {
        items.msps := items.msps + [v.value.asMsp.value];
        items.Found(Msp(v.value.asMsp.value));
      }
    } else if key == CapabilitiesKey {
      ok := v.value.asCapabilities.Some?;
      if ok {
        var capabilityMap := AllTrue(v.value.asCapabilities.value);
        items.capabilities := items.capabilities[name := capabilityMap];
        items.Found(Capable(name, capabilityMap));
      }
    } else if key == OrdererAddressesKey {
      ok := LoadOrdererAddresses(items, v.value);
    }
  }

  /** What is listed so far, and what is still to do. */
  ghost predicate Listed<K(!new)>(order: seq<K>, keys: set<K>, todo: set<K>) {
    todo <= keys && Lists(order, keys - todo)
  }

  lemma ListNext<K(!new)>(order: seq<K>, keys: set<K>, todo: set<K>, k: K)
    requires Listed(order, keys, todo) && k in todo
    ensures Listed(order + [k], keys, todo - {k})
  {
  }

  method LoadValues(items: ChannelCfg, values: map<ValueKey, ConfigValue>, name: string)
    returns (versions: map<ValueKey, ConfigValue>, ok: bool, ghost order: seq<ValueKey>)
    requires items.Valid()
    modifies items
    ensures ok <==> forall k | k in values :: ValidValue(k, values[k].value)
    ensures ok ==> versions == MirrorValues(values)
    ensures items.Valid()
    ensures ok ==> Lists(order, values.Keys) && items.log == old(items.log) + ValuesLog(values, order, name)
  {
    ghost var start := items.log;
    var todo := values.Keys;
    versions, order := map[], [];
    while todo != {}
      invariant ValuesDone(values, todo, order, versions)
      invariant items.Valid() && items.log == start + ValuesLog(values, order, name)
      decreases todo
    {
      var k :| k in todo;
      var v;
      v, ok := LoadNextValue(items, values, k, name, start, order);
      if !ok {
        return;
      }
      ValuesDoneNext(values, todo, order, versions, k, v);
      versions := versions[k := v];
      todo, order := todo - {k}, order + [k];
    }
    ValuesDoneAll(values, order, versions);
    ok := true;
  }

  /** The values that are no longer to do are listed, valid and mirrored. */
  ghost predicate ValuesDone(values: map<ValueKey, ConfigValue>, todo: set<ValueKey>, order: seq<ValueKey>,
                             versions: map<ValueKey, ConfigValue>)
  {
    && Listed(order, values.Keys, todo)
    && (forall k | k in values && k !in todo :: ValidValue(k, values[k].value))
    && versions.Keys == values.Keys - todo
    && (forall k | k in versions :: versions[k] == values[k].(modPolicy := ""))
  }

  lemma ValuesDoneNext(values: map<ValueKey, ConfigValue>, todo: set<ValueKey>, order: seq<ValueKey>,
                       versions: map<ValueKey, ConfigValue>, k: ValueKey, v: ConfigValue)
    requires ValuesDone(values, todo, order, versions) && k in todo
    requires ValidValue(k, values[k].value) && v == values[k].(modPolicy := "")
    ensures ValuesDone(values, todo - {k}, order + [k], versions[k := v])
  {
    ListNext(order, values.Keys, todo, k);
  }

  lemma ValuesDoneAll(values: map<ValueKey, ConfigValue>, order: seq<ValueKey>, versions: map<ValueKey, ConfigValue>)
    requires ValuesDone(values, {}, order, versions)
    ensures Lists(order, values.Keys) && versions == MirrorValues(values)
    ensures forall k | k in values :: ValidValue(k, values[k].value)
  {
    assert values.Keys - {} == values.Keys;
  }

  /** One round of the loop over the values. */
  method LoadNextValue(items: ChannelCfg, values: map<ValueKey, ConfigValue>, k: ValueKey, name: string,
                       ghost start: seq<Entry>, ghost order: seq<ValueKey>)
    returns (versions: ConfigValue, ok: bool)
    requires items.Valid() && k in values && forall j | j in order :: j in values
    requires items.log == start + ValuesLog(values, order, name)
    modifies items
    ensures versions == values[k].(modPolicy := "") && (ok <==> ValidValue(k, values[k].value))
    ensures items.Valid()
    ensures forall j | j in order + [k] :: j in values
    ensures ok ==> items.log == start + ValuesLog(values, order + [k], name)
  {
    ValuesLogNext(start, values, order, name, k);
    versions, ok := LoadConfigValue(items, k, values[k], name);
  }

  lemma ValuesLogNext(start: seq<Entry>, values: map<ValueKey, ConfigValue>, order: seq<ValueKey>, name: string, k: ValueKey)
    requires k in values && forall j | j in order :: j in values
    ensures forall j | j in order + [k] :: j in values
    ensures start + ValuesLog(values, order + [k], name) ==
            start + ValuesLog(values, order, name) + EntriesOf(k, values[k].value, name)
  {
    assert (order + [k])[..|order|] == order;
    Assoc(start, ValuesLog(values, order, name), EntriesOf(k, values[k].value, name));
  }

  /** The groups visited so far, with the orders followed below them. */
  ghost predicate VisitedBelow(g: ConfigGroup, order: seq<string>, below: map<string, Order>)
    requires g.ConfigGroup?
  {
    forall k | k in order :: k in g.groups && k in below && Visits(below[k], g.groups[k])
  }

  lemma {:induction false} GroupsLogFrame(g: ConfigGroup, order: seq<string>, below: map<string, Order>, more: map<string, Order>)
    requires g.ConfigGroup? && VisitedBelow(g, order, below)
    requires forall k | k in order :: k in more && more[k] == below[k]
    ensures GroupsLog(g, order, more) == GroupsLog(g, order, below)
    decreases |order|
  {
    if order != [] {
      GroupsLogFrame(g, order[..|order| - 1], below, more);
    }
  }

  lemma GroupsLogNext(g: ConfigGroup, order: seq<string>, below: map<string, Order>, k: string, o: Order)
    requires g.ConfigGroup? && VisitedBelow(g, order, below) && k !in order && k in g.groups && Visits(o, g.groups[k])
    ensures var more := below[k := o];
      && VisitedBelow(g, order + [k], more)
      && GroupsLog(g, order + [k], more) == GroupsLog(g, order, below) + Log(g.groups[k], k, o)
  {
    var more := below[k := o];
    assert VisitedBelow(g, order + [k], more);
    assert (order + [k])[..|order|] == order;
    GroupsLogFrame(g, order, below, more);
  }

  method LoadGroups(items: ChannelCfg, group: ConfigGroup)
    returns (versions: map<string, ConfigGroup>, ok: bool, ghost order: seq<string>, ghost below: map<string, Order>)
    requires group.ConfigGroup? && items.Valid()
    modifies items
    ensures ok <==> forall k | k in group.groups :: Loadable(group.groups[k])
    ensures ok ==> versions == MirrorGroups(group)
    ensures items.Valid()
    ensures ok ==> Lists(order, group.groups.Keys) && VisitedBelow(group, order, below)
                   && items.log == old(items.log) + GroupsLog(group, order, below)
    decreases group, 0
  {
    var groups := group.groups;
    var todo := groups.Keys;
    versions, order, below := map[], [], map[];
    while todo != {}
      invariant Listed(order, groups.Keys, todo) && VisitedBelow(group, order, below)
      invariant forall k | k in groups && k !in todo :: Loadable(groups[k])
      invariant versions.Keys == groups.Keys - todo
      invariant forall k | k in versions :: versions[k] == Mirror(groups[k])
      invariant items.Valid() && items.log == old(items.log) + GroupsLog(group, order, below)
      decreases todo
    {
      var k :| k in todo;
      ListNext(order, groups.Keys, todo, k);
      var v;
      ghost var o;
      v, ok, o := LoadConfig(items, groups[k], k);
      if !ok {
        return;
      }
      Assoc(old(items.log), GroupsLog(group, order, below), Log(groups[k], k, o));
      GroupsLogNext(group, order, below, k, o);
      versions := versions[k := v];
      todo, order, below := todo - {k}, order + [k], below[k := o];
    }
    ok := true;
  }

  /** loadConfig: succeeds exactly on the trees whose known values all decode and whose MSPs are of
      the supported type.  Then the versions mirror the tree, and the items have grown by the log of
      a complete visit of the tree in the order that was followed. */
  method LoadConfig(items: ChannelCfg, group: ConfigGroup, name: string)
    returns (versions: ConfigGroup, ok: bool, ghost order: Order)
    requires items.Valid()
    modifies items
    ensures ok <==> Loadable(group)
    ensures ok ==> versions == Mirror(group)
    ensures items.Valid()
    ensures ok ==> Visits(order, group) && items.log == old(items.log) + Log(group, name, order)
    decreases group, 1
  {
    versions, order := EMPTY_GROUP, Order([], map[], []);
    if group.NilGroup? {
      return versions, true, order;
    }
    ghost var start := items.log;
    var groups, values;
    ghost var below, first, second;
    groups, ok, first, below := LoadGroups(items, group);
    if !ok {
      return;
    }
    values, ok, second := LoadValues(items, group.values, name);
    if !ok {
      return;
    }
    items.Found(GroupSeen(name));
    order := Order(first, below, second);
    versions := ConfigGroup(group.version, group.modPolicy, groups, values, LoadPolicies(group.policies));
    LogOfGroup(start, group, name, order);
  }

  lemma LogOfGroup(start: seq<Entry>, g: ConfigGroup, name: string, o: Order)
    requires g.ConfigGroup? && Lists(o.groups, g.groups.Keys) && Lists(o.values, g.values.Keys)
    requires VisitedBelow(g, o.groups, o.below)
    ensures Visits(o, g)
    ensures start + GroupsLog(g, o.groups, o.below) + ValuesLog(g.values, o.values, name) + [GroupSeen(name)] ==
            start + Log(g, name, o)
  {
    var groups, values := GroupsLog(g, o.groups, o.below), ValuesLog(g.values, o.values, name);
    Assoc(start, groups, values);
    Assoc(start, groups + values, [GroupSeen(name)]);
  }

  function LoadPolicies(policies: map<string, ConfigPolicy>): map<string, ConfigPolicy> {
    map k | k in policies :: ConfigPolicy(policies[k].version, policies[k].policy, policies[k].modPolicy)
  }

  // ----- the order does not matter -----

  ghost function Keys<K(!new)>(order: seq<K>): set<K> {
    set k | k in order
  }

  lemma SplitLast<K(!new)>(order: seq<K>) returns (init: seq<K>, k: K)
    requires order != [] && forall i, j | 0 <= i < j < |order| :: order[i] != order[j]
    ensures init == order[..|order| - 1] && k == order[|order| - 1]
    ensures k in order && Keys(init) == Keys(order) - {k}
    ensures forall j | j in init :: j in order
  {
    init, k := order[..|order| - 1], order[|order| - 1];
  }

  lemma {:induction false} ValuesLogSum(values: map<ValueKey, ConfigValue>, order: seq<ValueKey>, name: string)
    requires forall i, j | 0 <= i < j < |order| :: order[i] != order[j]
    requires forall k | k in order :: k in values
    ensures Keys(order) <= values.Keys
    ensures multiset(ValuesLog(values, order, name)) == Sum(FoundInValues(values, name), Keys(order))
    decreases |order|
  {
    if order == [] {
      assert Keys(order) == {};
    } else {
      var init, k := SplitLast(order);
      ValuesLogSum(values, init, name);
      SumStep(FoundInValues(values, name), Keys(order), k);
    }
  }

  lemma {:induction false} GroupsLogSum(g: ConfigGroup, order: seq<string>, below: map<string, Order>)
    requires g.ConfigGroup? && VisitedBelow(g, order, below)
    requires forall i, j | 0 <= i < j < |order| :: order[i] != order[j]
    ensures Keys(order) <= g.groups.Keys
    ensures multiset(GroupsLog(g, order, below)) == Sum(FoundBelow(g.groups), Keys(order))
    decreases g, |order|
  {
    if order == [] {
      assert Keys(order) == {};
    } else {
      var init, k := SplitLast(order);
      GroupsLogSum(g, init, below);
      SumStep(FoundBelow(g.groups), Keys(order), k);
      EveryOrderFindsAll(g.groups[k], k, below[k]);
    }
  }

  ghost function FoundBelow(groups: map<string, ConfigGroup>): map<string, Found> {
    map k | k in groups :: FoundIn(groups[k], k)
  }

  /** Whatever the order of the visits, the log holds exactly what the whole tree holds. */
  lemma {:induction false} EveryOrderFindsAll(g: ConfigGroup, name: string, o: Order)
    requires Visits(o, g)
    ensures multiset(Log(g, name, o)) == FoundIn(g, name)
    decreases g, |o.groups| + 1
  {
    if g.ConfigGroup? {
      GroupsLogSum(g, o.groups, o.below);
      ValuesLogSum(g.values, o.values, name);
      assert Keys(o.groups) == g.groups.Keys == FoundBelow(g.groups).Keys;
      assert Keys(o.values) == g.values.Keys == FoundInValues(g.values, name).Keys;
    }
  }

  /** `items` hold exactly what was found, each as often as it was found; a group name has
      capabilities iff some were found for it, and then one of the sets found. */
  ghost predicate Holds(items: Items, found: Found) {
    HoldsLists(items, found) && HoldsCapabilities(items.capabilities, found)
  }

  ghost predicate HoldsLists(items: Items, found: Found) {
    && (forall m :: multiset(items.msps)[m] == found[Msp(m)])
    && (forall p :: multiset(items.anchorPeers)[p] == found[Anchor(p)])
    && (forall a :: multiset(items.orderers)[a] == found[Orderer(a)])
  }

  ghost predicate HoldsCapabilities(capabilities: map<string, CapabilitySet>, found: Found) {
    && (forall n | n in capabilities :: Capable(n, capabilities[n]) in found)
    && (forall n, c :: Capable(n, c) in found ==> n in capabilities)
  }

  lemma {:induction false} ReplayHolds(log: seq<Entry>)
    ensures Holds(Replay(log), multiset(log))
    decreases |log|
  {
    if log != [] {
      var init, e := log[..|log| - 1], log[|log| - 1];
      ReplayHolds(init);
      assert log == init + [e];
      HoldsNext(Replay(init), multiset(init), e);
    }
  }

  lemma HoldsNext(items: Items, found: Found, e: Entry)
    requires Holds(items, found)
    ensures Holds(Add(items, e), found + multiset{e})
  {
    HoldsListsNext(items, found, e);
  }

  lemma HoldsListsNext(items: Items, found: Found, e: Entry)
    requires HoldsLists(items, found)
    ensures HoldsLists(Add(items, e), found + multiset{e})
  {
    match e
    case Msp(m) => assert multiset(items.msps + [m]) == multiset(items.msps) + multiset{m};
    case Anchor(p) => assert multiset(items.anchorPeers + [p]) == multiset(items.anchorPeers) + multiset{p};
    case Orderer(a) => assert multiset(items.orderers + [a]) == multiset(items.orderers) + multiset{a};
    case _ =>
  }

  /** extractConfig: from nothing, the items hold what the whole tree holds. */
  method ExtractConfig(group: ConfigGroup) returns (config: ChannelCfg, versions: ConfigGroup, ok: bool, ghost order: Order)
    ensures ok <==> Loadable(group)
    ensures ok ==> versions == Mirror(group)
    ensures ok ==> Visits(order, group) && config.Contents() == Replay(Log(group, "", order))
    ensures ok ==> Holds(config.Contents(), FoundIn(group, ""))
  {
    config := new ChannelCfg();
    versions, ok, order := LoadConfig(config, group, "");
    if ok {
      ghost var log := Log(group, "", order);
      assert [] + log == log;
      ReplayHolds(log);
      EveryOrderFindsAll(group, "", order);
    }
  }

  // ----- what is found, key by key -----

  /** What is found in the groups directly below and in all under these. */
  ghost function FoundUnder(g: ConfigGroup): Found
    requires g.ConfigGroup?
  {
    Sum(FoundBelow(g.groups), g.groups.Keys)
  }

  lemma {:induction false} OnlyThisKey(values: map<ValueKey, ConfigValue>, name: string, keys: set<ValueKey>, k: ValueKey, e: Entry)
    requires keys <= values.Keys
    requires forall j | j in keys && j != k :: multiset(EntriesOf(j, values[j].value, name))[e] == 0
    ensures Sum(FoundInValues(values, name), keys)[e] ==
            if k in keys then multiset(EntriesOf(k, values[k].value, name))[e] else 0
    decreases |keys|
  {
    if keys != {} {
      var j :| j in keys;
      SumStep(FoundInValues(values, name), keys, j);
      OnlyThisKey(values, name, keys - {j}, k, e);
    }
  }

  /** The key under which an entry is found. */
  function KeyOf(e: Entry): ValueKey
    requires !e.GroupSeen?
  {
    match e
    case Msp(_) => MspKey
    case Anchor(_) => AnchorPeersKey
    case Orderer(_) => OrdererAddressesKey
    case Capable(_, _) => CapabilitiesKey
  }

  lemma OtherKeysHaveNone(k: ValueKey, v: Payload, name: string, e: Entry)
    requires !e.GroupSeen? && k != KeyOf(e)
    ensures multiset(EntriesOf(k, v, name))[e] == 0
  {
    assert e !in EntriesOf(k, v, name);
  }

  lemma CountedAtKey(g: ConfigGroup, name: string, e: Entry)
    requires g.ConfigGroup? && !e.GroupSeen?
    ensures var k := KeyOf(e);
      FoundIn(g, name)[e] == FoundUnder(g)[e] + if k in g.values then multiset(EntriesOf(k, g.values[k].value, name))[e] else 0
  {
    forall j | j in g.values && j != KeyOf(e)
      ensures multiset(EntriesOf(j, g.values[j].value, name))[e] == 0
    {
      OtherKeysHaveNone(j, g.values[j].value, name, e);
    }
    OnlyThisKey(g.values, name, g.values.Keys, KeyOf(e), e);
    FoundInParts(g, name, e);
  }

  lemma FoundInParts(g: ConfigGroup, name: string, e: Entry)
    requires g.ConfigGroup? && !e.GroupSeen?
    ensures FoundIn(g, name)[e] == FoundUnder(g)[e] + Sum(FoundInValues(g.values, name), g.values.Keys)[e]
  {
    assert FoundBelow(g.groups).Keys == g.groups.Keys && FoundInValues(g.values, name).Keys == g.values.Keys;
  }

  lemma {:induction false} OrdererEntriesCount(addresses: seq<string>, a: string)
    ensures multiset(OrdererEntries(addresses))[Orderer(a)] == multiset(addresses)[a]
  {
    if addresses != [] {
      var n := |addresses| - 1;
      OrdererEntriesCount(addresses[..n], a);
      assert OrdererEntries(addresses) == OrdererEntries(addresses[..n]) + [Orderer(addresses[n])];
      assert addresses == addresses[..n] + [addresses[n]];
    }
  }

  lemma {:induction false} AnchorEntriesCount(peers: seq<AnchorPeer>, org: string, p: AnchorPeer)
    ensures multiset(AnchorEntries(peers, org))[Anchor(OrgAnchorPeer(org, p.host, p.port))] == multiset(peers)[p]
  {
    if peers != [] {
      var n := |peers| - 1;
      AnchorEntriesCount(peers[..n], org, p);
      assert AnchorEntries(peers, org) ==
             AnchorEntries(peers[..n], org) + [Anchor(OrgAnchorPeer(org, peers[n].host, peers[n].port))];
      assert peers == peers[..n] + [peers[n]];
    }
  }

  /** An MSP is found once for each group whose MSP value decodes to it. */
  lemma MspsFound(g: ConfigGroup, name: string, m: MspConfig)
    requires g.ConfigGroup?
    ensures FoundIn(g, name)[Msp(m)] == FoundUnder(g)[Msp(m)] +
            if MspKey in g.values && g.values[MspKey].value.asMsp == Some(m) then 1 else 0
  {
    CountedAtKey(g, name, Msp(m));
  }

  /** An anchor peer is found as often as the anchor peers of its organization's group list it. */
  lemma AnchorPeersFound(g: ConfigGroup, name: string, org: string, p: AnchorPeer)
    requires g.ConfigGroup?
    ensures var e := Anchor(OrgAnchorPeer(org, p.host, p.port));
      FoundIn(g, name)[e] == FoundUnder(g)[e] +
        if org == name && AnchorPeersKey in g.values && g.values[AnchorPeersKey].value.asAnchorPeers.Some?
        then multiset(g.values[AnchorPeersKey].value.asAnchorPeers.value)[p] else 0
  {
    CountedAtKey(g, name, Anchor(OrgAnchorPeer(org, p.host, p.port)));
    if AnchorPeersKey in g.values && g.values[AnchorPeersKey].value.asAnchorPeers.Some? {
      AnchorEntriesCount(g.values[AnchorPeersKey].value.asAnchorPeers.value, name, p);
    }
  }

  /** An orderer address is found as often as the address values list it. */
  lemma OrderersFound(g: ConfigGroup, name: string, a: string)
    requires g.ConfigGroup?
    ensures FoundIn(g, name)[Orderer(a)] == FoundUnder(g)[Orderer(a)] +
            if OrdererAddressesKey in g.values && g.values[OrdererAddressesKey].value.asAddresses.Some?
            then multiset(g.values[OrdererAddressesKey].value.asAddresses.value)[a] else 0
  {
    CountedAtKey(g, name, Orderer(a));
    if OrdererAddressesKey in g.values && g.values[OrdererAddressesKey].value.asAddresses.Some? {
      OrdererEntriesCount(g.values[OrdererAddressesKey].value.asAddresses.value, a);
    }
  }

  lemma CapabilityEntryCount(v: Payload, name: string, n: string, c: CapabilitySet)
    requires v.asCapabilities.Some?
    ensures multiset(EntriesOf(CapabilitiesKey, v, name))[Capable(n, c)] ==
            if n == name && v.asCapabilities == Some(c.Keys) && forall x | x in c :: c[x] then 1 else 0
  {
    var names := v.asCapabilities.value;
    assert EntriesOf(CapabilitiesKey, v, name) == [Capable(name, AllTrue(names))];
    assert c == AllTrue(names) <==> c.Keys == names && forall x | x in c :: c[x];
  }

  /** A capability set is found once for each group of its name that lists exactly its members. */
  lemma CapabilitiesFound(g: ConfigGroup, name: string, n: string, c: CapabilitySet)
    requires g.ConfigGroup?
    ensures FoundIn(g, name)[Capable(n, c)] == FoundUnder(g)[Capable(n, c)] +
            if n == name && CapabilitiesKey in g.values && g.values[CapabilitiesKey].value.asCapabilities == Some(c.Keys)
               && (forall x | x in c :: c[x])
            then 1 else 0
  {
    CountedAtKey(g, name, Capable(n, c));
    if CapabilitiesKey in g.values && g.values[CapabilitiesKey].value.asCapabilities.Some? {
      CapabilityEntryCount(g.values[CapabilitiesKey].value, name, n, c);
    }
  }

  // ----- a tree by its paths -----

  /** The group that a path of keys leads to. */
  function GroupAt(g: ConfigGroup, path: seq<string>): Option<ConfigGroup>
    decreases path
  {
    if path == [] then Some(g)
    else if g.ConfigGroup? && path[0] in g.groups then GroupAt(g.groups[path[0]], path[1..])
    else None
  }

  /** The MSP, anchor peers, capabilities and addresses of the group at the path all decode, and the
      MSP is of the supported type. */
  ghost predicate DecodesAt(g: ConfigGroup, path: seq<string>) {
    match GroupAt(g, path)
    case Some(ConfigGroup(_, _, _, values, _)) =>
      && (AnchorPeersKey in values ==> values[AnchorPeersKey].value.asAnchorPeers.Some?)
      && (MspKey in values ==> values[MspKey].value.asMsp.Some? && values[MspKey].value.asMsp.value.kind == FABRIC)
      && (CapabilitiesKey in values ==> values[CapabilitiesKey].value.asCapabilities.Some?)
      && (OrdererAddressesKey in values ==> values[OrdererAddressesKey].value.asAddresses.Some?)
    case _ => true
  }

  /** A tree loads iff all its groups decode. */
  lemma {:induction false} LoadableIff(g: ConfigGroup)
    ensures Loadable(g) <==> forall path :: DecodesAt(g, path)
    decreases g
  {
    if g.ConfigGroup? {
      assert DecodesAt(g, []) <==> forall k | k in g.values :: ValidValue(k, g.values[k].value);
      forall k | k in g.groups
        ensures Loadable(g.groups[k]) <==> forall path :: DecodesAt(g.groups[k], path)
        ensures forall path :: DecodesAt(g.groups[k], path) <==> DecodesAt(g, [k] + path)
      {
        LoadableIff(g.groups[k]);
        forall path
          ensures GroupAt(g, [k] + path) == GroupAt(g.groups[k], path)
        {
          assert ([k] + path)[1..] == path;
        }
      }
      forall path | path != [] && GroupAt(g, path).Some?
        ensures DecodesAt(g, path) <==> DecodesAt(g.groups[path[0]], path[1..])
      {
      }
    }
  }

  /** The versions of a group, by its own fields: its policies and values are those of the group, with
      the mod-policies of the values dropped; a nil group has version zero and nothing in it. */
  ghost predicate HasVersionsOf(v: ConfigGroup, g: ConfigGroup) {
    && v.ConfigGroup?
    && (g.NilGroup? ==> v.version == 0 && v.modPolicy == "" && v.groups == map[] && v.values == map[] && v.policies == map[])
    && (g.ConfigGroup? ==>
          && v.version == g.version && v.modPolicy == g.modPolicy && v.policies == g.policies
          && v.groups.Keys == g.groups.Keys && v.values.Keys == g.values.Keys
          && forall k | k in g.values ::
               v.values[k].version == g.values[k].version && v.values[k].value == g.values[k].value && v.values[k].modPolicy == "")
  }

  /** At every path the mirrored tree has the versions of the group there, and it has no other paths. */
  lemma {:induction false} MirrorAt(g: ConfigGroup, path: seq<string>)
    ensures GroupAt(Mirror(g), path).Some? <==> GroupAt(g, path).Some?
    ensures GroupAt(g, path).Some? ==> HasVersionsOf(GroupAt(Mirror(g), path).value, GroupAt(g, path).value)
    decreases path
  {
    if path != [] && g.ConfigGroup? && path[0] in g.groups {
      MirrorAt(g.groups[path[0]], path[1..]);
    }
  }

  // ----- the capabilities a group name can end up with -----

  /** The capabilities a group itself has. */
  ghost function OwnCapabilities(g: ConfigGroup): Option<CapabilitySet>
    requires g.ConfigGroup?
  {
    if CapabilitiesKey in g.values && g.values[CapabilitiesKey].value.asCapabilities.Some?
    then Some(AllTrue(g.values[CapabilitiesKey].value.asCapabilities.value))
    else None
  }

  /** `c` can be what is found last for the name `n`: a group is visited after all groups below it, and
      the groups directly below it in any order. */
  ghost predicate CanBeLast(g: ConfigGroup, name: string, n: string, c: CapabilitySet) {
    g.ConfigGroup? &&
    if name == n && OwnCapabilities(g).Some? then OwnCapabilities(g) == Some(c)
    else exists k | k in g.groups :: CanBeLast(g.groups[k], k, n, c)
  }

  /** What the last entry of a log for the name `n` says. */
  ghost function LastFor(log: seq<Entry>, n: string): Option<CapabilitySet> {
    if log == [] then None
    else
      var e := log[|log| - 1];
      if e.Capable? && e.name == n then Some(e.capabilities) else LastFor(log[..|log| - 1], n)
  }

  lemma {:induction false} ReplayKeepsLast(log: seq<Entry>, n: string)
    ensures var caps := Replay(log).capabilities;
      LastFor(log, n) == if n in caps then Some(caps[n]) else None
    decreases |log|
  {
    if log != [] {
      ReplayKeepsLast(log[..|log| - 1], n);
    }
  }

  lemma {:induction false} LastForSum(a: seq<Entry>, b: seq<Entry>, n: string)
    ensures LastFor(a + b, n) == if LastFor(b, n).Some? then LastFor(b, n) else LastFor(a, n)
    decreases |b|
  {
    if b == [] {
      assert a + b == a;
    } else {
      LastForSum(a, b[..|b| - 1], n);
      assert (a + b)[..|a + b| - 1] == a + b[..|b| - 1];
    }
  }

  lemma {:induction false} LastForNone(log: seq<Entry>, n: string)
    requires forall e | e in log :: !e.Capable?
    ensures LastFor(log, n) == None
    decreases |log|
  {
    if log != [] {
      LastForNone(log[..|log| - 1], n);
    }
  }

  lemma LastForEntries(k: ValueKey, v: Payload, name: string, n: string)
    ensures LastFor(EntriesOf(k, v, name), n) ==
            if k.CapabilitiesKey? && v.asCapabilities.Some? && name == n then Some(AllTrue(v.asCapabilities.value)) else None
  {
    if !k.CapabilitiesKey? {
      LastForNone(EntriesOf(k, v, name), n);
    } else if v.asCapabilities.Some? {
      assert EntriesOf(k, v, name)[..0] == [];
    }
  }

  /** The values of a group say at most one thing about capabilities, about the group itself. */
  lemma {:induction false} LastForValues(g: ConfigGroup, order: seq<ValueKey>, name: string, n: string)
    requires g.ConfigGroup? && forall k | k in order :: k in g.values
    ensures LastFor(ValuesLog(g.values, order, name), n) ==
            if CapabilitiesKey in order && name == n then OwnCapabilities(g) else None
    decreases |order|
  {
    if order != [] {
      var init, k := order[..|order| - 1], order[|order| - 1];
      LastForValues(g, init, name, n);
      LastForSum(ValuesLog(g.values, init, name), EntriesOf(k, g.values[k].value, name), n);
      LastForEntries(k, g.values[k].value, name, n);
      assert CapabilitiesKey in order <==> CapabilitiesKey in init || k == CapabilitiesKey;
    }
  }

  lemma LastForGroup(g: ConfigGroup, name: string, o: Order, n: string)
    requires g.ConfigGroup? && Visits(o, g)
    ensures LastFor(Log(g, name, o), n) ==
            if name == n && OwnCapabilities(g).Some? then OwnCapabilities(g) else LastFor(GroupsLog(g, o.groups, o.below), n)
  {
    var groups, values := GroupsLog(g, o.groups, o.below), ValuesLog(g.values, o.values, name);
    LastForValues(g, o.values, name, n);
    LastForSum(groups, values, n);
    LastForSum(groups + values, [GroupSeen(name)], n);
    LastForNone([GroupSeen(name)], n);
  }

  lemma {:induction false} LastForGroups(g: ConfigGroup, order: seq<string>, below: map<string, Order>, n: string)
    requires g.ConfigGroup? && VisitedBelow(g, order, below)
    ensures var last := LastFor(GroupsLog(g, order, below), n);
      && (last.Some? ==> exists k | k in order :: CanBeLast(g.groups[k], k, n, last.value))
      && (last.None? ==> forall k, c | k in order :: !CanBeLast(g.groups[k], k, n, c))
    decreases g, |order|
  {
    if order != [] {
      var init, k := order[..|order| - 1], order[|order| - 1];
      LastForGroups(g, init, below, n);
      OutcomeCanBeLast(g.groups[k], k, below[k], n);
      LastForSum(GroupsLog(g, init, below), Log(g.groups[k], k, below[k]), n);
      assert forall j :: j in order <==> j in init || j == k;
    }
  }

  /** In every order of visits, what is found last for a name is something that can be. */
  lemma {:induction false} OutcomeCanBeLast(g: ConfigGroup, name: string, o: Order, n: string)
    requires Visits(o, g)
    ensures var last := LastFor(Log(g, name, o), n);
      && (last.Some? ==> CanBeLast(g, name, n, last.value))
      && (last.None? ==> forall c :: !CanBeLast(g, name, n, c))
    decreases g, |o.groups| + 1
  {
    if g.ConfigGroup? {
      LastForGroup(g, name, o, n);
      LastForGroups(g, o.groups, o.below, n);
    }
  }

  lemma {:induction false} SomeVisit(g: ConfigGroup) returns (o: Order)
    ensures Visits(o, g)
    decreases g
  {
    o := Order([], map[], []);
    if g.ConfigGroup? {
      var groups := SomeListing(g.groups.Keys);
      var values := SomeListing(g.values.Keys);
      var below := VisitsBelow(g);
      o := Order(groups, below, values);
    }
  }

  lemma {:induction false} VisitsBelow(g: ConfigGroup) returns (below: map<string, Order>)
    requires g.ConfigGroup?
    ensures below.Keys == g.groups.Keys && forall k | k in g.groups :: Visits(below[k], g.groups[k])
    decreases g, 0
  {
    forall k | k in g.groups
      ensures exists o :: Visits(o, g.groups[k])
    {
      var o := SomeVisit(g.groups[k]);
    }
    below := map k | k in g.groups :: var o :| Visits(o, g.groups[k]); o;
  }

  /** And everything that can be last is, in some order. */
  lemma {:induction false} LastIsReached(g: ConfigGroup, name: string, n: string, c: CapabilitySet) returns (o: Order)
    requires CanBeLast(g, name, n, c)
    ensures Visits(o, g) && LastFor(Log(g, name, o), n) == Some(c)
    decreases g
  {
    o := SomeVisit(g);
    if !(name == n && OwnCapabilities(g).Some?) {
      var k :| k in g.groups && CanBeLast(g.groups[k], k, n, c);
      var order := ListingTo(g.groups.Keys, k);
      var last := LastIsReached(g.groups[k], k, n, c);
      o := Order(order, o.below[k := last], o.values);
      LastForSum(GroupsLog(g, order[..|order| - 1], o.below), Log(g.groups[k], k, last), n);
    }
    LastForGroup(g, name, o, n);
  }

  ghost function Outcome(g: ConfigGroup, o: Order): map<string, CapabilitySet>
    requires Visits(o, g)
  {
    Replay(Log(g, "", o)).capabilities
  }

  /** At most one set can be last for each name. */
  ghost predicate OneLast(g: ConfigGroup) {
    forall n, c, d | CanBeLast(g, "", n, c) && CanBeLast(g, "", n, d) :: c == d
  }

  /** The order of the visits does not matter for the capabilities iff at most one set can be last for
      each name. */
  lemma CapabilitiesDeterminedIff(g: ConfigGroup)
    ensures (forall o, o' | Visits(o, g) && Visits(o', g) :: Outcome(g, o) == Outcome(g, o')) <==> OneLast(g)
  {
    if OneLast(g) {
      forall o, o' | Visits(o, g) && Visits(o', g)
        ensures Outcome(g, o) == Outcome(g, o')
      {
        SameCapabilities(g, o, o');
      }
    } else {
      var n, c, d :| CanBeLast(g, "", n, c) && CanBeLast(g, "", n, d) && c != d;
      var o, o' := TwoOutcomes(g, n, c, d);
    }
  }

  lemma TwoOutcomes(g: ConfigGroup, n: string, c: CapabilitySet, d: CapabilitySet) returns (o: Order, o': Order)
    requires CanBeLast(g, "", n, c) && CanBeLast(g, "", n, d) && c != d
    ensures Visits(o, g) && Visits(o', g) && Outcome(g, o) != Outcome(g, o')
  {
    o := LastIsReached(g, "", n, c);
    o' := LastIsReached(g, "", n, d);
    ReplayKeepsLast(Log(g, "", o), n);
    ReplayKeepsLast(Log(g, "", o'), n);
  }

  lemma SameCapabilities(g: ConfigGroup, o: Order, o': Order)
    requires Visits(o, g) && Visits(o', g)
    requires OneLast(g)
    ensures Outcome(g, o) == Outcome(g, o')
  {
    var caps, caps' := Outcome(g, o), Outcome(g, o');
    forall n
      ensures (n in caps <==> n in caps') && (n in caps && n in caps' ==> caps[n] == caps'[n])
    {
      ReplayKeepsLast(Log(g, "", o), n);
      ReplayKeepsLast(Log(g, "", o'), n);
      OutcomeCanBeLast(g, "", o, n);
      OutcomeCanBeLast(g, "", o', n);
    }
    assert caps.Keys == caps'.Keys;
  }

  // ----- two conditions on what is found -----

  lemma SumHas<K>(m: map<K, Found>, keys: set<K>, k: K, e: Entry)
    requires keys <= m.Keys && k in keys
    ensures Sum(m, keys)[e] >= m[k][e]
  {
    SumStep(m, keys, k);
  }

  lemma SumHasTwo<K>(m: map<K, Found>, keys: set<K>, j: K, k: K, e: Entry)
    requires keys <= m.Keys && j in keys && k in keys && j != k
    ensures Sum(m, keys)[e] >= m[j][e] + m[k][e]
  {
    SumStep(m, keys, j);
    SumHas(m, keys - {j}, k, e);
  }

  lemma BelowIsFound(g: ConfigGroup, name: string, e: Entry)
    requires g.ConfigGroup?
    ensures FoundIn(g, name)[e] >= Sum(FoundBelow(g.groups), g.groups.Keys)[e]
  {
    assert FoundBelow(g.groups).Keys == g.groups.Keys;
  }

  lemma FoundBelowCounts(g: ConfigGroup, name: string, k: string, e: Entry)
    requires g.ConfigGroup? && k in g.groups
    ensures FoundIn(g, name)[e] >= FoundIn(g.groups[k], k)[e]
  {
    BelowIsFound(g, name, e);
    SumHas(FoundBelow(g.groups), g.groups.Keys, k, e);
  }

  lemma FoundBelowTwice(g: ConfigGroup, name: string, j: string, k: string, e: Entry)
    requires g.ConfigGroup? && j in g.groups && k in g.groups && j != k
    ensures FoundIn(g, name)[e] >= FoundIn(g.groups[j], j)[e] + FoundIn(g.groups[k], k)[e]
  {
    BelowIsFound(g, name, e);
    SumHasTwo(FoundBelow(g.groups), g.groups.Keys, j, k, e);
  }

  lemma OwnIsFound(g: ConfigGroup, name: string)
    requires g.ConfigGroup? && OwnCapabilities(g).Some?
    ensures Capable(name, OwnCapabilities(g).value) in FoundIn(g, name) && GroupSeen(name) in FoundIn(g, name)
  {
    var here := FoundInValues(g.values, name);
    SumHas(here, here.Keys, CapabilitiesKey, Capable(name, OwnCapabilities(g).value));
  }

  /** What can be last is found, in a group of that name. */
  lemma {:induction false} LastIsFound(g: ConfigGroup, name: string, n: string, c: CapabilitySet)
    requires CanBeLast(g, name, n, c)
    ensures Capable(n, c) in FoundIn(g, name) && GroupSeen(n) in FoundIn(g, name)
    decreases g
  {
    if name == n && OwnCapabilities(g).Some? {
      OwnIsFound(g, name);
    } else {
      var k :| k in g.groups && CanBeLast(g.groups[k], k, n, c);
      LastIsFound(g.groups[k], k, n, c);
      FoundBelowCounts(g, name, k, Capable(n, c));
      FoundBelowCounts(g, name, k, GroupSeen(n));
    }
  }

  /** Two different sets come from two groups of one name. */
  lemma {:induction false} TwoGroups(g: ConfigGroup, name: string, n: string, c: CapabilitySet, d: CapabilitySet)
    requires CanBeLast(g, name, n, c) && CanBeLast(g, name, n, d) && c != d
    ensures FoundIn(g, name)[GroupSeen(n)] >= 2
    decreases g
  {
    var j :| j in g.groups && CanBeLast(g.groups[j], j, n, c);
    var k :| k in g.groups && CanBeLast(g.groups[k], k, n, d);
    if j == k {
      TwoGroups(g.groups[k], k, n, c, d);
      FoundBelowCounts(g, name, k, GroupSeen(n));
    } else {
      LastIsFound(g.groups[j], j, n, c);
      LastIsFound(g.groups[k], k, n, d);
      FoundBelowTwice(g, name, j, k, GroupSeen(n));
    }
  }

  /** So the order does not matter when no name is found with two different sets, and in particular
      when all groups have distinct names. */
  lemma OneSetPerName(g: ConfigGroup, o: Order, o': Order)
    requires Visits(o, g) && Visits(o', g)
    requires || (forall n, c, d | Capable(n, c) in FoundIn(g, "") && Capable(n, d) in FoundIn(g, "") :: c == d)
             || (forall n :: FoundIn(g, "")[GroupSeen(n)] <= 1)
    ensures Outcome(g, o) == Outcome(g, o')
  {
    forall n, c, d | CanBeLast(g, "", n, c) && CanBeLast(g, "", n, d)
      ensures c == d
    {
      LastIsFound(g, "", n, c);
      LastIsFound(g, "", n, d);
      if c != d {
        TwoGroups(g, "", n, c, d);
      }
    }
    SameCapabilities(g, o, o');
  }

  /** One organization under two groups, with different capabilities: each can prevail. */
  lemma OrdersCanDisagree() returns (g: ConfigGroup, o: Order, o': Order)
    ensures Visits(o, g) && Visits(o', g)
    ensures Outcome(g, o) != Outcome(g, o')
  {
    var v1, v2 := WithCapability("V1"), WithCapability("V2");
    var application, orderer := Holding(map["Org" := v1]), Holding(map["Org" := v2]);
    g := Holding(map["Application" := application, "Orderer" := orderer]);
    var c, d := AllTrue({"V1"}), AllTrue({"V2"});
    assert "V1" in c && "V1" !in d;
    assert CanBeLast(v1, "Org", "Org", c) && CanBeLast(v2, "Org", "Org", d);
    assert CanBeLast(application, "Application", "Org", c) by { assert application.groups["Org"] == v1; }
    assert CanBeLast(orderer, "Orderer", "Org", d) by { assert orderer.groups["Org"] == v2; }
    assert g.groups["Application"] == application && g.groups["Orderer"] == orderer;
    o, o' := TwoOutcomes(g, "Org", c, d);
  }

  function Holding(groups: map<string, ConfigGroup>): ConfigGroup {
    EMPTY_GROUP.(groups := groups)
  }

  function WithCapability(name: string): ConfigGroup {
    EMPTY_GROUP.(values := map[CapabilitiesKey := ConfigValue(0, Payload("", None, None, None, Some({name})), "")])
  }
}
