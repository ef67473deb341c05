// The service registry as a value: what replaying a log of PUT and DELETE events
// leaves of every service, and where a service routes an id.
module RegistrySpec {
  import opened Comparators
  import opened Int32
  import opened Wrappers
  import opened RingSpec

  // ---------- One service ----------

  datatype ServiceState = ServiceState(
    hashed: bool,
    status: map<GoString, GoString>,
    ring: Ring,
    count: int)

  const DEFAULT_ROUTE := 0
  const HASH_ROUTE := 1

  ghost function NewService(hashed: bool): ServiceState {
    ServiceState(hashed, map[], EMPTY, 0)
  }

  // `CreateProxy`: an existing proxy is kept, the counter and the ring move anyway.
  ghost function Created(h: Hash, rep: nat, s: ServiceState, key: GoString, value: GoString): ServiceState {
    ServiceState(s.hashed, if key in s.status then s.status else s.status[key := value],
                 if s.hashed then Added(h, rep, s.ring, key) else s.ring,
                 Inc32(s.count))
  }

  ghost function Deleted(h: Hash, rep: nat, s: ServiceState, key: GoString): ServiceState {
    ServiceState(s.hashed, s.status - {key},
                 if s.hashed then Removed(h, rep, s.ring, key) else s.ring,
                 Dec32(s.count))
  }

  ghost function Stored(h: Hash, rep: nat, s: ServiceState, key: GoString, value: GoString): ServiceState {
    if key in s.status then s.(status := s.status[key := value]) else Created(h, rep, s, key, value)
  }

  datatype RouteError = NoProxyErr | RingErr | NilProxyErr

  function RouteName(id: nat): GoString {
    [114, 111, 117, 116, 101, 95] + Itoa(id)   // "route_" and the id
  }

  // The key an id is routed to, in the order `RouteById` looks.
  ghost function RouteById(h: Hash, s: ServiceState, id: nat): Result<GoString, RouteError> {
    if s.count == 0 then Err(NoProxyErr)
    else if s.hashed && Route(s.ring, h(Itoa(id))).None? then Err(RingErr)
    else
      var index := if s.hashed then Route(s.ring, h(Itoa(id))).value else RouteName(id);
      if index in s.status then Ok(index) else Err(NilProxyErr)
  }

  // ---------- The registry ----------

  // `dir` is the directory part of a key; `names` the configured route types.
  datatype Config = Config(
    hash: Hash,
    rep: UInt32,
    dir: GoString -> GoString,
    provided: bool,
    names: map<GoString, int>)
  {
    function RouteType(name: GoString): int {
      if name in names then names[name] else DEFAULT_ROUTE
    }

    predicate Accepts(name: GoString) {
      !(provided && RouteType(name) <= 0)
    }
  }

  datatype Event = PutEvent(key: GoString, value: GoString) | DeleteEvent(key: GoString)

  type Registry = map<GoString, ServiceState>

  ghost function ServiceFor(cfg: Config, reg: Registry, name: GoString): ServiceState {
    if name in reg then reg[name] else NewService(cfg.RouteType(name) == HASH_ROUTE)
  }

  ghost function Handle(cfg: Config, reg: Registry, e: Event): Registry {
    var name := cfg.dir(e.key);
    if !cfg.Accepts(name) then reg
    else
      match e
      case PutEvent(key, value) => reg[name := Stored(cfg.hash, cfg.rep, ServiceFor(cfg, reg, name), key, value)]
      case DeleteEvent(key) => if name in reg then reg[name := Deleted(cfg.hash, cfg.rep, reg[name], key)] else reg
  }

  ghost function Replay(cfg: Config, log: seq<Event>): Registry {
    if log == [] then map[] else Handle(cfg, Replay(cfg, log[..|log| - 1]), log[|log| - 1])
  }

  datatype LookupError = NoType | NoId | UnknownService | Unroutable(e: RouteError)

  ghost function LookupProxy(cfg: Config, reg: Registry, sType: GoString, id: nat): Result<GoString, LookupError> {
    if sType == [] then Err(NoType)
    else if id == 0 then Err(NoId)
    else if sType !in reg then Err(UnknownService)
    else
      match RouteById(cfg.hash, reg[sType], id)
      case Ok(key) => Ok(key)
      case Err(e) => Err(Unroutable(e))
  }

  // ---------- What a replay leaves ----------

  ghost function LastEvent(log: seq<Event>, key: GoString): Option<Event> {
    if log == [] then None
    else if log[|log| - 1].key == key then Some(log[|log| - 1])
    else LastEvent(log[..|log| - 1], key)
  }

  // The value of `key` if its last event was a PUT.
  ghost function LastPut(log: seq<Event>, key: GoString): Option<GoString> {
    match LastEvent(log, key)
    case Some(PutEvent(_, value)) => Some(value)
    case _ => None
  }

  ghost function Lookup(reg: Registry, name: GoString, key: GoString): Option<GoString> {
    if name in reg && key in reg[name].status then Some(reg[name].status[key]) else None
  }

  lemma {:induction false} AcceptedLastPut(cfg: Config, log: seq<Event>, key: GoString)
    ensures Lookup(Replay(cfg, log), cfg.dir(key), key)
            == if cfg.Accepts(cfg.dir(key)) then LastPut(log, key) else None
  {
    if log == [] {
    } else {
      AcceptedLastPut(cfg, log[..|log| - 1], key);
    }
  }

  lemma {:induction false} LastPutIs(log: seq<Event>, key: GoString, value: GoString)
    ensures LastPut(log, key) == Some(value)
            <==> exists i :: 0 <= i < |log| && log[i] == PutEvent(key, value)
                             && forall j :: i < j < |log| ==> log[j].key != key
  {
    if log == [] {
    } else {
      var n := |log| - 1;
      LastPutIs(log[..n], key, value);
      if log[n].key == key {
        assert LastPut(log, key) == Some(value) ==> log[n] == PutEvent(key, value);
      } else {
        if i :| 0 <= i < n && log[..n][i] == PutEvent(key, value) && forall j :: i < j < n ==> log[..n][j].key != key {
          assert log[i] == PutEvent(key, value);
          assert forall j :: i < j < n ==> log[j] == log[..n][j];
        }
        if i :| 0 <= i <= n && log[i] == PutEvent(key, value) && forall j :: i < j <= n ==> log[j].key != key {
          assert i < n && log[..n][i] == PutEvent(key, value);
          assert forall j :: i < j < n ==> log[..n][j] == log[j];
        }
      }
    }
  }

  // Every service that may exist holds exactly the keys whose last event was a PUT,
  // with that event's value.
  lemma ReplayKeepsLastPut(cfg: Config, log: seq<Event>, key: GoString, value: GoString)
    ensures var reg, name := Replay(cfg, log), cfg.dir(key);
            (name in reg && key in reg[name].status && reg[name].status[key] == value)
            <==> && (!cfg.provided || (name in cfg.names && cfg.names[name] > 0))
                 && exists i :: 0 <= i < |log| && log[i] == PutEvent(key, value)
                                && forall j :: i < j < |log| ==> log[j].key != key
  {
    AcceptedLastPut(cfg, log, key);
    LastPutIs(log, key, value);
    AcceptsIff(cfg, cfg.dir(key));
  }

  ghost predicate Mentions(cfg: Config, log: seq<Event>, name: GoString) {
    exists i :: 0 <= i < |log| && log[i].PutEvent? && cfg.dir(log[i].key) == name
  }

  // Without configured names every name is accepted; with them those that are
  // configured with a positive route type.
  lemma AcceptsIff(cfg: Config, name: GoString)
    ensures cfg.Accepts(name) <==> !cfg.provided || (name in cfg.names && cfg.names[name] > 0)
  {
  }

  lemma {:induction false} AcceptedServices(cfg: Config, log: seq<Event>, name: GoString)
    ensures name in Replay(cfg, log) <==> cfg.Accepts(name) && Mentions(cfg, log, name)
  {
    if log == [] {
    } else {
      var n := |log| - 1;
      AcceptedServices(cfg, log[..n], name);
      if Mentions(cfg, log[..n], name) {
        var i :| 0 <= i < n && log[..n][i].PutEvent? && cfg.dir(log[..n][i].key) == name;
        assert log[i].PutEvent? && cfg.dir(log[i].key) == name;
      }
      if Mentions(cfg, log, name) && !(log[n].PutEvent? && cfg.dir(log[n].key) == name) {
        var i :| 0 <= i < |log| && log[i].PutEvent? && cfg.dir(log[i].key) == name;
        assert log[..n][i].PutEvent?;
      }
    }
  }

  // A service exists exactly if a PUT below its name has been seen and the name may
  // have a service; it is hash-routed exactly if its name is configured with type 1.
  lemma ReplayServices(cfg: Config, log: seq<Event>, name: GoString)
    ensures name in Replay(cfg, log)
            <==> && (exists i :: 0 <= i < |log| && log[i].PutEvent? && cfg.dir(log[i].key) == name)
                 && (!cfg.provided || (name in cfg.names && cfg.names[name] > 0))
    ensures name in Replay(cfg, log) ==>
              (Replay(cfg, log)[name].hashed <==> name in cfg.names && cfg.names[name] == 1)
  {
    AcceptedServices(cfg, log, name);
    AcceptsIff(cfg, name);
    if name in Replay(cfg, log) {
      ReplayIsOk(cfg, log, name);
    }
  }

  // What holds of every service at all times: keys of its own directory only, and
  // the ring's members are its keys.
  ghost predicate ServiceOk(cfg: Config, name: GoString, s: ServiceState) {
    && (forall key :: key in s.status ==> cfg.dir(key) == name)
    && s.hashed == (cfg.RouteType(name) == HASH_ROUTE)
    && Good(cfg.hash, cfg.rep, s.ring)
    && (s.hashed ==> s.ring.members == s.status.Keys)
    && (!s.hashed ==> s.ring == EMPTY)
  }

  lemma {:induction false} ReplayIsOk(cfg: Config, log: seq<Event>, name: GoString)
    requires name in Replay(cfg, log)
    ensures ServiceOk(cfg, name, Replay(cfg, log)[name])
  {
    if log == [] {
    } else {
      var before, e := Replay(cfg, log[..|log| - 1]), log[|log| - 1];
      if name in before {
        ReplayIsOk(cfg, log[..|log| - 1], name);
      }
      var s := ServiceFor(cfg, before, name);
      ApplyKeepsGood(cfg.hash, cfg.rep, s.ring, if e.PutEvent? then Add(e.key) else Remove(e.key));
    }
  }

  // DELETEs that reached an existing service but found no proxy there.
  ghost function Misses(cfg: Config, log: seq<Event>, name: GoString): nat {
    if log == [] then 0
    else
      var before, e := log[..|log| - 1], log[|log| - 1];
      var reg := Replay(cfg, before);
      Misses(cfg, before, name)
      + if e.DeleteEvent? && cfg.dir(e.key) == name && name in reg && e.key !in reg[name].status then 1 else 0
  }

  lemma StatusSize(status: map<GoString, GoString>, key: GoString, value: GoString)
    ensures |status[key := value]| == |status| + (if key in status then 0 else 1)
    ensures |status - {key}| == |status| - (if key in status then 1 else 0)
  {
    assert status[key := value].Keys == status.Keys + {key};
    assert (status - {key}).Keys == status.Keys - {key};
  }

  ghost predicate Counts(s: ServiceState, misses: nat) {
    Is32(s.count, |s.status| - misses)
  }

  lemma PutCounts(h: Hash, rep: nat, s: ServiceState, key: GoString, value: GoString, misses: nat)
    requires Counts(s, misses)
    ensures Counts(Stored(h, rep, s, key, value), misses)
  {
    StatusSize(s.status, key, value);
    Is32Steps(s.count, |s.status| - misses);
  }

  lemma DeleteCounts(h: Hash, rep: nat, s: ServiceState, key: GoString, misses: nat)
    requires Counts(s, misses)
    ensures Counts(Deleted(h, rep, s, key), misses + if key in s.status then 0 else 1)
  {
    StatusSize(s.status, key, []);
    Is32Steps(s.count, |s.status| - misses);
  }

  lemma RejectedIsAbsent(cfg: Config, log: seq<Event>, name: GoString)
    ensures !cfg.Accepts(name) ==> name !in Replay(cfg, log)
  {
    AcceptedServices(cfg, log, name);
  }

  // What the last event of a log does to one service.
  lemma ServiceStep(cfg: Config, log: seq<Event>, name: GoString)
    requires log != []
    ensures var reg, e := Replay(cfg, log[..|log| - 1]), log[|log| - 1];
            var s := ServiceFor(cfg, reg, name);
            ServiceFor(cfg, Replay(cfg, log), name)
            == if cfg.dir(e.key) != name || !cfg.Accepts(name) then s
               else if e.PutEvent? then Stored(cfg.hash, cfg.rep, s, e.key, e.value)
               else if name in reg then Deleted(cfg.hash, cfg.rep, s, e.key)
               else s
  {
  }

  lemma NewServiceCounts(hashed: bool)
    ensures Counts(NewService(hashed), 0)
  {
    assert 0 == 0 + Laps(0);
  }

  // In every log the counter plus the missed DELETEs is the number of proxies.
  lemma {:induction false} ServiceCount(cfg: Config, log: seq<Event>, name: GoString)
    ensures Counts(ServiceFor(cfg, Replay(cfg, log), name), Misses(cfg, log, name))
    ensures name !in Replay(cfg, log) ==> Misses(cfg, log, name) == 0
  {
    if log == [] {
      NewServiceCounts(cfg.RouteType(name) == HASH_ROUTE);
    } else {
      var before, e := log[..|log| - 1], log[|log| - 1];
      var s, misses := ServiceFor(cfg, Replay(cfg, before), name), Misses(cfg, before, name);
      ServiceCount(cfg, before, name);
      ServiceStep(cfg, log, name);
      RejectedIsAbsent(cfg, before, name);
      if e.PutEvent? {
        PutCounts(cfg.hash, cfg.rep, s, e.key, e.value, misses);
      } else {
        DeleteCounts(cfg.hash, cfg.rep, s, e.key, misses);
      }
    }
  }

  lemma ReplayCount(cfg: Config, log: seq<Event>, name: GoString)
    ensures name in Replay(cfg, log) ==> Counts(Replay(cfg, log)[name], Misses(cfg, log, name))
    ensures name !in Replay(cfg, log) ==> Misses(cfg, log, name) == 0
    ensures name in Replay(cfg, log) ==>
              var s := Replay(cfg, log)[name];
              var balance := |s.status| - Misses(cfg, log, name);
              -0x8000_0000 <= balance < 0x8000_0000 ==> s.count == balance
  {
    ServiceCount(cfg, log, name);
    if name in Replay(cfg, log) {
      var s := Replay(cfg, log)[name];
      Is32Steps(s.count, |s.status| - Misses(cfg, log, name));
    }
  }

  // ---------- Where an id is routed ----------

  // The answers of a hash-routed service: the first read that fails decides, and a
  // key is answered exactly if it owns the successor of the hash of the id's numeral.
  lemma HashRouteIff(h: Hash, s: ServiceState, id: nat, numeral: GoString, key: GoString)
    requires s.hashed && IsNumeral(numeral, id)
    ensures RouteById(h, s, id) == Err(NoProxyErr) <==> s.count == 0
    ensures RouteById(h, s, id) == Err(RingErr) <==> s.count != 0 && s.ring.owner == map[]
    ensures RouteById(h, s, id) == Ok(key)
            <==> && s.count != 0 && key in s.status
                 && exists i :: IsSuccessor(s.ring.owner.Keys, h(numeral), i) && s.ring.owner[i] == key
    ensures RouteById(h, s, id) == Err(NilProxyErr)
            <==> && s.count != 0
                 && exists i :: IsSuccessor(s.ring.owner.Keys, h(numeral), i) && s.ring.owner[i] !in s.status
  {
    NumeralIsItoa(numeral, id);
    assert s.ring.owner.Keys == {} ==> s.ring.owner == map[];
    if s.ring.owner != map[] {
      var i := Successor(s.ring.owner.Keys, h(numeral));
      assert IsSuccessor(s.ring.owner.Keys, h(numeral), i);
    }
  }

  // The answers of any other service, which looks up "route_" and the numeral.
  lemma PlainRouteIff(h: Hash, s: ServiceState, id: nat, numeral: GoString, key: GoString)
    requires !s.hashed && IsNumeral(numeral, id)
    ensures RouteById(h, s, id) == Err(NoProxyErr) <==> s.count == 0
    ensures RouteById(h, s, id) == Ok(key)
            <==> s.count != 0 && key in s.status && key == [114, 111, 117, 116, 101, 95] + numeral
    ensures RouteById(h, s, id) == Err(NilProxyErr)
            <==> s.count != 0 && [114, 111, 117, 116, 101, 95] + numeral !in s.status
    ensures RouteById(h, s, id) != Err(RingErr)
  {
    NumeralIsItoa(numeral, id);
  }

  // A lookup checks its arguments, then the service, and then routes.
  lemma LookupProxyIff(cfg: Config, reg: Registry, sType: GoString, id: nat)
    ensures LookupProxy(cfg, reg, sType, id) == Err(NoType) <==> sType == []
    ensures LookupProxy(cfg, reg, sType, id) == Err(NoId) <==> sType != [] && id == 0
    ensures LookupProxy(cfg, reg, sType, id) == Err(UnknownService) <==> sType != [] && id != 0 && sType !in reg
    ensures sType != [] && id != 0 && sType in reg ==>
              var s := reg[sType];
              && (forall key :: LookupProxy(cfg, reg, sType, id) == Ok(key) <==> RouteById(cfg.hash, s, id) == Ok(key))
              && (forall e :: LookupProxy(cfg, reg, sType, id) == Err(Unroutable(e))
                              <==> RouteById(cfg.hash, s, id) == Err(e))
  {
  }

  // ---------- Routing after a replay ----------

  // In a replayed registry the owner is always a proxy of the service, so that a
  // hash-routed service with a counter and ring ids answers exactly with the owner.
  lemma ReplayRoutesToOwner(cfg: Config, log: seq<Event>, name: GoString, id: nat, numeral: GoString, key: GoString)
    requires name in Replay(cfg, log) && Replay(cfg, log)[name].hashed && IsNumeral(numeral, id)
    requires Replay(cfg, log)[name].count != 0
    ensures var s := Replay(cfg, log)[name];
            RouteById(cfg.hash, s, id) == Ok(key)
            <==> exists i :: IsSuccessor(s.ring.owner.Keys, cfg.hash(numeral), i) && s.ring.owner[i] == key
  {
    var s := Replay(cfg, log)[name];
    HashRouteIff(cfg.hash, s, id, numeral, key);
    ReplayIsOk(cfg, log, name);
  }

  // A hash-routed lookup in a replayed registry never ends at a missing proxy: it
  // succeeds unless the counter is zero or the ring has no ids.
  lemma ReplayRoutes(cfg: Config, log: seq<Event>, name: GoString, id: nat)
    requires name in Replay(cfg, log) && Replay(cfg, log)[name].hashed
    ensures var s := Replay(cfg, log)[name];
            && (RouteById(cfg.hash, s, id).Ok? <==> s.count != 0 && s.ring.owner != map[])
            && RouteById(cfg.hash, s, id) != Err(NilProxyErr)
  {
    ReplayIsOk(cfg, log, name);
    RoutesToMembers(cfg.hash, cfg.rep, Replay(cfg, log)[name].ring, cfg.hash(Itoa(id)));
  }

  // The ring operations a log amounts to for one service.
  ghost function RingOps(cfg: Config, log: seq<Event>, name: GoString): seq<Op> {
    if log == [] then []
    else
      var before, e := log[..|log| - 1], log[|log| - 1];
      var ops := RingOps(cfg, before, name);
      if cfg.dir(e.key) != name || !cfg.Accepts(name) then ops
      else if e.PutEvent? then
        if Lookup(Replay(cfg, before), name, e.key).None? then ops + [Add(e.key)] else ops
      else if name in Replay(cfg, before) then ops + [Remove(e.key)]
      else ops
  }

  lemma RunSnoc(h: Hash, rep: nat, ops: seq<Op>, op: Op)
    ensures Run(h, rep, ops + [op]) == Apply(h, rep, Run(h, rep, ops), op)
  {
    assert (ops + [op])[..|ops|] == ops;
  }

  lemma {:induction false} ServiceRunsRing(cfg: Config, log: seq<Event>, name: GoString)
    ensures var s := ServiceFor(cfg, Replay(cfg, log), name);
            s.hashed ==> s.ring == Run(cfg.hash, cfg.rep, RingOps(cfg, log, name))
    ensures name !in Replay(cfg, log) ==> RingOps(cfg, log, name) == []
  {
    if log == [] {
    } else {
      var before, e := log[..|log| - 1], log[|log| - 1];
      ServiceRunsRing(cfg, before, name);
      ServiceStep(cfg, log, name);
      RunSnoc(cfg.hash, cfg.rep, RingOps(cfg, before, name), if e.PutEvent? then Add(e.key) else Remove(e.key));
    }
  }

  lemma ReplayRunsRing(cfg: Config, log: seq<Event>, name: GoString)
    ensures name in Replay(cfg, log) && Replay(cfg, log)[name].hashed ==>
              Replay(cfg, log)[name].ring == Run(cfg.hash, cfg.rep, RingOps(cfg, log, name))
    ensures name !in Replay(cfg, log) ==> RingOps(cfg, log, name) == []
  {
    ServiceRunsRing(cfg, log, name);
  }

  // A log's ring operations are about its keys.
  lemma {:induction false} RingOpsOnKeys(cfg: Config, log: seq<Event>, name: GoString, keys: set<GoString>)
    requires KeysIn(keys, log)
    ensures forall i :: 0 <= i < |RingOps(cfg, log, name)| ==> RingOps(cfg, log, name)[i].elt in keys
  {
    if log == [] {
    } else {
      var n := |log| - 1;
      assert log[n].key in keys && forall j :: 0 <= j < n ==> log[..n][j] == log[j];
      RingOpsOnKeys(cfg, log[..n], name, keys);
    }
  }

  // Without shared virtual nodes every member owns an id, so that a service routes
  // exactly if its counter is not zero and it has a proxy.
  lemma ReplayRoutesToProxies(cfg: Config, log: seq<Event>, name: GoString, keys: set<GoString>, id: nat)
    requires NoClash(cfg.hash, cfg.rep, keys) && KeysIn(keys, log) && cfg.rep > 0
    requires name in Replay(cfg, log) && Replay(cfg, log)[name].hashed
    ensures var s := Replay(cfg, log)[name];
            RouteById(cfg.hash, s, id).Ok? <==> s.count != 0 && s.status != map[]
  {
    var s, ops := Replay(cfg, log)[name], RingOps(cfg, log, name);
    ReplayRoutes(cfg, log, name, id);
    ReplayIsOk(cfg, log, name);
    ReplayRunsRing(cfg, log, name);
    RingOpsOnKeys(cfg, log, name, keys);
    RunIsCanonical(cfg.hash, cfg.rep, keys, ops);
    if s.status != map[] {
      var key :| key in s.status;
      assert key in s.ring.members;
      assert NodeId(cfg.hash, key, 0) in NodeIds(cfg.hash, cfg.rep, key);
      assert NodeId(cfg.hash, key, 0) in s.ring.owner;
    } else {
      assert s.ring.members == {};
    }
  }

  ghost predicate KeysIn(keys: set<GoString>, log: seq<Event>) {
    forall j :: 0 <= j < |log| ==> log[j].key in keys
  }

  // Two processes that saw different logs but hold the same proxies of a service
  // route every id to the same proxy, if no two keys share a virtual node.
  lemma ProcessesAgree(cfg: Config, log: seq<Event>, log': seq<Event>, name: GoString, keys: set<GoString>, id: nat)
    requires NoClash(cfg.hash, cfg.rep, keys) && KeysIn(keys, log) && KeysIn(keys, log')
    requires name in Replay(cfg, log) && name in Replay(cfg, log')
    requires Replay(cfg, log)[name].status.Keys == Replay(cfg, log')[name].status.Keys
    requires Replay(cfg, log)[name].count != 0 && Replay(cfg, log')[name].count != 0
    ensures RouteById(cfg.hash, Replay(cfg, log)[name], id) == RouteById(cfg.hash, Replay(cfg, log')[name], id)
  {
    ReplayIsOk(cfg, log, name);
    ReplayIsOk(cfg, log', name);
    if cfg.RouteType(name) == HASH_ROUTE {
      ReplayRunsRing(cfg, log, name);
      ReplayRunsRing(cfg, log', name);
      RingOpsOnKeys(cfg, log, name, keys);
      RingOpsOnKeys(cfg, log', name, keys);
      Agreement(cfg.hash, cfg.rep, keys, RingOps(cfg, log, name), RingOps(cfg, log', name), cfg.hash(Itoa(id)));
    }
  }

  // Without regard to the counters they agree exactly if both counters are zero or
  // neither is.
  lemma ProcessesAgreeIff(cfg: Config, log: seq<Event>, log': seq<Event>, name: GoString, keys: set<GoString>, id: nat)
    requires NoClash(cfg.hash, cfg.rep, keys) && KeysIn(keys, log) && KeysIn(keys, log')
    requires name in Replay(cfg, log) && name in Replay(cfg, log')
    requires Replay(cfg, log)[name].status.Keys == Replay(cfg, log')[name].status.Keys
    ensures var s, s' := Replay(cfg, log)[name], Replay(cfg, log')[name];
            RouteById(cfg.hash, s, id) == RouteById(cfg.hash, s', id) <==> (s.count == 0 <==> s'.count == 0)
  {
    if Replay(cfg, log)[name].count != 0 && Replay(cfg, log')[name].count != 0 {
      ProcessesAgree(cfg, log, log', name, keys, id);
    }
  }

  lemma ReplayOne(cfg: Config, key: GoString, value: GoString)
    requires cfg.Accepts(cfg.dir(key))
    ensures var name := cfg.dir(key);
            var reg := Replay(cfg, [PutEvent(key, value)]);
            && reg.Keys == {name} && reg[name].count == 1
            && reg[name] == Created(cfg.hash, cfg.rep, NewService(cfg.RouteType(name) == HASH_ROUTE), key, value)
  {
    var log := [PutEvent(key, value)];
    assert log[..0] == [] && Replay(cfg, log[..0]) == map[];
  }

  // The counters do differ: one process saw a DELETE that missed, both hold the same
  // proxies, and they route every id differently.
  lemma MissedDeleteSplitsProcesses(cfg: Config, name: GoString, a: GoString, b: GoString, value: GoString, id: nat)
    requires cfg.Accepts(name) && cfg.dir(a) == name && cfg.dir(b) == name && a != b
    ensures var reg, reg' := Replay(cfg, [PutEvent(a, value)]), Replay(cfg, [PutEvent(a, value), DeleteEvent(b)]);
            && name in reg && name in reg' && reg[name].status == reg'[name].status == map[a := value]
            && RouteById(cfg.hash, reg[name], id) != RouteById(cfg.hash, reg'[name], id)
  {
    MissedDeleteBlocksRouting(cfg, name, a, b, value, id);
    ReplayOne(cfg, a, value);
    var log := [PutEvent(a, value), DeleteEvent(b)];
    assert log[..1] == [PutEvent(a, value)];
    assert Replay(cfg, log) == Handle(cfg, Replay(cfg, log[..1]), DeleteEvent(b));
  }

  // A DELETE for a key that was never there makes the counter disagree, here down
  // to a service that has a proxy and refuses to route.
  lemma MissedDeleteBlocksRouting(cfg: Config, name: GoString, a: GoString, b: GoString, value: GoString, id: nat)
    requires cfg.Accepts(name) && cfg.dir(a) == name && cfg.dir(b) == name && a != b
    ensures var reg := Replay(cfg, [PutEvent(a, value), DeleteEvent(b)]);
            name in reg && a in reg[name].status && RouteById(cfg.hash, reg[name], id) == Err(NoProxyErr)
  {
    var log := [PutEvent(a, value), DeleteEvent(b)];
    ReplayOne(cfg, a, value);
    assert log[..1] == [PutEvent(a, value)];
    assert Replay(cfg, log) == Handle(cfg, Replay(cfg, log[..1]), DeleteEvent(b));
  }
}
