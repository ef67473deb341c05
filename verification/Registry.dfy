// The registry objects: a service with its proxies, ring and counter, and the
// dispatcher that feeds it the events of the log.
module Registries {
  import opened Comparators
  import opened Int32
  import opened Wrappers
  import RedBlackTrees
  import opened RingSpec
  import opened HashRings
  import opened RegistrySpec

  class Proxy {
    const key: GoString
    var serStatus: GoString

    constructor (key: GoString, status: GoString)
      ensures this.key == key && serStatus == status
    {
      this.key, serStatus := key, status;
    }
  }

  class Service {
    var proxyMap: map<GoString, Proxy>
    var hashring: HashRing?
    var Count: int
    const routeType: int
    const hash: Hash
    const rep: UInt32
    ghost var RingRepr: set<object>
    ghost var Repr: set<object>

    ghost predicate RingValid()
      reads this, RingRepr
    {
      && (hashring != null <==> routeType == HASH_ROUTE)
      && (hashring != null ==>
            && hashring in RingRepr && hashring.m_SortedKeys in RingRepr
            && RedBlackTrees.Ids(hashring.m_SortedKeys.tree) <= RingRepr
            && hashring.Valid() && hashring.hashKey == hash && hashring.rRep == rep)
    }

    ghost predicate Valid()
      reads this, Repr
    {
      && this in Repr && RingRepr <= Repr && this !in RingRepr
      && (forall k :: k in proxyMap ==>
            proxyMap[k] in Repr && proxyMap[k] !in RingRepr && proxyMap[k].key == k)
      && RingValid()
    }

    ghost function Status(): map<GoString, GoString>
      requires Valid()
      reads this, Repr
    {
      map k | k in proxyMap :: proxyMap[k].serStatus
    }

    ghost function State(): ServiceState
      requires Valid()
      reads this, Repr
    {
      ServiceState(hashring != null, Status(), if hashring != null then hashring.State() else EMPTY, Count)
    }

    constructor (routeType: int, hash: Hash, rep: UInt32, len: UInt32)
      ensures Valid() && fresh(Repr)
      ensures this.routeType == routeType && this.hash == hash && this.rep == rep
      ensures State() == NewService(routeType == HASH_ROUTE)
    {
      this.routeType, this.hash, this.rep := routeType, hash, rep;
      proxyMap, Count, hashring := map[], 0, null;
      RingRepr := {};
      new;
      if routeType == HASH_ROUTE {
        MakeRing(len);
      }
      Repr := {this} + RingRepr;
    }

    method MakeRing(len: UInt32)
      requires routeType == HASH_ROUTE
      modifies `hashring, `RingRepr
      ensures RingValid() && hashring.State() == EMPTY && fresh(RingRepr)
    {
      hashring := new HashRing(hash, rep, len);
      RingRepr := {hashring, hashring.m_SortedKeys} + RedBlackTrees.Ids(hashring.m_SortedKeys.tree);
    }

    method GetProxy(key: GoString) returns (p: Proxy?)
      requires Valid()
      ensures p == if key in proxyMap then proxyMap[key] else null
    {
      if key in proxyMap {
        return proxyMap[key];
      }
      return null;
    }

    // The counter moves whether or not the key was free.
    method AddProxy(cl: Proxy) returns (added: bool)
      requires Valid() && cl !in Repr
      modifies this
      ensures Valid() && RingRepr == old(RingRepr) && added == (cl.key !in old(proxyMap))
      ensures proxyMap == if added then old(proxyMap)[cl.key := cl] else old(proxyMap)
      ensures Repr == old(Repr) + {cl} && hashring == old(hashring)
      ensures State().count == Inc32(old(State().count)) && State().ring == old(State().ring)
      ensures State().status == if added then old(State().status)[cl.key := cl.serStatus] else old(State().status)
    {
      Count := Inc32(Count);
      Repr := Repr + {cl};
      added := cl.key !in proxyMap;
      if added {
        proxyMap := proxyMap[cl.key := cl];
      }
      assert Status() == if added then old(Status())[cl.key := cl.serStatus] else old(Status());
    }

    // Ring updates leave the proxies alone: they touch objects of the ring only.
    method GrowRing(key: GoString)
      requires RingValid() && hashring != null
      modifies `RingRepr, RingRepr
      ensures RingValid() && hashring.State() == Added(hash, rep, old(hashring.State()), key)
      ensures fresh(RingRepr - old(RingRepr)) && old(RingRepr) <= RingRepr
    {
      var _ := hashring.Add(key);
      RingRepr := RingRepr + RedBlackTrees.Ids(hashring.m_SortedKeys.tree);
    }

    method ShrinkRing(key: GoString)
      requires RingValid() && hashring != null
      modifies RingRepr
      ensures RingValid() && hashring.State() == Removed(hash, rep, old(hashring.State()), key)
    {
      hashring.Remove(key);
    }

    method AddToRing(key: GoString)
      requires Valid() && hashring != null
      modifies Repr
      ensures Valid() && fresh(Repr - old(Repr))
      ensures Count == old(Count) && Status() == old(Status())
      ensures State().ring == Added(hash, rep, old(State().ring), key)
    {
      assert forall k :: k in proxyMap ==> allocated(proxyMap[k]);
      GrowRing(key);
      Repr := Repr + RingRepr;
    }

    method RemoveFromRing(key: GoString)
      requires Valid() && hashring != null
      modifies RingRepr
      ensures Valid() && Status() == old(Status())
      ensures State().ring == Removed(hash, rep, old(State().ring), key)
    {
      ShrinkRing(key);
    }

    method CreateProxy(key: GoString, value: GoString)
      requires Valid()
      modifies Repr
      ensures Valid() && fresh(Repr - old(Repr))
      ensures State() == Created(hash, rep, old(State()), key, value)
    {
      var p := new Proxy(key, value);
      var _ := AddProxy(p);
      if routeType == HASH_ROUTE {
        AddToRing(key);
      }
    }

    method DelProxy(key: GoString)
      requires Valid()
      modifies Repr
      ensures Valid() && fresh(Repr - old(Repr))
      ensures State() == Deleted(hash, rep, old(State()), key)
    {
      if routeType == HASH_ROUTE {
        RemoveFromRing(key);
      }
      proxyMap := proxyMap - {key};
      Count := Dec32(Count);
      assert Status() == old(Status()) - {key};
    }

    // `addService` below the lock: a known key only gets a new status.
    method Store(key: GoString, value: GoString)
      requires Valid()
      modifies Repr
      ensures Valid() && fresh(Repr - old(Repr))
      ensures State() == Stored(hash, rep, old(State()), key, value)
    {
      var p := GetProxy(key);
      if p == null {
        CreateProxy(key, value);
      } else {
        Update(p, key, value);
      }
    }

    // `proxy.update`: the status of one proxy.
    method Update(p: Proxy, key: GoString, value: GoString)
      requires Valid() && key in proxyMap && proxyMap[key] == p
      modifies p
      ensures Valid() && State() == old(State()).(status := old(Status())[key := value])
    {
      p.serStatus := value;
      assert forall k :: k in proxyMap && k != key ==> proxyMap[k] != p;
      assert Status() == old(Status())[key := value];
    }

    method RouteById(id: nat) returns (r: Result<Proxy, RouteError>)
      requires Valid()
      ensures Valid()
      ensures match RegistrySpec.RouteById(hash, State(), id)
              case Ok(key) => r.Ok? && key in proxyMap && r.value == proxyMap[key]
              case Err(e) => r == Err(e)
      ensures r == Err(NoProxyErr) <==> Count == 0
      ensures Count != 0 && routeType == 1 ==> (r == Err(RingErr) <==> hashring.m_RingMap == map[])
      ensures Count != 0 && routeType == 1 && hashring.m_RingMap != map[] ==>
                exists i :: IsSuccessor(hashring.m_RingMap.Keys, hash(Itoa(id)), i)
                            && var key := hashring.m_RingMap[i];
                            if key in proxyMap then r == Ok(proxyMap[key]) && r.value.key == key
                            else r == Err(NilProxyErr)
      ensures Count != 0 && routeType != 1 ==>
                var key := [114, 111, 117, 116, 101, 95] + Itoa(id);
                if key in proxyMap then r == Ok(proxyMap[key]) && r.value.key == key else r == Err(NilProxyErr)
    {
      ItoaIsNumeral(id);
      if Count != 0 && hashring != null && hashring.m_RingMap != map[] {
        RoutedKey(hash, State(), id);
      }
      if Count == 0 {
        return Err(NoProxyErr);
      }
      var index: GoString;
      if routeType == HASH_ROUTE {
        var found := hashring.Get(Itoa(id));
        if found.Err? {
          return Err(RingErr);
        }
        index := found.value;
      } else {
        index := RouteName(id);
      }
      var p := GetProxy(index);
      if p == null {
        return Err(NilProxyErr);
      }
      return Ok(p);
    }
  }

  // The successor that decides a hash-routed answer.
  lemma RoutedKey(h: Hash, s: ServiceState, id: nat)
    requires s.hashed && s.count != 0 && s.ring.owner != map[]
    ensures exists i :: IsSuccessor(s.ring.owner.Keys, h(Itoa(id)), i)
                        && var key := s.ring.owner[i];
                        RegistrySpec.RouteById(h, s, id) == if key in s.status then Ok(key) else Err(NilProxyErr)
  {
    assert s.ring.owner.Keys != {};
    var i := Successor(s.ring.owner.Keys, h(Itoa(id)));
    assert IsSuccessor(s.ring.owner.Keys, h(Itoa(id)), i);
  }

  datatype RemoveError = NotProvided | NoService

  // A service object that stands for the service of `name` in state `st`.
  ghost predicate Serves(s: Service, cfg: Config, name: GoString, st: ServiceState)
    reads s, s.Repr
  {
    && s in s.Repr && s.Valid() && s.State() == st
    && s.routeType == cfg.RouteType(name) && s.hash == cfg.hash && s.rep == cfg.rep
  }

  ghost function Belonging(objects: set<object>, name: GoString): (m: map<object, GoString>)
    ensures m.Keys == objects && forall o :: o in objects ==> m[o] == name
  {
    map o | o in objects :: name
  }

  lemma StoredTwice(reg: Registry, name: GoString, a: ServiceState, b: ServiceState)
    ensures reg[name := a][name := b] == reg[name := b]
  {
  }

  class Dispatcher {
    var services: map<GoString, Service>
    const cfg: Config
    const rLen: UInt32

    // What the services hold, as a value, and which service an object belongs to.
    ghost var registry: Registry
    ghost var owner: map<object, GoString>

    ghost predicate Owns(n: GoString)
      requires n in services
      reads this, services.Values
    {
      && services[n] in owner
      && forall o :: o in services[n].Repr ==> o in owner && owner[o] == n
    }

    ghost predicate Valid()
      reads this, services.Values, owner.Keys
    {
      && this !in owner && services.Keys == registry.Keys
      && (forall n :: n in services ==> Owns(n) && Serves(services[n], cfg, n, registry[n]))
    }

    constructor (cfg: Config, rLen: UInt32)
      ensures Valid() && registry == map[] && this.cfg == cfg && owner == map[]
    {
      this.cfg, this.rLen := cfg, rLen;
      services, registry, owner := map[], map[], map[];
    }

    // The service of a name, made on its first event.
    method ServiceOf(name: GoString)
      requires Valid()
      modifies this
      ensures Valid() && name in services
      ensures registry == old(registry)[name := ServiceFor(cfg, old(registry), name)]
      ensures forall o :: o in owner ==> o in old(owner) || fresh(o)
    {
      if name !in services {
        assert forall o :: o in owner ==> allocated(o);
        var ser := new Service(cfg.RouteType(name), cfg.hash, cfg.rep, rLen);
        Insert(name, ser);
      }
    }

    method Insert(name: GoString, ser: Service)
      requires Valid() && name !in services && this !in ser.Repr && ser.Repr !! owner.Keys
      requires Serves(ser, cfg, name, NewService(cfg.RouteType(name) == HASH_ROUTE))
      modifies this
      ensures Valid() && services == old(services)[name := ser]
      ensures registry == old(registry)[name := NewService(cfg.RouteType(name) == HASH_ROUTE)]
      ensures owner.Keys == old(owner).Keys + ser.Repr
    {
      assert forall n :: n in services ==> this !in services[n].Repr;
      services := services[name := ser];
      registry := registry[name := NewService(cfg.RouteType(name) == HASH_ROUTE)];
      owner := owner + Belonging(ser.Repr, name);
    }

    // Ghost state only: the objects that a service has made belong to it, and it has
    // moved to the state `st`.
    ghost method Adopt(name: GoString, st: ServiceState)
      requires this !in owner && services.Keys == registry.Keys && name in services
      requires forall n :: n in services && n != name ==> Owns(n)
      requires forall n :: n in services ==> Serves(services[n], cfg, n, registry[name := st][n])
      requires this !in services[name].Repr
      requires forall o :: o in services[name].Repr && o in owner ==> owner[o] == name
      modifies `owner
      ensures this !in owner && owner.Keys == old(owner).Keys + services[name].Repr
      ensures forall n :: n in services ==> Owns(n)
      ensures forall n :: n in services ==> Serves(services[n], cfg, n, registry[name := st][n])
    {
      assert forall n :: n in services ==> this !in services[n].Repr;
      owner := owner + Belonging(services[name].Repr, name);
    }

    ghost method Record(name: GoString, st: ServiceState)
      requires this !in owner && services.Keys == registry.Keys && name in services
      requires forall n :: n in services ==> Owns(n)
      requires forall n :: n in services ==> Serves(services[n], cfg, n, registry[name := st][n])
      modifies `registry
      ensures Valid() && registry == old(registry)[name := st]
    {
      assert forall n :: n in services ==> this !in services[n].Repr;
      registry := registry[name := st];
    }

    ghost method Commit(name: GoString, st: ServiceState)
      requires this !in owner && services.Keys == registry.Keys && name in services
      requires forall n :: n in services && n != name ==> Owns(n) && Serves(services[n], cfg, n, registry[n])
      requires Serves(services[name], cfg, name, st) && this !in services[name].Repr
      requires forall o :: o in services[name].Repr && o in owner ==> owner[o] == name
      modifies `registry, `owner
      ensures Valid() && registry == old(registry)[name := st]
      ensures owner.Keys == old(owner).Keys + services[name].Repr
    {
      Adopt(name, st);
      Record(name, st);
    }

    method StoreIn(name: GoString, key: GoString, value: GoString)
      requires Valid() && name in services
      modifies this, owner.Keys
      ensures Valid() && services == old(services)
      ensures registry == old(registry)[name := Stored(cfg.hash, cfg.rep, old(registry)[name], key, value)]
      ensures forall o :: o in owner ==> o in old(owner) || fresh(o)
    {
      assert Owns(name) && Serves(services[name], cfg, name, registry[name]);
      services[name].Store(key, value);
      Commit(name, Stored(cfg.hash, cfg.rep, registry[name], key, value));
    }

    method DeleteIn(name: GoString, key: GoString)
      requires Valid() && name in services
      modifies this, owner.Keys
      ensures Valid() && services == old(services)
      ensures registry == old(registry)[name := Deleted(cfg.hash, cfg.rep, old(registry)[name], key)]
      ensures forall o :: o in owner ==> o in old(owner) || fresh(o)
    {
      assert Owns(name) && Serves(services[name], cfg, name, registry[name]);
      services[name].DelProxy(key);
      Commit(name, Deleted(cfg.hash, cfg.rep, registry[name], key));
    }

    method AddService(key: GoString, value: GoString)
      requires Valid()
      modifies this, owner.Keys
      ensures Valid() && registry == Handle(cfg, old(registry), PutEvent(key, value))
      ensures var name := cfg.dir(key);
              if !cfg.provided || (name in cfg.names && cfg.names[name] > 0) then
                name in registry && key in registry[name].status && registry[name].status[key] == value
              else registry == old(registry)
      ensures forall o :: o in owner ==> o in old(owner) || fresh(o)
    {
      var name := cfg.dir(key);
      if !cfg.Accepts(name) {
        return;
      }
      ServiceOf(name);
      StoreIn(name, key, value);
      StoredTwice(old(registry), name, ServiceFor(cfg, old(registry), name), registry[name]);
    }

    method RemoveService(key: GoString) returns (err: Option<RemoveError>)
      requires Valid()
      modifies this, owner.Keys
      ensures Valid() && registry == Handle(cfg, old(registry), DeleteEvent(key))
      ensures var name := cfg.dir(key);
              err == if cfg.provided && !(name in cfg.names && cfg.names[name] > 0) then Some(NotProvided)
                     else if name !in old(registry) then Some(NoService)
                     else None
      ensures err.Some? ==> registry == old(registry)
      ensures err.None? ==> cfg.dir(key) in registry && key !in registry[cfg.dir(key)].status
      ensures forall o :: o in owner ==> o in old(owner) || fresh(o)
    {
      var name := cfg.dir(key);
      if !cfg.Accepts(name) {
        return Some(NotProvided);
      }
      if name !in services {
        return Some(NoService);
      }
      DeleteIn(name, key);
      return None;
    }

    method HandleEvent(e: Event)
      requires Valid()
      modifies this, owner.Keys
      ensures Valid() && registry == Handle(cfg, old(registry), e)
      ensures forall o :: o in owner ==> o in old(owner) || fresh(o)
    {
      match e {
        case PutEvent(key, value) =>
          AddService(key, value);
        case DeleteEvent(key) =>
          var err := RemoveService(key);
      }
    }

    // The events of the log, first the listing and then the watch, one by one.
    method Watch(log: seq<Event>)
      requires Valid() && registry == map[] && owner == map[]
      modifies this
      ensures Valid() && registry == Replay(cfg, log)
    {
      var i := 0;
      assert log[..0] == [];
      while i < |log|
        invariant 0 <= i <= |log| && Valid()
        invariant registry == Replay(cfg, log[..i])
        invariant forall o :: o in owner ==> fresh(o)
      {
        assert log[..i + 1][..i] == log[..i];
        HandleEvent(log[i]);
        i := i + 1;
      }
      assert log[..i] == log;
    }

    // `getProxy`: the arguments are checked before the service is looked up.
    method GetProxy(sType: GoString, id: nat) returns (r: Result<Proxy, LookupError>)
      requires Valid()
      ensures match LookupProxy(cfg, registry, sType, id)
              case Ok(key) =>
                && r.Ok? && sType in services && key in services[sType].proxyMap
                && r.value == services[sType].proxyMap[key]
              case Err(e) => r == Err(e)
      ensures r == Err(NoType) <==> sType == []
      ensures r == Err(NoId) <==> sType != [] && id == 0
      ensures r == Err(UnknownService) <==> sType != [] && id != 0 && sType !in registry
      ensures sType != [] && id != 0 && sType in registry ==>
                var s := registry[sType];
                && (r == Err(Unroutable(NoProxyErr)) <==> s.count == 0)
                && (r == Err(Unroutable(RingErr)) <==> s.count != 0 && s.hashed && s.ring.owner == map[])
                && (s.count != 0 && s.hashed && s.ring.owner != map[] ==>
                      exists i :: IsSuccessor(s.ring.owner.Keys, cfg.hash(Itoa(id)), i)
                                  && var key := s.ring.owner[i];
                                  if key in s.status then r.Ok? && r.value.key == key
                                  else r == Err(Unroutable(NilProxyErr)))
                && (s.count != 0 && !s.hashed ==>
                      var key := [114, 111, 117, 116, 101, 95] + Itoa(id);
                      if key in s.status then r.Ok? && r.value.key == key else r == Err(Unroutable(NilProxyErr)))
    {
      if sType != [] && id != 0 && sType in registry {
        var s := registry[sType];
        if s.count != 0 && s.hashed && s.ring.owner != map[] {
          RoutedKey(cfg.hash, s, id);
        }
      }
      if sType == [] {
        return Err(NoType);
      }
      if id == 0 {
        return Err(NoId);
      }
      if sType !in services {
        return Err(UnknownService);
      }
      assert Owns(sType) && Serves(services[sType], cfg, sType, registry[sType]);
      var found := services[sType].RouteById(id);
      match found
      case Ok(p) => return Ok(p);
      case Err(e) => return Err(Unroutable(e));
    }
  }
}
