// Routing while the registry changes. One writer, serialised by the dispatcher's
// lock, applies events in single steps; readers take three reads without that lock.
// A step is one operation of the concurrent map, one ring call under the ring's own
// lock, or a move of the counter. That move is an atomic add and then a plain store
// of its result; with a single serialised writer the store changes nothing.
module RoutingRace {
  import opened Comparators
  import opened Int32
  import opened Wrappers
  import opened RingSpec
  import R = RegistrySpec

  type Key = GoString
  type Status = GoString

  datatype WriterPc =
    | Idle
    | Counted(key: Key, value: Status)      // CreateProxy: counter incremented
    | Stored(key: Key)                      // CreateProxy: proxy in the map
    | Unrung(key: Key)                      // DelProxy: ids gone from the ring
    | Dropped(key: Key, hit: bool)          // DelProxy: proxy gone from the map

  datatype ReaderPc =
    | Start(id: nat)
    | SawCount(id: nat)
    | SawKey(id: nat, key: Key)
    | Found(id: nat, key: Key, value: Status)
    | NoProxy(id: nat)
    | NoRing(id: nat)
    | NilProxy(id: nat, key: Key)

  datatype World = World(
    count: int,
    proxies: map<Key, Status>,
    ring: Ring,
    writer: WriterPc,
    readers: map<nat, ReaderPc>,
    misses: nat)                            // DELETEs that found no proxy, so far

  datatype Label =
    | Count(key: Key, value: Status) | Store(key: Key) | RingAdd(key: Key)
    | Update(key: Key, value: Status)
    | RingRemove(key: Key) | Drop(key: Key) | Uncount(key: Key)
    | Spawn(r: nat, id: nat) | ReadCount(r: nat) | ReadRing(r: nat) | ReadMap(r: nat)

  ghost predicate Init(w: World) {
    w.count == 0 && w.proxies == map[] && w.ring == EMPTY && w.writer == Idle && w.readers == map[] && w.misses == 0
  }

  // The writer: PUT of a known key is one step, of a new key three; DELETE is three.
  ghost predicate WriterStep(h: Hash, rep: nat, w: World, l: Label, w': World) {
    match l
    case Count(key, value) =>
      w.writer.Idle? && key !in w.proxies && w' == w.(count := Inc32(w.count), writer := Counted(key, value))
    case Store(key) =>
      && w.writer.Counted? && w.writer.key == key
      && w' == w.(proxies := w.proxies[key := w.writer.value], writer := Stored(key))
    case RingAdd(key) =>
      w.writer == Stored(key) && w' == w.(ring := Added(h, rep, w.ring, key), writer := Idle)
    case Update(key, value) =>
      w.writer.Idle? && key in w.proxies && w' == w.(proxies := w.proxies[key := value])
    case RingRemove(key) =>
      w.writer.Idle? && w' == w.(ring := Removed(h, rep, w.ring, key), writer := Unrung(key))
    case Drop(key) =>
      w.writer == Unrung(key) && w' == w.(proxies := w.proxies - {key}, writer := Dropped(key, key in w.proxies))
    case Uncount(key) =>
      && w.writer.Dropped? && w.writer.key == key
      && w' == w.(count := Dec32(w.count), writer := Idle, misses := w.misses + if w.writer.hit then 0 else 1)
    case _ => false
  }

  // A reader: the counter, then the ring, then the map.
  ghost predicate ReaderStep(h: Hash, w: World, l: Label, w': World) {
    match l
    case Spawn(r, id) => w' == w.(readers := w.readers[r := Start(id)])
    case ReadCount(r) =>
      && r in w.readers && w.readers[r].Start?
      && var id := w.readers[r].id;
      w' == w.(readers := w.readers[r := if w.count == 0 then NoProxy(id) else SawCount(id)])
    case ReadRing(r) =>
      && r in w.readers && w.readers[r].SawCount?
      && var id := w.readers[r].id;
      && var route := Route(w.ring, h(Itoa(id)));
      w' == w.(readers := w.readers[r := if route.None? then NoRing(id) else SawKey(id, route.value)])
    case ReadMap(r) =>
      && r in w.readers && w.readers[r].SawKey?
      && var id, key := w.readers[r].id, w.readers[r].key;
      var pc := if key in w.proxies then Found(id, key, w.proxies[key]) else NilProxy(id, key);
      w' == w.(readers := w.readers[r := pc])
    case _ => false
  }

  ghost predicate Next(h: Hash, rep: nat, w: World, l: Label, w': World) {
    WriterStep(h, rep, w, l, w') || ReaderStep(h, w, l, w')
  }

  // A run: `ws[i]` moves to `ws[i + 1]` by the step `ls[i]`.
  ghost predicate IsRun(h: Hash, rep: nat, ws: seq<World>, ls: seq<Label>) {
    && |ws| == |ls| + 1 && Init(ws[0])
    && forall i :: 0 <= i < |ls| ==> Next(h, rep, ws[i], ls[i], ws[i + 1])
  }

  // ---------- What every reachable state keeps ----------

  // Increments that are still to come, or decrements.
  ghost function Pending(w: WriterPc): int {
    if w.Counted? || (w.Dropped? && w.hit) then 1 else 0
  }

  // The ring's members: the proxies' keys, except for the key in flight.
  ghost predicate InStep(w: World) {
    match w.writer
    case Stored(key) => w.proxies.Keys == w.ring.members + {key}
    case Unrung(key) => w.ring.members == w.proxies.Keys - {key}
    case _ => w.ring.members == w.proxies.Keys
  }

  ghost predicate Shape(h: Hash, rep: nat, w: World) {
    && Good(h, rep, w.ring)
    && w.ring.members <= w.proxies.Keys && InStep(w)
    && (w.writer.Counted? ==> w.writer.key !in w.proxies)
    && (w.writer.Stored? ==> w.writer.key in w.proxies)
    && (w.writer.Unrung? ==> w.writer.key !in w.ring.members)
  }

  ghost function Total(w: World): int {
    |w.proxies| + Pending(w.writer) - w.misses
  }

  ghost predicate Tallies(w: World) {
    Is32(w.count, Total(w))
  }

  ghost predicate Inv(h: Hash, rep: nat, w: World) {
    Shape(h, rep, w) && Tallies(w)
  }

  lemma WriterKeepsShape(h: Hash, rep: nat, w: World, l: Label, w': World)
    requires Shape(h, rep, w) && WriterStep(h, rep, w, l, w')
    ensures Shape(h, rep, w')
  {
    match l
    case Count(_, _) =>
    case Store(key) =>
      assert w'.proxies.Keys == w.proxies.Keys + {key};
    case RingAdd(key) =>
      ApplyKeepsGood(h, rep, w.ring, Add(key));
    case Update(key, _) =>
      assert w'.proxies.Keys == w.proxies.Keys;
    case RingRemove(key) =>
      ApplyKeepsGood(h, rep, w.ring, Remove(key));
    case Drop(key) =>
      assert w'.proxies.Keys == w.proxies.Keys - {key};
    case Uncount(_) =>
  }

  lemma StoreKeepsTotal(w: World, key: Key, value: Status)
    requires w.writer == Counted(key, value) && key !in w.proxies
    ensures Total(w.(proxies := w.proxies[key := value], writer := Stored(key))) == Total(w)
  {
    R.StatusSize(w.proxies, key, value);
  }

  lemma UpdateKeepsTotal(w: World, key: Key, value: Status)
    requires key in w.proxies
    ensures Total(w.(proxies := w.proxies[key := value])) == Total(w)
  {
    R.StatusSize(w.proxies, key, value);
  }

  lemma DropKeepsTotal(w: World, key: Key)
    requires w.writer == Unrung(key)
    ensures Total(w.(proxies := w.proxies - {key}, writer := Dropped(key, key in w.proxies))) == Total(w)
  {
    R.StatusSize(w.proxies, key, []);
  }

  // The counter moves with the total.
  lemma WriterMovesTotal(h: Hash, rep: nat, w: World, l: Label, w': World)
    requires Shape(h, rep, w) && WriterStep(h, rep, w, l, w')
    ensures || (w'.count == w.count && Total(w') == Total(w))
            || (w'.count == Inc32(w.count) && Total(w') == Total(w) + 1)
            || (w'.count == Dec32(w.count) && Total(w') == Total(w) - 1)
  {
    if l.Store? {
      StoreKeepsTotal(w, l.key, w.writer.value);
    } else if l.Update? {
      UpdateKeepsTotal(w, l.key, l.value);
    } else if l.Drop? {
      DropKeepsTotal(w, l.key);
    } else {
      assert w'.proxies == w.proxies;
    }
  }

  lemma WriterKeepsInv(h: Hash, rep: nat, w: World, l: Label, w': World)
    requires Inv(h, rep, w) && WriterStep(h, rep, w, l, w')
    ensures Inv(h, rep, w')
  {
    WriterKeepsShape(h, rep, w, l, w');
    WriterMovesTotal(h, rep, w, l, w');
    Is32Steps(w.count, Total(w));
  }

  lemma ReaderKeepsInv(h: Hash, rep: nat, w: World, l: Label, w': World)
    requires Inv(h, rep, w) && ReaderStep(h, w, l, w')
    ensures Inv(h, rep, w')
  {
    assert w' == w.(readers := w'.readers);
  }

  lemma NextKeepsInv(h: Hash, rep: nat, w: World, l: Label, w': World)
    requires Inv(h, rep, w) && Next(h, rep, w, l, w')
    ensures Inv(h, rep, w')
  {
    if WriterStep(h, rep, w, l, w') {
      WriterKeepsInv(h, rep, w, l, w');
    } else {
      ReaderKeepsInv(h, rep, w, l, w');
    }
  }

  lemma InitHasInv(h: Hash, rep: nat, w: World)
    requires Init(w)
    ensures Inv(h, rep, w)
  {
    assert 0 == 0 + Laps(0);
  }

  lemma {:induction false} RunKeepsInv(h: Hash, rep: nat, ws: seq<World>, ls: seq<Label>, i: nat)
    requires IsRun(h, rep, ws, ls) && i < |ws|
    ensures Inv(h, rep, ws[i])
  {
    if i == 0 {
      InitHasInv(h, rep, ws[0]);
    } else {
      RunKeepsInv(h, rep, ws, ls, i - 1);
      NextKeepsInv(h, rep, ws[i - 1], ls[i - 1], ws[i - 1 + 1]);
    }
  }

  // ---------- What readers can rely on ----------

  // The counter stands for the proxies, and one more while an event is under way,
  // unless a DELETE missed. While that fits an int32, a reader is only turned away
  // from a service that has no proxy.
  lemma CountCoversProxies(h: Hash, rep: nat, ws: seq<World>, ls: seq<Label>, i: nat)
    requires IsRun(h, rep, ws, ls) && i < |ws| && ws[i].misses == 0
    ensures Is32(ws[i].count, |ws[i].proxies|) || Is32(ws[i].count, |ws[i].proxies| + 1)
    ensures |ws[i].proxies| < 0x7FFF_FFFF ==>
              && |ws[i].proxies| <= ws[i].count <= |ws[i].proxies| + 1
              && (ws[i].count == 0 ==> ws[i].proxies == map[])
  {
    RunKeepsInv(h, rep, ws, ls, i);
    Is32Steps(ws[i].count, |ws[i].proxies| + Pending(ws[i].writer));
  }

  // ---------- The steps amount to whole events ----------

  // The service once the writer has finished what it has begun.
  ghost function Finished(h: Hash, rep: nat, w: World): R.ServiceState {
    match w.writer
    case Idle => R.ServiceState(true, w.proxies, w.ring, w.count)
    case Counted(key, value) => R.ServiceState(true, w.proxies[key := value], Added(h, rep, w.ring, key), w.count)
    case Stored(key) => R.ServiceState(true, w.proxies, Added(h, rep, w.ring, key), w.count)
    case Unrung(key) => R.ServiceState(true, w.proxies - {key}, w.ring, Dec32(w.count))
    case Dropped(_, _) => R.ServiceState(true, w.proxies, w.ring, Dec32(w.count))
  }

  // The event a step begins.
  ghost function Begun(l: Label): seq<R.Event> {
    match l
    case Count(key, value) => [R.PutEvent(key, value)]
    case Update(key, value) => [R.PutEvent(key, value)]
    case RingRemove(key) => [R.DeleteEvent(key)]
    case _ => []
  }

  ghost function Events(ls: seq<Label>): seq<R.Event> {
    if ls == [] then [] else Events(ls[..|ls| - 1]) + Begun(ls[|ls| - 1])
  }

  ghost function Serve(h: Hash, rep: nat, s: R.ServiceState, e: R.Event): R.ServiceState {
    match e
    case PutEvent(key, value) => R.Stored(h, rep, s, key, value)
    case DeleteEvent(key) => R.Deleted(h, rep, s, key)
  }

  // One hash-routed service that handles events one after the other.
  ghost function Served(h: Hash, rep: nat, log: seq<R.Event>): R.ServiceState {
    if log == [] then R.NewService(true) else Serve(h, rep, Served(h, rep, log[..|log| - 1]), log[|log| - 1])
  }

  // It is the service that replaying the same log leaves in the registry.
  lemma {:induction false} ServedIsReplay(cfg: R.Config, name: Key, log: seq<R.Event>)
    requires cfg.Accepts(name) && cfg.RouteType(name) == R.HASH_ROUTE
    requires log != [] && log[0].PutEvent? && forall i :: 0 <= i < |log| ==> cfg.dir(log[i].key) == name
    ensures R.Replay(cfg, log).Keys == {name} && R.Replay(cfg, log)[name] == Served(cfg.hash, cfg.rep, log)
  {
    var before := log[..|log| - 1];
    if before == [] {
      assert R.Replay(cfg, before) == map[] && Served(cfg.hash, cfg.rep, before) == R.NewService(true);
    } else {
      ServedIsReplay(cfg, name, before);
    }
  }

  lemma BeginFinishes(h: Hash, rep: nat, w: World, l: Label, w': World)
    requires WriterStep(h, rep, w, l, w') && Begun(l) != []
    ensures Finished(h, rep, w') == Serve(h, rep, Finished(h, rep, w), Begun(l)[0])
  {
    match l
    case Count(_, _) =>
    case Update(_, _) =>
    case RingRemove(_) =>
  }

  lemma ContinueFinishes(h: Hash, rep: nat, w: World, l: Label, w': World)
    requires WriterStep(h, rep, w, l, w') && Begun(l) == []
    ensures Finished(h, rep, w') == Finished(h, rep, w)
  {
    match l
    case Store(_) =>
    case RingAdd(_) =>
    case Drop(_) =>
    case Uncount(_) =>
  }

  lemma ReaderFinishes(h: Hash, rep: nat, w: World, l: Label, w': World)
    requires ReaderStep(h, w, l, w')
    ensures Begun(l) == [] && Finished(h, rep, w') == Finished(h, rep, w)
  {
    assert w' == w.(readers := w'.readers);
  }

  lemma StepFinishes(h: Hash, rep: nat, w: World, l: Label, w': World, log: seq<R.Event>)
    requires Inv(h, rep, w) && Next(h, rep, w, l, w')
    requires Finished(h, rep, w) == Served(h, rep, log)
    ensures Finished(h, rep, w') == Served(h, rep, log + Begun(l))
  {
    if ReaderStep(h, w, l, w') {
      ReaderFinishes(h, rep, w, l, w');
    } else if Begun(l) == [] {
      ContinueFinishes(h, rep, w, l, w');
    } else {
      BeginFinishes(h, rep, w, l, w');
    }
    if Begun(l) == [] {
      assert log + Begun(l) == log;
    } else {
      var e := Begun(l)[0];
      assert (log + [e])[..|log|] == log && Begun(l) == [e];
    }
  }

  lemma InitFinished(h: Hash, rep: nat, w: World)
    requires Init(w)
    ensures Finished(h, rep, w) == Served(h, rep, [])
  {
  }

  // However the readers interleave, the writer's single steps leave what handling
  // the events it has begun, each at once and in order, would leave.
  lemma {:induction false} RunRefinesReplay(h: Hash, rep: nat, ws: seq<World>, ls: seq<Label>, i: nat)
    requires IsRun(h, rep, ws, ls) && i < |ws|
    ensures Finished(h, rep, ws[i]) == Served(h, rep, Events(ls[..i]))
  {
    if i > 0 {
      RunRefinesReplay(h, rep, ws, ls, i - 1);
      RunKeepsInv(h, rep, ws, ls, i - 1);
      StepFinishes(h, rep, ws[i - 1], ls[i - 1], ws[i - 1 + 1], Events(ls[..i - 1]));
      assert ls[..i][..i - 1] == ls[..i - 1];
    } else {
      InitFinished(h, rep, ws[0]);
    }
  }

  // No proxy of `key` is stored by the steps after `i` and before `j`.
  ghost predicate NotStored(ls: seq<Label>, key: Key, i: nat, j: nat)
    requires j <= |ls|
  {
    forall s :: i < s < j ==> ls[s] != Store(key)
  }

  // Going backwards from a state without `key` to one with it passes the map step of
  // a DELETE, after which `key` is not stored again.
  lemma {:induction false} DropBetween(h: Hash, rep: nat, ws: seq<World>, ls: seq<Label>, key: Key, i: nat, j: nat)
    returns (m: nat)
    requires IsRun(h, rep, ws, ls) && i <= j < |ws|
    requires key in ws[i].proxies && key !in ws[j].proxies
    ensures i <= m < j && ls[m] == Drop(key) && ws[m].writer == Unrung(key)
    ensures NotStored(ls, key, m, j)
    decreases j
  {
    assert Next(h, rep, ws[j - 1], ls[j - 1], ws[j]);
    if key in ws[j - 1].proxies {
      m := j - 1;
    } else {
      m := DropBetween(h, rep, ws, ls, key, i, j - 1);
    }
  }

  // A key that has been dropped stays out as long as it is not stored again.
  lemma {:induction false} StaysOut(h: Hash, rep: nat, ws: seq<World>, ls: seq<Label>, key: Key, d: nat, j: nat)
    requires IsRun(h, rep, ws, ls) && d < j < |ws|
    requires ls[d] == Drop(key) && NotStored(ls, key, d, j)
    ensures key !in ws[j].proxies
    decreases j
  {
    assert Next(h, rep, ws[j - 1], ls[j - 1], ws[j]);
    if d == j - 1 {
    } else {
      StaysOut(h, rep, ws, ls, key, d, j - 1);
      assert ls[j - 1] != Store(key);
    }
  }

  // The same for the ring.
  lemma {:induction false} RingRemoveBetween(h: Hash, rep: nat, ws: seq<World>, ls: seq<Label>, key: Key, i: nat,
          j: nat)
    returns (m: nat)
    requires IsRun(h, rep, ws, ls) && i <= j < |ws|
    requires key in ws[i].ring.members && key !in ws[j].ring.members
    ensures i <= m < j && ls[m] == RingRemove(key)
    decreases j
  {
    assert Next(h, rep, ws[j - 1], ls[j - 1], ws[j]);
    if key !in ws[j - 1].ring.members {
      m := RingRemoveBetween(h, rep, ws, ls, key, i, j - 1);
    } else {
      m := j - 1;
    }
  }

  // A reader that waits keeps what it has seen; the ring read it waits on is found
  // by going back.
  lemma {:induction false} ReadRingBefore(h: Hash, rep: nat, ws: seq<World>, ls: seq<Label>, r: nat, j: nat)
    returns (i: nat)
    requires IsRun(h, rep, ws, ls) && j < |ws|
    requires r in ws[j].readers && ws[j].readers[r].SawKey?
    ensures i < j && ls[i] == ReadRing(r)
    ensures r in ws[i].readers && ws[i].readers[r] == SawCount(ws[j].readers[r].id)
    ensures Route(ws[i].ring, h(Itoa(ws[j].readers[r].id))) == Some(ws[j].readers[r].key)
    ensures forall k :: i < k <= j ==> r in ws[k].readers && ws[k].readers[r] == ws[j].readers[r]
    decreases j
  {
    assert Next(h, rep, ws[j - 1], ls[j - 1], ws[j]);
    if ls[j - 1] == ReadRing(r) {
      i := j - 1;
    } else {
      i := ReadRingBefore(h, rep, ws, ls, r, j - 1);
    }
  }

  // What a reader's first read decides: it is turned away exactly if the counter is
  // zero at that moment.
  lemma CountReadIff(h: Hash, rep: nat, ws: seq<World>, ls: seq<Label>, r: nat, i: nat)
    requires IsRun(h, rep, ws, ls) && i < |ls| && ls[i] == ReadCount(r)
    ensures r in ws[i].readers && ws[i].readers[r].Start? && r in ws[i + 1].readers
    ensures var id := ws[i].readers[r].id;
            && (ws[i + 1].readers[r] == NoProxy(id) <==> ws[i].count == 0)
            && (ws[i + 1].readers[r] == SawCount(id) <==> ws[i].count != 0)
  {
    assert Next(h, rep, ws[i], ls[i], ws[i + 1]);
  }

  // Its second read: it fails exactly if the ring has no ids at that moment, and
  // otherwise gives the owner of the successor of the hash of the id's numeral.
  lemma RingReadIff(h: Hash, rep: nat, ws: seq<World>, ls: seq<Label>, r: nat, i: nat, numeral: GoString, key: Key)
    requires IsRun(h, rep, ws, ls) && i < |ls| && ls[i] == ReadRing(r)
    ensures r in ws[i].readers && ws[i].readers[r].SawCount? && r in ws[i + 1].readers
    ensures var id := ws[i].readers[r].id;
            var owner := ws[i].ring.owner;
            && (ws[i + 1].readers[r] == NoRing(id) <==> owner == map[])
            && (IsNumeral(numeral, id) ==>
                  (ws[i + 1].readers[r] == SawKey(id, key)
                   <==> exists n :: IsSuccessor(owner.Keys, h(numeral), n) && owner[n] == key))
  {
    assert Next(h, rep, ws[i], ls[i], ws[i + 1]);
    var id, owner := ws[i].readers[r].id, ws[i].ring.owner;
    NumeralIsItoa(numeral, id);
    assert owner.Keys == {} ==> owner == map[];
    if owner != map[] {
      var n := Successor(owner.Keys, h(Itoa(id)));
      assert IsSuccessor(owner.Keys, h(Itoa(id)), n);
    }
  }

  lemma MapRead(h: Hash, rep: nat, ws: seq<World>, ls: seq<Label>, r: nat, i: nat)
    requires IsRun(h, rep, ws, ls) && i < |ls| && ls[i] == ReadMap(r)
    ensures r in ws[i].readers && ws[i].readers[r].SawKey? && r in ws[i + 1].readers
    ensures var id, key := ws[i].readers[r].id, ws[i].readers[r].key;
            && (key in ws[i].proxies ==> ws[i + 1].readers[r] == Found(id, key, ws[i].proxies[key]))
            && (key !in ws[i].proxies ==> ws[i + 1].readers[r] == NilProxy(id, key))
  {
    assert Next(h, rep, ws[i], ls[i], ws[i + 1]);
  }

  // ---------- Lookups that meet no writer ----------

  predicate ByReader(l: Label) {
    l.Spawn? || l.ReadCount? || l.ReadRing? || l.ReadMap?
  }

  // What a reader has seen is what the state `w` says.
  ghost predicate Saw(h: Hash, w: World, pc: ReaderPc) {
    var answer := (id: nat) => R.RouteById(h, R.ServiceState(true, w.proxies, w.ring, w.count), id);
    match pc
    case Start(_) => true
    case SawCount(_) => w.count != 0
    case SawKey(id, key) => w.count != 0 && Route(w.ring, h(Itoa(id))) == Some(key)
    case NoProxy(id) => answer(id) == Err(R.NoProxyErr)
    case NoRing(id) => answer(id) == Err(R.RingErr)
    case NilProxy(id, _) => answer(id) == Err(R.NilProxyErr)
    case Found(id, key, value) => answer(id) == Ok(key) && key in w.proxies && w.proxies[key] == value
  }

  lemma QuietStep(h: Hash, rep: nat, w: World, l: Label, w': World, r: nat)
    requires Next(h, rep, w, l, w') && ByReader(l)
    requires r in w.readers && (Saw(h, w, w.readers[r]) || l == ReadCount(r))
    ensures w' == w.(readers := w'.readers) && r in w'.readers && Saw(h, w, w'.readers[r])
  {
  }

  // A reader that met no writer step between its first and its last read ends as the
  // service answers in that state.
  lemma {:induction false} QuietLookup(h: Hash, rep: nat, ws: seq<World>, ls: seq<Label>, r: nat, i: nat, j: nat)
    requires IsRun(h, rep, ws, ls) && i <= j < |ls| && ls[i] == ReadCount(r)
    requires forall n :: i <= n <= j ==> ByReader(ls[n])
    ensures ws[j + 1] == ws[i].(readers := ws[j + 1].readers) && r in ws[j + 1].readers
    ensures var s := R.ServiceState(true, ws[i].proxies, ws[i].ring, ws[i].count);
            match ws[j + 1].readers[r]
            case NoProxy(id) => R.RouteById(h, s, id) == Err(R.NoProxyErr)
            case NoRing(id) => R.RouteById(h, s, id) == Err(R.RingErr)
            case NilProxy(id, _) => R.RouteById(h, s, id) == Err(R.NilProxyErr)
            case Found(id, key, value) =>
              R.RouteById(h, s, id) == Ok(key) && key in ws[i].proxies && ws[i].proxies[key] == value
            case _ => true
    ensures Saw(h, ws[i], ws[j + 1].readers[r])
    decreases j
  {
    assert Next(h, rep, ws[j], ls[j], ws[j + 1]);
    if i == j {
      CountReadIff(h, rep, ws, ls, r, i);
    } else {
      QuietLookup(h, rep, ws, ls, r, i, j - 1);
    }
    QuietStep(h, rep, ws[j], ls[j], ws[j + 1], r);
  }

  // ---------- Lookups that end without a proxy ----------

  // A routed lookup ends without a proxy if and only if, between its ring read and
  // its map read, a DELETE took that very key out of the map and no PUT stored it
  // again; otherwise it ends with the proxy. The DELETE's ring step then falls in
  // between as well.
  lemma NilProxyIff(h: Hash, rep: nat, ws: seq<World>, ls: seq<Label>, r: nat, j: nat)
    returns (i: nat, unring: nat, drop: nat)
    requires IsRun(h, rep, ws, ls) && j < |ls| && ls[j] == ReadMap(r)
    ensures i < j && ls[i] == ReadRing(r) && r in ws[j].readers && ws[j].readers[r].SawKey?
    ensures forall k :: i < k <= j ==> r in ws[k].readers && ws[k].readers[r] == ws[j].readers[r]
    ensures var id, key := ws[j].readers[r].id, ws[j].readers[r].key;
            var dropped := exists d :: i < d < j && ls[d] == Drop(key) && NotStored(ls, key, d, j);
            && r in ws[j + 1].readers
            && (ws[j + 1].readers[r] == NilProxy(id, key) <==> dropped)
            && (!dropped ==> key in ws[j].proxies && ws[j + 1].readers[r] == Found(id, key, ws[j].proxies[key]))
            && (dropped ==>
                  && i < unring < drop < j && NotStored(ls, key, drop, j)
                  && ls[unring] == RingRemove(key) && ls[drop] == Drop(key))
  {
    MapRead(h, rep, ws, ls, r, j);
    i := ReadRingBefore(h, rep, ws, ls, r, j);
    unring, drop := DroppedIff(h, rep, ws, ls, r, i, j);
  }

  lemma DroppedIff(h: Hash, rep: nat, ws: seq<World>, ls: seq<Label>, r: nat, i: nat, j: nat)
    returns (unring: nat, drop: nat)
    requires IsRun(h, rep, ws, ls) && i < j < |ws| && r in ws[j].readers && ws[j].readers[r].SawKey?
    requires Route(ws[i].ring, h(Itoa(ws[j].readers[r].id))) == Some(ws[j].readers[r].key)
    ensures var key := ws[j].readers[r].key;
            && (key !in ws[j].proxies <==> exists d :: i <= d < j && ls[d] == Drop(key) && NotStored(ls, key, d, j))
            && (key !in ws[j].proxies ==>
                  && i <= unring < drop < j && NotStored(ls, key, drop, j)
                  && ls[unring] == RingRemove(key) && ls[drop] == Drop(key))
  {
    var id, key := ws[j].readers[r].id, ws[j].readers[r].key;
    unring, drop := 0, 0;
    if key !in ws[j].proxies {
      RunKeepsInv(h, rep, ws, ls, i);
      RoutesToMembers(h, rep, ws[i].ring, h(Itoa(id)));
      drop := DropBetween(h, rep, ws, ls, key, i, j);
      RunKeepsInv(h, rep, ws, ls, drop);
      unring := RingRemoveBetween(h, rep, ws, ls, key, i, drop);
    } else {
      forall d | i <= d < j && ls[d] == Drop(key)
        ensures !NotStored(ls, key, d, j)
      {
        if NotStored(ls, key, d, j) {
          StaysOut(h, rep, ws, ls, key, d, j);
        }
      }
    }
  }

  lemma Extend(h: Hash, rep: nat, ws: seq<World>, ls: seq<Label>, l: Label, w: World)
    returns (ws': seq<World>, ls': seq<Label>)
    requires IsRun(h, rep, ws, ls) && Next(h, rep, ws[|ls|], l, w)
    ensures IsRun(h, rep, ws', ls') && |ls'| == |ls| + 1 && ws'[|ls'|] == w
  {
    ws', ls' := ws + [w], ls + [l];
  }

  ghost function OneProxy(h: Hash, rep: nat, key: Key, value: Status, readers: map<nat, ReaderPc>): World {
    World(1, map[key := value], Added(h, rep, EMPTY, key), Idle, readers, 0)
  }

  lemma PutOne(h: Hash, rep: nat, key: Key, value: Status) returns (ws: seq<World>, ls: seq<Label>)
    ensures IsRun(h, rep, ws, ls) && |ls| == 3 && ws[3] == OneProxy(h, rep, key, value, map[])
  {
    var w0 := World(0, map[], EMPTY, Idle, map[], 0);
    var w1 := w0.(count := 1, writer := Counted(key, value));
    var w2 := w1.(proxies := map[key := value], writer := Stored(key));
    ws, ls := Extend(h, rep, [w0], [], Count(key, value), w1);
    ws, ls := Extend(h, rep, ws, ls, Store(key), w2);
    ws, ls := Extend(h, rep, ws, ls, RingAdd(key), OneProxy(h, rep, key, value, map[]));
  }

  lemma OnlyMemberRoutes(h: Hash, rep: nat, key: Key, k: UInt32)
    requires rep > 0
    ensures Route(Added(h, rep, EMPTY, key), k) == Some(key)
  {
    var ring := Added(h, rep, EMPTY, key);
    assert NodeId(h, key, 0) in ring.owner;
    ApplyKeepsGood(h, rep, EMPTY, Add(key));
    RoutesToMembers(h, rep, ring, k);
  }

  lemma RouteToOne(h: Hash, rep: nat, key: Key, value: Status, id: nat) returns (ws: seq<World>, ls: seq<Label>)
    requires rep > 0
    ensures IsRun(h, rep, ws, ls) && |ls| == 6
    ensures ws[6] == OneProxy(h, rep, key, value, map[0 := SawKey(id, key)])
  {
    OnlyMemberRoutes(h, rep, key, h(Itoa(id)));
    ws, ls := PutOne(h, rep, key, value);
    ws, ls := Extend(h, rep, ws, ls, Spawn(0, id), OneProxy(h, rep, key, value, map[0 := Start(id)]));
    ws, ls := Extend(h, rep, ws, ls, ReadCount(0), OneProxy(h, rep, key, value, map[0 := SawCount(id)]));
    ws, ls := Extend(h, rep, ws, ls, ReadRing(0), OneProxy(h, rep, key, value, map[0 := SawKey(id, key)]));
  }

  // The race exists: a run in which a reader is left with a missing proxy.
  lemma NilProxyHappens(h: Hash, rep: nat, key: Key, value: Status, id: nat) returns (ws: seq<World>, ls: seq<Label>)
    requires rep > 0
    ensures IsRun(h, rep, ws, ls) && |ls| == 9
    ensures ws[9].readers == map[0 := NilProxy(id, key)]
  {
    ws, ls := RouteToOne(h, rep, key, value, id);
    var w7 := ws[6].(ring := Removed(h, rep, ws[6].ring, key), writer := Unrung(key));
    ws, ls := Extend(h, rep, ws, ls, RingRemove(key), w7);
    var w8 := w7.(proxies := map[], writer := Dropped(key, true));
    ws, ls := Extend(h, rep, ws, ls, Drop(key), w8);
    ws, ls := Extend(h, rep, ws, ls, ReadMap(0), w8.(readers := map[0 := NilProxy(id, key)]));
  }
}
