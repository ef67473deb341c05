// The session manager as a value: which session is stored under which user id, and
// what connecting, verifying, adding, stopping and deleting do to it.
module SessionSpec {
  import opened Int32
  import opened Wrappers

  type UserId = u: int | 0 <= u < 0x1_0000_0000_0000_0000

  // Milliseconds, an int64.
  type Millis = t: int | -0x8000_0000_0000_0000 <= t < 0x8000_0000_0000_0000

  const THROTTLE := 3000

  function Elapsed(now: Millis, since: Millis): Millis {
    var d := now - since;
    if d >= 0x8000_0000_0000_0000 then d - 0x1_0000_0000_0000_0000
    else if d < -0x8000_0000_0000_0000 then d + 0x1_0000_0000_0000_0000
    else d
  }

  datatype Link = Absent | Up | Down

  datatype Facts = Facts(uid: UserId, verified: bool, stopped: bool, link: Link)

  // `S` stands for the sessions' identities.
  datatype State<S> = State(
    stored: map<UserId, S>,
    count: int,
    added: map<UserId, Millis>,
    queue: seq<S>,
    facts: map<S, Facts>)

  // ---------- The operations ----------

  ghost function Deleted<S>(st: State<S>, uid: UserId): State<S> {
    if uid != 0 && uid in st.stored then st.(stored := st.stored - {uid}, count := Dec32(st.count)) else st
  }

  // The first stop of a session; a verified one has its user id deleted, whichever
  // session is stored there.
  ghost function Stopped<S>(st: State<S>, s: S): State<S>
    requires s in st.facts
  {
    var f := st.facts[s];
    if f.stopped then st
    else
      var st1 := if f.verified then Deleted(st, f.uid) else st;
      st1.(facts := st1.facts[s := Facts(f.uid, false, true, if f.link == Up then Down else f.link)])
  }

  function LastTime(added: map<UserId, Millis>, uid: UserId): Millis {
    if uid in added then added[uid] else 0
  }

  predicate TooSoon(added: map<UserId, Millis>, uid: UserId, now: Millis) {
    var last := LastTime(added, uid);
    last != 0 && Elapsed(now, last) < THROTTLE
  }

  // Room under `uid`: an old session makes way, or the counter moves.
  ghost function MadeRoom<S>(st: State<S>, uid: UserId): State<S>
    requires WellFormed(st)
  {
    if uid in st.stored then Stopped(st.(stored := st.stored - {uid}), st.stored[uid])
    else st.(count := Inc32(st.count))
  }

  // The clock is read twice: for the throttle, and once the session is stored.
  ghost function Added<S>(st: State<S>, s: S, first: Millis, second: Millis): State<S>
    requires WellFormed(st) && s in st.facts
  {
    var uid := st.facts[s].uid;
    if TooSoon(st.added, uid, first) then Stopped(st, s)
    else
      var room := MadeRoom(st, uid);
      room.(stored := room.stored[uid := s], added := room.added[uid := second])
  }

  // A verification message; user id 0 is refused outright.
  ghost function Verified<S>(st: State<S>, s: S, uid: UserId, ok: bool): State<S>
    requires s in st.facts
  {
    if uid == 0 then st
    else if ok then st.(facts := st.facts[s := st.facts[s].(uid := uid, verified := true)], queue := st.queue + [s])
    else st.(facts := st.facts[s := st.facts[s].(verified := false)])
  }

  ghost predicate WellFormed<S>(st: State<S>) {
    && (forall u :: u in st.stored ==> st.stored[u] in st.facts)
    && (forall i :: 0 <= i < |st.queue| ==> st.queue[i] in st.facts)
  }

  // ---------- Runs ----------

  datatype Event<S> =
    | Connect(s: S, link: Link)
    | Verify(s: S, uid: UserId, ok: bool)
    | Take(first: Millis, second: Millis)     // the manager adds the session it waited for
    | Stop(s: S)
    | StopUser(uid: UserId)
    | Delete(uid: UserId)

  ghost function Taken<S>(st: State<S>, first: Millis, second: Millis): State<S>
    requires WellFormed(st)
  {
    if st.queue == [] then st else Added(st.(queue := st.queue[1..]), st.queue[0], first, second)
  }

  // Events about sessions that do not exist change nothing.
  ghost function Step<S>(st: State<S>, e: Event<S>): State<S>
    requires WellFormed(st)
  {
    match e
    case Connect(s, link) => if s in st.facts then st else st.(facts := st.facts[s := Facts(0, false, false, link)])
    case Verify(s, uid, ok) => if s in st.facts then Verified(st, s, uid, ok) else st
    case Take(first, second) => Taken(st, first, second)
    case Stop(s) => if s in st.facts then Stopped(st, s) else st
    case StopUser(uid) => if uid != 0 && uid in st.stored then Stopped(st, st.stored[uid]) else st
    case Delete(uid) => Deleted(st, uid)
  }

  ghost function Initial<S>(): State<S> {
    State(map[], 0, map[], [], map[])
  }

  lemma StepWellFormed<S>(st: State<S>, e: Event<S>)
    requires WellFormed(st)
    ensures WellFormed(Step(st, e))
  {
  }

  ghost function Run<S>(es: seq<Event<S>>): (st: State<S>)
    ensures WellFormed(st)
  {
    if es == [] then Initial()
    else
      var st := Run(es[..|es| - 1]);
      StepWellFormed(st, es[|es| - 1]);
      Step(st, es[|es| - 1])
  }

  // ---------- The counter ----------

  lemma StoredSize<S>(stored: map<UserId, S>, uid: UserId, s: S)
    ensures |stored[uid := s]| == |stored| + (if uid in stored then 0 else 1)
    ensures |stored - {uid}| == |stored| - (if uid in stored then 1 else 0)
  {
    assert stored[uid := s].Keys == stored.Keys + {uid};
    assert (stored - {uid}).Keys == stored.Keys - {uid};
  }

  // The counter is the number of stored sessions and `extra` more.
  ghost predicate CountsStored<S>(st: State<S>, extra: int) {
    Is32(st.count, |st.stored| + extra)
  }

  // Deleting and stopping keep the difference, also in the middle of an add.
  lemma DeletedCounts<S>(st: State<S>, uid: UserId, extra: int)
    requires CountsStored(st, extra)
    ensures CountsStored(Deleted(st, uid), extra)
  {
    if uid in st.stored {
      StoredSize(st.stored, uid, st.stored[uid]);
      Is32Steps(st.count, |st.stored| + extra);
    }
  }

  lemma StoppedCounts<S>(st: State<S>, s: S, extra: int)
    requires s in st.facts && CountsStored(st, extra)
    ensures CountsStored(Stopped(st, s), extra)
  {
    DeletedCounts(st, st.facts[s].uid, extra);
  }

  lemma MadeRoomCounts<S>(st: State<S>, uid: UserId)
    requires WellFormed(st) && CountsStored(st, 0)
    ensures uid !in MadeRoom(st, uid).stored && CountsStored(MadeRoom(st, uid), 1)
  {
    if uid in st.stored {
      StoredSize(st.stored, uid, st.stored[uid]);
      StoppedCounts(st.(stored := st.stored - {uid}), st.stored[uid], 1);
    } else {
      Is32Steps(st.count, |st.stored|);
    }
  }

  lemma AddedCounts<S>(st: State<S>, s: S, first: Millis, second: Millis)
    requires WellFormed(st) && s in st.facts && CountsStored(st, 0)
    ensures CountsStored(Added(st, s, first, second), 0)
  {
    var uid := st.facts[s].uid;
    if TooSoon(st.added, uid, first) {
      StoppedCounts(st, s, 0);
    } else {
      MadeRoomCounts(st, uid);
      StoredSize(MadeRoom(st, uid).stored, uid, s);
    }
  }

  // Over every run the counter is the number of stored sessions, although adding
  // stops a session and stopping deletes one.
  lemma {:induction false} CountIsStored<S>(es: seq<Event<S>>)
    ensures CountsStored(Run(es), 0)
    ensures |Run(es).stored| < 0x8000_0000 ==> Run(es).count == |Run(es).stored|
  {
    if es == [] {
      assert 0 == 0 + Laps(0);
    } else {
      var st, e := Run(es[..|es| - 1]), es[|es| - 1];
      CountIsStored(es[..|es| - 1]);
      match e
      case Connect(_, _) =>
      case Verify(_, _, _) =>
      case Take(first, second) =>
        if st.queue != [] {
          AddedCounts(st.(queue := st.queue[1..]), st.queue[0], first, second);
        }
      case Stop(s) =>
        if s in st.facts {
          StoppedCounts(st, s, 0);
        }
      case StopUser(uid) =>
        if uid in st.stored {
          StoppedCounts(st, st.stored[uid], 0);
        }
      case Delete(uid) =>
        DeletedCounts(st, uid, 0);
    }
    Is32Steps(Run(es).count, |Run(es).stored|);
  }

  // User id 0, which cannot be deleted, is never stored.
  ghost predicate NoZero<S>(st: State<S>) {
    && 0 !in st.stored
    && (forall i :: 0 <= i < |st.queue| ==> st.queue[i] in st.facts && st.facts[st.queue[i]].uid != 0)
  }

  lemma TakenNoZero<S>(st: State<S>, first: Millis, second: Millis)
    requires WellFormed(st) && NoZero(st)
    ensures NoZero(Taken(st, first, second))
  {
    if st.queue != [] {
      var s, waiting := st.queue[0], st.(queue := st.queue[1..]);
      assert NoZero(waiting) && st.facts[s].uid != 0;
      var room := MadeRoom(waiting, st.facts[s].uid);
      assert NoZero(room) && NoZero(Stopped(waiting, s));
    }
  }

  lemma {:induction false} ZeroIsNeverStored<S>(es: seq<Event<S>>)
    ensures NoZero(Run(es))
  {
    if es == [] {
    } else {
      var st := Run(es[..|es| - 1]);
      ZeroIsNeverStored(es[..|es| - 1]);
      match es[|es| - 1]
      case Connect(_, _) =>
      case Verify(_, _, _) =>
      case Take(first, second) => TakenNoZero(st, first, second);
      case Stop(_) =>
      case StopUser(_) =>
      case Delete(_) =>
    }
  }

  // ---------- The throttle ----------

  // The event adds a session under `uid`.
  ghost predicate Accepts<S>(st: State<S>, e: Event<S>, uid: UserId)
    requires WellFormed(st)
  {
    && e.Take? && st.queue != [] && st.facts[st.queue[0]].uid == uid
    && !TooSoon(st.added, uid, e.first)
  }

  // The clock is positive and never goes back, over all of its readings.
  ghost predicate ClockRuns<S>(es: seq<Event<S>>) {
    && (forall i :: 0 <= i < |es| && es[i].Take? ==> 0 < es[i].first <= es[i].second)
    && (forall i, j :: 0 <= i < j < |es| && es[i].Take? && es[j].Take? ==> es[i].second <= es[j].first)
  }

  lemma StepAddTimes<S>(st: State<S>, e: Event<S>, uid: UserId)
    requires WellFormed(st)
    ensures LastTime(Step(st, e).added, uid) == if Accepts(st, e, uid) then e.second else LastTime(st.added, uid)
  {
  }

  // The remembered time is that of the last accepted add.
  lemma {:induction false} RemembersLastAdd<S>(es: seq<Event<S>>, i: nat, j: nat, uid: UserId)
    requires ClockRuns(es) && i < j <= |es| && Accepts(Run(es[..i]), es[i], uid)
    ensures exists k :: i <= k < j && es[k].Take? && LastTime(Run(es[..j]).added, uid) == es[k].second
    decreases j
  {
    assert es[..j][..j - 1] == es[..j - 1];
    StepAddTimes(Run(es[..j - 1]), es[j - 1], uid);
    if !Accepts(Run(es[..j - 1]), es[j - 1], uid) {
      RemembersLastAdd(es, i, j - 1, uid);
    }
  }

  // Two adds accepted for one user id are at least 3000 ms apart, from the time the
  // first was stored to the time the second was looked at.
  lemma AcceptedAddsAreApart<S>(es: seq<Event<S>>, i: nat, j: nat, uid: UserId)
    requires ClockRuns(es) && i < j < |es|
    requires Accepts(Run(es[..i]), es[i], uid) && Accepts(Run(es[..j]), es[j], uid)
    ensures es[j].first - es[i].second >= 3000
  {
    RemembersLastAdd(es, i, j, uid);
  }

  // The remembered time also belongs to an accepted add.
  lemma {:induction false} RemembersAnAdd<S>(es: seq<Event<S>>, j: nat, uid: UserId) returns (i: nat)
    requires j <= |es| && LastTime(Run(es[..j]).added, uid) != 0
    ensures i < j && Accepts(Run(es[..i]), es[i], uid)
    ensures es[i].second == LastTime(Run(es[..j]).added, uid)
    decreases j
  {
    assert j > 0;
    assert es[..j][..j - 1] == es[..j - 1];
    StepAddTimes(Run(es[..j - 1]), es[j - 1], uid);
    if Accepts(Run(es[..j - 1]), es[j - 1], uid) {
      i := j - 1;
    } else {
      i := RemembersAnAdd(es, j - 1, uid);
    }
  }

  // While a clock does not overflow, an add is too soon within 3000 ms of a
  // remembered time other than 0.
  lemma TooSoonIff(added: map<UserId, Millis>, uid: UserId, now: Millis)
    ensures var last := if uid in added then added[uid] else 0;
            -0x8000_0000_0000_0000 <= now - last < 0x8000_0000_0000_0000 ==>
              (TooSoon(added, uid, now) <==> last != 0 && now - last < 3000)
  {
  }

  // When its turn comes, the session that has waited longest is added exactly if
  // every add accepted before for its user id was stored at least 3000 ms ago. Then
  // it is stored, and not stopped by the add unless it was stored already; otherwise
  // it is stopped.
  lemma TakeAcceptsIff<S>(es: seq<Event<S>>, j: nat, s: S, uid: UserId)
    requires ClockRuns(es) && j < |es| && es[j].Take?
    requires var st := Run(es[..j]); st.queue != [] && st.queue[0] == s && st.facts[s].uid == uid
    ensures var st, st' := Run(es[..j]), Run(es[..j + 1]);
            var accepted := forall i :: 0 <= i < j && Accepts(Run(es[..i]), es[i], uid) ==>
                              es[j].first - es[i].second >= 3000;
            && (Accepts(st, es[j], uid) <==> accepted)
            && s in st'.facts && st'.queue == st.queue[1..]
            && (accepted ==>
                  && uid in st'.stored && st'.stored[uid] == s && uid in st'.added && st'.added[uid] == es[j].second
                  && (st'.facts[s].stopped <==> st.facts[s].stopped || (uid in st.stored && st.stored[uid] == s)))
            && (!accepted ==> st'.facts[s].stopped && st'.added == st.added)
  {
    var st := Run(es[..j]);
    assert es[..j + 1][..j] == es[..j];
    var last := LastTime(st.added, uid);
    if last == 0 {
      forall i | 0 <= i < j
        ensures !Accepts(Run(es[..i]), es[i], uid)
      {
        if Accepts(Run(es[..i]), es[i], uid) {
          RemembersLastAdd(es, i, j, uid);
        }
      }
    } else {
      var k := RemembersAnAdd(es, j, uid);
      TooSoonIff(st.added, uid, es[j].first);
      if !TooSoon(st.added, uid, es[j].first) {
        forall i | 0 <= i < j && Accepts(Run(es[..i]), es[i], uid)
          ensures es[j].first - es[i].second >= 3000
        {
          AcceptedAddsAreApart(es, i, j, uid);
        }
      }
    }
    TakenOutcome(st, es[j].first, es[j].second);
  }

  lemma TakenOutcome<S>(st: State<S>, first: Millis, second: Millis)
    requires WellFormed(st) && st.queue != []
    ensures var s, st' := st.queue[0], Taken(st, first, second);
            var uid := st.facts[s].uid;
            && s in st'.facts && st'.queue == st.queue[1..]
            && (!TooSoon(st.added, uid, first) ==>
                  && uid in st'.stored && st'.stored[uid] == s && uid in st'.added && st'.added[uid] == second
                  && (st'.facts[s].stopped <==> st.facts[s].stopped || (uid in st.stored && st.stored[uid] == s)))
            && (TooSoon(st.added, uid, first) ==> st'.facts[s].stopped && st'.added == st.added)
  {
    var waiting := st.(queue := st.queue[1..]);
    if !TooSoon(st.added, st.facts[st.queue[0]].uid, first) {
      AddStoresStoppedIff(waiting, st.queue[0], first, second);
    }
  }

  // ---------- The order of the queue ----------

  // Sessions in the order of their successful verifications.
  ghost function Logins<S>(es: seq<Event<S>>): seq<S> {
    if es == [] then []
    else
      var before, e := es[..|es| - 1], es[|es| - 1];
      if e.Verify? && e.ok && e.uid != 0 && e.s in Run(before).facts then Logins(before) + [e.s] else Logins(before)
  }

  // How many of them have had their turn.
  ghost function Turns<S>(es: seq<Event<S>>): nat {
    if es == [] then 0
    else
      var before := Turns(es[..|es| - 1]);
      if es[|es| - 1].Take? && before < |Logins(es[..|es| - 1])| then before + 1 else before
  }

  // Sessions get their turns in the order in which they were verified.
  lemma {:induction false} QueueIsFifo<S>(es: seq<Event<S>>)
    ensures Turns(es) <= |Logins(es)| && Run(es).queue == Logins(es)[Turns(es)..]
  {
    if es == [] {
    } else {
      var before := es[..|es| - 1];
      QueueIsFifo(before);
      QueueStep(Run(before), es[|es| - 1]);
    }
  }

  lemma QueueStep<S>(st: State<S>, e: Event<S>)
    requires WellFormed(st)
    ensures Step(st, e).queue
            == if e.Take? && st.queue != [] then st.queue[1..]
               else if e.Verify? && e.ok && e.uid != 0 && e.s in st.facts then st.queue + [e.s]
               else st.queue
  {
    if e.Take? && st.queue != [] {
      TakenOutcome(st, e.first, e.second);
    }
  }

  // ---------- Where stored sessions and live sessions differ ----------

  // An accepted add always stores the new session.
  // It stores one that is already stopped exactly if the session stopped while it
  // was waiting, or is added a second time under the same user id.
  lemma AddStoresStoppedIff<S>(st: State<S>, s: S, first: Millis, second: Millis)
    requires WellFormed(st) && s in st.facts && !TooSoon(st.added, st.facts[s].uid, first)
    ensures var uid, st' := st.facts[s].uid, Added(st, s, first, second);
            && uid in st'.stored && st'.stored[uid] == s
            && (st'.facts[s].stopped <==> st.facts[s].stopped || (uid in st.stored && st.stored[uid] == s))
  {
  }

  // The session that was stored under the user id before is stopped.
  lemma AddStopsPrevious<S>(st: State<S>, s: S, first: Millis, second: Millis)
    requires WellFormed(st) && s in st.facts && !TooSoon(st.added, st.facts[s].uid, first)
    requires st.facts[s].uid in st.stored
    ensures var previous, st' := st.stored[st.facts[s].uid], Added(st, s, first, second);
            previous in st'.facts && st'.facts[previous].stopped
  {
  }

  // Stopping a user stops the session that is stored under the user id, and no other.
  lemma StopUserStops<S>(st: State<S>, uid: UserId)
    requires WellFormed(st) && uid != 0 && uid in st.stored
    ensures var st' := Step(st, StopUser(uid));
            && st'.facts.Keys == st.facts.Keys && st'.facts[st.stored[uid]].stopped
            && (forall s :: s in st.facts && s != st.stored[uid] ==> st'.facts[s] == st.facts[s])
  {
  }

  // A stop leaves the user id, clears the verification and takes the link down; it
  // touches no other session, and a second one changes nothing.
  lemma StopSettles<S>(st: State<S>, s: S)
    requires s in st.facts
    ensures var st' := Stopped(st, s);
            && st'.facts.Keys == st.facts.Keys && st'.facts[s].stopped && st'.facts[s].uid == st.facts[s].uid
            && (!st.facts[s].stopped ==> !st'.facts[s].verified && st'.facts[s].link != Up)
            && (forall other :: other in st.facts && other != s ==> st'.facts[other] == st.facts[other])
            && st'.queue == st.queue && st'.added == st.added
            && Stopped(st', s) == st'
  {
  }

  // The link a session connected with.
  ghost function FirstLink<S>(es: seq<Event<S>>, s: S): Option<Link> {
    if es == [] then None
    else
      var before, e := FirstLink(es[..|es| - 1], s), es[|es| - 1];
      if before.None? && e.Connect? && e.s == s then Some(e.link) else before
  }

  lemma LinkStep<S>(st: State<S>, e: Event<S>, s: S, link: Link)
    requires WellFormed(st) && s in st.facts
    requires st.facts[s].link == if st.facts[s].stopped && link == Up then Down else link
    ensures var st' := Step(st, e);
            s in st'.facts && st'.facts[s].link == if st'.facts[s].stopped && link == Up then Down else link
  {
  }

  lemma AppearsByConnect<S>(st: State<S>, e: Event<S>, s: S)
    requires WellFormed(st) && s !in st.facts
    ensures s in Step(st, e).facts <==> e.Connect? && e.s == s
    ensures e.Connect? && e.s == s ==> Step(st, e).facts[s] == Facts(0, false, false, e.link)
  {
  }

  // Over every run a session keeps the link it connected with, except that an open
  // one is down as soon as the session has stopped.
  lemma {:induction false} LinkFollowsStop<S>(es: seq<Event<S>>, s: S)
    ensures s in Run(es).facts <==> FirstLink(es, s).Some?
    ensures s in Run(es).facts ==>
              var f, link := Run(es).facts[s], FirstLink(es, s).value;
              f.link == if f.stopped && link == Up then Down else link
  {
    if es == [] {
    } else {
      var before, e := es[..|es| - 1], es[|es| - 1];
      LinkFollowsStop(before, s);
      if s in Run(before).facts {
        LinkStep(Run(before), e, s, FirstLink(before, s).value);
      } else {
        AppearsByConnect(Run(before), e, s);
      }
    }
  }

  // A refused add takes away whatever session is stored under the user id, unless
  // the refused session was stopped or unverified before.
  lemma RefusedAddForgetsUserIff<S>(st: State<S>, s: S, first: Millis, second: Millis)
    requires WellFormed(st) && s in st.facts && TooSoon(st.added, st.facts[s].uid, first)
    ensures var uid, st' := st.facts[s].uid, Added(st, s, first, second);
            && st'.facts[s].stopped
            && (uid in st'.stored <==> uid in st.stored && (uid == 0 || st.facts[s].stopped || !st.facts[s].verified))
  {
  }

  // Stopping a session forgets it exactly if it is stored nowhere but under its
  // current user id, and verified if it is stored there.
  lemma StopForgetsIff<S>(st: State<S>, s: S)
    requires WellFormed(st) && s in st.facts && !st.facts[s].stopped
    ensures (forall u :: u in Stopped(st, s).stored ==> Stopped(st, s).stored[u] != s)
            <==> (forall u :: u in st.stored && st.stored[u] == s ==>
                    u != 0 && st.facts[s].verified && u == st.facts[s].uid)
  {
    var st' := Stopped(st, s);
    forall u | u in st.stored && st.stored[u] == s
      ensures u !in st'.stored <==> u != 0 && st.facts[s].verified && u == st.facts[s].uid
    {
    }
    assert forall u :: u in st'.stored ==> u in st.stored && st'.stored[u] == st.stored[u];
  }

  // ---------- Runs in which they differ ----------

  lemma RunSnoc<S>(es: seq<Event<S>>, e: Event<S>)
    ensures Run(es + [e]) == Step(Run(es), e)
  {
    assert (es + [e])[..|es|] == es;
  }

  lemma RunLogin<S>(es: seq<Event<S>>, s: S, uid: UserId)
    requires s !in Run(es).facts && uid != 0
    ensures var st := Run(es);
            Run(es + [Connect(s, Up)] + [Verify(s, uid, true)])
            == st.(facts := st.facts[s := Facts(uid, true, false, Up)], queue := st.queue + [s])
  {
    RunSnoc(es, Connect(s, Up));
    RunSnoc(es + [Connect(s, Up)], Verify(s, uid, true));
  }

  lemma RunFirstAdd<S>(s: S, uid: UserId, first: Millis, second: Millis)
    requires uid != 0
    ensures Run([Connect(s, Up), Verify(s, uid, true), Take(first, second)])
            == State(map[uid := s], 1, map[uid := second], [], map[s := Facts(uid, true, false, Up)])
  {
    RunLogin([], s, uid);
    var es := [] + [Connect(s, Up)] + [Verify(s, uid, true)];
    RunSnoc(es, Take(first, second));
    assert es + [Take(first, second)] == [Connect(s, Up), Verify(s, uid, true), Take(first, second)];
  }

  // A session that stops while it waits is stored stopped.
  lemma StopWhileWaiting<S>(s: S, uid: UserId, first: Millis, second: Millis)
    requires uid != 0
    ensures var st := Run([Connect(s, Up), Verify(s, uid, true), Stop(s), Take(first, second)]);
            st.stored == map[uid := s] && s in st.facts && st.facts[s].stopped
  {
    RunLogin([], s, uid);
    var es := [] + [Connect(s, Up)] + [Verify(s, uid, true)];
    RunSnoc(es, Stop(s));
    RunSnoc(es + [Stop(s)], Take(first, second));
    assert es + [Stop(s)] + [Take(first, second)]
        == [Connect(s, Up), Verify(s, uid, true), Stop(s), Take(first, second)];
  }

  // A second login that comes too soon takes the running session out of the map.
  lemma RefusedLoginEvicts<S>(a: S, b: S, uid: UserId, t: Millis, t': Millis, u: Millis, u': Millis)
    requires a != b && uid != 0 && t' != 0 && Elapsed(u, t') < 3000
    ensures var st := Run([Connect(a, Up), Verify(a, uid, true), Take(t, t'),
                           Connect(b, Up), Verify(b, uid, true), Take(u, u')]);
            && a in st.facts && st.facts[a] == Facts(uid, true, false, Up)
            && b in st.facts && st.facts[b].stopped
            && st.stored == map[] && st.count == 0
  {
    RunFirstAdd(a, uid, t, t');
    var es := [Connect(a, Up), Verify(a, uid, true), Take(t, t')];
    RunLogin(es, b, uid);
    var es' := es + [Connect(b, Up)] + [Verify(b, uid, true)];
    RunSnoc(es', Take(u, u'));
    assert es' + [Take(u, u')]
        == [Connect(a, Up), Verify(a, uid, true), Take(t, t'), Connect(b, Up), Verify(b, uid, true), Take(u, u')];
  }

  // A session whose later verification failed stays stored when it stops.
  lemma FailedVerifyStaysStored<S>(s: S, uid: UserId, uid': UserId, first: Millis, second: Millis)
    requires uid != 0 && uid' != 0
    ensures var st := Run([Connect(s, Up), Verify(s, uid, true), Take(first, second), Verify(s, uid', false), Stop(s)]);
            st.stored == map[uid := s] && s in st.facts && st.facts[s].stopped
  {
    RunFirstAdd(s, uid, first, second);
    var es := [Connect(s, Up), Verify(s, uid, true), Take(first, second)];
    RunSnoc(es, Verify(s, uid', false));
    RunSnoc(es + [Verify(s, uid', false)], Stop(s));
    assert es + [Verify(s, uid', false)] + [Stop(s)]
        == [Connect(s, Up), Verify(s, uid, true), Take(first, second), Verify(s, uid', false), Stop(s)];
  }

  // A session that was verified under a second user id is still stored under the first.
  lemma SecondUserStaysStored<S>(s: S, uid: UserId, uid': UserId, first: Millis, second: Millis)
    requires uid != 0 && uid' != 0 && uid != uid'
    ensures var st := Run([Connect(s, Up), Verify(s, uid, true), Take(first, second), Verify(s, uid', true), Stop(s)]);
            st.stored == map[uid := s] && s in st.facts && st.facts[s].stopped
  {
    RunFirstAdd(s, uid, first, second);
    var es := [Connect(s, Up), Verify(s, uid, true), Take(first, second)];
    RunSnoc(es, Verify(s, uid', true));
    RunSnoc(es + [Verify(s, uid', true)], Stop(s));
    assert es + [Verify(s, uid', true)] + [Stop(s)]
        == [Connect(s, Up), Verify(s, uid, true), Take(first, second), Verify(s, uid', true), Stop(s)];
  }

  // ---------- Runs in which they do not ----------

  // No session is verified twice.
  ghost predicate VerifiesOnce<S>(es: seq<Event<S>>) {
    forall i, j :: 0 <= i < j < |es| && es[i].Verify? && es[j].Verify? ==> es[i].s != es[j].s
  }

  // A session that has not been verified yet is waiting nowhere and stored nowhere.
  ghost predicate Unknown<S>(st: State<S>, s: S) {
    s !in st.queue && forall u :: u in st.stored ==> st.stored[u] != s
  }

  // Sessions are stored under their own user id only, and all that wait or are
  // stored are verified unless they have stopped.
  ghost predicate Tidy<S>(st: State<S>)
    requires WellFormed(st)
  {
    && (forall u :: u in st.stored ==> st.facts[st.stored[u]].uid == u)
    && (forall u :: u in st.stored ==> var f := st.facts[st.stored[u]]; f.verified || f.stopped)
    && (forall i :: 0 <= i < |st.queue| ==> var f := st.facts[st.queue[i]]; f.verified || f.stopped)
  }

  lemma UnknownStep<S>(st: State<S>, e: Event<S>, s: S)
    requires WellFormed(st) && Unknown(st, s) && !(e.Verify? && e.s == s)
    ensures Unknown(Step(st, e), s)
  {
  }

  lemma RoomTidy<S>(st: State<S>, uid: UserId, s: S)
    requires WellFormed(st) && Tidy(st) && s in st.facts && (st.facts[s].verified || st.facts[s].stopped)
    ensures var room := MadeRoom(st, uid);
            && WellFormed(room) && Tidy(room) && s in room.facts
            && room.facts[s].uid == st.facts[s].uid && (room.facts[s].verified || room.facts[s].stopped)
  {
  }

  lemma TidyTaken<S>(st: State<S>, first: Millis, second: Millis)
    requires WellFormed(st) && Tidy(st)
    ensures WellFormed(Taken(st, first, second)) && Tidy(Taken(st, first, second))
  {
    if st.queue != [] {
      var s, waiting := st.queue[0], st.(queue := st.queue[1..]);
      assert WellFormed(waiting) && Tidy(waiting);
      RoomTidy(waiting, st.facts[s].uid, s);
    }
  }

  lemma TidyStep<S>(st: State<S>, e: Event<S>)
    requires WellFormed(st) && Tidy(st) && (e.Verify? ==> Unknown(st, e.s))
    ensures WellFormed(Step(st, e)) && Tidy(Step(st, e))
  {
    match e
    case Connect(_, _) =>
    case Verify(_, _, _) =>
    case Take(first, second) => TidyTaken(st, first, second);
    case Stop(_) =>
    case StopUser(_) =>
    case Delete(_) =>
  }

  lemma {:induction false} VerifiedOnceIsTidy<S>(es: seq<Event<S>>)
    requires VerifiesOnce(es)
    ensures Tidy(Run(es))
    ensures forall s :: (forall i :: 0 <= i < |es| ==> !(es[i].Verify? && es[i].s == s)) ==> Unknown(Run(es), s)
  {
    if es == [] {
    } else {
      var n := |es| - 1;
      VerifiedOnceIsTidy(es[..n]);
      TidyStep(Run(es[..n]), es[n]);
      forall s | forall i :: 0 <= i < |es| ==> !(es[i].Verify? && es[i].s == s)
        ensures Unknown(Run(es), s)
      {
        assert forall i :: 0 <= i < n ==> es[..n][i] == es[i];
        UnknownStep(Run(es[..n]), es[n], s);
      }
    }
  }

  // In a run that verifies no session twice, a running session that stops is
  // stored nowhere any more.
  lemma StopForgets<S>(es: seq<Event<S>>, s: S)
    requires VerifiesOnce(es) && s in Run(es).facts && !Run(es).facts[s].stopped
    ensures var st := Step(Run(es), Stop(s)); forall u :: u in st.stored ==> st.stored[u] != s
  {
    VerifiedOnceIsTidy(es);
    ZeroIsNeverStored(es);
    StopForgetsIff(Run(es), s);
  }
}
