// The session objects: a session that stops once, and the manager that it calls
// back into while the manager is adding another session.
module Sessions {
  import Int32
  import opened SessionSpec

  class Session {
    var userId: UserId
    var vrifyed: bool
    var stopOnce: bool
    var conn: Link

    ghost function Facts(): Facts
      reads this
    {
      SessionSpec.Facts.Facts(userId, vrifyed, stopOnce, conn)
    }

    constructor (conn: Link)
      ensures Facts() == SessionSpec.Facts.Facts(0, false, false, conn)
    {
      this.conn := conn;
      userId, vrifyed, stopOnce := 0, false, false;
    }

    method CloseLink()
      modifies this
      ensures Facts() == old(Facts()).(verified := false, link := if old(conn) == Up then Down else old(conn))
    {
      vrifyed := false;
      if conn == Up {
        conn := Down;
      }
    }

    // The body runs once; stopping a verified session calls back into the manager.
    method OnStop(sm: SessionMgr)
      requires sm.Valid() && this in sm.all
      modifies this, sm`sessions, sm`count
      ensures sm.Valid() && sm.State() == Stopped(old(sm.State()), this)
      ensures stopOnce && userId == old(userId)
      ensures if old(stopOnce) then vrifyed == old(vrifyed) && conn == old(conn)
              else !vrifyed && conn == if old(conn) == Up then Down else old(conn)
      ensures sm.sessions == if !old(stopOnce) && old(vrifyed) && userId != 0 then old(sm.sessions) - {userId}
                             else old(sm.sessions)
    {
      ghost var before := sm.State();
      assert before.facts[this] == Facts();
      if !stopOnce {
        if vrifyed {
          sm.DelSession(userId);
        }
        CloseLink();
        stopOnce := true;
        assert sm.State().facts == before.facts[this := Facts()];
      }
    }

    // The verification message; `verified` is the answer of the application.
    method OnVerify(sm: SessionMgr, uid: UserId, verified: bool) returns (err: bool)
      requires sm.Valid() && this in sm.all
      modifies this, sm`addChan
      ensures sm.Valid()
      ensures err == (uid == 0) && sm.State() == Verified(old(sm.State()), this, uid, verified)
      ensures userId == (if uid != 0 && verified then uid else old(userId))
      ensures vrifyed == (if uid == 0 then old(vrifyed) else verified)
      ensures stopOnce == old(stopOnce) && conn == old(conn)
      ensures sm.addChan == (if uid != 0 && verified then old(sm.addChan) + [this] else old(sm.addChan))
    {
      ghost var before := sm.State();
      if uid == 0 {
        return true;
      }
      if verified {
        userId := uid;
        vrifyed := true;
        var _ := sm.AddSession(this);
      } else {
        vrifyed := false;
      }
      assert sm.State().facts == Verified(before, this, uid, verified).facts;
      return false;
    }
  }

  class SessionMgr {
    var sessions: map<UserId, Session>
    var count: int
    var addChan: seq<Session>
    var addMap: map<UserId, Millis>
    ghost var all: set<Session>

    ghost predicate Valid()
      reads this
    {
      && (forall u :: u in sessions ==> sessions[u] in all)
      && (forall i :: 0 <= i < |addChan| ==> addChan[i] in all)
    }

    ghost function State(): (st: State<Session>)
      requires Valid()
      reads this, all
      ensures WellFormed(st) && st.facts.Keys == all
    {
      SessionSpec.State.State(sessions, count, addMap, addChan, map s | s in all :: s.Facts())
    }

    constructor ()
      ensures Valid() && all == {} && State() == Initial()
    {
      sessions, count, addChan, addMap, all := map[], 0, [], map[], {};
    }

    method Connect(conn: Link) returns (s: Session)
      requires Valid()
      modifies this
      ensures Valid() && fresh(s) && all == old(all) + {s}
      ensures State() == Step(old(State()), SessionSpec.Connect(s, conn))
    {
      s := new Session(conn);
      all := all + {s};
      assert State().facts == old(State().facts)[s := s.Facts()];
    }

    method AddSession(session: Session) returns (ok: bool)
      requires Valid() && session in all
      modifies this`addChan
      ensures Valid() && ok == (session.userId != 0)
      ensures addChan == if ok then old(addChan) + [session] else old(addChan)
    {
      if session.userId == 0 {
        return false;
      }
      addChan := addChan + [session];
      return true;
    }

    method GetSession(uid: UserId) returns (s: Session?)
      requires Valid()
      ensures s == if uid in sessions then sessions[uid] else null
    {
      if uid in sessions {
        return sessions[uid];
      }
      return null;
    }

    method DelSession(uid: UserId)
      requires Valid()
      modifies this`sessions, this`count
      ensures Valid() && State() == Deleted(old(State()), uid)
      ensures sessions == if uid == 0 then old(sessions) else old(sessions) - {uid}
    {
      if uid == 0 {
        return;
      }
      var ss := GetSession(uid);
      if ss != null {
        sessions := sessions - {uid};
        count := Int32.Dec32(count);
      }
    }

    method StopSession(uid: UserId)
      requires Valid()
      modifies this`sessions, this`count, all
      ensures Valid() && State() == Step(old(State()), StopUser(uid))
      ensures uid != 0 && uid in old(sessions) ==> old(sessions)[uid].stopOnce
      ensures uid == 0 || uid !in old(sessions) ==> State() == old(State())
    {
      if uid == 0 {
        return;
      }
      var ss := GetSession(uid);
      if ss != null {
        ss.OnStop(this);
      }
    }

    // The old session under the user id makes way first: it is taken out of the map
    // and then stopped, and so calls `DelSession` on a map it has just left.
    method MakeRoom(uid: UserId)
      requires Valid()
      modifies this`sessions, this`count, all
      ensures Valid() && State() == MadeRoom(old(State()), uid)
    {
      ghost var before := State();
      var previous := GetSession(uid);
      if previous != null {
        sessions := sessions - {uid};
        assert State() == before.(stored := before.stored - {uid});
        previous.OnStop(this);
      } else {
        count := Int32.Inc32(count);
      }
    }

    method LastAdd(uid: UserId) returns (t: Millis)
      ensures t == LastTime(addMap, uid)
    {
      t := if uid in addMap then addMap[uid] else 0;
    }

    // `first` and `second` are the two readings of the clock.
    method Add(session: Session, first: Millis, second: Millis) returns (ok: bool)
      requires Valid() && session in all
      modifies this`sessions, this`count, this`addMap, all
      ensures Valid() && State() == Added(old(State()), session, first, second)
      ensures var last := if old(session.userId) in old(addMap) then old(addMap)[old(session.userId)] else 0;
              -0x8000_0000_0000_0000 <= first - last < 0x8000_0000_0000_0000 ==>
                (ok <==> last == 0 || first - last >= 3000)
      ensures session.userId == old(session.userId)
      ensures ok ==>
                && session.userId in sessions && sessions[session.userId] == session
                && addMap == old(addMap)[session.userId := second]
                && (session.userId in old(sessions) ==> old(sessions)[session.userId].stopOnce)
      ensures !ok ==> session.stopOnce && addMap == old(addMap)
    {
      ghost var before := State();
      var lastTime := LastAdd(session.userId);
      TooSoonIff(addMap, session.userId, first);
      if lastTime != 0 && Elapsed(first, lastTime) < THROTTLE {
        session.OnStop(this);
        return false;
      }
      AddStoresStoppedIff(before, session, first, second);
      if session.userId in sessions {
        AddStopsPrevious(before, session, first, second);
      }
      ok := Admit(session, second);
    }

    // The session is let through: it gets its place and its time.
    method Admit(session: Session, second: Millis) returns (ok: bool)
      requires Valid() && session in all
      modifies this`sessions, this`count, this`addMap, all
      ensures Valid() && ok
      ensures var uid, room := old(session.userId), MadeRoom(old(State()), old(session.userId));
              State() == room.(stored := room.stored[uid := session], added := room.added[uid := second])
    {
      ghost var before := State();
      MakeRoom(session.userId);
      ghost var room := State();
      assert room.facts[session].uid == before.facts[session].uid;
      var loaded := session.userId in sessions;
      if !loaded {
        sessions := sessions[session.userId := session];
      }
      addMap := addMap[session.userId := second];
      assert State().facts == room.facts;
      return !loaded;
    }

    method TakeNext(first: Millis, second: Millis)
      requires Valid() && addChan != []
      modifies this, all
      ensures Valid() && all == old(all) && addChan == old(addChan)[1..]
      ensures State() == Taken(old(State()), first, second)
    {
      ghost var before := State();
      var ss := addChan[0];
      addChan := addChan[1..];
      assert State() == before.(queue := before.queue[1..]);
      var _ := Add(ss, first, second);
    }

    // The manager's own loop, until no session waits; `clock` gives the two
    // readings for each of them.
    method Drain(clock: seq<(Millis, Millis)>)
      requires Valid() && |clock| == |addChan|
      modifies this, all
      ensures Valid() && all == old(all) && addChan == []
      ensures State() == TakenAll(old(State()), clock)
    {
      ghost var before := State();
      var i := 0;
      while addChan != []
        invariant 0 <= i <= |clock| && |addChan| == |clock| - i
        invariant Valid() && all == old(all)
        invariant State() == TakenAll(before, clock[..i])
        decreases |addChan|
      {
        TakeNext(clock[i].0, clock[i].1);
        i := i + 1;
        assert clock[..i][..i - 1] == clock[..i - 1];
      }
      assert clock[..i] == clock;
    }

    method Count() returns (n: int)
      ensures n == count
    {
      return count;
    }
  }

  // The loop as events.
  ghost function TakenAll(st: State<Session>, clock: seq<(Millis, Millis)>): (r: State<Session>)
    requires WellFormed(st)
    ensures WellFormed(r)
  {
    if clock == [] then st
    else
      var n, before := |clock| - 1, TakenAll(st, clock[..|clock| - 1]);
      StepWellFormed(before, Take(clock[n].0, clock[n].1));
      Step(before, Take(clock[n].0, clock[n].1))
  }
}
