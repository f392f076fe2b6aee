/**
  The connection supervisor: handles move between the list of active and the
  list of sleeping connections. Whether the database answers is left open.
 */
module ConnPool {
  import opened Wrappers
  import opened Define

  const PERSECOND_THREAD_SQL_NUM := 200
  const CHECKTHREAD_SPACE_TIME := 5
  const DAEMON_RECONNECT_TIME := 30
  const PER_TURN := PERSECOND_THREAD_SQL_NUM * CHECKTHREAD_SPACE_TIME

  /** The part of CSqlClientHandle the supervisor works on. */
  class Handle {
    var connected: bool  // m_bCooncet
    var active: bool     // m_Active
    ghost var asked: nat // how often the supervisor has asked, or opened, the connection

    /** The source's constructor returns only once the database is open. */
    constructor ()
      ensures connected && active
    {
      connected, active, asked := true, true, 0;
    }

    method ReOpenDB() returns (ok: bool)
      modifies this`connected, this`asked
      ensures ok == connected && asked == old(asked) + 1
    {
      asked := asked + 1;
      connected := *;
      return connected;
    }

    /** A connection that does not answer is opened again, once; a handle left
        without a connection stops being active. */
    method ReConnect() returns (ok: bool)
      modifies this
      ensures ok == connected && (connected ==> old(connected)) && active == (old(active) && connected)
      ensures asked == old(asked) + 1
    {
      asked := asked + 1;
      if connected {
        var alive := *;  // mysql_ping
        if !alive {
          connected := *;
        }
      }
      if !connected {
        active := false;
      }
      return connected;
    }
  }

  /** The handles of hs that answered `want`, in order. */
  ghost function Picked(hs: seq<Handle>, oks: seq<bool>, want: bool): (r: seq<Handle>)
    requires |oks| <= |hs|
    ensures |r| <= |oks|
    decreases |oks|
  {
    if oks == [] then []
    else
      var last := |oks| - 1;
      Picked(hs, oks[..last], want) + if oks[last] == want then [hs[last]] else []
  }

  /** The connections n statements in one turn ask for. */
  function Demand(n: nat): (d: nat) {
    if n % PER_TURN != 0 then n / PER_TURN + 1 else n / PER_TURN
  }

  lemma DemandLeast(n: nat, d: nat)
    ensures n <= d * PER_TURN <==> Demand(n) <= d
  {
  }

  class SqlConnPool {
    const maxHandles: nat        // getmaxhandlebuf()
    var connList: seq<Handle>    // m_connList: active
    var bakList: seq<Handle>     // m_bakList: sleeping
    var sqlCount: nat            // m_nSqlCountPerSapce
    var lastReConnectTime: int   // m_LastReConnectTime

    /** Each handle is in one list, once, and active exactly when in connList. */
    ghost predicate Valid()
      reads this`connList, this`bakList, connList, bakList
    {
      && Distinct(connList) && Distinct(bakList)
      && (forall h :: h in connList ==> h.active)
      && (forall h :: h in bakList ==> !h.active)
    }

    ghost function Handles(): multiset<Handle>
      reads this`connList, this`bakList
    {
      multiset(connList) + multiset(bakList)
    }

    /** InitConnection; creating a handle may fail. */
    constructor (maxHandles: nat)
      ensures Valid() && this.maxHandles == maxHandles && bakList == [] && |connList| <= maxHandles
      ensures forall h :: h in connList ==> fresh(h) && h.connected
    {
      this.maxHandles := maxHandles;
      connList, bakList, sqlCount, lastReConnectTime := [], [], 0, 0;
      new;
      for i := 0 to maxHandles
        invariant Valid() && this.maxHandles == maxHandles && bakList == [] && |connList| <= i
        invariant forall h :: h in connList ==> fresh(h) && allocated(h) && h.connected
      {
        var created := *;
        if created {
          var handle := new Handle();
          assert handle !in connList;
          connList := connList + [handle];
        }
      }
    }

    /** Wakes sleeping handles from the front, at most one in each of nCount
        attempts. A handle that cannot be opened stays in front and costs an
        attempt; a connected one never does. */
    method AddConnectionFromBak(nCount: int) returns (ghost moved: nat, ghost fails: seq<nat>)
      requires Valid()
      modifies this`connList, this`bakList, bakList
      ensures Valid() && Handles() == old(Handles())
      ensures moved <= |old(bakList)| && moved + Sum(fails) <= Max(nCount, 0)
      ensures connList == old(connList) + old(bakList)[..moved] && bakList == old(bakList)[moved..]
      ensures forall h :: h in old(bakList)[..moved] ==> h.connected
      ensures bakList == [] || moved + Sum(fails) == Max(nCount, 0)
      ensures (forall h :: h in old(bakList) ==> old(h.connected)) ==> Sum(fails) == 0
      ensures Tried(old(Looks(bakList)), Looks(old(bakList)), fails, moved)
    {
      hide Valid, Distinct, Tried, Sum, Looks;
      ghost var conn, bak, looks := connList, bakList, Looks(bakList);
      moved, fails := WakeLoop(nCount);
      SameHandles(conn, bak, moved);
      WokenConnected(looks, Looks(bak), fails, moved);
      assert forall j :: 0 <= j < moved ==> bak[j].connected == Looks(bak)[j].connected;
      if forall j :: 0 <= j < |looks| ==> looks[j].connected {
        NoneInVain(looks, Looks(bak), fails, moved);
      } else {
        var j :| 0 <= j < |looks| && !looks[j].connected;
        assert bak[j] in old(bakList) && !old(bakList[j].connected);
      }
    }

    /** Its loop. */
    method WakeLoop(nCount: int) returns (ghost moved: nat, ghost fails: seq<nat>)
      requires Valid()
      modifies this`connList, this`bakList, bakList
      ensures Valid() && moved <= |old(bakList)| && moved + Sum(fails) <= Max(nCount, 0)
      ensures connList == old(connList) + old(bakList)[..moved] && bakList == old(bakList)[moved..]
      ensures bakList == [] || moved + Sum(fails) == Max(nCount, 0)
      ensures Tried(old(Looks(bakList)), Looks(old(bakList)), fails, moved)
    {
      hide Valid, Distinct, Tried, Sum, Looks;
      moved, fails := 0, seq(|bakList|, _ => 0);
      ghost var conn, bak, looks := connList, bakList, Looks(bakList);
      NoneTried(looks, fails);
      ListsApart();
      var n := nCount;
      while |bakList| > 0 && n > 0
        invariant moved <= |bak| && moved + Sum(fails) + n == nCount && (moved > 0 || Sum(fails) > 0 ==> n >= 0)
        invariant connList == conn + bak[..moved] && bakList == bak[moved..]
        invariant Valid() && Tried(looks, Looks(bak), fails, moved) && Distinct(bak)
        decreases n
      {
        assert bakList[0] == bak[moved] && bak[..moved + 1] == bak[..moved] + [bak[moved]];
        assert forall h :: h in bakList ==> h in bak;
        moved, fails := TryNext(bak, looks, fails, moved);
        n := n - 1;
      }
    }

    lemma ListsApart()
      requires Valid()
      ensures Distinct(bakList) && Distinct(connList)
      ensures forall i, j :: 0 <= i < |connList| && 0 <= j < |bakList| ==> connList[i] != bakList[j]
    {
      forall i, j | 0 <= i < |connList| && 0 <= j < |bakList| ensures connList[i] != bakList[j] {
        assert connList[i] in connList && bakList[j] in bakList;
      }
    }

    /** One attempt, with the account of all of them. */
    method TryNext(ghost bak: seq<Handle>, ghost looks: seq<Look>, ghost fails: seq<nat>, ghost moved: nat)
      returns (ghost moved': nat, ghost fails': seq<nat>)
      requires Valid() && bakList != [] && moved < |bak| && bakList == bak[moved..] && Distinct(bak)
      requires Tried(looks, Looks(bak), fails, moved)
      modifies this`connList, this`bakList, bakList
      ensures Valid() && moved <= moved' <= moved + 1 && moved' + Sum(fails') == moved + Sum(fails) + 1
      ensures connList == old(connList) + (if moved' > moved then [bak[moved]] else []) && bakList == bak[moved'..]
      ensures moved' > moved <==> bak[moved].connected
      ensures (old(bak[moved].connected) ==> moved' > moved)
      ensures forall h :: h in bak && h != bak[moved] ==> h.connected == old(h.connected)
      ensures Tried(looks, Looks(bak), fails', moved')
    {
      hide Valid, Sum, Tried, Looks;
      ghost var now := Looks(bak);
      FailsLength(looks, now, fails, moved);
      assert forall j :: moved <= j < |bak| ==> bak[j] == bakList[j - moved] && bak[j] in bakList;
      NotLater(bak, moved);
      label before: var ok := TryFront();
      forall j | 0 <= j < |bak| && j != moved ensures Looks(bak)[j] == now[j] {
        assert bak[j] != bak[moved];
        assert bak[j] in old@before(bakList) || bak[j] !in old@before(bakList);
      }
      LooksDiffer(now, Looks(bak), moved, Look(ok, now[moved].asked + if now[moved].connected then 0 else 1));
      if ok {
        moved', fails' := moved + 1, fails;
        TriedWell(looks, now, Looks(bak), fails, moved);
      } else {
        moved', fails' := moved, fails[moved := fails[moved] + 1];
        TriedInVain(looks, now, Looks(bak), fails, moved);
        SumMore(fails, moved);
      }
    }

    /** One attempt: the front sleeping handle is woken if it is, or can be, connected. */
    method TryFront() returns (ok: bool)
      requires Valid() && bakList != []
      modifies this`connList, this`bakList, bakList
      ensures Valid()
      ensures connList == old(connList) + if ok then [old(bakList)[0]] else []
      ensures bakList == if ok then old(bakList)[1..] else old(bakList)
      ensures ok == old(bakList)[0].connected && (old(bakList[0].connected) ==> ok)
      ensures old(bakList)[0].asked == old(bakList[0].asked) + if old(bakList[0].connected) then 0 else 1
      ensures forall h :: h in old(bakList) && h != old(bakList)[0] ==> h.connected == old(h.connected) && h.asked == old(h.asked)
    {
      ok := true;
      if !bakList[0].connected {
        ok := bakList[0].ReOpenDB();
      }
      if ok {
        Wake();
      } else {
        assert connList + [] == connList;
      }
    }

    /** Moves the front sleeping handle behind the active ones. */
    method Wake()
      requires Valid() && bakList != []
      modifies this`connList, this`bakList, bakList
      ensures forall h :: h in old(bakList) ==> h.connected == old(h.connected) && h.asked == old(h.asked)
      ensures Valid() && connList == old(connList) + [old(bakList)[0]] && bakList == old(bakList)[1..]
    {
      var front := bakList[0];
      assert front !in connList && front !in bakList[1..];
      connList := connList + [front];
      bakList := bakList[1..];
      front.active := true;
    }

    /** Puts the nCount handles longest active to sleep, or all of them. */
    method DelConnectionFromActive(nCount: int)
      requires Valid()
      modifies this`connList, this`bakList, connList
      ensures Valid() && Handles() == old(Handles())
      ensures var m := Max(Min(nCount, |old(connList)|), 0);
        connList == old(connList)[m..] && bakList == old(bakList) + old(connList)[..m]
      ensures forall h :: h in old(connList) ==> h.connected == old(h.connected) && h.asked == old(h.asked)
    {
      hide Valid, Distinct;
      ghost var conn, bak, m := connList, bakList, 0;
      var n := nCount;
      while |connList| > 0 && n > 0
        invariant m <= |conn| && m + n == nCount && (m > 0 ==> n >= 0)
        invariant connList == conn[m..] && bakList == bak + conn[..m]
        invariant forall h :: h in conn ==> h.connected == old(h.connected) && h.asked == old(h.asked)
        invariant Valid()
        decreases n
      {
        assert connList[0] == conn[m] && conn[..m + 1] == conn[..m] + [conn[m]];
        assert forall h :: h in connList ==> h in conn;
        Sleep();
        n := n - 1;
        m := m + 1;
      }
      SameHandles(bak, conn, m);
    }

    /** Moves the front active handle behind the sleeping ones. */
    method Sleep()
      requires Valid() && connList != []
      modifies this`connList, this`bakList, connList
      ensures forall h :: h in old(connList) ==> h.connected == old(h.connected) && h.asked == old(h.asked)
      ensures Valid() && bakList == old(bakList) + [old(connList)[0]] && connList == old(connList)[1..]
    {
      var front := connList[0];
      assert front !in bakList && front !in connList[1..];
      front.active := false;
      bakList := bakList + [front];
      connList := connList[1..];
    }

    /** The check for lost connections: every handle is asked once; the active
        ones that stay without a connection go to sleep behind the others. `oks`
        is what asking the active ones gave. */
    method Reconnect() returns (ghost oks: seq<bool>)
      requires Valid()
      modifies this`connList, this`bakList, connList, bakList
      ensures Valid() && Handles() == old(Handles()) && |oks| == |old(connList)|
      ensures forall i :: 0 <= i < |oks| ==> oks[i] == old(connList)[i].connected
      ensures connList == Picked(old(connList), oks, true)
      ensures bakList == old(bakList) + Picked(old(connList), oks, false)
      ensures forall h :: h in old(connList) || h in old(bakList) ==> h.asked == old(h.asked) + 1
    {
      ReconnectSleeping();
      oks := ReconnectActive();
    }

    method ReconnectActive() returns (ghost oks: seq<bool>)
      requires Valid()
      modifies this`connList, this`bakList, connList
      ensures Valid() && Handles() == old(Handles()) && |oks| == |old(connList)|
      ensures forall i :: 0 <= i < |oks| ==> oks[i] == old(connList)[i].connected
      ensures connList == Picked(old(connList), oks, true)
      ensures bakList == old(bakList) + Picked(old(connList), oks, false)
      ensures forall h :: h in old(connList) ==> h.asked == old(h.asked) + 1
    {
      hide Valid, Asking, Looks;
      ghost var conn, bak, looks := connList, bakList, Looks(connList);
      var i := 0;
      oks := [];
      NoneAsked();
      while i < |connList|
        invariant Valid() && Asking(conn, bak, looks, oks, i) && |connList| - i == |conn| - |oks|
        decreases |conn| - |oks|
      {
        NextAsked(conn, bak, looks, oks, i);
        var ok := AskNext(i, conn, bak, looks, oks);
        if ok {
          i := i + 1;
        }
        oks := oks + [ok];
      }
      AllAsked(conn, bak, looks, oks, i);
    }

    /** The lists after the first active handles are asked; the next one to ask is
        in place i. */
    ghost predicate Asking(conn: seq<Handle>, bak: seq<Handle>, looks: seq<Look>, oks: seq<bool>, i: nat)
      reads this, conn
    {
      && Distinct(conn) && |oks| <= |conn| && i == |Picked(conn, oks, true)|
      && connList == Picked(conn, oks, true) + conn[|oks|..] && bakList == bak + Picked(conn, oks, false)
      && (forall j :: 0 <= j < |oks| ==> oks[j] == conn[j].connected)
      && |looks| == |conn| && forall j :: 0 <= j < |conn| ==> conn[j].asked == looks[j].asked + if j < |oks| then 1 else 0
    }

    lemma NoneAsked()
      requires Valid()
      ensures Asking(connList, bakList, Looks(connList), [], 0)
    {
      PickedNone(connList);
    }

    lemma NextAsked(conn: seq<Handle>, bak: seq<Handle>, looks: seq<Look>, oks: seq<bool>, i: nat)
      requires Asking(conn, bak, looks, oks, i) && i < |connList|
      ensures |oks| < |conn| && connList[i] == conn[|oks|]
    {
    }

    lemma AllAsked(conn: seq<Handle>, bak: seq<Handle>, looks: seq<Look>, oks: seq<bool>, i: nat)
      requires Asking(conn, bak, looks, oks, i) && |connList| - i == |conn| - |oks| && i >= |connList|
      ensures |oks| == |conn| && connList == Picked(conn, oks, true) && bakList == bak + Picked(conn, oks, false)
      ensures Handles() == multiset(conn) + multiset(bak)
      ensures forall j :: 0 <= j < |oks| ==> oks[j] == conn[j].connected
      ensures |looks| == |conn| && forall j :: 0 <= j < |conn| ==> conn[j].asked == looks[j].asked + 1
    {
      hide Picked;
      assert |oks| == |conn|;
      PickedBoth(conn, oks);
    }

    method AskNext(i: nat, ghost conn: seq<Handle>, ghost bak: seq<Handle>, ghost looks: seq<Look>, ghost oks: seq<bool>) returns (ok: bool)
      requires Valid() && Asking(conn, bak, looks, oks, i) && i < |connList|
      modifies this`connList, this`bakList, connList[i]
      ensures Valid() && Asking(conn, bak, looks, oks + [ok], if ok then i + 1 else i)
      ensures |connList| == if ok then |old(connList)| else |old(connList)| - 1
    {
      hide Picked, Valid, Distinct;
      ghost var kept := Picked(conn, oks, true);
      AskedNext(kept, conn, |oks|);
      OthersDiffer(conn, |oks|);
      ok := ReconnectAt(i, kept, conn[|oks| + 1..]);
      PickedNext(conn, oks, ok);
    }

    /** Asks active handle i, which is between `kept` and `rest`; without a
        connection it goes to sleep. */
    method ReconnectAt(i: nat, ghost kept: seq<Handle>, ghost rest: seq<Handle>) returns (ok: bool)
      requires Valid() && i == |kept| < |connList| && connList == kept + [connList[i]] + rest
      modifies this`connList, this`bakList, connList[i]
      ensures Valid() && ok == old(connList[i]).connected && (ok ==> old(connList[i].connected))
      ensures old(connList[i]).asked == old(connList[i].asked) + 1
      ensures connList == (if ok then kept + [old(connList)[i]] else kept) + rest
      ensures bakList == if ok then old(bakList) else old(bakList) + [old(connList)[i]]
    {
      var h := connList[i];
      assert connList[..i] == kept && connList[i + 1..] == rest;
      assert h !in bakList && h !in kept && h !in rest;
      ok := h.ReConnect();
      if !ok {
        connList := connList[..i] + connList[i + 1..];
        bakList := bakList + [h];
      }
    }

    /** Sleeping handles are opened, or asked, where they are. */
    method ReconnectSleeping()
      requires Valid()
      modifies bakList
      ensures Valid()
      ensures forall h :: h in connList ==> h.connected == old(h.connected) && h.asked == old(h.asked)
      ensures forall h :: h in bakList ==> h.asked == old(h.asked) + 1
    {
      for i := 0 to |bakList|
        invariant Valid()
        invariant forall h :: h in connList ==> h.connected == old(h.connected) && h.asked == old(h.asked)
        invariant forall j :: 0 <= j < |bakList| ==> bakList[j].asked == old(bakList[j].asked) + if j < i then 1 else 0
      {
        if !bakList[i].connected {
          var ok := bakList[i].ReOpenDB();
        } else {
          var ok := bakList[i].ReConnect();
        }
      }
    }

    /** The scheduling at the end of a turn: handles are woken up to the demand,
        or put to sleep down to the demand or half the maximum. */
    method Schedule() returns (ghost moved: nat, ghost fails: seq<nat>)
      requires Valid()
      modifies this`connList, this`bakList, this`sqlCount, connList, bakList
      ensures Valid() && Handles() == old(Handles()) && sqlCount == 0
      ensures Scheduled(old(connList), old(bakList), Demand(old(sqlCount)), moved, Sum(fails))
      ensures (forall h :: h in old(bakList) ==> old(h.connected)) ==> Sum(fails) == 0
      ensures Tried(old(Looks(bakList)), Looks(old(bakList)), fails, moved)
      ensures forall h :: h in old(connList) ==> h.connected == old(h.connected) && h.asked == old(h.asked)
    {
      hide Valid, Distinct, Handles, Tried, Sum, Looks;
      moved, fails := 0, seq(|bakList|, _ => 0);
      NoneTried(Looks(bakList), fails);
      var demand := sqlCount / PER_TURN;
      if sqlCount % PER_TURN != 0 {
        demand := demand + 1;
      }
      if |connList| < demand {
        moved, fails := OpenSome(demand);
      } else if |connList| > demand && maxHandles >= 2 {
        CloseSome(demand);
      }
      sqlCount := 0;
    }

    /** Opens up to the demand. */
    method OpenSome(demand: nat) returns (ghost moved: nat, ghost fails: seq<nat>)
      requires Valid() && |connList| < demand
      modifies this`connList, this`bakList, bakList
      ensures Valid() && Handles() == old(Handles())
      ensures moved <= |old(bakList)| && connList == old(connList) + old(bakList)[..moved] && bakList == old(bakList)[moved..]
      ensures |connList| <= demand && (bakList == [] || moved + Sum(fails) == demand - |old(connList)|)
      ensures (forall h :: h in old(bakList) ==> old(h.connected)) ==> Sum(fails) == 0
      ensures Tried(old(Looks(bakList)), Looks(old(bakList)), fails, moved)
      ensures forall h :: h in old(connList) ==> h.connected == old(h.connected) && h.asked == old(h.asked)
    {
      hide Valid, Handles, Tried, Sum, Looks;
      moved, fails := 0, seq(|bakList|, _ => 0);
      NoneTried(Looks(bakList), fails);
      ListsApart();
      assert forall h :: h in connList ==> h !in bakList;
      if |bakList| > 0 {
        moved, fails := AddConnectionFromBak(demand - |connList|);
      }
    }

    /** Closes down to the demand, but leaves half the maximum. */
    method CloseSome(demand: nat)
      requires Valid() && |connList| > demand && maxHandles >= 2
      modifies this`connList, this`bakList, connList
      ensures Valid() && Handles() == old(Handles()) && Looks(old(bakList)) == old(Looks(bakList))
      ensures |old(connList)| > maxHandles / 2 ==>
        var m := |old(connList)| - Max(demand, maxHandles / 2);
        connList == old(connList)[m..] && bakList == old(bakList) + old(connList)[..m]
      ensures |old(connList)| <= maxHandles / 2 ==> connList == old(connList) && bakList == old(bakList)
      ensures forall h :: h in old(connList) ==> h.connected == old(h.connected) && h.asked == old(h.asked)
    {
      hide Valid, Handles, Looks;
      ListsApart();
      assert forall h :: h in connList ==> h !in bakList;
      var half := maxHandles / 2;
      if |connList| > half {
        DelConnectionFromActive(Min(|connList| - demand, |connList| - half));
      }
    }

    /** How scheduling moves the handles when d connections are asked for: it wakes
        sleeping ones from the front up to d, `failed` attempts being in vain, puts
        the longest active ones to sleep down to the larger of d and half the
        maximum, or moves none. */
    ghost predicate Scheduled(conn: seq<Handle>, bak: seq<Handle>, d: nat, moved: nat, failed: nat)
      reads this`connList, this`bakList
    {
      var n := |conn|;
      && (n < d ==>
            && moved <= |bak| && connList == conn + bak[..moved] && bakList == bak[moved..] && |connList| <= d
            && (bakList == [] || moved + failed == d - n))
      && (n > d && maxHandles >= 2 && n > maxHandles / 2 ==>
            var m := n - Max(d, maxHandles / 2); connList == conn[m..] && bakList == bak + conn[..m])
      && (n == d || (n > d && (maxHandles < 2 || n <= maxHandles / 2)) ==> connList == conn && bakList == bak)
    }

    lemma AtMostDemand(conn: seq<Handle>, bak: seq<Handle>, d: nat, moved: nat, failed: nat)
      requires Scheduled(conn, bak, d, moved, failed)
      ensures |connList| <= Max(d, |conn|) && (maxHandles >= 2 ==> |connList| <= Max(d, maxHandles / 2))
    {
    }

    predicate IsDue(now: int)
      reads this`lastReConnectTime
    {
      now > lastReConnectTime + 30
    }

    /** One turn of SqlConnectCheckThread, `now` being the time. When the check is
        due each handle is asked, and the active ones whose answer in `oks` is no go to
        sleep; then the handles are scheduled by the statements counted. */
    method CheckTurn(now: int, later: int) returns (ghost oks: seq<bool>, ghost moved: nat, ghost fails: seq<nat>)
      requires Valid()
      modifies this, connList, bakList
      ensures Valid() && Handles() == old(Handles()) && sqlCount == 0
      ensures lastReConnectTime == if old(IsDue(now)) then later else old(lastReConnectTime)
      ensures !old(IsDue(now)) ==> Scheduled(old(connList), old(bakList), Demand(old(sqlCount)), moved, Sum(fails))
      ensures !old(IsDue(now)) ==> Tried(old(Looks(bakList)), Looks(old(bakList)), fails, moved)
      ensures old(IsDue(now)) ==> |oks| == |old(connList)|
      ensures old(IsDue(now)) ==>
        Scheduled(Picked(old(connList), oks, true), old(bakList) + Picked(old(connList), oks, false),
                  Demand(old(sqlCount)), moved, Sum(fails))
      ensures old(IsDue(now)) ==> forall h :: h in old(connList) || h in old(bakList) ==> h.asked > old(h.asked)
      ensures old(IsDue(now)) ==> forall i :: 0 <= i < |oks| && oks[i] ==> old(connList)[i].connected
      ensures |connList| <= Max(Demand(old(sqlCount)), |old(connList)|)
      ensures maxHandles >= 2 ==> |connList| <= Max(Demand(old(sqlCount)), maxHandles / 2)
    {
      hide Valid, Handles, Tried, Sum, Picked, Looks, Scheduled;
      oks := ReconnectIfDue(now, later);
      ghost var conn, bak, looks := connList, bakList, Looks(bakList);
      label due: moved, fails := Schedule();
      AskedMore(looks, Looks(bak), fails, moved);
      forall h | h in conn || h in bak ensures h.asked >= old@due(h.asked) {
        if h in bak {
          var j :| 0 <= j < |bak| && bak[j] == h;
          assert Looks(bak)[j].asked >= looks[j].asked;
        }
      }
      if old(IsDue(now)) {
        PickedHas(old(connList), oks, true);
      }
      AtMostDemand(conn, bak, Demand(old(sqlCount)), moved, Sum(fails));
    }

    method ReconnectIfDue(now: int, later: int) returns (ghost oks: seq<bool>)
      requires Valid()
      modifies this`connList, this`bakList, this`lastReConnectTime, connList, bakList
      ensures Valid() && Handles() == old(Handles())
      ensures forall i :: 0 <= i < |connList| ==> connList[i] in old(connList) || connList[i] in old(bakList)
      ensures forall i :: 0 <= i < |bakList| ==> bakList[i] in old(connList) || bakList[i] in old(bakList)
      ensures forall h :: h in old(connList) || h in old(bakList) ==> h in connList || h in bakList
      ensures |connList| <= |old(connList)|
      ensures lastReConnectTime == if old(IsDue(now)) then later else old(lastReConnectTime)
      ensures !old(IsDue(now)) ==>
        connList == old(connList) && bakList == old(bakList) && Looks(bakList) == old(Looks(bakList))
      ensures old(IsDue(now)) ==>
        && |oks| == |old(connList)| && connList == Picked(old(connList), oks, true)
        && bakList == old(bakList) + Picked(old(connList), oks, false)
        && (forall i :: 0 <= i < |oks| ==> oks[i] == old(connList)[i].connected)
        && (forall h :: h in old(connList) || h in old(bakList) ==> h.asked == old(h.asked) + 1)
    {
      hide Picked;
      oks := [];
      if now > lastReConnectTime + DAEMON_RECONNECT_TIME {
        oks := Reconnect();
        lastReConnectTime := later;
        SameMembers(connList, bakList, old(connList), old(bakList));
        SameMembers(old(connList), old(bakList), connList, bakList);
      }
    }
  }

  /** What a handle looked like: whether it was connected, and how often asked. */
  datatype Look = Look(connected: bool, asked: nat)

  ghost function Looks(hs: seq<Handle>): (looks: seq<Look>)
    reads hs
    ensures |looks| == |hs| && forall i :: 0 <= i < |hs| ==> looks[i] == Look(hs[i].connected, hs[i].asked)
  {
    if hs == [] then [] else Looks(hs[..|hs| - 1]) + [Look(hs[|hs| - 1].connected, hs[|hs| - 1].asked)]
  }

  /** Handle j was opened in vain fails[j] times, and once with success if it was
      not connected and is among the first `moved`; none was asked but for that. */
  ghost predicate Tried(looks: seq<Look>, now: seq<Look>, fails: seq<nat>, moved: nat) {
    && |looks| == |now| == |fails| && moved <= |now|
    && (forall j :: 0 <= j < |now| ==>
          now[j].asked == looks[j].asked + fails[j] + if j < moved && !looks[j].connected then 1 else 0)
    && (forall j :: moved <= j < |now| ==> now[j].connected == looks[j].connected)
    && (forall j :: 0 <= j < moved ==> now[j].connected)
    && (forall j :: 0 <= j < |now| && looks[j].connected ==> fails[j] == 0)
  }

  /** A connected handle is never opened in vain. */
  lemma NoneInVain(looks: seq<Look>, now: seq<Look>, fails: seq<nat>, moved: nat)
    requires Tried(looks, now, fails, moved) && forall j :: 0 <= j < |looks| ==> looks[j].connected
    ensures Sum(fails) == 0
  {
    SumZero(fails);
  }

  lemma WokenConnected(looks: seq<Look>, now: seq<Look>, fails: seq<nat>, moved: nat)
    requires Tried(looks, now, fails, moved)
    ensures forall j :: 0 <= j < moved ==> now[j].connected
  {
  }

  lemma FailsLength(looks: seq<Look>, now: seq<Look>, fails: seq<nat>, moved: nat)
    requires Tried(looks, now, fails, moved)
    ensures |looks| == |now| == |fails| && moved <= |now|
  {
  }

  /** The next handle is woken ... */
  lemma TriedWell(looks: seq<Look>, now: seq<Look>, now': seq<Look>, fails: seq<nat>, moved: nat)
    requires Tried(looks, now, fails, moved) && moved < |now|
    requires now' == now[moved := Look(true, now[moved].asked + if now[moved].connected then 0 else 1)]
    ensures Tried(looks, now', fails, moved + 1)
  {
  }

  /** ... or opened in vain. */
  lemma TriedInVain(looks: seq<Look>, now: seq<Look>, now': seq<Look>, fails: seq<nat>, moved: nat)
    requires Tried(looks, now, fails, moved) && moved < |now| && !now[moved].connected
    requires now' == now[moved := Look(false, now[moved].asked + 1)]
    ensures Tried(looks, now', fails[moved := fails[moved] + 1], moved)
  {
  }

  lemma LooksDiffer(now: seq<Look>, now': seq<Look>, n: nat, look: Look)
    requires n < |now| == |now'| && now'[n] == look && forall j :: 0 <= j < |now| && j != n ==> now'[j] == now[j]
    ensures now' == now[n := look]
  {
  }

  lemma NotLater(hs: seq<Handle>, n: nat)
    requires Distinct(hs) && n < |hs|
    ensures forall j :: 0 <= j < n ==> hs[j] !in hs[n..]
  {
  }

  lemma NoneTried(looks: seq<Look>, fails: seq<nat>)
    requires fails == seq(|looks|, _ => 0)
    ensures Tried(looks, looks, fails, 0) && Sum(fails) == 0
  {
    SumZero(fails);
  }

  lemma AskedMore(looks: seq<Look>, now: seq<Look>, fails: seq<nat>, moved: nat)
    requires Tried(looks, now, fails, moved)
    ensures forall j :: 0 <= j < |now| ==> now[j].asked >= looks[j].asked
  {
  }

  lemma PickedHas(hs: seq<Handle>, oks: seq<bool>, want: bool)
    requires |oks| <= |hs|
    ensures forall i :: 0 <= i < |oks| && oks[i] == want ==> hs[i] in Picked(hs, oks, want)
    decreases |oks|
  {
    if oks != [] {
      PickedHas(hs, oks[..|oks| - 1], want);
    }
  }

  function Sum(s: seq<nat>): nat {
    if s == [] then 0 else Sum(s[..|s| - 1]) + s[|s| - 1]
  }

  lemma {:induction false} SumZero(s: seq<nat>)
    requires forall i :: 0 <= i < |s| ==> s[i] == 0
    ensures Sum(s) == 0
  {
    if s != [] {
      SumZero(s[..|s| - 1]);
    }
  }

  lemma {:induction false} SumMore(s: seq<nat>, i: nat)
    requires i < |s|
    ensures Sum(s[i := s[i] + 1]) == Sum(s) + 1
  {
    var last := |s| - 1;
    if i < last {
      SumMore(s[..last], i);
      assert s[i := s[i] + 1][..last] == s[..last][i := s[i] + 1];
    } else {
      assert s[i := s[i] + 1][..last] == s[..last];
    }
  }

  /** The lists after one more active handle is asked. */
  lemma AskedNext(kept: seq<Handle>, conn: seq<Handle>, n: nat)
    requires n < |conn|
    ensures kept + conn[n..] == kept + [conn[n]] + conn[n + 1..]
  {
  }

  lemma PickedNext(hs: seq<Handle>, oks: seq<bool>, ok: bool)
    requires |oks| < |hs|
    ensures Picked(hs, oks + [ok], ok) == Picked(hs, oks, ok) + [hs[|oks|]]
    ensures Picked(hs, oks + [ok], !ok) == Picked(hs, oks, !ok)
  {
    assert (oks + [ok])[..|oks|] == oks;
  }

  lemma OthersDiffer(hs: seq<Handle>, n: nat)
    requires Distinct(hs) && n < |hs|
    ensures forall j :: 0 <= j < |hs| && j != n ==> hs[j] != hs[n]
  {
  }

  lemma PickedNone(hs: seq<Handle>)
    ensures Picked(hs, [], true) == Picked(hs, [], false) == []
  {
  }

  lemma MultisetNext(a: seq<Handle>, n: nat)
    requires n < |a|
    ensures multiset(a[..n + 1]) == multiset(a[..n]) + multiset{a[n]}
  {
    assert a[..n + 1] == a[..n] + [a[n]];
  }

  ghost function PickedBag(hs: seq<Handle>, oks: seq<bool>): multiset<Handle>
    requires |oks| <= |hs|
  {
    multiset(Picked(hs, oks, true)) + multiset(Picked(hs, oks, false))
  }

  lemma PickedBagNone(hs: seq<Handle>, oks: seq<bool>)
    requires oks == []
    ensures PickedBag(hs, oks) == multiset(hs[..|oks|])
  {
    assert hs[..0] == [];
  }

  lemma PickedBagNext(hs: seq<Handle>, oks: seq<bool>)
    requires 0 < |oks| <= |hs|
    ensures PickedBag(hs, oks) == PickedBag(hs, oks[..|oks| - 1]) + multiset{hs[|oks| - 1]}
  {
  }

  lemma {:induction false} PickedAll(hs: seq<Handle>, oks: seq<bool>)
    requires |oks| <= |hs|
    ensures PickedBag(hs, oks) == multiset(hs[..|oks|])
    decreases |oks|
  {
    hide PickedBag;
    if oks == [] {
      PickedBagNone(hs, oks);
    } else {
      PickedAll(hs, oks[..|oks| - 1]);
      PickedBagNext(hs, oks);
      MultisetNext(hs, |oks| - 1);
    }
  }

  lemma PickedBoth(hs: seq<Handle>, oks: seq<bool>)
    requires |oks| == |hs|
    ensures multiset(Picked(hs, oks, true)) + multiset(Picked(hs, oks, false)) == multiset(hs)
  {
    PickedAll(hs, oks);
    assert hs[..|oks|] == hs;
  }

  lemma SameMembers(a: seq<Handle>, b: seq<Handle>, c: seq<Handle>, d: seq<Handle>)
    requires multiset(a) + multiset(b) == multiset(c) + multiset(d)
    ensures forall h :: h in a || h in b ==> h in c || h in d
  {
    forall h | h in a || h in b ensures h in c || h in d {
      assert h in multiset(a) + multiset(b);
      assert h in multiset(c) + multiset(d);
    }
  }

  lemma SameHandles(a: seq<Handle>, b: seq<Handle>, m: nat)
    requires m <= |b|
    ensures multiset(a + b[..m]) + multiset(b[m..]) == multiset(a) + multiset(b)
    ensures multiset(b[m..]) + multiset(a + b[..m]) == multiset(b) + multiset(a)
  {
    assert b == b[..m] + b[m..];
  }
}
