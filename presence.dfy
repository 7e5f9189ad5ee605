/** The presence registry of the live-session server (hocuspocus-server/src/index.ts:13,
    111-157): for each room name, the set of socket ids currently connected to it. */
module Presence {

  /** `roomConnections`: room name to the ids of the sockets connected to it. */
  type Registry = map<string, set<string>>

  /** The sockets connected to `room`; none when the room is not tracked. */
  function Sockets(m: Registry, room: string): set<string>
  {
    if room in m then m[room] else {}
  }

  /** `roomConnections.get(room)?.size || 0`: the number of sockets in the room, 0 for a
      room that is not tracked. */
  function RoomCount(m: Registry, room: string): (n: nat)
    ensures n == |Sockets(m, room)|
    ensures room !in m ==> n == 0
  {
    if room in m then |m[room]| else 0
  }

  /** No tracked room maps to an empty set of sockets. */
  ghost predicate NoEmptyRooms(m: Registry)
  {
    forall room :: room in m ==> m[room] != {}
  }

  /** The registry after `onConnect`: create the room's set when it is absent, then add the socket. */
  function AfterConnect(m: Registry, room: string, socket: string): (r: Registry)
    ensures Sockets(r, room) == Sockets(m, room) + {socket}
    ensures forall other :: other != room ==> Sockets(r, other) == Sockets(m, other)
    ensures r.Keys == m.Keys + {room}
    ensures NoEmptyRooms(m) ==> NoEmptyRooms(r)
  {
    var tracked := if room in m then m else m[room := {}];
    tracked[room := tracked[room] + {socket}]
  }

  /** The registry after `onDisconnect`: remove the socket from the room's set, if the room is
      tracked, then delete the room when its set is empty. */
  function AfterDisconnect(m: Registry, room: string, socket: string): (r: Registry)
    ensures Sockets(r, room) == Sockets(m, room) - {socket}
    ensures forall other :: other != room ==> Sockets(r, other) == Sockets(m, other)
    ensures r.Keys == if Sockets(m, room) <= {socket} then m.Keys - {room} else m.Keys
    ensures room !in m ==> r == m
    ensures NoEmptyRooms(m) ==> NoEmptyRooms(r)
  {
    var removed := if room in m then m[room := m[room] - {socket}] else m;
    if room in removed && |removed[room]| == 0 then removed - {room} else removed
  }

  /** Connecting raises the room's count by one, unless the socket was already there. */
  lemma ConnectCount(m: Registry, room: string, socket: string)
    ensures RoomCount(AfterConnect(m, room, socket), room)
         == RoomCount(m, room) + (if socket in Sockets(m, room) then 0 else 1)
  {
    var r := AfterConnect(m, room, socket);
    assert RoomCount(r, room) == |Sockets(r, room)|;
    assert RoomCount(m, room) == |Sockets(m, room)|;
  }

  /** Connecting a socket that is already in the room changes nothing. */
  lemma ConnectIdempotent(m: Registry, room: string, socket: string)
    requires socket in Sockets(m, room)
    ensures AfterConnect(m, room, socket) == m
  {
    var r := AfterConnect(m, room, socket);
    assert room in m;
    assert Sockets(m, room) + {socket} == Sockets(m, room);
    assert r.Keys == m.Keys;
    forall k | k in r
      ensures r[k] == m[k]
    {
      assert r[k] == Sockets(r, k) && m[k] == Sockets(m, k);
    }
  }

  /** Disconnecting lowers the room's count by one when the socket was there, and the
      count is 0 once the room's last socket has left. */
  lemma DisconnectCount(m: Registry, room: string, socket: string)
    ensures RoomCount(AfterDisconnect(m, room, socket), room)
         == RoomCount(m, room) - (if socket in Sockets(m, room) then 1 else 0)
    ensures Sockets(m, room) <= {socket} ==>
              room !in AfterDisconnect(m, room, socket) && RoomCount(AfterDisconnect(m, room, socket), room) == 0
  {
    var r := AfterDisconnect(m, room, socket);
    assert RoomCount(r, room) == |Sockets(r, room)|;
    assert RoomCount(m, room) == |Sockets(m, room)|;
    if socket in Sockets(m, room) {
      assert Sockets(m, room) == Sockets(r, room) + {socket};
    } else {
      assert Sockets(m, room) == Sockets(r, room);
    }
  }

  /** A disconnect undoes the connect of a socket that was not yet in the room. */
  lemma DisconnectUndoesConnect(m: Registry, room: string, socket: string)
    requires NoEmptyRooms(m)
    requires socket !in Sockets(m, room)
    ensures AfterDisconnect(AfterConnect(m, room, socket), room, socket) == m
  {
    var r := AfterDisconnect(AfterConnect(m, room, socket), room, socket);
    assert forall k :: k in r ==> r[k] == Sockets(r, k);
    assert forall k :: k in m ==> m[k] == Sockets(m, k);
    assert r.Keys == m.Keys;
  }

  // ---------- sequences of connects and disconnects ----------

  /** The registry after the sockets `ss` connect to `room` one after another. */
  function ConnectAll(m: Registry, room: string, ss: seq<string>): Registry
    decreases |ss|
  {
    if ss == [] then m else ConnectAll(AfterConnect(m, room, ss[0]), room, ss[1..])
  }

  /** The registry after the sockets `ss` leave `room` one after another. */
  function DisconnectAll(m: Registry, room: string, ss: seq<string>): Registry
    decreases |ss|
  {
    if ss == [] then m else DisconnectAll(AfterDisconnect(m, room, ss[0]), room, ss[1..])
  }

  /** The sockets of a sequence, as a set. */
  function Members(ss: seq<string>): set<string>
  {
    set s | s in ss
  }

  lemma {:induction false} ConnectAllSockets(m: Registry, room: string, ss: seq<string>)
    ensures Sockets(ConnectAll(m, room, ss), room) == Sockets(m, room) + Members(ss)
    decreases |ss|
  {
    if ss != [] {
      ConnectAllSockets(AfterConnect(m, room, ss[0]), room, ss[1..]);
      assert Members(ss) == {ss[0]} + Members(ss[1..]);
    }
  }

  lemma {:induction false} DisconnectAllSockets(m: Registry, room: string, ss: seq<string>)
    ensures Sockets(DisconnectAll(m, room, ss), room) == Sockets(m, room) - Members(ss)
    decreases |ss|
  {
    if ss != [] {
      DisconnectAllSockets(AfterDisconnect(m, room, ss[0]), room, ss[1..]);
      assert Members(ss) == {ss[0]} + Members(ss[1..]);
    }
  }

  predicate Distinct(ss: seq<string>)
  {
    forall i, j :: 0 <= i < j < |ss| ==> ss[i] != ss[j]
  }

  lemma {:induction false} DistinctCard(ss: seq<string>)
    requires Distinct(ss)
    ensures |Members(ss)| == |ss|
    decreases |ss|
  {
    if ss != [] {
      DistinctCard(ss[1..]);
      assert Members(ss) == {ss[0]} + Members(ss[1..]);
      assert ss[0] !in Members(ss[1..]);
    }
  }

  /** Taking away a subset takes away its size. */
  lemma CardDifference(a: set<string>, b: set<string>)
    requires b <= a
    ensures |a - b| == |a| - |b|
  {
    assert a == (a - b) + b;
  }

  /** Starting from an untracked room, after N distinct sockets join and then M of them
      leave, the room's count is N - M. */
  lemma {:induction false} JoinsThenLeaves(m: Registry, room: string, joins: seq<string>, leaves: seq<string>)
    requires room !in m
    requires Distinct(joins) && Distinct(leaves)
    requires forall s :: s in leaves ==> s in joins
    ensures RoomCount(DisconnectAll(ConnectAll(m, room, joins), room, leaves), room) == |joins| - |leaves|
  {
    var joined := Members(joins);
    var left := Members(leaves);
    ConnectAllSockets(m, room, joins);
    DisconnectAllSockets(ConnectAll(m, room, joins), room, leaves);
    DistinctCard(joins);
    DistinctCard(leaves);
    var r := DisconnectAll(ConnectAll(m, room, joins), room, leaves);
    assert Sockets(r, room) == joined - left;
    assert left <= joined;
    CardDifference(joined, left);
    assert RoomCount(r, room) == |Sockets(r, room)|;
  }

  // ---------- interleaved histories of one room ----------

  /** One event in the history of a room: a socket connecting to it or leaving it. */
  datatype Step = Join(socket: string) | Leave(socket: string)

  /** The registry after the steps happen to `room`, in order. */
  function Replay(m: Registry, room: string, steps: seq<Step>): Registry
    decreases |steps|
  {
    if steps == [] then m
    else
      var before := Replay(m, room, steps[..|steps| - 1]);
      match steps[|steps| - 1]
      case Join(s) => AfterConnect(before, room, s)
      case Leave(s) => AfterDisconnect(before, room, s)
  }

  /** The sockets that join, in the order they join. */
  function Joiners(steps: seq<Step>): seq<string>
    decreases |steps|
  {
    if steps == [] then []
    else
      var last := steps[|steps| - 1];
      Joiners(steps[..|steps| - 1]) + if last.Join? then [last.socket] else []
  }

  /** The sockets that leave, in the order they leave. */
  function Leavers(steps: seq<Step>): seq<string>
    decreases |steps|
  {
    if steps == [] then []
    else
      var last := steps[|steps| - 1];
      Leavers(steps[..|steps| - 1]) + if last.Leave? then [last.socket] else []
  }

  /** A history that sockets can produce: every socket joins at most once, leaves at most
      once, and leaves only after it has joined. */
  ghost predicate Plausible(steps: seq<Step>)
  {
    && Distinct(Joiners(steps))
    && Distinct(Leavers(steps))
    && forall j :: 0 <= j < |steps| && steps[j].Leave? ==> Join(steps[j].socket) in steps[..j]
  }

  lemma {:induction false} JoinersAreJoins(steps: seq<Step>, s: string)
    ensures s in Joiners(steps) <==> Join(s) in steps
    ensures s in Leavers(steps) <==> Leave(s) in steps
    decreases |steps|
  {
    if steps != [] {
      var prefix := steps[..|steps| - 1];
      JoinersAreJoins(prefix, s);
      assert steps == prefix + [steps[|steps| - 1]];
    }
  }

  lemma DistinctAppend(a: seq<string>, b: seq<string>)
    requires Distinct(a + b)
    ensures Distinct(a)
    ensures forall x :: x in a ==> x !in b
  {
    forall i, j | 0 <= i < j < |a|
      ensures a[i] != a[j]
    {
      assert a[i] == (a + b)[i] && a[j] == (a + b)[j];
    }
    forall x | x in a
      ensures x !in b
    {
      var i :| 0 <= i < |a| && a[i] == x;
      forall k | 0 <= k < |b|
        ensures b[k] != x
      {
        assert (a + b)[i] == x && (a + b)[|a| + k] == b[k];
      }
    }
  }

  /** Every prefix of a plausible history is plausible. */
  lemma PlausiblePrefix(steps: seq<Step>)
    requires steps != [] && Plausible(steps)
    ensures Plausible(steps[..|steps| - 1])
  {
    var prefix := steps[..|steps| - 1];
    var last := steps[|steps| - 1];
    DistinctAppend(Joiners(prefix), if last.Join? then [last.socket] else []);
    DistinctAppend(Leavers(prefix), if last.Leave? then [last.socket] else []);
    forall j | 0 <= j < |prefix| && prefix[j].Leave?
      ensures Join(prefix[j].socket) in prefix[..j]
    {
      assert prefix[j] == steps[j] && prefix[..j] == steps[..j];
    }
  }

  /** In a plausible history, every socket that leaves has joined. */
  lemma LeaverJoined(steps: seq<Step>, s: string)
    requires Plausible(steps)
    ensures s in Leavers(steps) ==> s in Joiners(steps)
  {
    JoinersAreJoins(steps, s);
    if Leave(s) in steps {
      var j :| 0 <= j < |steps| && steps[j] == Leave(s);
      var k :| 0 <= k < j && steps[..j][k] == Join(s);
      assert steps[k] == Join(s);
    }
  }

  lemma MembersAppend(a: seq<string>, s: string)
    ensures Members(a + [s]) == Members(a) + {s}
  {
  }

  /** Started from an untracked room, the room stays tracked exactly while it has a socket. */
  lemma {:induction false} ReplayTracked(m: Registry, room: string, steps: seq<Step>)
    requires room !in m
    ensures room in Replay(m, room, steps) <==> Sockets(Replay(m, room, steps), room) != {}
    decreases |steps|
  {
    if steps != [] {
      ReplayTracked(m, room, steps[..|steps| - 1]);
    }
  }

  /** Replaying a plausible history on an untracked room leaves exactly the sockets that
      joined and have not left. */
  lemma {:induction false} ReplaySockets(m: Registry, room: string, steps: seq<Step>)
    requires room !in m
    requires Plausible(steps)
    ensures Sockets(Replay(m, room, steps), room) == Members(Joiners(steps)) - Members(Leavers(steps))
    decreases |steps|
  {
    if steps != [] {
      var prefix := steps[..|steps| - 1];
      PlausiblePrefix(steps);
      ReplaySockets(m, room, prefix);
      match steps[|steps| - 1]
      case Join(s) =>
        DistinctAppend(Joiners(prefix), [s]);
        LeaverJoined(prefix, s);
        assert Joiners(steps) == Joiners(prefix) + [s] && Leavers(steps) == Leavers(prefix);
        MembersAppend(Joiners(prefix), s);
      case Leave(s) =>
        DistinctAppend(Leavers(prefix), [s]);
        assert Join(s) in steps[..|steps| - 1];
        JoinersAreJoins(prefix, s);
        assert Joiners(steps) == Joiners(prefix) && Leavers(steps) == Leavers(prefix) + [s];
        MembersAppend(Leavers(prefix), s);
    }
  }

  /** Whatever the interleaving, after N distinct sockets join and M of them leave (each
      after it joined), an untracked room's count is N - M, and the room stays tracked
      exactly while N > M: once all have left it is dropped. */
  lemma InterleavedCount(m: Registry, room: string, steps: seq<Step>)
    requires room !in m
    requires Plausible(steps)
    ensures RoomCount(Replay(m, room, steps), room) == |Joiners(steps)| - |Leavers(steps)|
    ensures room in Replay(m, room, steps) <==> |Joiners(steps)| > |Leavers(steps)|
  {
    var joined := Members(Joiners(steps));
    var left := Members(Leavers(steps));
    ReplaySockets(m, room, steps);
    ReplayTracked(m, room, steps);
    DistinctCard(Joiners(steps));
    DistinctCard(Leavers(steps));
    forall s | s in left
      ensures s in joined
    {
      LeaverJoined(steps, s);
    }
    CardDifference(joined, left);
  }

  // ---------- aggregates used by the diagnostics endpoints ----------

  /** `Array.from(roomConnections.values()).reduce((sum, set) => sum + set.size, 0)`:
      the number of sockets summed over the rooms, in no particular order. */
  ghost function TotalConnections(m: Registry): (total: nat)
    ensures total == 0 <==> forall room :: room in m ==> m[room] == {}
    decreases m.Keys
  {
    if m == map[] then 0
    else
      assert exists room :: room in m by {
        var k :| k in m.Keys;
      }
      var room :| room in m;
      assert forall k :: k in m - {room} ==> (m - {room})[k] == m[k];
      |m[room]| + TotalConnections(m - {room})
  }

  /** The sum can be split at any room, whichever room the definition happened to pick. */
  lemma {:induction false} TotalSplits(m: Registry, room: string)
    requires room in m
    ensures TotalConnections(m) == |m[room]| + TotalConnections(m - {room})
    decreases m.Keys
  {
    assert m != map[];
    var picked :| picked in m && TotalConnections(m) == |m[picked]| + TotalConnections(m - {picked});
    if picked != room {
      TotalSplits(m - {picked}, room);
      TotalSplits(m - {room}, picked);
      assert m - {picked} - {room} == m - {room} - {picked};
    }
  }

  /** Connecting raises the total by one, unless the socket was already in the room. */
  lemma TotalAfterConnect(m: Registry, room: string, socket: string)
    ensures TotalConnections(AfterConnect(m, room, socket))
         == TotalConnections(m) + (if socket in Sockets(m, room) then 0 else 1)
  {
    var r := AfterConnect(m, room, socket);
    TotalSplits(r, room);
    assert r - {room} == m - {room};
    if room in m {
      TotalSplits(m, room);
    } else {
      assert m - {room} == m;
    }
    ConnectCount(m, room, socket);
    assert RoomCount(r, room) == |r[room]|;
  }

  /** Disconnecting lowers the total by one when the socket was in the room. */
  lemma TotalAfterDisconnect(m: Registry, room: string, socket: string)
    ensures TotalConnections(AfterDisconnect(m, room, socket))
         == TotalConnections(m) - (if socket in Sockets(m, room) then 1 else 0)
  {
    if room in m {
      var left := m[room] - {socket};
      var dropped := if socket in m[room] then 1 else 0;
      assert |m[room]| == |left| + dropped by {
        if socket in m[room] {
          assert m[room] == left + {socket};
        }
      }
      if left == {} {
        TotalSplits(m, room);
        assert AfterDisconnect(m, room, socket) == m - {room};
      } else {
        TotalReplaceRoom(m, room, left);
        assert AfterDisconnect(m, room, socket) == m[room := left];
      }
    }
  }

  /** Replacing one room's set changes the total by the difference in size. */
  lemma TotalReplaceRoom(m: Registry, room: string, sockets: set<string>)
    requires room in m
    ensures TotalConnections(m[room := sockets]) == TotalConnections(m) - |m[room]| + |sockets|
  {
    var r := m[room := sockets];
    TotalSplits(m, room);
    TotalSplits(r, room);
    assert r - {room} == m - {room};
  }

  /** With no empty rooms, there are at least as many connections as rooms. */
  lemma {:induction false} TotalAtLeastRooms(m: Registry)
    requires NoEmptyRooms(m)
    ensures TotalConnections(m) >= |m|
    decreases m.Keys
  {
    if m != map[] {
      var room :| room in m;
      TotalSplits(m, room);
      TotalAtLeastRooms(m - {room});
      assert (m - {room}).Keys == m.Keys - {room};
      assert |m - {room}| == |m| - 1;
      assert |m[room]| >= 1;
    }
  }

  /** One room's count never exceeds the total. */
  lemma RoomCountAtMostTotal(m: Registry, room: string)
    ensures RoomCount(m, room) <= TotalConnections(m)
  {
    if room in m {
      TotalSplits(m, room);
    }
  }

  /** The `/rooms` listing: every tracked room with its number of sockets. */
  function RoomListing(m: Registry): (rooms: map<string, nat>)
    ensures rooms.Keys == m.Keys
    ensures forall room :: room in rooms ==> rooms[room] == |Sockets(m, room)|
  {
    map room | room in m :: |m[room]|
  }

  /** The listing covers exactly the tracked rooms, with each room's count; with no empty
      rooms every listed count is positive. */
  lemma ListingCounts(m: Registry)
    ensures RoomListing(m).Keys == m.Keys
    ensures forall room :: room in RoomListing(m) ==> RoomListing(m)[room] == RoomCount(m, room)
    ensures NoEmptyRooms(m) ==> forall room :: room in RoomListing(m) ==> RoomListing(m)[room] >= 1
  {
  }

  /** After the last socket of a room leaves, the room is absent from the listing. */
  lemma LastLeaveUnlists(m: Registry, room: string, socket: string)
    requires Sockets(m, room) == {socket}
    ensures room !in RoomListing(AfterDisconnect(m, room, socket))
  {
  }
}
