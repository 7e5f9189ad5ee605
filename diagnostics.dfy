/** The values the live-session server's diagnostic endpoints compute
    (hocuspocus-server/src/index.ts:185-320); the HTTP headers and JSON serialisation are not modelled. */
module Diagnostics {
  import opened Text
  import opened EventLog
  import opened Presence

  datatype CurrentState = CurrentState(activeRooms: nat, totalConnections: nat)

  /** `GET /ws-logs` */
  datatype WsLogsReport = WsLogsReport(success: bool, totalEvents: nat, logs: seq<Event>, currentState: CurrentState)

  /** `GET /health`; the clock and the process uptime are inputs. */
  datatype HealthReport = HealthReport(status: string, timestamp: string, uptime: real, activeRooms: nat, totalConnections: nat)

  /** `GET /room/{id}`: 400 when the id is empty, else the room's count. */
  datatype RoomReport = RoomIdRequired | RoomUsers(roomId: string, userCount: nat, timestamp: int)

  /** `GET /rooms` */
  datatype RoomsReport = RoomsReport(totalRooms: nat, rooms: map<string, nat>, timestamp: int)

  ghost function State(m: Registry): CurrentState
  {
    CurrentState(|m|, TotalConnections(m))
  }

  /** `GET /ws-logs`: the whole log with its length, and the number of tracked rooms with the
      number of sockets summed over them. */
  ghost function WsLogs(m: Registry, log: seq<Event>): (r: WsLogsReport)
    ensures r.success && r.logs == log && r.totalEvents == |r.logs|
    ensures r.currentState.activeRooms == |m|
    ensures r.currentState.totalConnections == TotalConnections(m)
    ensures NoEmptyRooms(m) ==> r.currentState.totalConnections >= r.currentState.activeRooms
    ensures forall room :: room in m ==> |m[room]| <= r.currentState.totalConnections
  {
    TotalBounds(m);
    WsLogsReport(true, |log|, log, State(m))
  }

  /** `GET /health`: "ok", the given clock and uptime, and the same room and socket counts. */
  ghost function Health(m: Registry, timestamp: string, uptime: real): (r: HealthReport)
    ensures r.status == "ok" && r.timestamp == timestamp && r.uptime == uptime
    ensures r.activeRooms == |m|
    ensures r.totalConnections == TotalConnections(m)
    ensures NoEmptyRooms(m) ==> r.totalConnections >= r.activeRooms
    ensures forall room :: room in m ==> |m[room]| <= r.totalConnections
  {
    TotalBounds(m);
    HealthReport("ok", timestamp, uptime, |m|, TotalConnections(m))
  }

  /** Both bounds on the total that the reports state. */
  lemma TotalBounds(m: Registry)
    ensures NoEmptyRooms(m) ==> TotalConnections(m) >= |m|
    ensures forall room :: room in m ==> |m[room]| <= TotalConnections(m)
  {
    if NoEmptyRooms(m) {
      TotalAtLeastRooms(m);
    }
    forall room | room in m
      ensures |m[room]| <= TotalConnections(m)
    {
      RoomCountAtMostTotal(m, room);
    }
  }

  const RoomPrefix: string := "/room/"

  /** What follows the "/room/" prefix of a url. */
  function AfterPrefix(url: string): string
    requires IsPrefix(RoomPrefix, url)
  {
    url[|RoomPrefix|..]
  }

  /** `request.url.split("/room/")[1]?.split("?")[0]` for a url that starts with "/room/":
      the longest stretch after the prefix that holds neither a '?' nor another "/room/". */
  function RoomIdOf(url: string): (id: string)
    requires IsPrefix(RoomPrefix, url)
    ensures IsPrefix(id, AfterPrefix(url))
    ensures forall i :: 0 <= i < |id| ==> id[i] != '?'
    ensures forall i :: 0 <= i < |id| ==> !IsPrefix(RoomPrefix, AfterPrefix(url)[i..])
    ensures || id == AfterPrefix(url)
            || AfterPrefix(url)[|id|] == '?'
            || IsPrefix(RoomPrefix, AfterPrefix(url)[|id|..])
  {
    var rest := AfterPrefix(url);
    var segment := Before(rest, RoomPrefix);
    var id := Before(segment, "?");
    assert forall i :: 0 <= i < |id| ==> IsPrefix("?", segment[i..]) == (id[i] == '?') by {
      forall i | 0 <= i < |id| ensures IsPrefix("?", segment[i..]) == (id[i] == '?') {
        assert segment[i] == id[i];
      }
    }
    assert id != segment ==> rest[|id|] == segment[|id|] == segment[|id|..][0] == '?';
    id
  }

  /** The `/room/{id}` answer for a url that starts with "/room/". */
  function RoomQuery(m: Registry, url: string, timestamp: int): (r: RoomReport)
    requires IsPrefix(RoomPrefix, url)
    ensures r.RoomIdRequired? <==> RoomIdOf(url) == ""
    ensures r.RoomUsers? ==> r.roomId == RoomIdOf(url) && r.userCount == |Sockets(m, r.roomId)|
    ensures r.RoomUsers? && r.roomId !in m ==> r.userCount == 0
    ensures r.RoomUsers? && NoEmptyRooms(m) ==> (r.userCount == 0 <==> r.roomId !in m)
  {
    var roomId := RoomIdOf(url);
    if roomId == "" then RoomIdRequired else RoomUsers(roomId, RoomCount(m, roomId), timestamp)
  }

  /** `GET /rooms`: every tracked room with its count, and how many there are. */
  function Rooms(m: Registry, timestamp: int): (r: RoomsReport)
    ensures r.rooms.Keys == m.Keys && r.totalRooms == |m|
    ensures forall room :: room in r.rooms ==> r.rooms[room] == RoomCount(m, room)
    ensures NoEmptyRooms(m) ==> forall room :: room in r.rooms ==> r.rooms[room] >= 1
  {
    var rooms := RoomListing(m);
    RoomsReport(|rooms|, rooms, timestamp)
  }

  /** The endpoints agree: the room counts of `/ws-logs`, `/health` and `/rooms` are the
      number of tracked rooms; with no empty rooms the total is at least the room count and
      is 0 exactly when no room is tracked. */
  lemma ReportsAgree(m: Registry, log: seq<Event>, timestamp: string, uptime: real, millis: int)
    requires NoEmptyRooms(m)
    ensures WsLogs(m, log).currentState.activeRooms == Health(m, timestamp, uptime).activeRooms == Rooms(m, millis).totalRooms
    ensures WsLogs(m, log).currentState.totalConnections == Health(m, timestamp, uptime).totalConnections
    ensures Health(m, timestamp, uptime).totalConnections >= Health(m, timestamp, uptime).activeRooms
    ensures Health(m, timestamp, uptime).totalConnections == 0 <==> m == map[]
  {
    assert RoomListing(m).Keys == m.Keys;
    assert |RoomListing(m)| == |RoomListing(m).Keys|;
    TotalAtLeastRooms(m);
    if m != map[] {
      var k :| k in m;
      assert |m.Keys| >= 1 by { assert k in m.Keys; }
    }
  }
}
