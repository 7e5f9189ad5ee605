/** The process-wide state of the live-session server (hocuspocus-server/src/index.ts:13-157)
    and the hooks that change it. Each hook is one atomic step. That is exact for
    `onConnect` and `onDisconnect`, which never await; `onAuthenticate` awaits the backend
    between its two log entries, which this model does not interleave. */
module LiveServer {
  import opened Wrappers
  import opened EventLog
  import opened Presence
  import opened Gatekeeper

  class CollabServer {
    /** `roomConnections` */
    var roomConnections: Registry
    /** `connectionLogs`, oldest entry first */
    var connectionLogs: seq<Event>

    /** The state invariant: no tracked room is empty and the log is within its capacity. */
    ghost predicate Valid()
      reads this
    {
      NoEmptyRooms(roomConnections) && |connectionLogs| <= Capacity
    }

    /** The server at process start: no rooms, no events. */
    constructor ()
      ensures Valid()
      ensures roomConnections == map[] && connectionLogs == []
    {
      roomConnections := map[];
      connectionLogs := [];
    }

    /** `logEvent`: push the entry, then shift the oldest one out past the capacity. */
    method LogEvent(timestamp: string, data: EventData)
      requires Valid()
      modifies this
      ensures Valid()
      ensures roomConnections == old(roomConnections)
      ensures connectionLogs == Appended(old(connectionLogs), Event(timestamp, data))
    {
      connectionLogs := connectionLogs + [Event(timestamp, data)];
      if |connectionLogs| > Capacity {
        connectionLogs := connectionLogs[1..];
      }
    }

    /** `onAuthenticate`: log the attempt, decide, log the outcome. The registry is untouched;
        the returned outcome carries the `context.user` of an authorized connection. */
    method OnAuthenticate(room: string, p: AuthParams,
                          validateToken: string -> Option<TokenInfo>,
                          validateJoinAccess: (string, string) -> Option<JoinInfo>,
                          attemptTime: string, outcomeTime: string)
      returns (outcome: AuthOutcome)
      requires Valid()
      modifies this
      ensures Valid()
      ensures roomConnections == old(roomConnections)
      ensures outcome == Authenticate(room, p, validateToken, validateJoinAccess)
      ensures connectionLogs
           == Appended(Appended(old(connectionLogs), Event(attemptTime, AttemptEvent(room, p))),
                       Event(outcomeTime, OutcomeEvent(room, p, outcome)))
    {
      LogEvent(attemptTime, AttemptEvent(room, p));
      outcome := Authenticate(room, p, validateToken, validateJoinAccess);
      LogEvent(outcomeTime, OutcomeEvent(room, p, outcome));
    }

    /** `onConnect`: add the socket to the room (creating its set), report the room's count
        and log `connected`. `user` is `context.user?.name`. */
    method OnConnect(room: string, socketId: string, user: Option<string>, now: string)
      returns (userCount: nat)
      requires Valid()
      modifies this
      ensures Valid()
      ensures roomConnections == AfterConnect(old(roomConnections), room, socketId)
      ensures userCount == RoomCount(roomConnections, room)
      ensures userCount == RoomCount(old(roomConnections), room)
                         + (if socketId in Sockets(old(roomConnections), room) then 0 else 1)
      ensures connectionLogs == Appended(old(connectionLogs), Event(now, Connected(user, room, socketId, userCount)))
    {
      ConnectCount(roomConnections, room, socketId);
      if room !in roomConnections {
        roomConnections := roomConnections[room := {}];
      }
      roomConnections := roomConnections[room := roomConnections[room] + {socketId}];

      // the room was just added, so the `|| 0` default of the source cannot apply here
      userCount := |roomConnections[room]|;

      LogEvent(now, Connected(user, room, socketId, userCount));
    }

    /** `onDisconnect`: remove the socket from the room, delete the room once empty, report
        the room's count (0 for a deleted or unknown room) and log `disconnected`. */
    method OnDisconnect(room: string, socketId: string, user: Option<string>, now: string)
      returns (userCount: nat)
      requires Valid()
      modifies this
      ensures Valid()
      ensures roomConnections == AfterDisconnect(old(roomConnections), room, socketId)
      ensures userCount == RoomCount(roomConnections, room)
      ensures room !in old(roomConnections) ==> roomConnections == old(roomConnections) && userCount == 0
      ensures room !in roomConnections ==> userCount == 0
      ensures connectionLogs == Appended(old(connectionLogs), Event(now, Disconnected(user, room, socketId, userCount)))
    {
      if room in roomConnections {
        roomConnections := roomConnections[room := roomConnections[room] - {socketId}];
      }
      if room in roomConnections && |roomConnections[room]| == 0 {
        roomConnections := roomConnections - {room};
      }

      userCount := if room in roomConnections then |roomConnections[room]| else 0;

      LogEvent(now, Disconnected(user, room, socketId, userCount));
    }
  }
}
