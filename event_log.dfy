/** The bounded diagnostic log of the live-session server (hocuspocus-server/src/index.ts:14-33):
    the last 50 authorization and connection events, oldest first. */
module EventLog {
  import opened Wrappers

  /** The log keeps at most this many entries. */
  const Capacity: nat := 50

  /** How a successful live connection was authorized. */
  datatype AuthMethod = TokenMethod | CredentialsMethod

  /** Why a live connection was refused, with the details the log records for it. */
  datatype FailReason =
    | InvalidToken
    | MissingParams(docId: Option<string>, pin: Option<string>, name: Option<string>)
    | InvalidCredentials(docId: Option<string>, pin: Option<string>)

  /** The event name and the details logged with it. */
  datatype EventData =
    | AuthAttempt(hasToken: bool, docId: Option<string>, pin: Option<string>, name: Option<string>, roomUUID: string)
    | AuthSuccess(via: AuthMethod, name: Option<string>, roomUUID: string, docId: Option<string>)
    | AuthFailed(reason: FailReason)
    | Connected(user: Option<string>, room: string, socketId: string, userCount: nat)
    | Disconnected(user: Option<string>, room: string, socketId: string, userCount: nat)
    | DocumentLoaded(room: string)

  datatype Event = Event(timestamp: string, data: EventData)

  /** The log after `logEvent`: push the new entry, then shift the oldest one out
      when the log has grown past its capacity. */
  function Appended(log: seq<Event>, e: Event): (r: seq<Event>)
    ensures |log| <= Capacity ==> |r| <= Capacity
    ensures |r| > 0 && r[|r| - 1] == e
    ensures |log| < Capacity ==> r == log + [e]
    ensures |log| >= Capacity ==> r == log[1..] + [e]
  {
    var pushed := log + [e];
    if |pushed| > Capacity then pushed[1..] else pushed
  }

  /** The last `Capacity` elements of `s` (all of `s` when it is shorter). */
  function Window(s: seq<Event>): (r: seq<Event>)
  {
    if |s| <= Capacity then s else s[|s| - Capacity..]
  }

  /** The log after logging each of `es` in turn. */
  function AppendAll(log: seq<Event>, es: seq<Event>): seq<Event>
    decreases |es|
  {
    if es == [] then log else AppendAll(Appended(log, es[0]), es[1..])
  }

  /** Dropping a prefix that the window would drop anyway does not change the window. */
  lemma WindowOfSuffix(u: seq<Event>, k: nat)
    requires k <= |u|
    requires k == 0 || |u| - k >= Capacity
    ensures Window(u[k..]) == Window(u)
  {
  }

  /** Logging one entry and then more gives the same window as logging them all at once. */
  lemma AppendedThenWindow(log: seq<Event>, e: Event, rest: seq<Event>)
    requires |log| <= Capacity
    ensures Window(Appended(log, e) + rest) == Window(log + [e] + rest)
  {
    var u := log + [e] + rest;
    if |log| < Capacity {
      assert Appended(log, e) + rest == u;
    } else {
      assert Appended(log, e) + rest == u[1..];
      WindowOfSuffix(u, 1);
    }
  }

  /** Whatever is logged, the log holds exactly the last (at most 50) events ever logged, in order. */
  lemma {:induction false} AppendAllIsWindow(log: seq<Event>, es: seq<Event>)
    requires |log| <= Capacity
    ensures AppendAll(log, es) == Window(log + es)
    decreases |es|
  {
    if es != [] {
      AppendAllIsWindow(Appended(log, es[0]), es[1..]);
      AppendedThenWindow(log, es[0], es[1..]);
      assert log + es == log + [es[0]] + es[1..];
    }
  }

  /** Starting from an empty log, after more than 50 events only the last 50 remain:
      the first is gone and the latest is the last entry. */
  lemma {:induction false} LogKeepsLatest(es: seq<Event>)
    requires |es| > Capacity
    ensures AppendAll([], es) == es[|es| - Capacity..]
    ensures |AppendAll([], es)| == Capacity
    ensures AppendAll([], es)[Capacity - 1] == es[|es| - 1]
  {
    AppendAllIsWindow([], es);
    assert [] + es == es;
  }
}
