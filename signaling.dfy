/** The connection to the signaling server (`ServerConnection`): one WebSocket
    at a time, messages dropped unless it is open, and a single reconnect timer
    that each unexpected close re-arms. */
module Signaling {
  import opened Wire

  /** `WebSocket.readyState` of the current socket, as far as it matters here. */
  datatype ReadyState = Connecting | Open | Closed

  /** What the connection publishes on the page's event bus. */
  datatype Notice = Fired(kind: string) | NotifyUser(text: string)

  /** The delay of the reconnect attempt after an unexpected close, in milliseconds. */
  const ReconnectDelay: nat := 5000

  const ConnectionLostText: string := "Connection lost. Retry in 5 seconds..."
  const RateLimitText: string := "Rate limit reached. Wait 10 seconds and try again."

  /** The server message types that are passed on unchanged to the page's
      event bus under their own name. */
  const RelayedTypes: set<string> := {
    "peers", "peer-joined", "peer-left", "signal", "display-name", "pair-device-initiated",
    "pair-device-joined", "pair-device-join-key-invalid", "pair-device-canceled", "secret-room-deleted"
  }

  /** Timers never stack: every pending timer is the one `_reconnectTimer`
      names, so at most one is pending. */
  lemma {:induction false} AtMostOneTimer(pending: set<nat>, timer: Option<nat>)
    requires forall t :: t in pending ==> timer == Some(t)
    ensures |pending| <= 1
    ensures pending != {} ==> pending == {timer.value}
  {
    if pending != {} {
      var t :| t in pending;
      assert pending == {timer.value} by {
        forall u | u in pending ensures u == timer.value {
        }
      }
    }
  }

  class ServerConnection {
    /** `_socket`: absent, or the current socket's state. */
    var socket: Option<ReadyState>
    /** `_reconnectTimer`: the id of the last timer set, if any. */
    var reconnectTimer: Option<nat>
    /** The page's clock, in milliseconds. */
    var now: nat
    /** The reconnect timers that are set and have neither fired nor been
        cleared, each with the time it is due. */
    var pending: map<nat, nat>
    /** The id the next `setTimeout` returns. */
    var nextTimer: nat
    /** The number of sockets created so far. */
    var created: nat
    /** The types of the messages written to an open socket, oldest first. */
    var sent: seq<string>
    /** What was published on the event bus, oldest first. */
    var published: seq<Notice>

    ghost predicate Valid()
      reads this
    {
      && (forall t :: t in pending ==> reconnectTimer == Some(t))
      && (reconnectTimer.Some? ==> reconnectTimer.value < nextTimer)
    }

    /** `_isConnected`. */
    predicate IsConnected()
      reads this
    {
      socket == Some(Open)
    }

    /** `_isConnecting`. */
    predicate IsConnecting()
      reads this
    {
      socket == Some(Connecting)
    }

    /** The constructor connects at once. */
    constructor ()
      ensures Valid()
      ensures socket == Some(Connecting) && created == 1
      ensures reconnectTimer == None && pending == map[] && nextTimer == 0 && now == 0
      ensures sent == [] && published == []
    {
      socket := None;
      reconnectTimer := None;
      now := 0;
      pending := map[];
      nextTimer := 0;
      created := 0;
      sent := [];
      published := [];
      new;
      Connect();
    }

    /** `_connect`: cancel the reconnect timer; unless the socket is open or
        still connecting, create a new one. */
    method Connect()
      requires Valid()
      modifies this`pending, this`socket, this`created
      ensures Valid()
      ensures pending == map[]
      ensures old(socket) == Some(Open) || old(socket) == Some(Connecting) ==>
        socket == old(socket) && created == old(created)
      ensures !(old(socket) == Some(Open) || old(socket) == Some(Connecting)) ==>
        socket == Some(Connecting) && created == old(created) + 1
    {
      ClearTimeout(reconnectTimer);
      AtMostOneTimer(pending.Keys, reconnectTimer);
      if IsConnected() || IsConnecting() {
        return;
      }
      socket := Some(Connecting);
      created := created + 1;
    }

    /** `clearTimeout`: a timer that is pending no longer is; anything else is ignored. */
    method ClearTimeout(timer: Option<nat>)
      modifies this`pending
      ensures pending == if timer.Some? then old(pending) - {timer.value} else old(pending)
    {
      if timer.Some? {
        pending := pending - {timer.value};
      }
    }

    /** `setTimeout`: a fresh timer id, pending and due `delay` milliseconds from now. */
    method SetTimeout(delay: nat) returns (timer: nat)
      modifies this`pending, this`nextTimer
      ensures timer == old(nextTimer) && nextTimer == old(nextTimer) + 1
      ensures pending == old(pending)[timer := now + delay]
    {
      timer := nextTimer;
      nextTimer := nextTimer + 1;
      pending := pending[timer := now + delay];
    }

    /** `send`: written to the socket only when it is open, dropped otherwise. */
    method Send(msgType: string)
      modifies this`sent
      ensures sent == old(sent) + if old(socket) == Some(Open) then [msgType] else []
    {
      if !IsConnected() {
        return;
      }
      sent := sent + [msgType];
    }

    /** `_onOpen`. */
    method OnOpen()
      modifies this`published
      ensures published == old(published) + [Fired("ws-connected")]
    {
      published := published + [Fired("ws-connected")];
    }

    /** `_onMessage`, on a message of type `msgType`: a ping is answered with a
        single pong, the relayed types are published, the rate-limit message
        becomes a notice for the user, and anything else is dropped. */
    method OnMessage(msgType: string)
      modifies this`sent, this`published
      ensures msgType == "ping" ==>
        sent == old(sent) + (if old(socket) == Some(Open) then ["pong"] else []) && published == old(published)
      ensures msgType in RelayedTypes ==> sent == old(sent) && published == old(published) + [Fired(msgType)]
      ensures msgType == "pair-device-join-key-rate-limit" ==>
        sent == old(sent) && published == old(published) + [NotifyUser(RateLimitText)]
      ensures msgType != "ping" && msgType !in RelayedTypes && msgType != "pair-device-join-key-rate-limit" ==>
        sent == old(sent) && published == old(published)
    {
      if msgType == "ping" {
        Send("pong");
      } else if msgType in RelayedTypes {
        published := published + [Fired(msgType)];
      } else if msgType == "pair-device-join-key-rate-limit" {
        published := published + [NotifyUser(RateLimitText)];
      }
    }

    /** `_disconnect`: tell the server, detach the close handler, close and
        forget the socket, and publish the disconnection. Without a socket the
        detaching fails after the (dropped) notice: `ok` is false and nothing
        has changed. */
    method Disconnect() returns (ok: bool)
      modifies this`sent, this`socket, this`published
      ensures ok <==> old(socket).Some?
      ensures !ok ==> socket == old(socket) && sent == old(sent) && published == old(published)
      ensures ok ==>
        && socket == None
        && sent == old(sent) + (if old(socket) == Some(Open) then ["disconnect"] else [])
        && published == old(published) + [Fired("ws-disconnected")]
    {
      Send("disconnect");
      if socket.None? {
        return false;
      }
      socket := None;
      published := published + [Fired("ws-disconnected")];
      ok := true;
    }

    /** `_onDisconnect`, the close handler of the current socket: tell the
        user, replace any pending reconnect timer by a single new one, due
        5000 ms from now, and publish the disconnection. */
    method OnDisconnect()
      requires Valid()
      modifies this`pending, this`nextTimer, this`reconnectTimer, this`published
      ensures Valid()
      ensures reconnectTimer == Some(old(nextTimer)) && nextTimer == old(nextTimer) + 1
      ensures pending == map[old(nextTimer) := now + ReconnectDelay]
      ensures published == old(published) + [NotifyUser(ConnectionLostText), Fired("ws-disconnected")]
    {
      published := published + [NotifyUser(ConnectionLostText)];
      ClearTimeout(reconnectTimer);
      AtMostOneTimer(old(pending).Keys, reconnectTimer);
      var timer := SetTimeout(ReconnectDelay);
      reconnectTimer := Some(timer);
      published := published + [Fired("ws-disconnected")];
    }

    /** The current socket opens: its open handler runs. */
    method SocketOpened()
      requires socket == Some(Connecting)
      modifies this`socket, this`published
      ensures socket == Some(Open)
      ensures published == old(published) + [Fired("ws-connected")]
    {
      socket := Some(Open);
      OnOpen();
    }

    /** The current socket closes, from either end: its close handler runs. */
    method SocketClosed()
      requires Valid() && socket.Some?
      modifies this`socket, this`pending, this`nextTimer, this`reconnectTimer, this`published
      ensures Valid()
      ensures socket == Some(Closed)
      ensures reconnectTimer == Some(old(nextTimer)) && nextTimer == old(nextTimer) + 1
      ensures pending == map[old(nextTimer) := now + ReconnectDelay]
      ensures published == old(published) + [NotifyUser(ConnectionLostText), Fired("ws-disconnected")]
    {
      socket := Some(Closed);
      OnDisconnect();
    }

    /** Time passes on the page's clock. */
    method Advance(ms: nat)
      requires Valid()
      modifies this`now
      ensures Valid()
      ensures now == old(now) + ms
    {
      now := now + ms;
    }

    /** A pending reconnect timer fires once it is due: it connects. */
    method TimerFired(timer: nat)
      requires Valid() && timer in pending && pending[timer] <= now
      modifies this`pending, this`socket, this`created
      ensures Valid()
      ensures pending == map[]
      ensures old(socket) == Some(Open) || old(socket) == Some(Connecting) ==>
        socket == old(socket) && created == old(created)
      ensures !(old(socket) == Some(Open) || old(socket) == Some(Connecting)) ==>
        socket == Some(Connecting) && created == old(created) + 1
    {
      pending := pending - {timer};
      Connect();
    }

    /** `_onVisibilityChange`: coming to the foreground connects. */
    method OnVisibilityChange(hidden: bool)
      requires Valid()
      modifies this`pending, this`socket, this`created
      ensures Valid()
      ensures hidden ==> pending == old(pending) && socket == old(socket) && created == old(created)
      ensures !hidden ==> pending == map[]
      ensures !hidden && !(old(socket) == Some(Open) || old(socket) == Some(Connecting)) ==>
        socket == Some(Connecting) && created == old(created) + 1
      ensures !hidden && (old(socket) == Some(Open) || old(socket) == Some(Connecting)) ==>
        socket == old(socket) && created == old(created)
    {
      if hidden {
        return;
      }
      Connect();
    }

    /** `_reconnect`: disconnect, then connect with a new socket. Without a
        socket the disconnect fails and no socket is created. */
    method Reconnect()
      requires Valid()
      modifies this`sent, this`socket, this`published, this`pending, this`created
      ensures Valid()
      ensures old(socket).None? ==>
        socket == None && created == old(created) && pending == old(pending)
        && sent == old(sent) && published == old(published)
      ensures old(socket).Some? ==>
        && socket == Some(Connecting) && created == old(created) + 1 && pending == map[]
        && sent == old(sent) + (if old(socket) == Some(Open) then ["disconnect"] else [])
        && published == old(published) + [Fired("ws-disconnected")]
    {
      var ok := Disconnect();
      if !ok {
        return;
      }
      Connect();
    }
  }

  /** Two unexpected closes with a foreground visit in between leave exactly
      one reconnect timer pending, the second one, and never two; it is due
      5000 ms after the second close, and firing then creates a new socket. */
  method LostTwiceScenario() returns (pending: map<nat, nat>, created: nat, notices: seq<Notice>, reconnected: nat)
    ensures pending == map[1 := 1000 + ReconnectDelay] && created == 2 && reconnected == 3
    ensures notices == [Fired("ws-connected"), NotifyUser(ConnectionLostText), Fired("ws-disconnected"),
                        NotifyUser(ConnectionLostText), Fired("ws-disconnected")]
  {
    var c := new ServerConnection();
    c.SocketOpened();
    c.SocketClosed();
    c.OnVisibilityChange(false);
    c.Advance(1000);
    c.SocketClosed();
    pending := c.pending;
    created := c.created;
    notices := c.published;
    c.Advance(ReconnectDelay);
    c.TimerFired(1);
    reconnected := c.created;
  }

  /** Asking to connect while a socket is connecting or open creates no
      second socket; a ping is answered only once the socket is open. */
  method ConnectIdempotentScenario() returns (created: nat, sent: seq<string>)
    ensures created == 1 && sent == ["pong"]
  {
    var c := new ServerConnection();
    c.Connect();
    c.OnMessage("ping");
    c.SocketOpened();
    c.Connect();
    c.OnMessage("ping");
    created := c.created;
    sent := c.sent;
  }

  /** A reconnect after a disconnect finds no socket and creates none; only
      a foreground visit connects again. */
  method ReconnectAfterDisconnectScenario() returns (afterReconnect: Option<ReadyState>, afterVisible: Option<ReadyState>, sent: seq<string>)
    ensures afterReconnect == None && afterVisible == Some(Connecting)
    ensures sent == ["disconnect"]
  {
    var c := new ServerConnection();
    c.SocketOpened();
    var ok := c.Disconnect();
    c.Reconnect();
    afterReconnect := c.socket;
    c.OnVisibilityChange(false);
    afterVisible := c.socket;
    sent := c.sent;
  }
}
