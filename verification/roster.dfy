/** The client roster of the legacy poller (src/thread.cpp:197-374): a map
    from client id to what is known of the client, kept up to date from the
    server's enter, leave, move and text notifications, and the script
    callbacks each notification queues. The fields the notification regexes
    extract and the answers of the blocking name lookups are taken as
    already parsed. */
module Roster {

  /** What the roster remembers of a client. */
  datatype ClientInfo = ClientInfo(uid: string, lastChannelName: string)

  /** `ClientInfo`: client id to client. */
  type Clients = map<int, ClientInfo>

  /** A notification, with its extracted fields and the lookup answers it
      needed ("" when a lookup found nothing). */
  datatype Event =
    | EnterView(clid: int, uid: string, nickname: string, channelName: string)
    | LeftView(clid: int, nickname: string)
    | TextMessage(targetMode: int, clid: int, nickname: string, uid: string, message: string)
    | ClientMoved(clid: int, nickname: string, channelName: string)

  /** A script callback queued for the scripting host. */
  datatype ScriptCall = ScriptCall(name: string, params: seq<string>)

  const OnConnect: string := "TSC_OnClientConnect"
  const OnDisconnect: string := "TSC_OnClientDisconnect"
  const OnServerText: string := "TSC_OnClientServerText"
  const OnChannelText: string := "TSC_OnClientChannelText"
  const OnChannelMove: string := "TSC_OnClientChannelMove"

  /** Target modes of a text message. */
  const ChannelMode: int := 2
  const ServerMode: int := 3

  /** The roster after a notification and the callbacks it queued. */
  datatype Reaction = Reaction(clients: Clients, calls: seq<ScriptCall>)

  /** The client id a notification is about. */
  function Subject(e: Event): int {
    e.clid
  }

  /** One notification. Only an enter adds a client, only a leave removes
      one, no notification changes a known client's UID, and each queues at
      most one callback. */
  function Handle(clients: Clients, e: Event): (r: Reaction)
    ensures |r.calls| <= 1
    ensures r.clients.Keys ==
      if e.EnterView? then clients.Keys + {e.clid}
      else if e.LeftView? then clients.Keys - {e.clid}
      else clients.Keys
    ensures forall c :: c in clients && c in r.clients ==> r.clients[c].uid == clients[c].uid
  {
    match e
    case EnterView(clid, uid, nickname, channelName) =>
      var after := if clid in clients then clients else clients[clid := ClientInfo(uid, channelName)];
      Reaction(after, [ScriptCall(OnConnect, [nickname, uid])])
    case LeftView(clid, nickname) =>
      if clid in clients then
        Reaction(clients - {clid}, [ScriptCall(OnDisconnect, [nickname, clients[clid].uid])])
      else Reaction(clients, [])
    case TextMessage(mode, clid, nickname, uid, message) =>
      if mode == ServerMode then
        Reaction(clients, [ScriptCall(OnServerText, [nickname, uid, message])])
      else if mode == ChannelMode && clid in clients && nickname != [] && uid != [] && message != [] then
        Reaction(clients, [ScriptCall(OnChannelText, [nickname, uid, clients[clid].lastChannelName, message])])
      else Reaction(clients, [])
    case ClientMoved(clid, nickname, channelName) =>
      if clid in clients && nickname != [] && channelName != [] then
        var moved := clients[clid].(lastChannelName := channelName);
        Reaction(clients[clid := moved], [ScriptCall(OnChannelMove, [nickname, moved.uid, channelName])])
      else Reaction(clients, [])
  }

  /** Clients other than the one a notification is about are untouched. */
  lemma OthersUntouched(clients: Clients, e: Event)
    ensures forall c :: c in clients && c != Subject(e) ==>
      c in Handle(clients, e).clients && Handle(clients, e).clients[c] == clients[c]
  {
  }

  /** Enter: the client is recorded only when its id is new (an existing
      entry is kept as it was), and the connect callback is always queued. */
  lemma EnterViewRule(clients: Clients, clid: int, uid: string, nickname: string, channelName: string)
    ensures var r := Handle(clients, EnterView(clid, uid, nickname, channelName));
      && r.calls == [ScriptCall(OnConnect, [nickname, uid])]
      && (clid in clients ==> r.clients == clients)
      && (clid !in clients ==> r.clients[clid] == ClientInfo(uid, channelName))
  {
  }

  /** Leave: an unknown id changes nothing and queues nothing; a known one
      is removed, and the disconnect callback carries the UID the roster
      held, not one from the notification. */
  lemma LeftViewRule(clients: Clients, clid: int, nickname: string)
    ensures var r := Handle(clients, LeftView(clid, nickname));
      && (clid !in clients ==> r == Reaction(clients, []))
      && (clid in clients ==>
            && r.clients == clients - {clid}
            && r.calls == [ScriptCall(OnDisconnect, [nickname, clients[clid].uid])])
  {
  }

  /** Move: the client's channel is updated and the move callback queued
      exactly when the id is known and both looked-up names are non-empty;
      otherwise nothing happens. */
  lemma ClientMovedRule(clients: Clients, clid: int, nickname: string, channelName: string)
    ensures var r := Handle(clients, ClientMoved(clid, nickname, channelName));
      && (r.calls != [] <==> clid in clients && nickname != [] && channelName != [])
      && (r.calls == [] ==> r.clients == clients)
      && (r.calls != [] ==>
            && r.clients[clid] == ClientInfo(clients[clid].uid, channelName)
            && r.calls == [ScriptCall(OnChannelMove, [nickname, clients[clid].uid, channelName])])
  {
  }

  /** Text: the roster never changes; a server text is always reported, a
      channel text only from a known client with non-empty nickname, UID
      and message, with the channel the roster last saw it in; any other
      mode is ignored. */
  lemma TextMessageRule(clients: Clients, mode: int, clid: int, nickname: string, uid: string, message: string)
    ensures var r := Handle(clients, TextMessage(mode, clid, nickname, uid, message));
      && r.clients == clients
      && (mode == ServerMode ==> r.calls == [ScriptCall(OnServerText, [nickname, uid, message])])
      && (mode == ChannelMode ==>
            (r.calls != [] <==> clid in clients && nickname != [] && uid != [] && message != []))
      && (mode == ChannelMode && r.calls != [] ==>
            r.calls == [ScriptCall(OnChannelText, [nickname, uid, clients[clid].lastChannelName, message])])
      && (mode != ServerMode && mode != ChannelMode ==> r.calls == [])
  {
  }

  /** A client that enters and then leaves leaves the roster as it was, and
      the disconnect carries the UID it entered with. */
  lemma EnterThenLeave(clients: Clients, clid: int, uid: string, nickname: string, channelName: string, name: string)
    requires clid !in clients
    ensures var entered := Handle(clients, EnterView(clid, uid, nickname, channelName));
      var left := Handle(entered.clients, LeftView(clid, name));
      && left.clients == clients
      && left.calls == [ScriptCall(OnDisconnect, [name, uid])]
  {
    var entered := Handle(clients, EnterView(clid, uid, nickname, channelName));
    assert entered.clients - {clid} == clients;
  }

  /** A channel text reports the channel of the client's latest move. */
  lemma MoveThenChannelText(clients: Clients, clid: int, nickname: string, channelName: string,
                            uid: string, message: string)
    requires clid in clients && nickname != [] && channelName != [] && uid != [] && message != []
    ensures var moved := Handle(clients, ClientMoved(clid, nickname, channelName));
      Handle(moved.clients, TextMessage(ChannelMode, clid, nickname, uid, message)).calls
        == [ScriptCall(OnChannelText, [nickname, uid, channelName, message])]
  {
  }

  /** A stream of notifications handled one after another. */
  function HandleAll(clients: Clients, events: seq<Event>): (r: Reaction)
    ensures |r.calls| <= |events|
    decreases |events|
  {
    if events == [] then Reaction(clients, [])
    else
      var first := Handle(clients, events[0]);
      var rest := HandleAll(first.clients, events[1..]);
      Reaction(rest.clients, first.calls + rest.calls)
  }

  /** Whether a stream holds a leave for the client. */
  predicate LeavesIn(events: seq<Event>, clid: int) {
    exists i :: 0 <= i < |events| && events[i].LeftView? && events[i].clid == clid
  }

  /** A known client stays known, with the UID it entered with, for as long
      as no leave for it arrives, whatever else the stream holds. */
  lemma {:induction false} UidStable(clients: Clients, events: seq<Event>, clid: int)
    requires clid in clients && !LeavesIn(events, clid)
    ensures clid in HandleAll(clients, events).clients
    ensures HandleAll(clients, events).clients[clid].uid == clients[clid].uid
    decreases |events|
  {
    if events != [] {
      var first := Handle(clients, events[0]);
      assert !(events[0].LeftView? && events[0].clid == clid);
      assert !LeavesIn(events[1..], clid);
      UidStable(first.clients, events[1..], clid);
    }
  }

  /** The ids known after a stream are the ones known before or entered
      during it. */
  lemma {:induction false} KnownAfter(clients: Clients, events: seq<Event>)
    ensures forall c :: c in HandleAll(clients, events).clients ==>
      c in clients || exists i :: 0 <= i < |events| && events[i].EnterView? && events[i].clid == c
    decreases |events|
  {
    if events != [] {
      var first := Handle(clients, events[0]);
      KnownAfter(first.clients, events[1..]);
      forall c | c in HandleAll(clients, events).clients
        ensures c in clients || exists i :: 0 <= i < |events| && events[i].EnterView? && events[i].clid == c
      {
        if c !in first.clients {
          var i :| 0 <= i < |events[1..]| && events[1..][i].EnterView? && events[1..][i].clid == c;
          assert events[i + 1] == events[1..][i];
        } else if c !in clients {
          assert events[0].EnterView? && events[0].clid == c;
        }
      }
    }
  }
}
