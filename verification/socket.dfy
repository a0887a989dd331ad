/**
 The event dispatcher of the server. Every `socket.on` handler runs to
 completion on Node's single event loop, so each one is modelled as one pure
 step from a lobby, the sending connection and the inbound event to the next
 lobby and the outbox: the list of (recipient id, outbound event) pairs the
 handler emits.

 Most handlers read `lobby.games[id]` and use it without checking it. When
 the entry is missing, JavaScript throws a TypeError before the handler has
 changed anything or emitted anything; the step then yields `TypeError`.
 */
module Socket {
  import opened Common
  import opened Game
  import opened Lobby

  datatype Offer = Draw | Takeback | Rematch
  datatype Reply = Request | Accept | Decline

  /** Client-to-server events. `Negotiate` covers the nine request/accept/decline events. */
  datatype Inbound =
    | Flagged
    | Disconnect
    | GlobalChat(chat: Chat)
    | FindGame(user: User, id: Id)
    | GameRequested(id: Id)
    | MakeMove(move: ChessMove, id: Id)
    | Resign(id: Id)
    | GameChat(chat: Chat, id: Id)
    | Leave(id: Id)
    | Negotiate(offer: Offer, reply: Reply, id: Id)

  /** Server-to-client events; `GameRecieved` keeps the protocol's own spelling of 'game-recieved'. */
  datatype Outbound =
    | GameRecieved(opponent: User, side: Side)
    | OpponentResigned
    | OpponentFlagged
    | GameFound(white: User, black: User)
    | UpdateBoard(fen: Fen, turn: Side)
    | FindGamePending
    | FindGameCancelled
    | GlobalChatEcho(chat: Chat)
    | OpponentSentChat(chat: Chat)
    | OpponentNegotiated(offer: Offer, reply: Reply)

  /** One emitted event and the connection id (socket.io room) it is addressed to. */
  datatype Envelope = Envelope(to: Id, event: Outbound)

  /** The outcome of one handler: the next lobby and the outbox, or an escaped TypeError. */
  datatype Result = Handled(lobby: Lobby, out: seq<Envelope>) | TypeError

  /** The ids an outbox reaches. */
  function Recipients(out: seq<Envelope>): set<Id> {
    set e | e in out :: e.to
  }

  /**
   `io.to(a).to(b).emit(e)`: socket.io delivers once per room, so the two
   addressees get `e` once each, and once in all when they coincide.
   */
  function ToBoth(a: Id, b: Id, e: Outbound): (out: seq<Envelope>)
    ensures Recipients(out) == {a, b}
    ensures forall x :: x in out ==> x.event == e
    ensures |out| == if a == b then 1 else 2
  {
    if a == b then [Envelope(a, e)] else [Envelope(a, e), Envelope(b, e)]
  }

  /** `queue.findIndex(user => user.id === id)`: the first position of `id`, or -1. */
  function FindIndex(q: seq<User>, id: Id): (i: int)
    ensures -1 <= i < |q|
    ensures i == -1 <==> !Queued(q, id)
    ensures i >= 0 ==> q[i].id == id && forall j :: 0 <= j < i ==> q[j].id != id
    decreases |q|
  {
    if |q| == 0 then -1
    else if q[0].id == id then 0
    else
      var k := FindIndex(q[1..], id);
      assert forall j :: 0 <= j < |q[1..]| ==> q[1..][j] == q[j + 1];
      assert Queued(q, id) ==> Queued(q[1..], id) by {
        if Queued(q, id) {
          var j :| 0 <= j < |q| && q[j].id == id;
          assert q[1..][j - 1].id == id;
        }
      }
      if k == -1 then -1 else k + 1
  }

  /** The tail of a queue without repeated ids has none either. */
  lemma UniqueTail(q: seq<User>)
    requires |q| > 0 && UniqueIds(q)
    ensures UniqueIds(q[1..])
    ensures !Queued(q[1..], q[0].id)
  {
    forall a, b | 0 <= a < b < |q[1..]| ensures q[1..][a].id != q[1..][b].id {
      assert q[1..][a] == q[a + 1] && q[1..][b] == q[b + 1];
    }
    forall j | 0 <= j < |q[1..]| ensures q[1..][j].id != q[0].id {
      assert q[1..][j] == q[j + 1];
    }
  }

  /** Behind a head that is not `id`, the first match sits one further on and the splice keeps the head in front. */
  lemma SpliceBehindHead(q: seq<User>, id: Id, k: nat)
    requires k + 1 < |q| && q[0].id != id
    requires k == FindIndex(q[1..], id)
    requires q[1..][..k] + q[1..][k + 1..] == RemoveId(q[1..], id)
    ensures FindIndex(q, id) == k + 1
    ensures q[..k + 1] + q[k + 2..] == RemoveId(q, id)
  {
    SpliceKeepsHead(q, k);
    assert RemoveId(q, id) == [q[0]] + RemoveId(q[1..], id);
  }

  /** Splicing position `k + 1` out of a sequence keeps its head in front of the spliced tail. */
  lemma SpliceKeepsHead<T>(q: seq<T>, k: nat)
    requires k + 1 < |q|
    ensures q[..k + 1] + q[k + 2..] == [q[0]] + (q[1..][..k] + q[1..][k + 1..])
  {
    assert q[..k + 1] == [q[0]] + q[1..][..k];
    assert q[k + 2..] == q[1..][k + 1..];
  }

  /** When the head holds `id` and the tail does not, splicing out the head is filtering `id` out. */
  lemma SpliceHead(q: seq<User>, id: Id)
    requires |q| > 0 && q[0].id == id && !Queued(q[1..], id)
    ensures FindIndex(q, id) == 0
    ensures q[..0] + q[1..] == RemoveId(q, id)
  {
    assert q[..0] + q[1..] == q[1..];
  }

  /** On a queue without repeated ids, splicing out the first match is the same as filtering the id out. */
  lemma {:induction false} SpliceIsRemoveId(q: seq<User>, id: Id)
    requires UniqueIds(q)
    requires Queued(q, id)
    ensures q[..FindIndex(q, id)] + q[FindIndex(q, id) + 1..] == RemoveId(q, id)
    decreases |q|
  {
    UniqueTail(q);
    var t := q[1..];
    if q[0].id == id {
      SpliceHead(q, id);
    } else {
      SpliceIsRemoveId(t, id);
      SpliceBehindHead(q, id, FindIndex(t, id));
    }
  }

  /**
   The shared end of a game (`disconnect` with a game, `resign`, `leave`):
   the opponent is told the player resigned and both registry entries go.
   */
  function Forfeit(l: Lobby, id: Id, g: Game): (r: Result)
    ensures r.Handled?
    ensures r.out == [Envelope(GetOtherId(g, id), OpponentResigned)]
    ensures r.lobby.games.Keys == l.games.Keys - {id, GetOtherId(g, id)}
    ensures GameOf(r.lobby, id) == None && GameOf(r.lobby, GetOtherId(g, id)) == None
    ensures forall k :: k != id && k != GetOtherId(g, id) ==> GameOf(r.lobby, k) == GameOf(l, k)
    ensures r.lobby.heap == l.heap
    ensures r.lobby.queue == l.queue && r.lobby.chats == l.chats
  {
    var otherId := GetOtherId(g, id);
    Handled(DeleteGame(l, id, otherId), [Envelope(otherId, OpponentResigned)])
  }

  /** 'flagged': the opponent of the sender, if it has a game, is told; nothing changes. */
  function OnFlagged(l: Lobby, sender: Id): (r: Result)
    ensures r.Handled? && r.lobby == l
    ensures |r.out| <= 1
    ensures r.out == [] <==> GameOf(l, sender).None?
    ensures GameOf(l, sender).Some? ==>
              r.out == [Envelope(GetOtherId(GameOf(l, sender).value, sender), OpponentFlagged)]
  {
    match GameOf(l, sender)
    case Some(game) => Handled(l, [Envelope(GetOtherId(game, sender), OpponentFlagged)])
    case None => Handled(l, [])
  }

  /**
   'disconnect': a player in a game forfeits it (the queue is left as it is);
   otherwise the sender's first queue entry, if any, is removed, silently.
   */
  function OnDisconnect(l: Lobby, sender: Id): (r: Result)
    ensures r.Handled?
    ensures GameOf(l, sender).Some? ==>
              var otherId := GetOtherId(GameOf(l, sender).value, sender);
              && r.out == [Envelope(otherId, OpponentResigned)]
              && r.lobby.games.Keys == l.games.Keys - {sender, otherId}
              && (forall k :: k != sender && k != otherId ==> GameOf(r.lobby, k) == GameOf(l, k))
              && r.lobby.queue == l.queue
    ensures GameOf(l, sender).None? ==>
              && r.out == []
              && r.lobby.games == l.games
              && r.lobby.heap == l.heap
              && |r.lobby.queue| == (if Queued(l.queue, sender) then |l.queue| - 1 else |l.queue|)
              && (UniqueIds(l.queue) ==> r.lobby.queue == RemoveId(l.queue, sender))
    ensures r.lobby.chats == l.chats && r.lobby.heap == l.heap
  {
    match GameOf(l, sender)
    case Some(game) => Forfeit(l, sender, game)
    case None =>
      var queueIndex := FindIndex(l.queue, sender);
      if queueIndex != -1 then
        assert UniqueIds(l.queue) ==> l.queue[..queueIndex] + l.queue[queueIndex + 1..] == RemoveId(l.queue, sender) by {
          if UniqueIds(l.queue) { SpliceIsRemoveId(l.queue, sender); }
        }
        Handled(l.(queue := l.queue[..queueIndex] + l.queue[queueIndex + 1..]), [])
      else
        Handled(l, [])
  }

  /** 'global-chat': stored through `addChat` and echoed to the sender alone. */
  function OnGlobalChat(l: Lobby, sender: Id, chat: Chat): (r: Result)
    ensures r.Handled?
    ensures r.out == [Envelope(sender, GlobalChatEcho(chat))]
    ensures |r.lobby.chats| > 0 && r.lobby.chats[|r.lobby.chats| - 1] == chat
    ensures |l.chats| <= ChatCapacity ==> r.lobby.chats == Latest(l.chats + [chat], ChatCapacity)
    ensures |l.chats| <= ChatCapacity ==> |r.lobby.chats| <= ChatCapacity
    ensures r.lobby.games == l.games && r.lobby.heap == l.heap && r.lobby.queue == l.queue
  {
    assert |l.chats| <= ChatCapacity ==> AddChat(l, chat).chats == Latest(l.chats + [chat], ChatCapacity) by {
      if |l.chats| <= ChatCapacity { AddChatIsLatest(l, chat); }
    }
    Handled(AddChat(l, chat), [Envelope(sender, GlobalChatEcho(chat))])
  }

  /**
   'find-game': a pairing is announced to both players, read back from the
   game now registered under `id`; a cancellation or a wait is told to the
   requesting socket alone.
   */
  function OnFindGame(l: Lobby, sender: Id, user: User, id: Id): (r: Result)
    ensures |l.queue| <= 1 ==> r.Handled?
    ensures r.Handled? ==> r.lobby == QueueUser(l, user, id).0
    ensures QueueUser(l, user, id).1 == Cancelled ==> r.Handled? && r.out == [Envelope(sender, FindGameCancelled)]
    ensures QueueUser(l, user, id).1 == Pending ==> r.Handled? && r.out == [Envelope(sender, FindGamePending)]
    ensures QueueUser(l, user, id).1 == Found && |l.queue| == 1 ==>
              var white := l.queue[0];
              var black := Entry(user, id);
              r.out == ToBoth(white.id, id, GameFound(white, black))
  {
    var (l', status) := QueueUser(l, user, id);
    match status
    case Found =>
      (match GameOf(l', id)
       case Some(game) =>
         Handled(l', ToBoth(game.white.id, game.black.id, GameFound(game.white, game.black)))
       case None => TypeError)
    case Cancelled => Handled(l', [Envelope(sender, FindGameCancelled)])
    case Pending => Handled(l', [Envelope(sender, FindGamePending)])
  }

  /** 'game-requested': tells the sender its side and its opponent; nothing changes. */
  function OnGameRequested(l: Lobby, sender: Id, id: Id): (r: Result)
    ensures r.TypeError? <==> GameOf(l, id).None?
    ensures r.Handled? ==>
              var game := GameOf(l, id).value;
              && r.lobby == l
              && |r.out| == 1 && r.out[0].to == sender && r.out[0].event.GameRecieved?
              && (r.out[0].event.side == White <==> id == game.white.id)
              && r.out[0].event.opponent.id == GetOtherId(game, id)
              && r.out[0].event.opponent in {game.white, game.black}
              && (game.white.id != game.black.id && SideOf(game, id).Some? ==>
                    SideOf(game, id) == Some(r.out[0].event.side))
  {
    match GameOf(l, id)
    case None => TypeError
    case Some(game) =>
      var side := if game.white.id == id then White else Black;
      var opponent := if side == White then game.black else game.white;
      Handled(l, [Envelope(sender, GameRecieved(opponent, side))])
  }

  /**
   'move': the move goes to the shared game object, and both the mover and the
   opponent are sent the resulting board and turn, accepted or not.
   */
  function OnMove(engine: Engine, l: Lobby, m: ChessMove, id: Id): (r: Result)
    ensures r.TypeError? <==> GameOf(l, id).None?
    ensures r.Handled? ==>
              var after := Move(GameOf(l, id).value, id, m, engine);
              && GameOf(r.lobby, id) == Some(after)
              && r.out == ToBoth(id, GetOtherId(after, id), UpdateBoard(after.fen, after.turn))
              && r.lobby.games == l.games && r.lobby.queue == l.queue && r.lobby.chats == l.chats
              && (Valid(l) ==> GameOf(r.lobby, GetOtherId(after, id)) == Some(after))
              && (Valid(l) ==> forall k :: k != id && k != GetOtherId(after, id) ==> GameOf(r.lobby, k) == GameOf(l, k))
  {
    match GameOf(l, id)
    case None => TypeError
    case Some(game) =>
      var after := Move(game, id, m, engine);
      var l' := l.(heap := l.heap[l.games[id] := after]);
      var otherId := GetOtherId(after, id);
      assert Valid(l) ==> otherId in l.games && l.games[otherId] == l.games[id] by {
        if Valid(l) { assert Paired(l, id); }
      }
      assert Valid(l) ==> forall k :: k in l.games && l.games[k] == l.games[id] ==> k == id || k == otherId by {
        if Valid(l) {
          assert Paired(l, id);
          forall k | k in l.games && l.games[k] == l.games[id] ensures k == id || k == otherId {
            assert Paired(l, k);
          }
        }
      }
      Handled(l', ToBoth(id, otherId, UpdateBoard(after.fen, after.turn)))
  }

  /** 'resign' and 'leave' (the two handlers have the same body): the game is forfeited. */
  function OnResign(l: Lobby, id: Id): (r: Result)
    ensures r.TypeError? <==> GameOf(l, id).None?
    ensures r.Handled? ==>
              var otherId := GetOtherId(GameOf(l, id).value, id);
              && Recipients(r.out) == {otherId}
              && r.out == [Envelope(otherId, OpponentResigned)]
              && r.lobby.games.Keys == l.games.Keys - {id, otherId}
              && (forall k :: k != id && k != otherId ==> GameOf(r.lobby, k) == GameOf(l, k))
              && r.lobby.heap == l.heap
              && r.lobby.queue == l.queue && r.lobby.chats == l.chats
  {
    match GameOf(l, id)
    case None => TypeError
    case Some(game) => Forfeit(l, id, game)
  }

  /** 'game-chat': relayed to both the sender's id and the opponent; nothing changes. */
  function OnGameChat(l: Lobby, chat: Chat, id: Id): (r: Result)
    ensures r.TypeError? <==> GameOf(l, id).None?
    ensures r.Handled? ==>
              && r.lobby == l
              && r.out == ToBoth(id, GetOtherId(GameOf(l, id).value, id), OpponentSentChat(chat))
  {
    match GameOf(l, id)
    case None => TypeError
    case Some(game) => Handled(l, ToBoth(id, GetOtherId(game, id), OpponentSentChat(chat)))
  }

  /** A draw, takeback or rematch request, acceptance or refusal: one notice to the opponent. */
  function OnNegotiate(l: Lobby, offer: Offer, reply: Reply, id: Id): (r: Result)
    ensures r.TypeError? <==> GameOf(l, id).None?
    ensures r.Handled? ==>
              && r.lobby == l
              && r.out == [Envelope(GetOtherId(GameOf(l, id).value, id), OpponentNegotiated(offer, reply))]
  {
    match GameOf(l, id)
    case None => TypeError
    case Some(game) => Handled(l, [Envelope(GetOtherId(game, id), OpponentNegotiated(offer, reply))])
  }

  /** The daily job: every registry entry goes; the queue and the chat stay. */
  function Sweep(l: Lobby): (l': Lobby)
    ensures l'.games == map[]
    ensures forall id :: GameOf(l', id) == None
    ensures l'.queue == l.queue && l'.chats == l.chats
    ensures Valid(l) ==> Valid(l')
  {
    l.(games := map[])
  }

  /** The events whose handler looks up the game of a payload id without checking it. */
  predicate GameScoped(ev: Inbound) {
    ev.GameRequested? || ev.MakeMove? || ev.Resign? || ev.GameChat? || ev.Leave? || ev.Negotiate?
  }

  /** One event from connection `sender`, handled to completion. */
  function Dispatch(engine: Engine, l: Lobby, sender: Id, ev: Inbound): (r: Result)
    ensures r.TypeError? ==> GameScoped(ev) || ev.FindGame?
    ensures GameScoped(ev) ==> (r.TypeError? <==> GameOf(l, ev.id).None?)
  {
    match ev
    case Flagged => OnFlagged(l, sender)
    case Disconnect => OnDisconnect(l, sender)
    case GlobalChat(chat) => OnGlobalChat(l, sender, chat)
    case FindGame(user, id) => OnFindGame(l, sender, user, id)
    case GameRequested(id) => OnGameRequested(l, sender, id)
    case MakeMove(m, id) => OnMove(engine, l, m, id)
    case Resign(id) => OnResign(l, id)
    case GameChat(chat, id) => OnGameChat(l, chat, id)
    case Leave(id) => OnResign(l, id)
    case Negotiate(offer, reply, id) => OnNegotiate(l, offer, reply, id)
  }

  /**
   What each handler leaves alone: the replies and reports change nothing,
   only 'global-chat' touches the chat, and only 'find-game' and 'disconnect'
   touch the queue.
   */
  lemma DispatchFrames(engine: Engine, l: Lobby, sender: Id, ev: Inbound)
    ensures var r := Dispatch(engine, l, sender, ev);
            && (r.Handled? && (ev.Flagged? || ev.GameRequested? || ev.GameChat? || ev.Negotiate?) ==> r.lobby == l)
            && (r.Handled? && !ev.GlobalChat? ==> r.lobby.chats == l.chats)
            && (r.Handled? && !ev.FindGame? && !ev.Disconnect? ==> r.lobby.queue == l.queue)
  {
    match ev
    case Flagged =>
    case Disconnect =>
    case GlobalChat(_) =>
    case FindGame(_, _) =>
    case GameRequested(_) =>
    case MakeMove(_, _) =>
    case Resign(_) =>
    case GameChat(_, _) =>
    case Leave(_) =>
    case Negotiate(_, _, _) =>
  }

  /**
   Where each event's notices go and what they say. With a game `g` for the
   id, the opponent is `GetOtherId(g, id)`:
   - 'move' sends `UpdateBoard` with the new position to the mover and the opponent;
   - 'resign', 'leave' and a disconnect in a game send `OpponentResigned` to the opponent alone;
   - 'flagged' sends `OpponentFlagged` to the opponent alone, or nothing without a game;
   - the offers send `OpponentNegotiated` with the same offer and reply to the opponent alone;
   - 'game-chat' sends `OpponentSentChat` with the chat to the sender's id and the opponent;
   - 'game-requested' and 'global-chat' answer the sending connection alone;
   - 'find-game' answers the requester when it waits or cancels, and tells both paired ids of the game.
   */
  lemma DispatchRoutes(engine: Engine, l: Lobby, sender: Id, ev: Inbound)
    ensures var r := Dispatch(engine, l, sender, ev);
            && (ev.MakeMove? && r.Handled? ==>
                  var after := Move(GameOf(l, ev.id).value, ev.id, ev.move, engine);
                  && Recipients(r.out) == {ev.id, GetOtherId(GameOf(l, ev.id).value, ev.id)}
                  && forall e :: e in r.out ==> e.event == UpdateBoard(after.fen, after.turn))
            && ((ev.Resign? || ev.Leave?) && r.Handled? ==>
                  r.out == [Envelope(GetOtherId(GameOf(l, ev.id).value, ev.id), OpponentResigned)])
            && (ev.Disconnect? ==>
                  r.out == if GameOf(l, sender).Some?
                           then [Envelope(GetOtherId(GameOf(l, sender).value, sender), OpponentResigned)]
                           else [])
            && (ev.Flagged? ==>
                  r.out == if GameOf(l, sender).Some?
                           then [Envelope(GetOtherId(GameOf(l, sender).value, sender), OpponentFlagged)]
                           else [])
            && (ev.Negotiate? && r.Handled? ==>
                  r.out == [Envelope(GetOtherId(GameOf(l, ev.id).value, ev.id), OpponentNegotiated(ev.offer, ev.reply))])
            && (ev.GameChat? && r.Handled? ==>
                  && Recipients(r.out) == {ev.id, GetOtherId(GameOf(l, ev.id).value, ev.id)}
                  && forall e :: e in r.out ==> e.event == OpponentSentChat(ev.chat))
            && (ev.GameRequested? && r.Handled? ==>
                  |r.out| == 1 && r.out[0].to == sender && r.out[0].event.GameRecieved?)
            && (ev.GlobalChat? ==> r.out == [Envelope(sender, GlobalChatEcho(ev.chat))])
            && (ev.FindGame? && r.Handled? ==>
                  match QueueUser(l, ev.user, ev.id).1
                  case Cancelled => r.out == [Envelope(sender, FindGameCancelled)]
                  case Pending => r.out == [Envelope(sender, FindGamePending)]
                  case Found =>
                    var g := GameOf(r.lobby, ev.id).value;
                    && Recipients(r.out) == {g.white.id, g.black.id}
                    && forall e :: e in r.out ==> e.event == GameFound(g.white, g.black))
  {
    match ev
    case Flagged =>
    case Disconnect =>
    case GlobalChat(_) =>
    case FindGame(_, _) =>
    case GameRequested(_) =>
    case MakeMove(_, _) =>
    case Resign(_) =>
    case GameChat(_, _) =>
    case Leave(_) =>
    case Negotiate(_, _, _) =>
  }

  /** 'resign' and 'leave' cannot be told apart by their effect. */
  lemma ResignAndLeaveAgree(engine: Engine, l: Lobby, sender: Id, id: Id)
    ensures Dispatch(engine, l, sender, Resign(id)) == Dispatch(engine, l, sender, Leave(id))
  {
  }

  /** On a valid lobby, a handler throws exactly when a game-scoped event names an id with no game. */
  lemma ThrowsOnlyWithoutGame(engine: Engine, l: Lobby, sender: Id, ev: Inbound)
    requires Valid(l)
    ensures Dispatch(engine, l, sender, ev).TypeError? <==> GameScoped(ev) && GameOf(l, ev.id).None?
  {
  }

  /** Ending a game through one of its players keeps the lobby valid. */
  lemma ForfeitKeepsValid(l: Lobby, id: Id)
    requires Valid(l)
    requires GameOf(l, id).Some?
    ensures Valid(Forfeit(l, id, GameOf(l, id).value).lobby)
  {
    var g := GameOf(l, id).value;
    var otherId := GetOtherId(g, id);
    var l' := Forfeit(l, id, g).lobby;
    assert Paired(l, id);
    forall k | k in l'.games ensures Paired(l', k) {
      assert Paired(l, k);
      var gk := l.heap[l.games[k]];
      assert l.games[k] != l.games[id];
      assert gk.white.id != id && gk.white.id != otherId;
      assert gk.black.id != id && gk.black.id != otherId;
    }
  }

  /** A move changes only the shared game object, which keeps its players. */
  lemma MoveKeepsValid(engine: Engine, l: Lobby, m: ChessMove, id: Id)
    requires Valid(l)
    requires GameOf(l, id).Some?
    ensures Valid(OnMove(engine, l, m, id).lobby)
  {
    var l' := OnMove(engine, l, m, id).lobby;
    forall k | k in l'.games ensures Paired(l', k) {
      assert Paired(l, k);
    }
  }

  /** Leaving the queue keeps the lobby valid. */
  lemma DisconnectKeepsValid(l: Lobby, sender: Id)
    requires Valid(l)
    ensures Valid(OnDisconnect(l, sender).lobby)
  {
    if GameOf(l, sender).Some? {
      ForfeitKeepsValid(l, sender);
    }
  }

  /**
   Every handler keeps the lobby valid, provided nobody who is already in a
   game asks for another one (see `RequeueBreaksPairing` for what happens then).
   */
  lemma DispatchKeepsValid(engine: Engine, l: Lobby, sender: Id, ev: Inbound)
    requires Valid(l)
    requires ev.FindGame? ==> ev.id !in l.games
    ensures Dispatch(engine, l, sender, ev).Handled? ==> Valid(Dispatch(engine, l, sender, ev).lobby)
  {
    match ev
    case Disconnect => DisconnectKeepsValid(l, sender);
    case FindGame(user, id) => QueueUserKeepsValid(l, user, id);
    case MakeMove(m, id) =>
      if GameOf(l, id).Some? { MoveKeepsValid(engine, l, m, id); }
    case Resign(id) =>
      if GameOf(l, id).Some? { ForfeitKeepsValid(l, id); }
    case Leave(id) =>
      if GameOf(l, id).Some? { ForfeitKeepsValid(l, id); }
    case _ =>
  }

  /**
   'find-game' as evidently intended for a player whose last game is still
   registered, as it stays after a flag or a checkmate: the stale pair is
   dropped first, then the request is queued.
   */
  function OnFindGameFresh(l: Lobby, sender: Id, user: User, id: Id): Result {
    match GameOf(l, id)
    case None => OnFindGame(l, sender, user, id)
    case Some(g) => OnFindGame(DeleteGame(l, id, GetOtherId(g, id)), sender, user, id)
  }

  /**
   With the stale pair dropped first, every 'find-game' keeps the lobby
   valid, and a requester without a game is handled as the source does.
   */
  lemma FreshFindGameKeepsValid(l: Lobby, sender: Id, user: User, id: Id)
    requires Valid(l)
    ensures GameOf(l, id).None? ==> OnFindGameFresh(l, sender, user, id) == OnFindGame(l, sender, user, id)
    ensures OnFindGameFresh(l, sender, user, id).Handled?
    ensures Valid(OnFindGameFresh(l, sender, user, id).lobby)
  {
    match GameOf(l, id)
    case None =>
      QueueUserKeepsValid(l, user, id);
    case Some(g) =>
      ForfeitKeepsValid(l, id);
      var l1 := DeleteGame(l, id, GetOtherId(g, id));
      assert l1 == Forfeit(l, id, g).lobby;
      QueueUserKeepsValid(l1, user, id);
  }

  /**
   Two players look for a game from an empty lobby: the first is told to wait,
   then both are told of the same game, the earlier one playing white.
   */
  lemma PairingScenario(engine: Engine, a: User, b: User)
    requires a.id != b.id
    ensures var r1 := Dispatch(engine, Empty(), a.id, FindGame(a, a.id));
            && r1 == Handled(r1.lobby, [Envelope(a.id, FindGamePending)])
            && var r2 := Dispatch(engine, r1.lobby, b.id, FindGame(b, b.id));
            && r2.Handled?
            && r2.out == [Envelope(a.id, GameFound(a, b)), Envelope(b.id, GameFound(a, b))]
            && r2.lobby.games[a.id] == r2.lobby.games[b.id]
            && GameOf(r2.lobby, a.id) == Some(NewGame(a, b))
            && r2.lobby.queue == []
  {
    var r1 := Dispatch(engine, Empty(), a.id, FindGame(a, a.id));
    assert Entry(a, a.id) == a && Entry(b, b.id) == b;
    assert r1.lobby.queue == [a];
    assert !Queued(r1.lobby.queue, b.id);
  }

  /**
   After a player disconnects mid-game, a late move, resignation or chat
   naming either player no longer finds a game, and its handler throws.
   */
  lemma StaleEventsThrow(engine: Engine, l: Lobby, a: Id, ev: Inbound)
    requires Valid(l)
    requires GameOf(l, a).Some?
    requires GameScoped(ev) && (ev.id == a || ev.id == GetOtherId(GameOf(l, a).value, a))
    ensures Dispatch(engine, OnDisconnect(l, a).lobby, a, ev).TypeError?
  {
  }

  /** After the daily sweep every game-scoped event throws. */
  lemma SweepThenGameEventsThrow(engine: Engine, l: Lobby, sender: Id, ev: Inbound)
    requires GameScoped(ev)
    ensures Dispatch(engine, Sweep(l), sender, ev).TypeError?
  {
  }

  /**
   A player already in a game who asks for another one is queued and then
   re-registered to the new game, while the old opponent's entry still
   names the old game: the registry is no longer paired.
   */
  lemma RequeueBreaksPairing(engine: Engine)
    ensures var a := User("a", "", "");
            var b := User("b", "", "");
            var c := User("c", "", "");
            var l1 := QueueAll(Empty(), [QueueRequest(a, "a"), QueueRequest(b, "b")]);
            var l2 := QueueAll(l1, [QueueRequest(a, "a"), QueueRequest(c, "c")]);
            && Valid(l1)
            && !Valid(l2)
  {
    var a := User("a", "", "");
    var b := User("b", "", "");
    var c := User("c", "", "");
    var la := QueueUser(Empty(), a, "a").0;
    assert la.queue == [a] && la.games == map[];
    var l1 := QueueUser(la, b, "b").0;
    assert !Queued(la.queue, "b");
    assert l1.games == map["a" := 0, "b" := 0] && l1.heap == map[0 := NewGame(a, b)] && l1.queue == [];
    assert QueueAll(Empty(), [QueueRequest(a, "a"), QueueRequest(b, "b")]) == l1 by {
      assert [QueueRequest(a, "a"), QueueRequest(b, "b")][1..] == [QueueRequest(b, "b")];
      assert QueueAll(l1, []) == l1;
      assert QueueAll(la, [QueueRequest(b, "b")]) == l1;
    }
    var lc := QueueUser(l1, a, "a").0;
    assert lc.queue == [a] && lc.games == l1.games;
    var l2 := QueueUser(lc, c, "c").0;
    assert !Queued(lc.queue, "c");
    assert l2.games == map["a" := 1, "b" := 0, "c" := 1] && l2.heap == map[0 := NewGame(a, b), 1 := NewGame(a, c)];
    assert QueueAll(l1, [QueueRequest(a, "a"), QueueRequest(c, "c")]) == l2 by {
      assert [QueueRequest(a, "a"), QueueRequest(c, "c")][1..] == [QueueRequest(c, "c")];
      assert QueueAll(l2, []) == l2;
      assert QueueAll(lc, [QueueRequest(c, "c")]) == l2;
    }
    assert Paired(l1, "a") && Paired(l1, "b");
    assert !Paired(l2, "b");
  }
}
