/**
 The lobby: the matchmaking queue, the registry from connection id to the
 game that id is playing, and the global chat buffer.

 In the server the registry is a plain object whose two entries for a game
 hold the SAME `Game` object, so that a move made through one id is seen
 through the other. The model keeps that aliasing explicit: `games` maps an
 id to a reference, and `heap` maps references to games.
 */
module Lobby {
  import opened Common
  import opened Game

  /** A reference to a `Game` object. */
  type GameRef = nat

  /** The global chat keeps only this many messages. */
  const ChatCapacity: nat := 20

  datatype Lobby = Lobby(
    games: map<Id, GameRef>,
    heap: map<GameRef, Game>,
    nextRef: GameRef,
    queue: seq<User>,
    chats: seq<Chat>)

  /** What `queueUser` reports to its caller. */
  datatype QueueStatus = Cancelled | Found | Pending

  /** The lobby as the constructor leaves it: nothing registered, queued or said. */
  function Empty(): (l: Lobby)
    ensures l.games == map[] && l.queue == [] && l.chats == []
    ensures Valid(l)
  {
    Lobby(map[], map[], 0, [], [])
  }

  /** `lobby.games[id]`: the game `id` plays in, `None` for `undefined`. */
  function GameOf(l: Lobby, id: Id): Option<Game> {
    if id in l.games && l.games[id] in l.heap then Some(l.heap[l.games[id]]) else None
  }

  /** Every registered id names a live game, and every live game is older than `nextRef`. */
  ghost predicate HeapSound(l: Lobby) {
    && (forall id :: id in l.games ==> l.games[id] in l.heap)
    && (forall r :: r in l.heap ==> r < l.nextRef)
  }

  /** The registry entry of `id` belongs to one of two distinct players, both registered to the same game. */
  ghost predicate Paired(l: Lobby, id: Id)
    requires id in l.games && l.games[id] in l.heap
  {
    var g := l.heap[l.games[id]];
    && g.white.id != g.black.id
    && (id == g.white.id || id == g.black.id)
    && g.white.id in l.games && l.games[g.white.id] == l.games[id]
    && g.black.id in l.games && l.games[g.black.id] == l.games[id]
  }

  /** The lobby invariant: paired registry, at most one waiting player who is not in a game, bounded chat. */
  ghost predicate Valid(l: Lobby) {
    && HeapSound(l)
    && (forall id :: id in l.games ==> Paired(l, id))
    && |l.queue| <= 1
    && (forall i :: 0 <= i < |l.queue| ==> l.queue[i].id !in l.games)
    && |l.chats| <= ChatCapacity
  }

  /** `createGame`: a new game, registered under both players' ids as one shared object. */
  function CreateGame(l: Lobby, white: User, black: User): (l': Lobby)
    ensures white.id in l'.games && black.id in l'.games
    ensures l'.games[white.id] == l'.games[black.id]
    ensures GameOf(l', white.id) == Some(NewGame(white, black))
    ensures GameOf(l', black.id) == Some(NewGame(white, black))
    ensures l'.games.Keys == l.games.Keys + {white.id, black.id}
    ensures forall k :: k in l.games && k != white.id && k != black.id ==> l'.games[k] == l.games[k]
    ensures HeapSound(l) ==> HeapSound(l')
    ensures HeapSound(l) ==> forall k :: k != white.id && k != black.id ==> GameOf(l', k) == GameOf(l, k)
    ensures l'.queue == l.queue && l'.chats == l.chats
  {
    var r := l.nextRef;
    l.(games := l.games[white.id := r][black.id := r],
       heap := l.heap[r := NewGame(white, black)],
       nextRef := r + 1)
  }

  /** `deleteGame`: drops exactly the two given registry entries. */
  function DeleteGame(l: Lobby, whiteId: Id, blackId: Id): (l': Lobby)
    ensures l'.games.Keys == l.games.Keys - {whiteId, blackId}
    ensures forall k :: k in l'.games ==> l'.games[k] == l.games[k]
    ensures GameOf(l', whiteId) == None && GameOf(l', blackId) == None
    ensures forall k :: k != whiteId && k != blackId ==> GameOf(l', k) == GameOf(l, k)
    ensures l'.heap == l.heap && l'.nextRef == l.nextRef
    ensures l'.queue == l.queue && l'.chats == l.chats
  {
    l.(games := l.games - {whiteId, blackId})
  }

  /** Deleting the same pair twice is the same as deleting it once. */
  lemma DeleteGameIdempotent(l: Lobby, whiteId: Id, blackId: Id)
    ensures DeleteGame(DeleteGame(l, whiteId, blackId), whiteId, blackId) == DeleteGame(l, whiteId, blackId)
  {
  }

  /** Deleting a freshly created game restores the registry it was created in. */
  lemma DeleteUndoesCreate(l: Lobby, white: User, black: User)
    requires white.id !in l.games && black.id !in l.games
    ensures DeleteGame(CreateGame(l, white, black), white.id, black.id).games == l.games
  {
    var l' := DeleteGame(CreateGame(l, white, black), white.id, black.id);
    assert l'.games.Keys == l.games.Keys;
  }

  /** `queue.some(u => u.id === id)`. */
  predicate Queued(q: seq<User>, id: Id) {
    exists i :: 0 <= i < |q| && q[i].id == id
  }

  /** No id waits twice. */
  ghost predicate UniqueIds(q: seq<User>) {
    forall i, j :: 0 <= i < j < |q| ==> q[i].id != q[j].id
  }

  /** `queue.filter(u => u.id !== id)`: every entry of `id` goes, the others stay. */
  function RemoveId(q: seq<User>, id: Id): (r: seq<User>)
    ensures |r| <= |q|
    ensures forall u :: u in r <==> u in q && u.id != id
    ensures Queued(q, id) ==> |r| < |q|
    ensures !Queued(q, id) ==> r == q
    decreases |q|
  {
    if |q| == 0 then []
    else
      var rest := RemoveId(q[1..], id);
      assert forall u :: u in q <==> u == q[0] || u in q[1..];
      assert Queued(q, id) && q[0].id != id ==> Queued(q[1..], id) by {
        if Queued(q, id) && q[0].id != id {
          var k :| 0 <= k < |q| && q[k].id == id;
          assert q[1..][k - 1].id == id;
        }
      }
      assert !Queued(q, id) ==> !Queued(q[1..], id) by {
        if Queued(q[1..], id) {
          var k :| 0 <= k < |q[1..]| && q[1..][k].id == id;
          assert q[k + 1].id == id;
        }
      }
      if q[0].id == id then rest else [q[0]] + rest
  }

  /** Filtering a one-entry queue keeps the entry exactly when it has another id. */
  lemma RemoveIdSingle(u: User, id: Id)
    ensures RemoveId([u], id) == if u.id == id then [] else [u]
  {
    assert [u][1..] == [];
  }

  /** Filtering distributes over concatenation, so the kept entries stay in queue order. */
  lemma {:induction false} RemoveIdAppend(a: seq<User>, b: seq<User>, id: Id)
    ensures RemoveId(a + b, id) == RemoveId(a, id) + RemoveId(b, id)
    decreases |a|
  {
    if |a| == 0 {
      assert a + b == b;
    } else {
      assert (a + b)[0] == a[0];
      assert (a + b)[1..] == a[1..] + b;
      RemoveIdAppend(a[1..], b, id);
    }
  }

  /** Putting an id in front of a queue that lacks it keeps ids unrepeated. */
  lemma ConsKeepsUnique(x: User, rest: seq<User>)
    requires UniqueIds(rest)
    requires forall u :: u in rest ==> u.id != x.id
    ensures UniqueIds([x] + rest)
  {
    var r := [x] + rest;
    forall i, j | 0 <= i < j < |r| ensures r[i].id != r[j].id {
      assert r[j] == rest[j - 1];
      if i == 0 {
        assert rest[j - 1] in rest;
      } else {
        assert r[i] == rest[i - 1];
      }
    }
  }

  /** Filtering an id out of a queue with no repeated id leaves none repeated. */
  lemma {:induction false} RemoveIdKeepsUnique(q: seq<User>, id: Id)
    requires UniqueIds(q)
    ensures UniqueIds(RemoveId(q, id))
    decreases |q|
  {
    if |q| > 0 {
      var t := q[1..];
      assert UniqueIds(t) by {
        forall a, b | 0 <= a < b < |t| ensures t[a].id != t[b].id {
          assert t[a] == q[a + 1] && t[b] == q[b + 1];
        }
      }
      RemoveIdKeepsUnique(t, id);
      var rest := RemoveId(t, id);
      if q[0].id != id {
        forall u | u in rest ensures u.id != q[0].id {
          assert u in t;
          var k :| 0 <= k < |t| && t[k] == u;
          assert q[k + 1] == u;
        }
        ConsKeepsUnique(q[0], rest);
      }
    }
  }

  /** The entry `queueUser` pushes: the user's fields, with `id` overriding `user.id`. */
  function Entry(user: User, id: Id): (e: User)
    ensures e.id == id && e.username == user.username && e.pic == user.pic
  {
    user.(id := id)
  }

  /**
   `queueUser`: a request from a waiting id cancels it; otherwise the id is
   appended, and once two wait, the two earliest are paired with the earlier
   one as white.
   */
  function QueueUser(l: Lobby, user: User, id: Id): (res: (Lobby, QueueStatus))
    ensures res.0.chats == l.chats
    ensures res.1 == Cancelled <==> Queued(l.queue, id)
    ensures res.1 == Cancelled ==>
              res.0.games == l.games && res.0.heap == l.heap &&
              res.0.queue == RemoveId(l.queue, id)
    ensures res.1 == Pending ==>
              l.queue == [] && res.0.queue == [Entry(user, id)] &&
              res.0.games == l.games && res.0.heap == l.heap
    ensures res.1 == Found ==>
              var waiting := l.queue + [Entry(user, id)];
              && |l.queue| >= 1
              && res.0.queue == waiting[2..]
              && waiting[0] == l.queue[0]
              && (|l.queue| == 1 ==> waiting[1] == Entry(user, id))
              && res.0.games.Keys == l.games.Keys + {waiting[0].id, waiting[1].id}
              && res.0.games[waiting[0].id] == res.0.games[waiting[1].id]
              && GameOf(res.0, waiting[0].id) == Some(NewGame(waiting[0], waiting[1]))
              && (HeapSound(l) ==> forall k :: k != waiting[0].id && k != waiting[1].id ==> GameOf(res.0, k) == GameOf(l, k))
  {
    if Queued(l.queue, id) then
      (l.(queue := RemoveId(l.queue, id)), Cancelled)
    else
      var waiting := l.queue + [Entry(user, id)];
      if |waiting| >= 2 then
        (CreateGame(l.(queue := waiting[2..]), waiting[0], waiting[1]), Found)
      else
        (l.(queue := waiting), Pending)
  }

  /** The same id asking twice from an empty queue: pending, then cancelled, and nobody waits. */
  lemma PendingThenCancelled(l: Lobby, user: User, again: User, id: Id)
    requires l.queue == []
    ensures QueueUser(l, user, id).1 == Pending
    ensures QueueUser(QueueUser(l, user, id).0, again, id).1 == Cancelled
    ensures QueueUser(QueueUser(l, user, id).0, again, id).0.queue == []
    ensures QueueUser(QueueUser(l, user, id).0, again, id).0.games == l.games
  {
    var l1 := QueueUser(l, user, id).0;
    assert l1.queue[0].id == id;
  }

  /** A pairing always joins two different ids, provided the queue had no repeated id. */
  lemma PairedIdsDistinct(l: Lobby, user: User, id: Id)
    requires UniqueIds(l.queue)
    requires QueueUser(l, user, id).1 == Found
    ensures (l.queue + [Entry(user, id)])[0].id != (l.queue + [Entry(user, id)])[1].id
  {
    if |l.queue| == 1 {
      assert l.queue[0].id != id;
    }
  }

  /** `queueUser` never lets an id wait twice. */
  lemma QueueUserKeepsIdsUnique(l: Lobby, user: User, id: Id)
    requires UniqueIds(l.queue)
    ensures UniqueIds(QueueUser(l, user, id).0.queue)
  {
    if Queued(l.queue, id) {
      RemoveIdKeepsUnique(l.queue, id);
    } else {
      var waiting := l.queue + [Entry(user, id)];
      assert UniqueIds(waiting) by {
        forall i, j | 0 <= i < j < |waiting| ensures waiting[i].id != waiting[j].id {
          if j == |l.queue| {
            assert waiting[i] == l.queue[i];
          }
        }
      }
    }
  }

  /** One `queueUser` step keeps at most one player waiting. */
  lemma QueueUserKeepsQueueShort(l: Lobby, user: User, id: Id)
    requires |l.queue| <= 1
    ensures |QueueUser(l, user, id).0.queue| <= 1
  {
  }

  /** A matchmaking request: the user payload and the id it is filed under. */
  datatype QueueRequest = QueueRequest(user: User, id: Id)

  /** The lobby after a sequence of `queueUser` calls. */
  function QueueAll(l: Lobby, requests: seq<QueueRequest>): Lobby
    decreases |requests|
  {
    if |requests| == 0 then l
    else QueueAll(QueueUser(l, requests[0].user, requests[0].id).0, requests[1..])
  }

  /** Starting from at most one waiting player, no sequence of requests makes two wait. */
  lemma {:induction false} QueueNeverHoldsTwo(l: Lobby, requests: seq<QueueRequest>)
    requires |l.queue| <= 1
    ensures |QueueAll(l, requests).queue| <= 1
    decreases |requests|
  {
    if |requests| > 0 {
      QueueUserKeepsQueueShort(l, requests[0].user, requests[0].id);
      QueueNeverHoldsTwo(QueueUser(l, requests[0].user, requests[0].id).0, requests[1..]);
    }
  }

  /** A waiting player who is not yet in a game stays so through `queueUser` from someone not in a game. */
  lemma QueueUserKeepsValid(l: Lobby, user: User, id: Id)
    requires Valid(l)
    requires id !in l.games
    ensures Valid(QueueUser(l, user, id).0)
  {
    var (l', status) := QueueUser(l, user, id);
    if status == Found {
      var waiting := l.queue + [Entry(user, id)];
      var w, b := waiting[0], waiting[1];
      assert w.id != b.id by { PairedIdsDistinct(l, user, id); }
      assert w.id !in l.games && b.id !in l.games;
      CreateGameKeepsPaired(l.(queue := waiting[2..]), w, b);
    }
  }

  /** Registering two distinct players who are not in a game keeps every registry entry paired. */
  lemma CreateGameKeepsPaired(l: Lobby, white: User, black: User)
    requires HeapSound(l)
    requires forall id :: id in l.games ==> Paired(l, id)
    requires white.id != black.id && white.id !in l.games && black.id !in l.games
    ensures var l' := CreateGame(l, white, black);
            HeapSound(l') && forall id :: id in l'.games ==> Paired(l', id)
  {
    var l' := CreateGame(l, white, black);
    forall k | k in l'.games ensures Paired(l', k) {
      if k != white.id && k != black.id {
        var g := l.heap[l.games[k]];
        assert Paired(l, k);
        assert l'.games[k] == l.games[k] && l'.heap[l.games[k]] == g;
        assert l'.games[g.white.id] == l.games[g.white.id];
        assert l'.games[g.black.id] == l.games[g.black.id];
      }
    }
  }

  /** The newest `n` elements of `s`. */
  function Latest<T>(s: seq<T>, n: nat): (r: seq<T>)
    ensures |r| == if |s| <= n then |s| else n
    ensures forall i :: 0 <= i < |r| ==> r[i] == s[|s| - |r| + i]
  {
    if |s| <= n then s else s[|s| - n..]
  }

  /** `addChat`: when full, the oldest message is evicted; the new one is always last. */
  function AddChat(l: Lobby, chat: Chat): (l': Lobby)
    ensures |l'.chats| == if |l.chats| >= ChatCapacity then |l.chats| else |l.chats| + 1
    ensures l'.chats[|l'.chats| - 1] == chat
    ensures |l.chats| >= ChatCapacity ==> l'.chats[..|l'.chats| - 1] == l.chats[1..]
    ensures |l.chats| < ChatCapacity ==> l'.chats[..|l'.chats| - 1] == l.chats
    ensures l'.games == l.games && l'.heap == l.heap && l'.nextRef == l.nextRef
    ensures l'.queue == l.queue
  {
    var kept := if |l.chats| >= ChatCapacity then l.chats[1..] else l.chats;
    assert (kept + [chat])[..|kept|] == kept;
    l.(chats := kept + [chat])
  }

  /** The lobby after a sequence of `addChat` calls. */
  function AddChats(l: Lobby, chats: seq<Chat>): Lobby
    decreases |chats|
  {
    if |chats| == 0 then l else AddChats(AddChat(l, chats[0]), chats[1..])
  }

  /** Trimming to the newest `n` before appending loses nothing the final trim keeps. */
  lemma LatestAbsorbs<T>(s: seq<T>, t: seq<T>, n: nat)
    ensures Latest(Latest(s, n) + t, n) == Latest(s + t, n)
  {
    if |s| > n {
      var ls := s[|s| - n..];
      assert Latest(s, n) == ls;
      assert ls + t == (s + t)[|s| - n..];
      if |t| > 0 {
        assert Latest(ls + t, n) == (ls + t)[|t|..];
        assert (s + t)[|s| - n..][|t|..] == (s + t)[|s| - n + |t|..];
      }
    }
  }

  /** One `addChat` on a buffer within capacity keeps the newest messages of the buffer and the new one. */
  lemma AddChatIsLatest(l: Lobby, chat: Chat)
    requires |l.chats| <= ChatCapacity
    ensures AddChat(l, chat).chats == Latest(l.chats + [chat], ChatCapacity)
  {
    var s := l.chats + [chat];
    if |l.chats| == ChatCapacity {
      assert s[|s| - ChatCapacity..] == l.chats[1..] + [chat];
    }
  }

  /** The chat buffer always holds exactly the newest twenty messages ever posted. */
  lemma {:induction false} ChatBufferKeepsLatest(l: Lobby, chats: seq<Chat>)
    requires |l.chats| <= ChatCapacity
    ensures AddChats(l, chats).chats == Latest(l.chats + chats, ChatCapacity)
    ensures |AddChats(l, chats).chats| <= ChatCapacity
    decreases |chats|
  {
    if |chats| == 0 {
      assert l.chats + chats == l.chats;
    } else {
      var l1 := AddChat(l, chats[0]);
      var s := l.chats + [chats[0]];
      AddChatIsLatest(l, chats[0]);
      ChatBufferKeepsLatest(l1, chats[1..]);
      LatestAbsorbs(s, chats[1..], ChatCapacity);
      assert AddChats(l, chats) == AddChats(l1, chats[1..]);
      assert s + chats[1..] == l.chats + chats;
    }
  }
}
