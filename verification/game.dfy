/**
 One game between two connected players: who is white and black, whose turn
 it is, the two time budgets, and the board position. The chess rules live in
 chess.js, which this model keeps uninterpreted: an `Engine` either accepts a
 move and yields the next position, or rejects it (chess.js throws).
 */
module Game {
  import opened Common

  /** A board position, identified with its FEN string. */
  type Fen = string

  /** chess.js's move object, passed through to the engine untouched. */
  datatype ChessMove = ChessMove(from: string, to: string, promotion: Option<char>)

  /** `Some(next)` when chess.js accepts the move, `None` when `chess.move` throws. */
  type Engine = (Fen, ChessMove) -> Option<Fen>

  /** The position of a fresh `new Chess()`. */
  const StartFen: Fen := "rnbqkbnr/pppppppp/8/8/8/8/PPPPPPPP/RNBQKBNR w KQkq - 0 1"

  /** Five minutes, in milliseconds. */
  const InitialBudget: int := 5 * 60 * 1000

  datatype Game = Game(
    white: User,
    black: User,
    whiteTimeRemaining: int,
    blackTimeRemaining: int,
    turn: Side,
    fen: Fen)

  /** The constructor: the first player takes white, white moves first, five minutes each. */
  function NewGame(player1: User, player2: User): (g: Game)
    ensures g.white == player1 && g.black == player2
    ensures g.turn == White && g.fen == StartFen
    ensures g.whiteTimeRemaining == 300000 && g.blackTimeRemaining == 300000
  {
    Game(player1, player2, InitialBudget, InitialBudget, White, StartFen)
  }

  /** Reference definition: the side `id` plays in `g`, if any. */
  function SideOf(g: Game, id: Id): Option<Side> {
    if id == g.white.id then Some(White)
    else if id == g.black.id then Some(Black)
    else None
  }

  /** `id` may move exactly when it owns the side whose turn it is. */
  function PlayerCanMove(g: Game, id: Id): (r: bool)
    ensures r ==> SideOf(g, id).Some?
    ensures g.white.id != g.black.id ==> (r <==> SideOf(g, id) == Some(g.turn))
    ensures g.white.id == g.black.id ==> (r <==> id == g.white.id)
  {
    var whiteMove := id == g.white.id && g.turn == White;
    var blackMove := id == g.black.id && g.turn == Black;
    whiteMove || blackMove
  }

  /**
   `Game.move`: a move by a player who may not move is ignored; otherwise the
   engine decides, and only an accepted move changes the position and hands the
   turn over. A rejected move is swallowed (the source catches and logs it).
   */
  function Move(g: Game, id: Id, m: ChessMove, engine: Engine): (g': Game)
    ensures g'.white == g.white && g'.black == g.black
    ensures g'.whiteTimeRemaining == g.whiteTimeRemaining
    ensures g'.blackTimeRemaining == g.blackTimeRemaining
    ensures !PlayerCanMove(g, id) ==> g' == g
    ensures g'.turn != g.turn <==> PlayerCanMove(g, id) && engine(g.fen, m).Some?
    ensures g'.turn == g.turn ==> g' == g
    ensures g'.turn != g.turn ==> g'.turn == Flip(g.turn) && g'.fen == engine(g.fen, m).value
  {
    if PlayerCanMove(g, id) then
      match engine(g.fen, m)
      case Some(next) => g.(fen := next, turn := Flip(g.turn))
      case None => g
    else
      g
  }

  /** The opponent of `id`; anyone who is not white is answered with white. */
  function GetOtherId(g: Game, id: Id): (other: Id)
    ensures SideOf(g, other).Some?
    ensures g.white.id != g.black.id && SideOf(g, id).Some? ==>
              other != id && SideOf(g, other) == Some(Flip(SideOf(g, id).value))
  {
    if id == g.white.id then g.black.id else g.white.id
  }

  /** With distinct players, taking the opponent twice returns to the player. */
  lemma OtherIdInvolution(g: Game, id: Id)
    requires g.white.id != g.black.id
    requires SideOf(g, id).Some?
    ensures GetOtherId(g, GetOtherId(g, id)) == id
  {
  }

  /** After an accepted move the mover may not move again, and the opponent may. */
  lemma AcceptedMoveHandsOver(g: Game, id: Id, m: ChessMove, engine: Engine)
    requires g.white.id != g.black.id
    requires Move(g, id, m, engine).turn != g.turn
    ensures !PlayerCanMove(Move(g, id, m, engine), id)
    ensures PlayerCanMove(Move(g, id, m, engine), GetOtherId(g, id))
  {
  }

  /** One submitted move: who sent it and what it was. */
  datatype Ply = Ply(id: Id, move: ChessMove)

  /** A game after a sequence of submitted moves, accepted or not. */
  function Play(g: Game, plies: seq<Ply>, engine: Engine): Game
    decreases |plies|
  {
    if |plies| == 0 then g
    else Play(Move(g, plies[0].id, plies[0].move, engine), plies[1..], engine)
  }

  /** A submitted move is accepted when its sender may move and the engine takes it. */
  predicate Accepts(g: Game, p: Ply, engine: Engine) {
    PlayerCanMove(g, p.id) && engine(g.fen, p.move).Some?
  }

  /** How many of the submitted moves were accepted, each judged in the game it was played in. */
  function Accepted(g: Game, plies: seq<Ply>, engine: Engine): (n: nat)
    ensures n <= |plies|
    ensures n == 0 ==> Play(g, plies, engine) == g
    decreases |plies|
  {
    if |plies| == 0 then 0
    else
      var g' := Move(g, plies[0].id, plies[0].move, engine);
      (if Accepts(g, plies[0], engine) then 1 else 0) + Accepted(g', plies[1..], engine)
  }

  /** Turns alternate: the turn has flipped once per accepted move. */
  lemma {:induction false} TurnParity(g: Game, plies: seq<Ply>, engine: Engine)
    ensures Play(g, plies, engine).turn ==
            if Accepted(g, plies, engine) % 2 == 0 then g.turn else Flip(g.turn)
    decreases |plies|
  {
    if |plies| > 0 {
      var g' := Move(g, plies[0].id, plies[0].move, engine);
      TurnParity(g', plies[1..], engine);
    }
  }

  /** In a fresh game it is white's turn exactly after an even number of accepted moves. */
  lemma NewGameTurnParity(player1: User, player2: User, plies: seq<Ply>, engine: Engine)
    ensures Play(NewGame(player1, player2), plies, engine).turn == White <==>
            Accepted(NewGame(player1, player2), plies, engine) % 2 == 0
  {
    TurnParity(NewGame(player1, player2), plies, engine);
  }

  /** No sequence of moves touches the players or the time budgets. */
  lemma {:induction false} PlayKeepsPlayers(g: Game, plies: seq<Ply>, engine: Engine)
    ensures Play(g, plies, engine).white == g.white
    ensures Play(g, plies, engine).black == g.black
    ensures Play(g, plies, engine).whiteTimeRemaining == g.whiteTimeRemaining
    ensures Play(g, plies, engine).blackTimeRemaining == g.blackTimeRemaining
    decreases |plies|
  {
    if |plies| > 0 {
      PlayKeepsPlayers(Move(g, plies[0].id, plies[0].move, engine), plies[1..], engine);
    }
  }
}
