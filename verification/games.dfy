/**
 * The game states the evaluation tree is generic over: the `GameState`
 * trait of the source (`expand`, `position_value`) together with `side` and
 * `last_move`, which the arena and the driver call on every state. The main
 * engine instantiates it with tic-tac-toe and four-in-a-row, the older
 * `refactor` engine with its own tic-tac-toe state.
 */
module Games {
  import opened Cells
  import opened Boards
  import T3Game
  import FiarGame
  import RefactorT3Game

  /** The two games the driver is generated for. */
  datatype GameKind = TicTacToe | FourInARow

  datatype GameState =
    | T3(t3: T3Game.T3GameState)
    | Fiar(fiar: FiarGame.FiarGameState)
    | Legacy(legacy: RefactorT3Game.T3GameState)
  {
    /** `side()`: the side that made the last move. */
    function Side(): Cell {
      match this
      case T3(s) => s.Side()
      case Fiar(s) => s.Side()
      case Legacy(s) => s.Side()
    }

    /** `last_move()`, in the main engine's `BoardMove` form. */
    function LastMove(): BoardMove {
      match this
      case T3(s) => s.lastMove
      case Fiar(s) => s.lastMove
      case Legacy(s) => s.Move()
    }

    /** A consistent board whose last move lies on it. */
    predicate WellFormed() {
      match this
      case T3(s) => s.WellFormed()
      case Fiar(s) => s.WellFormed()
      case Legacy(s) => s.WellFormed()
    }

    /** Both states are of the same game. */
    predicate SameGame(other: GameState) {
      (T3? && other.T3?) || (Fiar? && other.Fiar?) || (Legacy? && other.Legacy?)
    }

    /**
     * `expand()`: the states reachable in one move. Each is a well-formed
     * state of the same game whose side is the opposite of this one's.
     */
    function Children(): (kids: seq<GameState>)
      requires WellFormed() && Side() != Empty
      ensures forall k | k in kids ::
        k.WellFormed() && SameGame(k) && k.Side() != Empty && k.Side() != Side()
    {
      match this
      case T3(s) =>
        var e := T3Game.Expand(s);
        T3Game.ExpandChildren(s);
        seq(|e|, j requires 0 <= j < |e| => T3(e[j]))
      case Fiar(s) =>
        var e := FiarGame.Children(s);
        FiarGame.ChildrenWellFormed(s);
        seq(|e|, j requires 0 <= j < |e| => Fiar(e[j]))
      case Legacy(s) =>
        var e := RefactorT3Game.Expand(s);
        RefactorT3Game.ExpandChildren(s);
        seq(|e|, j requires 0 <= j < |e| => Legacy(e[j]))
    }

    /** `position_value()`: the value of the winner on the lines through the last move. */
    function PositionValue(): (v: int)
      requires WellFormed()
      ensures v == XWinValue || v == -XWinValue || v == 0
    {
      match this
      case T3(s) => T3Game.PositionValue(s)
      case Fiar(s) => FiarGame.PositionValue(s)
      case Legacy(s) => RefactorT3Game.PositionValue(s)
    }
  }

  /** `T::default()` for the game a driver is generated for. */
  function Default(kind: GameKind): (s: GameState)
    ensures s.WellFormed() && s.Side() == O
    ensures kind == TicTacToe ==> s.T3? && s.t3 == T3Game.Default()
    ensures kind == FourInARow ==> s.Fiar? && s.fiar == FiarGame.Default()
  {
    match kind
    case TicTacToe => T3(T3Game.Default())
    case FourInARow => Fiar(FiarGame.Default())
  }

  /** `expand()` as the arena calls it; four-in-a-row runs its column loops. */
  method Expand(s: GameState) returns (kids: seq<GameState>)
    requires s.WellFormed() && s.Side() != Empty
    ensures kids == s.Children()
  {
    match s
    case T3(t) =>
      var e := T3Game.Expand(t);
      kids := seq(|e|, j requires 0 <= j < |e| => T3(e[j]));
    case Fiar(f) =>
      var e := FiarGame.Expand(f);
      kids := seq(|e|, j requires 0 <= j < |e| => Fiar(e[j]));
    case Legacy(r) =>
      var e := RefactorT3Game.Expand(r);
      kids := seq(|e|, j requires 0 <= j < |e| => Legacy(e[j]));
  }
}
