/** The player's commands: a line of input names a direction or asks to
    quit, and a direction is carried out as the matching board move. */
module Movements {
  import G = Grids
  import opened Boards

  datatype Movement = Up | Down | Right | Left | Exit

  datatype Option<T> = None | Some(value: T)

  /** Lower-casing of one character; only the Latin capitals A to Z have a
      lower-case form here. */
  function Lower(c: char): (r: char)
    ensures 'A' <= c <= 'Z' ==> r as int == c as int + 32
    ensures !('A' <= c <= 'Z') ==> r == c
  {
    if 'A' <= c <= 'Z' then (c as int + 32) as char else c
  }

  /** The key that names each direction. */
  function Key(m: Movement): char
    requires m != Exit
  {
    match m
    case Up => 'w'
    case Down => 's'
    case Right => 'd'
    case Left => 'a'
  }

  /** Reads a command: "exit" exactly, or one character naming a direction
      in either case; anything else is no command. */
  function GetDirection(input: string): (r: Option<Movement>)
    ensures r == Some(Exit) <==> input == "exit"
    ensures r.Some? && r.value != Exit ==> |input| == 1 && Lower(input[0]) == Key(r.value)
    ensures r.None? <==>
      (input != "exit" && (|input| != 1 || forall m :: m != Exit ==> Lower(input[0]) != Key(m)))
  {
    if input == "exit" then Some(Exit)
    else if |input| != 1 then None
    else
      match Lower(input[0])
      case 'w' => Some(Up)
      case 's' => Some(Down)
      case 'd' => Some(Right)
      case 'a' => Some(Left)
      case _ => None
  }

  /** Each direction is read back from its key, typed in either case, and
      quitting from "exit". */
  lemma KeysRoundTrip(m: Movement)
    ensures m == Exit ==> GetDirection("exit") == Some(m)
    ensures m != Exit ==> GetDirection([Key(m)]) == Some(m)
    ensures m != Exit ==> GetDirection([(Key(m) as int - 32) as char]) == Some(m)
  {
  }

  /** "exit" is compared case-sensitively, longer inputs are refused, and
      capitals name directions too. */
  lemma CommandExamples()
    ensures GetDirection("EXIT") == None
    ensures GetDirection("Exit") == None
    ensures GetDirection("ww") == None
    ensures GetDirection("") == None
    ensures GetDirection("W") == Some(Up)
    ensures GetDirection("x") == None
  {
    assert "EXIT" != "exit" && "Exit" != "exit";
  }

  /** The board move a direction stands for. */
  function DirectionOf(m: Movement): (d: G.Direction)
    requires m != Exit
    ensures (d == G.Up) == (m == Up) && (d == G.Down) == (m == Down)
    ensures (d == G.Left) == (m == Left) && (d == G.Right) == (m == Right)
  {
    match m
    case Up => G.Up
    case Down => G.Down
    case Right => G.Right
    case Left => G.Left
  }

  /** Carries out a movement on a board: no board or Exit does nothing and
      reports false; a direction makes the matching move and reports whether
      it changed the board. */
  method Move(m: Movement, b: Board?) returns (moved: bool)
    requires b != null ==> b.Valid()
    modifies b, if b == null then {} else {b.board}
    ensures b == null || m == Exit ==> !moved
    ensures b != null && m == Exit ==> unchanged(b, old(b.board))
    ensures b != null && m != Exit ==>
      b.Valid() && b.cells == G.Apply(DirectionOf(m), old(b.cells)) && (moved <==> b.cells != old(b.cells))
    ensures b != null && m != Exit ==>
      b.tiles - G.CountTiles(b.cells) == old(b.tiles) - G.CountTiles(old(b.cells))
    ensures b != null && m != Exit ==>
      b.reached2048 == (old(b.reached2048) || G.SomeLineMerges(DirectionOf(m), old(b.cells), b.width, 1024))
  {
    if b == null {
      return false;
    }
    match m
    case Up => moved := b.MoveUp();
    case Down => moved := b.MoveDown();
    case Right => moved := b.MoveRight();
    case Left => moved := b.MoveLeft();
    case Exit => moved := false;
  }
}
