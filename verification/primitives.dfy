/** Player identities and cell coordinates (PlayerId and Position). */
module Primitives {
  import opened Results

  /** A C# `byte`. */
  type Byte = x: int | 0 <= x < 256

  /** The unchecked `(byte)` cast: keeps the low eight bits, so negative
      values wrap around exactly as two's complement truncation does. */
  function ToByte(v: int): (r: Byte)
    ensures 0 <= v < 256 ==> r == v
    ensures (r - v) % 256 == 0
  {
    v % 256
  }

  /** C#'s integer division, which truncates toward zero (divisor positive). */
  function CsDiv(a: int, d: int): (q: int)
    requires d > 0
    ensures a >= 0 ==> q == a / d
    ensures a < 0 ==> q == -((-a) / d)
  {
    if a >= 0 then a / d else -((-a) / d)
  }

  /** C#'s remainder, whose sign follows the dividend. */
  function CsRem(a: int, d: int): (r: int)
    requires d > 0
    ensures a == CsDiv(a, d) * d + r
    ensures a >= 0 ==> 0 <= r < d
    ensures a < 0 ==> -d < r <= 0
  {
    a - CsDiv(a, d) * d
  }

  /** A cell owner: `None` is an empty cell, X and O are the two sides. */
  datatype PlayerId = None | X | O

  /** The other side; asking for the opponent of None throws. */
  function Opponent(p: PlayerId): (r: Result<PlayerId>)
    ensures r.Err? <==> p == None
    ensures r.Err? ==> r.error == UndefinedOpponent
    ensures r.Ok? ==> r.value != None && r.value != p
  {
    match p
    case None => Err(UndefinedOpponent)
    case X => Ok(O)
    case O => Ok(X)
  }

  /** Opponent is an involution on the two real sides. */
  lemma OpponentInvolutive(p: PlayerId)
    requires p != None
    ensures Opponent(p).Ok? && Opponent(Opponent(p).value) == Ok(p)
  {
  }

  /** A grid coordinate stored as two bytes. */
  datatype Position = Position(x: Byte, y: Byte) {

    /** The linear storage index: column plus three times the row. */
    function Index(): nat {
      x + y * 3
    }

    /** The coordinate names a cell of the 3x3 grid. */
    predicate OnBoard() {
      x < 3 && y < 3
    }
  }

  /** The sentinel "no coordinate", (0xFF, 0xFF). */
  const Invalid: Position := Position(255, 255)

  /** The coordinate of a linear index, with C#'s truncating `%` and `/`
      and the byte casts applied to both parts. */
  function FromIndex(index: int): (p: Position)
    ensures 0 <= index < 9 ==> p.OnBoard() && p.Index() == index
  {
    Position(ToByte(CsRem(index, 3)), ToByte(CsDiv(index, 3)))
  }

  /** Index and FromIndex are inverse on the grid. */
  lemma IndexRoundTrip(p: Position)
    requires p.OnBoard()
    ensures p.Index() < 9
    ensures FromIndex(p.Index()) == p
  {
    var i := p.Index();
    if p.y == 0 {
      assert i == p.x;
      assert CsDiv(i, 3) == 0 && CsRem(i, 3) == p.x;
    } else if p.y == 1 {
      assert i == p.x + 3;
      assert CsDiv(i, 3) == 1 && CsRem(i, 3) == p.x;
    } else {
      assert i == p.x + 6;
      assert CsDiv(i, 3) == 2 && CsRem(i, 3) == p.x;
    }
  }

  /** Invalid is not a grid cell, and its index is past the nine cells. */
  lemma InvalidOffBoard()
    ensures !Invalid.OnBoard() && Invalid.Index() >= 9
  {
  }

  /** `byte.CompareTo(byte)`: .NET returns the difference of the two bytes
      itself, not only its sign. */
  function CompareBytes(a: Byte, b: Byte): int {
    a - b
  }

  /** Row-major order: compare rows first, then columns. The answer is the
      byte difference of the deciding coordinate, so it can be as large as
      255 in magnitude. */
  function Compare(a: Position, b: Position): (r: int)
    ensures r == 0 <==> a == b
    ensures r < 0 <==> a.y < b.y || (a.y == b.y && a.x < b.x)
    ensures -255 <= r <= 255
  {
    if a.y == b.y then CompareBytes(a.x, b.x) else CompareBytes(a.y, b.y)
  }

  /** The first and last cells of the top row compare at distance two:
      the comparison is not normalised to -1, 0 or 1. */
  lemma CompareIsDifference()
    ensures Compare(Position(0, 0), Position(2, 0)) == -2
    ensures Compare(Position(1, 2), Position(1, 0)) == 2
  {
  }

  /** On the grid, the row-major order is the order of linear indices. */
  lemma CompareMatchesIndex(a: Position, b: Position)
    requires a.OnBoard() && b.OnBoard()
    ensures Compare(a, b) < 0 <==> a.Index() < b.Index()
  {
  }
}
