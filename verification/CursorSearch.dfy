/**
 The cursor of the virtual keyboard: a step wraps around the page in both
 directions and repeats until it lands on a key.
 */
module CursorSearch {

  const VKBDX: nat := 11
  const VKBDY: nat := 8

  /** A place without a key. */
  const EMPTY: int := -1

  /** The directions held down; up goes before down and left before right. */
  datatype Direction = Direction(up: bool, down: bool, left: bool, right: bool) {
    predicate Any() { up || down || left || right }
    function Dx(): int { if left then -1 else if right then 1 else 0 }
    function Dy(): int { if up then -1 else if down then 1 else 0 }
  }

  datatype Place = Place(x: int, y: int) {
    predicate Valid() { 0 <= x < VKBDX && 0 <= y < VKBDY }
  }

  /** A coordinate brought back into its range, one step over either end. */
  function WrapTo(v: int, size: nat): int { if v < 0 then size - 1 else if v > size - 1 then 0 else v }

  function Next(p: Place, d: Direction): Place {
    Place(WrapTo(p.x + d.Dx(), VKBDX), WrapTo(p.y + d.Dy(), VKBDY))
  }

  /** Where a step leads: up or down a row, left or right a column, around the page; up and left come first. */
  lemma NextMoves(p: Place, d: Direction)
    requires p.Valid()
    ensures Next(p, d).Valid()
    ensures Next(p, d).x == if d.left then (p.x + 10) % 11 else if d.right then (p.x + 1) % 11 else p.x
    ensures Next(p, d).y == if d.up then (p.y + 7) % 8 else if d.down then (p.y + 1) % 8 else p.y
  {
  }

  /** Where the cursor is after a number of steps. */
  function Orbit(p: Place, d: Direction, n: nat): (r: Place)
    requires p.Valid()
    ensures r.Valid()
  {
    if n == 0 then p else Next(Orbit(p, d, n - 1), d)
  }

  lemma Distribute(a: int, b: int, d: int)
    ensures (a + b) * d == a * d + b * d
  {
  }

  /** On a ring of eleven and on a ring of eight, stepping is addition. */
  lemma RingStep(u: int, v: int, dx: int, dy: int)
    requires -1 <= dx <= 1 && -1 <= dy <= 1
    ensures WrapTo(u % 11 + dx, 11) == (u + dx) % 11 && WrapTo(v % 8 + dy, 8) == (v + dy) % 8
  {
  }

  /** The steps go around the page as around a torus. */
  lemma {:induction false} OrbitIsModular(p: Place, d: Direction, n: nat)
    requires p.Valid()
    ensures Orbit(p, d, n) == Place((p.x + n * d.Dx()) % VKBDX, (p.y + n * d.Dy()) % VKBDY)
  {
    if n > 0 {
      OrbitIsModular(p, d, n - 1);
      Distribute(n - 1, 1, d.Dx());
      Distribute(n - 1, 1, d.Dy());
      RingStep(p.x + (n - 1) * d.Dx(), p.y + (n - 1) * d.Dy(), d.Dx(), d.Dy());
    }
  }

  /** The number of steps after which every orbit is back at its start. */
  const PERIOD: nat := VKBDX * VKBDY

  lemma RingCloses(u: int, v: int, dx: int, dy: int)
    requires -1 <= dx <= 1 && -1 <= dy <= 1
    ensures (u + 88 * dx) % 11 == u % 11 && (v + 88 * dy) % 8 == v % 8
  {
  }

  lemma OrbitCloses(p: Place, d: Direction, n: nat)
    requires p.Valid()
    ensures Orbit(p, d, n + PERIOD) == Orbit(p, d, n)
  {
    OrbitIsModular(p, d, n);
    OrbitIsModular(p, d, n + PERIOD);
    Distribute(n, PERIOD, d.Dx());
    Distribute(n, PERIOD, d.Dy());
    RingCloses(p.x + n * d.Dx(), p.y + n * d.Dy(), d.Dx(), d.Dy());
  }

  class Cursor {
    var at: Place

    /** Two pages of keys, one after the other. */
    const keys: seq<int>

    constructor (keys: seq<int>)
      ensures at == Place(0, 0) && this.keys == keys
    {
      this.keys, at := keys, Place(0, 0);
    }

    ghost predicate Valid()
      reads this
    {
      |keys| == 2 * PERIOD && at.Valid()
    }

    function KeyAt(p: Place, second: bool): int
      requires |keys| == 2 * PERIOD && p.Valid()
    {
      keys[p.y * VKBDX + p.x + if second then PERIOD else 0]
    }

    /** The keys of a page lie row by row, eleven to a row; the second page follows the first. */
    lemma KeysRowByRow(row: nat, column: nat)
      requires |keys| == 2 * PERIOD && row < 8 && column < 11
      ensures KeyAt(Place(column, row), false) == keys[..88][row * 11..row * 11 + 11][column]
      ensures KeyAt(Place(column, row), true) == keys[88..][row * 11..row * 11 + 11][column]
    {
    }

    /** There is a key somewhere on the orbit. */
    ghost predicate OrbitHasKey(p: Place, d: Direction, second: bool)
      requires |keys| == 2 * PERIOD && p.Valid()
    {
      exists n: nat :: 1 <= n <= PERIOD && KeyAt(Orbit(p, d, n), second) != EMPTY
    }

    /** A cursor on a key is on its own orbit. */
    lemma FromKey(p: Place, d: Direction, second: bool)
      requires |keys| == 2 * PERIOD && p.Valid() && KeyAt(p, second) != EMPTY
      ensures OrbitHasKey(p, d, second)
    {
      OrbitCloses(p, d, 0);
      assert Orbit(p, d, PERIOD) == p;
    }

    /** Without a key on the orbit no number of steps ever finds one. */
    lemma {:induction false} NoKeyEver(p: Place, d: Direction, second: bool, n: nat)
      requires |keys| == 2 * PERIOD && p.Valid() && !OrbitHasKey(p, d, second) && n >= 1
      ensures KeyAt(Orbit(p, d, n), second) == EMPTY
    {
      if n > PERIOD {
        OrbitCloses(p, d, n - PERIOD);
        NoKeyEver(p, d, second, n - PERIOD);
      }
    }

    /** One step, around the page if need be. */
    method Step(d: Direction)
      requires at.Valid()
      modifies this
      ensures at == Next(old(at), d) && at.Valid()
      ensures at.x == if d.left then (old(at).x + 10) % 11 else if d.right then (old(at).x + 1) % 11 else old(at).x
      ensures at.y == if d.up then (old(at).y + 7) % 8 else if d.down then (old(at).y + 1) % 8 else old(at).y
    {
      NextMoves(at, d);
      var x, y := at.x, at.y;
      if d.up {
        y := y - 1;
      } else if d.down {
        y := y + 1;
      }
      if d.left {
        x := x - 1;
      } else if d.right {
        x := x + 1;
      }
      if x < 0 {
        x := VKBDX - 1;
      } else if x > VKBDX - 1 {
        x := 0;
      }
      if y < 0 {
        y := VKBDY - 1;
      } else if y > VKBDY - 1 {
        y := 0;
      }
      at := Place(x, y);
    }

    /**
     Steps until there is a key under the cursor: the nearest one in the
     direction, at most one orbit away.
     */
    method Search(d: Direction, second: bool) returns (ghost n: nat)
      requires Valid() && d.Any() && OrbitHasKey(at, d, second)
      modifies this
      ensures Valid() && KeyAt(at, second) != EMPTY
      ensures 1 <= n <= PERIOD && at == Orbit(old(at), d, n)
      ensures forall m: nat | 1 <= m < n :: KeyAt(Orbit(old(at), d, m), second) == EMPTY
    {
      n := 0;
      ghost var k: nat :| 1 <= k <= PERIOD && KeyAt(Orbit(at, d, k), second) != EMPTY;
      var searching := true;
      while searching
        invariant Valid() && n <= k && at == Orbit(old(at), d, n)
        invariant !searching ==> n >= 1 && KeyAt(at, second) != EMPTY
        invariant searching && n >= 1 ==> KeyAt(at, second) == EMPTY
        invariant forall m: nat | 1 <= m < n :: KeyAt(Orbit(old(at), d, m), second) == EMPTY
        decreases k - n, searching
      {
        Step(d);
        n := n + 1;
        searching := KeyAt(at, second) == EMPTY;
      }
    }
  }
}
