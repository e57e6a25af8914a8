/** The forest-fire cell of ca_descriptions/cell.py: a cell of a terrain
    type holds fuel, and is normal, burning or dead. */
module Cell {
  import opened Common

  datatype State = Normal | Burning | Dead

  datatype Type = Chaparral | Canyon | Forest | Lake | Town

  /** Type.get_fuel: the fuel table has entries for canyon, chaparral and
      forest only; looking up a lake or a town raises KeyError. */
  function GetFuel(t: Type): (r: Result<int>)
    ensures r.Ok? <==> t in {Canyon, Chaparral, Forest}
    ensures r.Ok? ==> r.value > 0
    ensures r.Err? ==> r.error == MissingKey
  {
    match t
    case Canyon => Ok(1)
    case Chaparral => Ok(28)
    case Forest => Ok(120)
    case _ => Err(MissingKey)
  }

  /** The state and fuel after one update: out of fuel means dead; an
      ignite turns a normal cell into a burning one; a cell burning after
      that loses one unit of fuel. */
  function Updated(state: State, fuel: int, ignite: bool): (r: (State, int))
    ensures r.0 == Dead <==> state == Dead || fuel == 0
    ensures r.1 == fuel || r.1 == fuel - 1
  {
    var s1 := if fuel == 0 then Dead else state;
    var s2 := if ignite && s1 == Normal then Burning else s1;
    (s2, if s2 == Burning then fuel - 1 else fuel)
  }

  /** What an update may do: dead stays dead, fuel never goes below zero,
      a burning cell loses exactly one unit, any other keeps its fuel, and
      only a normal cell with fuel left catches fire. */
  lemma UpdateLaws(state: State, fuel: int, ignite: bool)
    ensures state == Dead ==> Updated(state, fuel, ignite) == (Dead, fuel)
    ensures fuel >= 0 ==> Updated(state, fuel, ignite).1 >= 0
    ensures Updated(state, fuel, ignite).1 == if Updated(state, fuel, ignite).0 == Burning then fuel - 1 else fuel
    ensures Updated(state, fuel, ignite).0 == Burning <==> fuel != 0 && (state == Burning || (state == Normal && ignite))
    ensures fuel == 0 ==> Updated(state, fuel, ignite) == (Dead, 0)
  {
  }

  /** n updates without ignition. */
  function UpdatedN(state: State, fuel: int, n: nat): (State, int)
    decreases n
  {
    if n == 0 then (state, fuel)
    else var (s, f) := Updated(state, fuel, false); UpdatedN(s, f, n - 1)
  }

  /** A burning cell with f units of fuel keeps burning, one unit less
      each update, for f updates, and is dead after the next one. */
  lemma {:induction false} BurnsOut(f: nat)
    ensures forall k :: 0 <= k <= f ==> UpdatedN(Burning, f, k) == (Burning, f - k)
    ensures UpdatedN(Burning, f, f + 1) == (Dead, 0)
  {
    if f > 0 {
      BurnsOut(f - 1);
      assert Updated(Burning, f, false) == (Burning, f - 1);
      forall k | 1 <= k <= f
        ensures UpdatedN(Burning, f, k) == (Burning, f - k)
      {
        assert UpdatedN(Burning, f, k) == UpdatedN(Burning, f - 1, k - 1);
      }
      assert UpdatedN(Burning, f, f + 1) == UpdatedN(Burning, f - 1, f);
    } else {
      assert UpdatedN(Burning, 0, 1) == UpdatedN(Dead, 0, 0);
    }
  }

  class Cell {
    const cellType: Type
    var fuel: int
    var state: State

    /** Fuel is never negative. */
    ghost predicate Valid()
      reads this
    {
      fuel >= 0
    }

    /** Cell.__init__ for a type with a fuel entry: a normal cell with the
        type's fuel. */
    constructor(t: Type)
      requires GetFuel(t).Ok?
      ensures Valid()
      ensures cellType == t && fuel == GetFuel(t).value && state == Normal
    {
      cellType := t;
      fuel := GetFuel(t).value;
      state := Normal;
    }

    /** Cell.update. */
    method Update(ignite: bool)
      requires Valid()
      modifies this
      ensures Valid()
      ensures (state, fuel) == Updated(old(state), old(fuel), ignite)
    {
      if fuel == 0 {
        state := Dead;
      }
      if ignite && state == Normal {
        state := Burning;
      }
      if state == Burning {
        fuel := fuel - 1;
      }
      UpdateLaws(old(state), old(fuel), ignite);
    }

    /** Cell.is_burning. */
    function IsBurning(): (b: bool)
      reads this
      ensures b <==> state == Burning
    {
      state == Burning
    }
  }

  /** Cell(t): the fuel lookup raises for a lake or a town. */
  method NewCell(t: Type) returns (r: Result<Cell>)
    ensures r.Err? <==> GetFuel(t).Err?
    ensures r.Err? ==> r.error == MissingKey
    ensures r.Ok? ==> fresh(r.value) && r.value.Valid() && r.value.cellType == t
    ensures r.Ok? ==> r.value.fuel == GetFuel(t).value && r.value.state == Normal
  {
    match GetFuel(t)
    case Err(e) => return Err(e);
    case Ok(_) =>
      var c := new Cell(t);
      return Ok(c);
  }
}
