/**
 The team page's mutable state: the roster `equipoActual` kept in two arrays
 of five slots that `seleccionarJugador` and `removerJugador` write in place,
 and the loaded directory `jugadoresCargados`. Every method is proved against
 the value-level functions of modules Roster and Directory.
 */
module Equipos {
  import opened Roster
  import opened Directory

  class RosterBuilder {
    /** `equipoActual.titulares`. */
    const titulares: array<Slot>
    /** `equipoActual.suplentes`. */
    const suplentes: array<Slot>
    /** `jugadoresCargados`. */
    var loaded: seq<Player>

    /** One slot per position in each array, and two distinct arrays. */
    ghost predicate Valid()
      reads this
    {
      titulares.Length == |Positions| && suplentes.Length == |Positions| && titulares != suplentes
    }

    /** The roster the two arrays hold. */
    function Snapshot(): (t: Team)
      reads this, titulares, suplentes
      requires Valid()
      ensures WellFormed(t)
      ensures t.starters == titulares[..] && t.bench == suplentes[..]
    {
      Team(titulares[..], suplentes[..])
    }

    /** Page load: both arrays `Array(5).fill(null)`, nothing loaded yet. */
    constructor ()
      ensures Valid() && fresh(titulares) && fresh(suplentes)
      ensures Snapshot() == EmptyTeam() && loaded == []
    {
      titulares := new Slot[|Positions|](_ => Empty);
      suplentes := new Slot[|Positions|](_ => Empty);
      loaded := [];
    }

    /** `cargarTodosLosJugadores` once every per-position request answered:
        the directory becomes the lists concatenated in position order. */
    method Load(results: seq<seq<Player>>)
      modifies this`loaded
      ensures loaded == Flatten(results)
    {
      loaded := Flatten(results);
    }

    /** `seleccionarJugador`: writes the player's identifier into the starter
        slot of its position if empty, else into the bench slot if empty, and
        otherwise (both filled, or a position outside `Positions`) refuses and
        leaves both arrays as they were. */
    method Select(p: Player) returns (o: Placement)
      requires Valid()
      modifies titulares, suplentes
      ensures Valid()
      ensures o == Place(old(Snapshot()), p.position)
      ensures Snapshot() == Assign(old(Snapshot()), p.position, p.id)
      ensures o.Rejected? ==> titulares[..] == old(titulares[..]) && suplentes[..] == old(suplentes[..])
    {
      PositionsDistinct();
      var i := IndexOf(Positions, p.position);
      if 0 <= i && titulares[i] == Empty {
        titulares[i] := Holds(p.id);
        o := Starter(i);
      } else if 0 <= i && suplentes[i] == Empty {
        suplentes[i] := Holds(p.id);
        o := Bench(i);
      } else {
        o := Rejected;
      }
    }

    /** `removerJugador(kind, index)`: clears `titulares[index]` when the kind is
        "titular" and `suplentes[index]` otherwise. */
    method Remove(kind: string, index: int)
      requires Valid() && 0 <= index < |Positions|
      modifies titulares, suplentes
      ensures Valid()
      ensures Snapshot() == Roster.Remove(old(Snapshot()), kind, index)
    {
      if kind == "titular" {
        titulares[index] := Empty;
      } else {
        suplentes[index] := Empty;
      }
    }

    /** `equipoEstaCompleto`. */
    predicate IsComplete()
      reads this, titulares, suplentes
      requires Valid()
      ensures IsComplete() <==>
        forall i :: 0 <= i < |Positions| ==> titulares[i] != Empty && suplentes[i] != Empty
    {
      Complete(Snapshot())
    }

    /** `estaJugadorSeleccionado`. */
    predicate IsSelected(id: int)
      reads this, titulares, suplentes
      requires Valid()
      ensures IsSelected(id) <==>
        exists i :: 0 <= i < |Positions| && (titulares[i] == Holds(id) || suplentes[i] == Holds(id))
    {
      Selected(Snapshot(), id)
    }

    /** The save button as `actualizarBotonGuardar` sets it. */
    function SaveButtonState(): (b: SaveButton)
      reads this, titulares, suplentes
      requires Valid()
      ensures b.disabled <==> !IsComplete()
      ensures b.success <==> IsComplete()
      ensures !b.disabled ==> b.tooltip == ReadyToSave
      ensures b.disabled ==>
        b.tooltip.Missing? && b.tooltip.count == Remaining(Snapshot()) && 1 <= b.tooltip.count <= TeamSize
    {
      SaveButtonFor(Snapshot())
    }

    /** The list `filtrarJugadores` renders for the search input and the
        position selector. */
    function Filtered(term: string, position: string): (r: seq<Player>)
      reads this
      ensures |r| <= |loaded|
      ensures forall i :: 0 <= i < |r| ==> Matches(r[i], term, position)
    {
      Filter(loaded, term, position)
    }
  }
}
