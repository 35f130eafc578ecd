/**
 The roster being built on the team page (`equipoActual`): two slot sequences,
 the starters (`titulares`) and the bench (`suplentes`), one slot per position.
 This module is the value-level description of that state and of the
 operations on it; the class in module Equipos keeps the same state in two
 arrays and is proved against the functions here.
 */
module Roster {

  /** The fixed, ordered position labels (`posiciones`). Slot `i` of either
      sequence belongs to `Positions[i]`. */
  const Positions: seq<string> := ["Base", "Escolta", "Alero", "Ala-pívot", "Pívot"]

  /** The number of players of a complete roster, written as a literal in the
      save-button code. */
  const TeamSize: int := 10

  /** A slot holds `null` or the identifier of a player. */
  datatype Slot = Empty | Holds(id: int)

  /** A snapshot of `equipoActual`. */
  datatype Team = Team(starters: seq<Slot>, bench: seq<Slot>)

  /** Which slot an assignment filled, or that it was refused. */
  datatype Placement = Starter(index: nat) | Bench(index: nat) | Rejected

  /** The shape every roster keeps: one starter and one bench slot per position. */
  predicate WellFormed(t: Team) {
    |t.starters| == |Positions| && |t.bench| == |Positions|
  }

  /** Every stored identifier is positive, as database primary keys are. */
  predicate PositiveIds(t: Team) {
    (forall i :: 0 <= i < |t.starters| && t.starters[i].Holds? ==> t.starters[i].id > 0) &&
    (forall i :: 0 <= i < |t.bench| && t.bench[i].Holds? ==> t.bench[i].id > 0)
  }

  /** The roster at page load: every slot `null`. */
  function EmptyTeam(): (t: Team)
    ensures WellFormed(t) && PositiveIds(t)
    ensures forall i :: 0 <= i < |Positions| ==> t.starters[i] == Empty && t.bench[i] == Empty
  {
    Team(seq(|Positions|, _ => Empty), seq(|Positions|, _ => Empty))
  }

  /** The five labels are pairwise distinct, so a label names one slot index. */
  lemma PositionsDistinct()
    ensures |Positions| == 5 && TeamSize == 2 * |Positions|
    ensures forall j, k :: 0 <= j < k < |Positions| ==> Positions[j] != Positions[k]
  {
  }

  /** `Array.prototype.indexOf`: the first index holding `x`, or -1. */
  function IndexOf<T(==)>(s: seq<T>, x: T): (i: int)
    ensures -1 <= i < |s|
    ensures i == -1 <==> x !in s
    ensures 0 <= i ==> s[i] == x && forall j :: 0 <= j < i ==> s[j] != x
  {
    if s == [] then -1
    else if s[0] == x then 0
    else
      var j := IndexOf(s[1..], x);
      if j == -1 then -1 else j + 1
  }

  /** `s[i] === null` in JavaScript: a read outside the array gives
      `undefined`, which is not `null`. */
  predicate IsNullAt(s: seq<Slot>, i: int) {
    0 <= i < |s| && s[i] == Empty
  }

  /** The slot `seleccionarJugador` chooses for a player of `position`: the
      starter slot of that position if it is empty, else its bench slot if that
      is empty; otherwise the assignment is refused. */
  function Place(t: Team, position: string): (o: Placement)
    requires WellFormed(t)
    ensures o.Starter? ==>
      o.index < |Positions| && Positions[o.index] == position && t.starters[o.index] == Empty
    ensures o.Bench? ==>
      o.index < |Positions| && Positions[o.index] == position &&
      t.starters[o.index] != Empty && t.bench[o.index] == Empty
    ensures o.Rejected? <==>
      forall k :: 0 <= k < |Positions| && Positions[k] == position ==>
        t.starters[k] != Empty && t.bench[k] != Empty
  {
    PositionsDistinct();
    var i := IndexOf(Positions, position);
    if IsNullAt(t.starters, i) then Starter(i)
    else if IsNullAt(t.bench, i) then Bench(i)
    else Rejected
  }

  /** The roster after `seleccionarJugador` for a player with identifier `id`
      playing `position`: exactly the slot `Place` chose now holds `id`. */
  function Assign(t: Team, position: string, id: int): (r: Team)
    requires WellFormed(t)
    ensures WellFormed(r)
    ensures forall k :: 0 <= k < |Positions| ==>
      r.starters[k] == (if Place(t, position) == Starter(k) then Holds(id) else t.starters[k]) &&
      r.bench[k] == (if Place(t, position) == Bench(k) then Holds(id) else t.bench[k])
    ensures Place(t, position).Rejected? ==> r == t
  {
    match Place(t, position)
    case Starter(i) => t.(starters := t.starters[i := Holds(id)])
    case Bench(i) => t.(bench := t.bench[i := Holds(id)])
    case Rejected => t
  }

  /** The slot kind the roster cards hand to `removerJugador`. */
  function KindOf(o: Placement): string {
    if o.Starter? then "titular" else "suplente"
  }

  /** The roster after `removerJugador(kind, index)`: the starter slot when the
      kind is "titular", the bench slot for any other kind, is cleared. */
  function Remove(t: Team, kind: string, index: int): (r: Team)
    requires WellFormed(t) && 0 <= index < |Positions|
    ensures WellFormed(r)
    ensures forall k :: 0 <= k < |Positions| ==>
      r.starters[k] == (if kind == "titular" && k == index then Empty else t.starters[k]) &&
      r.bench[k] == (if kind != "titular" && k == index then Empty else t.bench[k])
  {
    if kind == "titular" then t.(starters := t.starters[index := Empty])
    else t.(bench := t.bench[index := Empty])
  }

  /** `equipoEstaCompleto`: every slot of both sequences is not `null`. */
  predicate Complete(t: Team) {
    (forall i :: 0 <= i < |t.starters| ==> t.starters[i] != Empty) &&
    (forall i :: 0 <= i < |t.bench| ==> t.bench[i] != Empty)
  }

  /** `Boolean(x)` for a slot value: `null` and the number 0 are falsy. */
  predicate Truthy(s: Slot) {
    s.Holds? && s.id != 0
  }

  /** `s.filter(Boolean).length`. */
  function CountTruthy(s: seq<Slot>): (n: nat)
    ensures n <= |s|
  {
    if s == [] then 0 else (if Truthy(s[0]) then 1 else 0) + CountTruthy(s[1..])
  }

  /** The number of slots that are not `null`. */
  function CountFilled(s: seq<Slot>): (n: nat)
    ensures n <= |s|
  {
    if s == [] then 0 else (if s[0] != Empty then 1 else 0) + CountFilled(s[1..])
  }

  /** The number of players still missing, as the save button reports it. */
  function Remaining(t: Team): int {
    TeamSize - (CountTruthy(t.starters) + CountTruthy(t.bench))
  }

  /** `estaJugadorSeleccionado`: the identifier occurs in either sequence. */
  predicate Selected(t: Team, id: int) {
    Holds(id) in t.starters || Holds(id) in t.bench
  }

  /** The tooltip of the save button. */
  datatype Tooltip = Missing(count: int) | ReadyToSave

  /** The state `actualizarBotonGuardar` gives the save button: `disabled`,
      the `btn-success` class (against `btn-secondary`) and the title. */
  datatype SaveButton = SaveButton(disabled: bool, success: bool, tooltip: Tooltip)

  function SaveButtonFor(t: Team): (b: SaveButton)
    requires WellFormed(t)
    ensures b.disabled <==> !Complete(t)
    ensures b.success <==> Complete(t)
    ensures Complete(t) ==> b.tooltip == ReadyToSave
    ensures !Complete(t) ==>
      b.tooltip.Missing? && b.tooltip.count == Remaining(t) && 1 <= b.tooltip.count <= TeamSize
  {
    var complete := Complete(t);
    if complete then SaveButton(false, true, ReadyToSave)
    else
      RemainingWhenIncomplete(t);
      SaveButton(true, false, Missing(Remaining(t)))
  }

  // ---------------------------------------------------------------------------
  // Counting lemmas

  lemma {:induction false} CountFilledAll(s: seq<Slot>)
    ensures CountFilled(s) == |s| <==> forall i :: 0 <= i < |s| ==> s[i] != Empty
  {
    if s != [] {
      CountFilledAll(s[1..]);
      assert forall i :: 1 <= i < |s| ==> s[i] == s[1..][i - 1];
    }
  }

  lemma {:induction false} CountTruthyBelowWhenEmptySlot(s: seq<Slot>, k: int)
    requires 0 <= k < |s| && s[k] == Empty
    ensures CountTruthy(s) < |s|
  {
    if k > 0 {
      CountTruthyBelowWhenEmptySlot(s[1..], k - 1);
    }
  }

  /** With positive identifiers, the truthiness test of the save button and
      the `!== null` tests of assignment and completeness agree. */
  lemma {:induction false} TruthyIsFilled(s: seq<Slot>)
    requires forall i :: 0 <= i < |s| && s[i].Holds? ==> s[i].id > 0
    ensures CountTruthy(s) == CountFilled(s)
  {
    if s != [] {
      TruthyIsFilled(s[1..]);
    }
  }

  lemma {:induction false} CountTruthyUpdate(s: seq<Slot>, i: int, v: Slot)
    requires 0 <= i < |s|
    ensures CountTruthy(s[i := v]) ==
      CountTruthy(s) - (if Truthy(s[i]) then 1 else 0) + (if Truthy(v) then 1 else 0)
  {
    if i > 0 {
      CountTruthyUpdate(s[1..], i - 1, v);
      assert s[i := v][1..] == s[1..][i - 1 := v];
    } else {
      assert s[i := v][1..] == s[1..];
    }
  }

  /** The roster is complete exactly when all ten slots are filled. */
  lemma CompleteIffAllFilled(t: Team)
    requires WellFormed(t)
    ensures Complete(t) <==> CountFilled(t.starters) + CountFilled(t.bench) == TeamSize
  {
    PositionsDistinct();
    CountFilledAll(t.starters);
    CountFilledAll(t.bench);
  }

  /** An incomplete roster reports between 1 and 10 missing players. */
  lemma RemainingWhenIncomplete(t: Team)
    requires WellFormed(t) && !Complete(t)
    ensures 1 <= Remaining(t) <= TeamSize
  {
    PositionsDistinct();
    if k :| 0 <= k < |t.starters| && t.starters[k] == Empty {
      CountTruthyBelowWhenEmptySlot(t.starters, k);
    } else {
      var k :| 0 <= k < |t.bench| && t.bench[k] == Empty;
      CountTruthyBelowWhenEmptySlot(t.bench, k);
    }
  }

  /** With positive identifiers the reported count is the number of `null`
      slots, and a complete roster misses nobody. */
  lemma RemainingCountsEmptySlots(t: Team)
    requires WellFormed(t) && PositiveIds(t)
    ensures Remaining(t) == (|t.starters| - CountFilled(t.starters)) + (|t.bench| - CountFilled(t.bench))
    ensures Complete(t) <==> Remaining(t) == 0
  {
    TruthyIsFilled(t.starters);
    TruthyIsFilled(t.bench);
    CompleteIffAllFilled(t);
  }

  // ---------------------------------------------------------------------------
  // Lemmas about assignment and removal

  /** Both operations keep identifiers positive when the assigned one is. */
  lemma ShapePreserved(t: Team, position: string, id: int, kind: string, index: int)
    requires WellFormed(t) && 0 <= index < |Positions|
    ensures PositiveIds(t) && id > 0 ==> PositiveIds(Assign(t, position, id))
    ensures PositiveIds(t) ==> PositiveIds(Remove(t, kind, index))
  {
  }

  /** Clearing a slot twice is clearing it once. */
  lemma RemoveIdempotent(t: Team, kind: string, index: int)
    requires WellFormed(t) && 0 <= index < |Positions|
    ensures Remove(Remove(t, kind, index), kind, index) == Remove(t, kind, index)
  {
  }

  /** Removing the slot an assignment filled gives back the roster before it. */
  lemma AssignThenRemove(t: Team, position: string, id: int)
    requires WellFormed(t)
    ensures var o := Place(t, position);
      !o.Rejected? ==> Remove(Assign(t, position, id), KindOf(o), o.index) == t
  {
  }

  /** A successful assignment marks the player selected and lowers the
      missing count by one; a refused one changes nothing. */
  lemma AssignEffect(t: Team, position: string, id: int)
    requires WellFormed(t) && id != 0
    ensures var o := Place(t, position); var r := Assign(t, position, id);
      (!o.Rejected? ==> Selected(r, id) && Remaining(r) == Remaining(t) - 1) &&
      (o.Rejected? ==> r == t)
  {
    var o := Place(t, position);
    var r := Assign(t, position, id);
    match o
    case Starter(i) =>
      CountTruthyUpdate(t.starters, i, Holds(id));
      assert r.starters[i] == Holds(id);
    case Bench(i) =>
      CountTruthyUpdate(t.bench, i, Holds(id));
      assert r.bench[i] == Holds(id);
    case Rejected =>
  }

  /** Clearing a slot raises the missing count by one when that slot held a
      player with a truthy identifier, and leaves it otherwise. */
  lemma RemoveEffect(t: Team, kind: string, index: int)
    requires WellFormed(t) && 0 <= index < |Positions|
    ensures var old_slot := if kind == "titular" then t.starters[index] else t.bench[index];
      Remaining(Remove(t, kind, index)) == Remaining(t) + (if Truthy(old_slot) then 1 else 0)
  {
    if kind == "titular" {
      CountTruthyUpdate(t.starters, index, Empty);
    } else {
      CountTruthyUpdate(t.bench, index, Empty);
    }
  }
}
