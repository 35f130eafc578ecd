/**
 The player directory loaded at page start (`jugadoresCargados`) and the
 search filter run over it on every input change and after every roster change.
 */
module Directory {

  /** A player as the search list uses it; the other fields of the backend's
      record (age, height, statistics, ...) are only displayed. */
  datatype Player = Player(id: int, name: string, position: string, team: string)

  /** `toLowerCase` on one character, restricted to ASCII letters. */
  function LowerChar(c: char): (d: char)
    ensures 'A' <= c <= 'Z' ==> 'a' <= d <= 'z' && d as int == c as int + 32
    ensures !('A' <= c <= 'Z') ==> d == c
  {
    if 'A' <= c <= 'Z' then (c as int + 32) as char else c
  }

  /** `toLowerCase` on a string: character by character. */
  function Lower(s: string): (r: string)
    ensures |r| == |s|
    ensures forall i :: 0 <= i < |s| ==> r[i] == LowerChar(s[i])
  {
    if s == [] then [] else [LowerChar(s[0])] + Lower(s[1..])
  }

  /** `t` occurs in `s` starting at index `i`. */
  predicate OccursAt(s: string, t: string, i: int) {
    0 <= i && i + |t| <= |s| && s[i..i + |t|] == t
  }

  /** `s.includes(t)`: `t` is a substring of `s`; the empty string is a
      substring of every string. */
  predicate Contains(s: string, t: string)
    ensures Contains(s, t) <==> exists i :: OccursAt(s, t, i)
  {
    if t <= s then
      assert OccursAt(s, t, 0);
      true
    else if s == [] then
      assert forall i :: !OccursAt(s, t, i);
      false
    else
      var rest := Contains(s[1..], t);
      assert forall i :: OccursAt(s[1..], t, i) <==> OccursAt(s, t, i + 1);
      assert !OccursAt(s, t, 0);
      assert forall i :: OccursAt(s, t, i) ==> OccursAt(s[1..], t, i - 1);
      rest
  }

  /** The condition `filtrarJugadores` keeps a player by: the lower-cased name
      contains the lower-cased search term, and the position equals the chosen
      one unless none is chosen (the empty string is falsy). */
  predicate Matches(p: Player, term: string, position: string) {
    Contains(Lower(p.name), Lower(term)) && (position == "" || p.position == position)
  }

  /** `jugadoresCargados.filter(...)` with the condition above. */
  function Filter(players: seq<Player>, term: string, position: string): (r: seq<Player>)
    ensures |r| <= |players|
    ensures forall i :: 0 <= i < |r| ==> Matches(r[i], term, position)
  {
    if players == [] then []
    else
      var rest := Filter(players[1..], term, position);
      if Matches(players[0], term, position) then [players[0]] + rest else rest
  }

  /** The filter keeps exactly the matching players of the directory. */
  lemma {:induction false} FilterMembers(players: seq<Player>, term: string, position: string, p: Player)
    ensures p in Filter(players, term, position) <==> p in players && Matches(p, term, position)
  {
    if players != [] {
      FilterMembers(players[1..], term, position, p);
      assert p in players <==> p == players[0] || p in players[1..];
    }
  }

  /** `r` is `s` with some elements left out and the rest in their order. */
  ghost predicate IsSubsequence<T>(r: seq<T>, s: seq<T>)
    decreases |s|
  {
    if r == [] then true
    else if s == [] then false
    else (r[0] == s[0] && IsSubsequence(r[1..], s[1..])) || IsSubsequence(r, s[1..])
  }

  /** The filter keeps the order of the directory. */
  lemma {:induction false} FilterIsSubsequence(players: seq<Player>, term: string, position: string)
    ensures IsSubsequence(Filter(players, term, position), players)
  {
    if players != [] {
      FilterIsSubsequence(players[1..], term, position);
      var r := Filter(players, term, position);
      if Matches(players[0], term, position) {
        assert r[0] == players[0] && r[1..] == Filter(players[1..], term, position);
      }
    }
  }

  /** Every matching player is kept as often as it occurs in the directory,
      and no other player is kept. */
  lemma {:induction false} FilterMultiplicity(players: seq<Player>, term: string, position: string, p: Player)
    ensures multiset(Filter(players, term, position))[p] ==
      if Matches(p, term, position) then multiset(players)[p] else 0
  {
    if players != [] {
      FilterMultiplicity(players[1..], term, position, p);
      assert players == [players[0]] + players[1..];
    }
  }

  /** Filtering a concatenation filters each part in turn. */
  lemma {:induction false} FilterConcat(a: seq<Player>, b: seq<Player>, term: string, position: string)
    ensures Filter(a + b, term, position) == Filter(a, term, position) + Filter(b, term, position)
  {
    if a == [] {
      assert a + b == b;
    } else {
      var ab := a + b;
      assert ab[0] == a[0] && ab[1..] == a[1..] + b;
      FilterConcat(a[1..], b, term, position);
      var head := if Matches(a[0], term, position) then [a[0]] else [];
      assert Filter(ab, term, position) == head + Filter(a[1..] + b, term, position);
      assert Filter(a, term, position) == head + Filter(a[1..], term, position);
      var fa, fb := Filter(a[1..], term, position), Filter(b, term, position);
      assert head + (fa + fb) == (head + fa) + fb;
    }
  }

  /** An empty search term with no position chosen shows the whole directory. */
  lemma {:induction false} FilterUnconstrained(players: seq<Player>)
    ensures Filter(players, "", "") == players
  {
    if players != [] {
      FilterUnconstrained(players[1..]);
      assert OccursAt(Lower(players[0].name), Lower(""), 0);
    }
  }

  /** Two search terms that lower-case alike select the same players. */
  lemma {:induction false} FilterCaseInsensitive(players: seq<Player>, term1: string, term2: string, position: string)
    requires Lower(term1) == Lower(term2)
    ensures Filter(players, term1, position) == Filter(players, term2, position)
  {
    if players != [] {
      FilterCaseInsensitive(players[1..], term1, term2, position);
    }
  }

  /** `resultados.flat()`: the per-position result lists one after another. */
  function Flatten(lists: seq<seq<Player>>): (r: seq<Player>)
    ensures forall x :: x in r <==> exists i :: 0 <= i < |lists| && x in lists[i]
  {
    if lists == [] then []
    else
      var rest := Flatten(lists[1..]);
      assert forall i :: 1 <= i < |lists| ==> lists[i] == lists[1..][i - 1];
      assert forall x, i :: 0 <= i < |lists[1..]| && x in lists[1..][i] ==> x in lists[i + 1];
      lists[0] + rest
  }

  /** Loading one more list appends its players after the ones already there. */
  lemma {:induction false} FlattenAppend(lists: seq<seq<Player>>, last: seq<Player>)
    ensures Flatten(lists + [last]) == Flatten(lists) + last
  {
    if lists == [] {
      assert [last][1..] == [];
    } else {
      FlattenAppend(lists[1..], last);
      assert (lists + [last])[1..] == lists[1..] + [last];
    }
  }

  /** Filtering the loaded directory is filtering each position's list and
      concatenating the results in position order. */
  lemma {:induction false} FilterFlatten(lists: seq<seq<Player>>, term: string, position: string)
    ensures Filter(Flatten(lists), term, position) ==
      Flatten(seq(|lists|, i requires 0 <= i < |lists| => Filter(lists[i], term, position)))
  {
    var fs := seq(|lists|, i requires 0 <= i < |lists| => Filter(lists[i], term, position));
    if lists != [] {
      FilterFlatten(lists[1..], term, position);
      FilterConcat(lists[0], Flatten(lists[1..]), term, position);
      assert fs[1..] == seq(|lists[1..]|, i requires 0 <= i < |lists[1..]| => Filter(lists[1..][i], term, position));
    }
  }
}
