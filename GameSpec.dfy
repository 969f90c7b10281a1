/** The abstract state of a game of Assassin and what each operation of the
    manager does to it, stated on values: the kill ring as the sequence of
    the living players' names in turn order (the last one stalks the first)
    and the graveyard as the sequence of eliminations, most recent first. */
module GameSpec {
  import opened CaseFold

  datatype Option<T> = None | Some(value: T)

  /** The two exceptions the manager throws. */
  datatype Error = IllegalArgument | IllegalState

  datatype Result<T> = Ok(value: T) | Fail(error: Error)

  /** One entry of the graveyard: who died and who killed them. */
  datatype Death = Death(victim: string, killer: string)

  datatype Game = Game(ring: seq<string>, graveyard: seq<Death>)

  /** What rendering the kill ring yields: the winner's announcement when one
      player is left, otherwise one (assassin, victim) pair per player. */
  datatype RingReport = Won(winner: string) | Stalking(pairs: seq<(string, string)>)

  /** The ring is never empty. */
  predicate Valid(g: Game)
  {
    |g.ring| >= 1
  }

  /** The game a list of names starts: all of them alive in the given order,
      nobody dead; a missing (null) or empty list is refused. */
  function Init(names: Option<seq<string>>): Result<Game>
  {
    if names.None? || names.value == [] then Fail(IllegalArgument)
    else Ok(Game(names.value, []))
  }

  predicate IsGameOver(g: Game)
  {
    |g.ring| == 1
  }

  function Winner(g: Game): Option<string>
  {
    if IsGameOver(g) then Some(g.ring[0]) else None
  }

  /** Some name of the list matches `name`, ignoring case. */
  predicate Contains(names: seq<string>, name: string)
  {
    exists i :: 0 <= i < |names| && EqualsIgnoreCase(names[i], name)
  }

  function Victims(deaths: seq<Death>): seq<string>
  {
    seq(|deaths|, i requires 0 <= i < |deaths| => deaths[i].victim)
  }

  predicate RingContains(g: Game, name: string)
  {
    Contains(g.ring, name)
  }

  predicate GraveyardContains(g: Game, name: string)
  {
    Contains(Victims(g.graveyard), name)
  }

  /** No two names of the list match each other ignoring case. */
  predicate DistinctIgnoringCase(names: seq<string>)
  {
    forall i, j :: 0 <= i < j < |names| ==> !EqualsIgnoreCase(names[i], names[j])
  }

  /** The player the one at position `i` stalks: the next one, wrapping
      around from the last to the first. */
  function Target(ring: seq<string>, i: nat): string
    requires i < |ring|
  {
    ring[(i + 1) % |ring|]
  }

  /** The position of the player who stalks the one at position `k`. */
  function Stalker(n: nat, k: nat): nat
    requires k < n
  {
    if k == 0 then n - 1 else k - 1
  }

  /** The first position at or after `i` whose name matches, in ring order. */
  function FirstMatchFrom(ring: seq<string>, name: string, i: nat): (r: Option<nat>)
    requires i <= |ring|
    ensures r.Some? ==> i <= r.value < |ring| && EqualsIgnoreCase(ring[r.value], name)
    ensures r.Some? ==> forall j :: i <= j < r.value ==> !EqualsIgnoreCase(ring[j], name)
    ensures r.None? <==> forall j :: i <= j < |ring| ==> !EqualsIgnoreCase(ring[j], name)
    decreases |ring| - i
  {
    if i == |ring| then None
    else if EqualsIgnoreCase(ring[i], name) then Some(i)
    else FirstMatchFrom(ring, name, i + 1)
  }

  /** A match at `k` with none between `i` and `k` is the first match from `i`. */
  lemma FirstMatchAt(ring: seq<string>, name: string, i: nat, k: nat)
    requires i <= k < |ring| && EqualsIgnoreCase(ring[k], name)
    requires forall j :: i <= j < k ==> !EqualsIgnoreCase(ring[j], name)
    ensures FirstMatchFrom(ring, name, i) == Some(k)
  {
  }

  /** The position of the player `kill` eliminates: the positions after the
      head are searched first, in ring order, and the head last. */
  function VictimIndex(ring: seq<string>, name: string): (r: Option<nat>)
    ensures r.Some? ==> r.value < |ring| && EqualsIgnoreCase(ring[r.value], name)
    ensures r.None? <==> !Contains(ring, name)
    ensures r.Some? && r.value > 0 ==> forall j :: 1 <= j < r.value ==> !EqualsIgnoreCase(ring[j], name)
    ensures r == Some(0) ==> forall j :: 1 <= j < |ring| ==> !EqualsIgnoreCase(ring[j], name)
  {
    if |ring| == 0 then None
    else match FirstMatchFrom(ring, name, 1)
      case Some(k) => Some(k)
      case None => if EqualsIgnoreCase(ring[0], name) then Some(0) else None
  }

  /** The game after the player at position `k` is eliminated: they leave
      the ring, the others keeping their order, and are recorded at the
      front of the graveyard with their stalker as killer. */
  function Eliminate(g: Game, k: nat): Game
    requires k < |g.ring|
  {
    Game(g.ring[..k] + g.ring[k + 1..],
         [Death(g.ring[k], g.ring[Stalker(|g.ring|, k)])] + g.graveyard)
  }

  /** Killing `name`: refused once the game is over, refused when no living
      player matches; otherwise the matching player leaves the ring and is
      recorded at the front of the graveyard with their stalker as killer. */
  function Kill(g: Game, name: string): Result<Game>
    requires Valid(g)
  {
    if IsGameOver(g) then Fail(IllegalState)
    else match VictimIndex(g.ring, name)
      case None => Fail(IllegalArgument)
      case Some(k) => Ok(Eliminate(g, k))
  }

  /** A new game is over exactly when it was started with one name; every
      starting name is alive and none is in the graveyard. */
  lemma {:induction false} InitialGame(names: seq<string>, i: nat)
    requires i < |names|
    ensures Init(Some(names)).Ok?
    ensures var g := Init(Some(names)).value;
      Valid(g) && g.ring == names && g.graveyard == [] &&
      (IsGameOver(g) <==> |names| == 1) &&
      RingContains(g, names[i]) && !GraveyardContains(g, names[i])
  {
    EqualsIgnoreCaseIsEquivalence(names[i], names[i], names[i]);
  }

  /** The two ways `kill` fails, and only those: a finished game refuses
      every name, even its winner's, before any lookup; otherwise a name that
      matches no living player is refused. */
  lemma KillFails(g: Game, name: string)
    requires Valid(g)
    ensures Kill(g, name) == Fail(IllegalState) <==> IsGameOver(g)
    ensures Kill(g, name) == Fail(IllegalArgument) <==> !IsGameOver(g) && !RingContains(g, name)
    ensures Kill(g, name).Ok? <==> !IsGameOver(g) && RingContains(g, name)
  {
  }

  /** The player the one at position `k` is stalked by is the previous
      player in ring order, the last one for the head. */
  lemma StalkerIsPredecessor(n: nat, k: nat)
    requires k < n
    ensures Stalker(n, k) == (k + n - 1) % n
    ensures (Stalker(n, k) + 1) % n == k
  {
    if k == 0 {
      assert (Stalker(n, k) + 1) % n == 0;
    } else {
      assert (k + n - 1) % n == k - 1;
    }
  }

  /** A successful kill removes exactly one player, the matching one the
      scan chooses, keeping the others in order, and records them at the front of
      the graveyard with the player who stalked them as killer. */
  lemma {:induction false} KillMovesVictim(g: Game, name: string)
    requires Valid(g) && Kill(g, name).Ok?
    ensures VictimIndex(g.ring, name).Some?
    ensures var g', k := Kill(g, name).value, VictimIndex(g.ring, name).value;
      var p := (k + |g.ring| - 1) % |g.ring|;
      k < |g.ring| && EqualsIgnoreCase(g.ring[k], name) &&
      g'.ring == g.ring[..k] + g.ring[k + 1..] &&
      g'.graveyard == [Death(g.ring[k], g.ring[p])] + g.graveyard &&
      Target(g.ring, p) == g.ring[k]
  {
    EliminateMoves(g, VictimIndex(g.ring, name).value);
  }

  /** Eliminating the player at `k` records their predecessor as killer,
      the player who had them as target. */
  lemma EliminateMoves(g: Game, k: nat)
    requires k < |g.ring|
    ensures var p := (k + |g.ring| - 1) % |g.ring|;
      Eliminate(g, k).graveyard == [Death(g.ring[k], g.ring[p])] + g.graveyard &&
      Target(g.ring, p) == g.ring[k]
  {
    StalkerIsPredecessor(|g.ring|, k);
  }

  /** The player `kill` eliminates is the first match after the head, in
      ring order, and the head only when nobody after it matches; with
      duplicate names the earlier one dies first. */
  lemma KillPicksFirstMatch(g: Game, name: string, k: nat)
    requires |g.ring| >= 2 && k < |g.ring| && EqualsIgnoreCase(g.ring[k], name)
    requires k > 0 ==> forall j :: 1 <= j < k ==> !EqualsIgnoreCase(g.ring[j], name)
    requires k == 0 ==> forall j :: 1 <= j < |g.ring| ==> !EqualsIgnoreCase(g.ring[j], name)
    ensures Kill(g, name) == Ok(Eliminate(g, k))
  {
  }

  /** A successful kill keeps the ring non-empty, shrinks it by one and
      grows the graveyard by one. */
  lemma KillPreservesValid(g: Game, name: string)
    requires Valid(g) && Kill(g, name).Ok?
    ensures var g' := Kill(g, name).value;
      Valid(g') && |g'.ring| == |g.ring| - 1 && |g'.graveyard| == |g.graveyard| + 1
  {
  }

  /** Nobody is created or lost: the living and the dead together are the
      same players before and after a kill. */
  lemma {:induction false} KillConservesPlayers(g: Game, name: string)
    requires Valid(g) && Kill(g, name).Ok?
    ensures var g' := Kill(g, name).value;
      multiset(g'.ring) + multiset(Victims(g'.graveyard)) ==
      multiset(g.ring) + multiset(Victims(g.graveyard))
  {
    var g' := Kill(g, name).value;
    var k := VictimIndex(g.ring, name).value;
    assert g.ring == g.ring[..k] + [g.ring[k]] + g.ring[k + 1..];
    assert Victims(g'.graveyard) == [g.ring[k]] + Victims(g.graveyard);
  }

  /** After killing `name` the graveyard contains it; when no two living
      players' names match ignoring case, the ring no longer does. */
  lemma {:induction false} KillMembership(g: Game, name: string)
    requires Valid(g) && Kill(g, name).Ok?
    ensures GraveyardContains(Kill(g, name).value, name)
    ensures DistinctIgnoringCase(g.ring) ==> !RingContains(Kill(g, name).value, name)
  {
    var g' := Kill(g, name).value;
    var k := VictimIndex(g.ring, name).value;
    assert Victims(g'.graveyard)[0] == g.ring[k];
    if DistinctIgnoringCase(g.ring) && RingContains(g', name) {
      var i :| 0 <= i < |g'.ring| && EqualsIgnoreCase(g'.ring[i], name);
      var j := if i < k then i else i + 1;
      EqualsIgnoreCaseIsEquivalence(g.ring[j], name, g.ring[k]);
    }
  }

  /** Killing one of the last two players ends the game, with the other
      one as winner. */
  lemma LastKillEndsGame(g: Game, name: string)
    requires Valid(g) && |g.ring| == 2 && Kill(g, name).Ok?
    ensures var g' := Kill(g, name).value;
      IsGameOver(g') &&
      Winner(g') == Some(if EqualsIgnoreCase(g.ring[1], name) then g.ring[0] else g.ring[1])
  {
  }

  /** Position arithmetic of the ring: the successor of the last position
      is the first. */
  lemma NextPosition(a: nat, n: nat)
    requires a < n
    ensures (a + 1) % n == if a + 1 == n then 0 else a + 1
  {
  }

  /** Every player stalks the next one in the ring, and the last player
      stalks the first. */
  lemma RingTargets(ring: seq<string>, i: nat)
    requires i < |ring|
    ensures Target(ring, i) == if i + 1 < |ring| then ring[i + 1] else ring[0]
  {
    NextPosition(i, |ring|);
  }

  /** After a player is removed from the ring, their stalker now stalks
      the player they were stalking, and every other player keeps their
      target. */
  lemma {:induction false} KillerInheritsTarget(ring: seq<string>, k: nat, i: nat)
    requires 2 <= |ring| && k < |ring| && i < |ring| - 1
    ensures var ring' := ring[..k] + ring[k + 1..];
      var j := if i < k then i else i + 1;
      Target(ring', i) == if j == (k + |ring| - 1) % |ring| then Target(ring, k) else Target(ring, j)
  {
    var n := |ring|;
    var ring' := ring[..k] + ring[k + 1..];
    var j := if i < k then i else i + 1;
    assert forall x :: 0 <= x < n - 1 ==> ring'[x] == ring[if x < k then x else x + 1];
    StalkerIsPredecessor(n, k);
    NextPosition(i, n - 1);
    NextPosition(j, n);
    NextPosition(k, n);
  }

  /** The game the Java tests play, first kill: "Bob", the head,
      is killed by "Julia", the last player, who stalked him. */
  lemma ExampleKillHead()
    ensures Kill(Game(["Bob", "Sam", "Kyra", "Julia"], []), "Bob") ==
      Ok(Game(["Sam", "Kyra", "Julia"], [Death("Bob", "Julia")]))
  {
    var g := Game(["Bob", "Sam", "Kyra", "Julia"], []);
    assert !EqualsIgnoreCase("Julia", "Bob") && !EqualsIgnoreCase("Kyra", "Bob");
    assert "Sam"[0] == 'S' && "Bob"[0] == 'B' && Lower('S') != Lower('B');
    assert !EqualsIgnoreCase("Sam", "Bob") && EqualsIgnoreCase("Bob", "Bob");
    assert FirstMatchFrom(g.ring, "Bob", 3) == None;
    assert FirstMatchFrom(g.ring, "Bob", 1) == None;
    assert VictimIndex(g.ring, "Bob") == Some(0);
    assert g.ring[..0] + g.ring[1..] == ["Sam", "Kyra", "Julia"];
    assert [Death("Bob", g.ring[Stalker(4, 0)])] + g.graveyard == [Death("Bob", "Julia")];
  }

  /** Second kill: "Kyra" is killed by "Sam", becomes the graveyard's head,
      and "Sam" now stalks "Julia". */
  lemma ExampleKillMiddle()
    ensures Kill(Game(["Sam", "Kyra", "Julia"], [Death("Bob", "Julia")]), "Kyra") ==
      Ok(Game(["Sam", "Julia"], [Death("Kyra", "Sam"), Death("Bob", "Julia")]))
  {
    var g := Game(["Sam", "Kyra", "Julia"], [Death("Bob", "Julia")]);
    assert EqualsIgnoreCase("Kyra", "Kyra");
    assert FirstMatchFrom(g.ring, "Kyra", 1) == Some(1);
    assert g.ring[..1] + g.ring[2..] == ["Sam", "Julia"];
    assert [Death("Kyra", g.ring[Stalker(3, 1)])] + g.graveyard == [Death("Kyra", "Sam"), Death("Bob", "Julia")];
  }

  /** A name nobody in the ring has is refused. */
  lemma ExampleUnknownName()
    ensures Kill(Game(["Bob", "Sam", "Kyra", "Julia"], []), "Jack") == Fail(IllegalArgument)
  {
    var ring := ["Bob", "Sam", "Kyra", "Julia"];
    forall i | 0 <= i < 4
      ensures !EqualsIgnoreCase(ring[i], "Jack")
    {
      assert "Jack"[0] == 'J' && "Jack"[1] == 'a' && "Julia"[1] == 'u';
    }
  }

  /** A one-player game is over, "Bob" has won, and killing "Bob" is
      refused as an illegal state rather than an unknown name. */
  lemma ExampleOnePlayer()
    ensures var g := Game(["Bob"], []);
      IsGameOver(g) && Winner(g) == Some("Bob") && Kill(g, "Bob") == Fail(IllegalState)
  {
  }
}
