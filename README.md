# Assassin game manager, modelled in Dafny

The Java class `AssassinManager` runs a game of Assassin. Every player
stalks the next one. The living players form the **kill ring**: a
singly-linked list of nodes in turn order, where the last player stalks the
first. The dead players form the **graveyard**: a second linked list, most
recent victim first. Each node records the victim's killer.

The project has three modules.

- `CaseFold` (CaseFold.dfy) is the case-insensitive name comparison that
  every lookup uses (`String.equalsIgnoreCase`, on ASCII text).
- `GameSpec` (GameSpec.dfy) is the game on values:
  - `Game` is the names in the ring plus the graveyard as a sequence of
    `Death(victim, killer)`;
  - `Kill` is the whole effect of one kill, with its two failures;
  - the lemmas state what a kill does: who dies, who the killer is,
    conservation of players, who each player stalks next, and when the
    game ends.
- `Assassin` (AssassinManager.dfy) is the manager as the Java code writes
  it:
  - `AssassinNode` is a class with `name`, `killer` and `next`;
  - `AssassinManager` is a class with the `killRing` and `graveyard`
    pointers;
  - its methods walk and relink the nodes in place, with the same loops and
    branches as the Java code;
  - ghost sequences `ring` and `grave` follow the two lists. The invariant
    `Valid()` ties them to the pointers: both lists are well linked, no node
    appears twice, a node is alive exactly when it has no killer, and the
    graveyard nodes hold the recorded deaths;
  - `State()` reads the abstract `GameSpec.Game` off the lists;
  - the constructor, `isGameOver`, `winner`, the two lookups, `kill` and
    the two print methods are proved against the `GameSpec` functions for
    their operations;
  - `addToGraveyard` has no `GameSpec` counterpart. Its contract states the
    new graveyard list and the death it records.

Exceptions are returned as values:
- `IllegalArgumentException` is `IllegalArgument`;
- `IllegalStateException` is `IllegalState`;
- `kill` returns `Some(error)` when it throws and `None` when it returns
  normally;
- the checked constructor `New` returns a `Result`.

The two print methods return what they would print: the (assassin, victim)
pairs or the winner, and the (victim, killer) entries.

## Model

| member | source | states |
|---|---|---|
| `Assassin.AssassinNode.constructor` | src/AssassinManager.java:158-162 | a new node holds the given name and link and has no killer (is alive) |
| `Assassin.AssassinManager.constructor` | src/AssassinManager.java:21-28 | building the nodes in the order of the list gives a well-formed manager whose ring holds exactly those names, in order, with an empty graveyard |
| `Assassin.AssassinManager.New` | src/AssassinManager.java:16-29 | a null or empty list is refused with IllegalArgument; any other list starts the game `Init` describes, on fresh nodes the manager owns |
| `GameSpec.InitialGame` | src/AssassinManager.java:16-29 | a new game holds every starting name alive and none dead, and is over exactly when started with one name |
| `Assassin.AssassinManager.IsGameOver` | src/AssassinManager.java:93-95 | the game is over exactly when one player is left in the ring, as `GameSpec.IsGameOver` says of the abstract game |
| `Assassin.AssassinManager.Winner` | src/AssassinManager.java:98-100 | there is a winner exactly when the game is over, and the winner is the only living player's name, as `GameSpec.Winner` says of the abstract game |
| `Assassin.AssassinManager.KillRingContains` | src/AssassinManager.java:71-79 | the walk of the ring answers true exactly when some living player's name matches, ignoring case |
| `Assassin.AssassinManager.GraveyardContains` | src/AssassinManager.java:82-90 | the walk of the graveyard answers true exactly when some dead player's name matches, ignoring case |
| `Assassin.AssassinManager.PrintKillRing` | src/AssassinManager.java:33-49 | a finished game reports its winner; otherwise one pair per living player, in ring order, of the player and the one they stalk, the last player stalking the first |
| `Assassin.AssassinManager.PrintGraveyard` | src/AssassinManager.java:57-68 | the report lists every death as (victim, killer), most recent first, and is empty while nobody has died |
| `Assassin.AssassinManager.Kill` | src/AssassinManager.java:103-128 | a finished game refuses any name with IllegalState, before any lookup; an unknown name is refused with IllegalArgument and changes nothing; otherwise the names and deaths change exactly as `GameSpec.Kill` says, and the node at the position the scan chooses moves from the ring to the front of the graveyard |
| `Assassin.AssassinManager.FindStalker` | src/AssassinManager.java:107-118 | the scan stops at the node before the first match after the head, or at the last node when no player after the head matches |
| `Assassin.AssassinManager.KillSuccessor` | src/AssassinManager.java:110-115 | when the match is after the head, its predecessor links past it and becomes its killer, and the victim's own node leaves the ring and goes to the front of the graveyard; the invariant is kept |
| `Assassin.AssassinManager.KillHead` | src/AssassinManager.java:119-124 | when the match is the head, the ring starts at the second node, the last node becomes the killer, and the old head node goes to the front of the graveyard; the invariant is kept |
| `Assassin.AssassinManager.AddToGraveyard` | src/AssassinManager.java:131-134 | the node becomes the graveyard's head, before the earlier deaths, and its death is recorded |
| `GameSpec.FirstMatchFrom` | src/AssassinManager.java:109-118 | the result is the first matching position at or after the start, and there is none exactly when nothing from there on matches |
| `GameSpec.VictimIndex` | src/AssassinManager.java:109-125 | the chosen victim matches the name; a position after the head is preferred to the head; there is no victim exactly when no living name matches |
| `GameSpec.FirstMatchAt` | src/AssassinManager.java:109-116 | a match with no match before it, from the start, is the one the scan finds |
| `GameSpec.KillFails` | src/AssassinManager.java:104-105 | a kill fails with IllegalState exactly when the game is over, with IllegalArgument exactly when no living name matches, and otherwise succeeds |
| `GameSpec.KillPicksFirstMatch` | src/AssassinManager.java:109-124 | with duplicate names, the first match after the head dies, and the head dies only when nobody after it matches |
| `GameSpec.KillMovesVictim` | src/AssassinManager.java:112-123 | a successful kill removes the matching player the scan chooses, keeps the rest in order, and records them first in the graveyard, killed by the player who stalked them |
| `GameSpec.StalkerIsPredecessor` | src/AssassinManager.java:113 | a player's killer is the player before them in the ring, the last player for the head |
| `GameSpec.KillerInheritsTarget` | src/AssassinManager.java:112 | after a kill the killer stalks the victim's former target, and everyone else keeps their target |
| `GameSpec.KillPreservesValid` | src/AssassinManager.java:104-105 | a kill, allowed only with two or more players, leaves at least one, shrinks the ring by one and grows the graveyard by one |
| `GameSpec.KillConservesPlayers` | src/AssassinManager.java:112-134 | the living and the dead together are the same names before and after a kill |
| `GameSpec.KillMembership` | src/AssassinManager.java:114 | the killed name is in the graveyard afterwards, and, when no two living names match each other, no longer in the ring |
| `GameSpec.LastKillEndsGame` | src/AssassinManager.java:93-100 | killing one of the last two players ends the game, and the other one wins |
| `GameSpec.RingTargets` | src/AssassinManager.java:40-48 | every player stalks the next one in the ring, and the last player stalks the first |
| `GameSpec.EliminateMoves` | src/AssassinManager.java:113 | the recorded killer is the player whose target was the victim |
| `GameSpec.ExampleKillHead` | tst/AssassinManagerTest.java:180-186 | killing "Bob", the head of Bob, Sam, Kyra, Julia, moves him to the graveyard, killed by Julia |
| `GameSpec.ExampleKillMiddle` | tst/AssassinManagerTest.java:33-39 | then killing "Kyra" records her, killed by Sam, in front of Bob |
| `GameSpec.ExampleUnknownName` | tst/AssassinManagerTest.java:213-218 | killing "Jack", whom nobody is called, is refused with IllegalArgument |
| `GameSpec.ExampleOnePlayer` | tst/AssassinManagerTest.java:206-211 | a one-player game is over, won by its player, and refuses to kill even them, with IllegalState |
| `CaseFold.Lower` | src/AssassinManager.java:74 | the folded character is never an upper-case letter, and is the same letter as the original |
| `CaseFold.LowerMatchesSameLetter` | src/AssassinManager.java:74 | two characters fold to the same one exactly when they are the same letter, whatever its case |
| `CaseFold.EqualsIgnoreCaseByLetters` | src/AssassinManager.java:74 | two names match ignoring case exactly when they have the same length and the same letter, whatever its case, at every position |
| `CaseFold.EqualsIgnoreCaseIsEquivalence` | src/AssassinManager.java:74 | matching ignoring case is reflexive, symmetric and transitive |

## Left out

- Console output is not modelled:
  - `printKillRing` and `printGraveyard` return the pairs they would print;
  - the message text and `printKillMessage` (src/AssassinManager.java:52-54) are left out.
- `CaseFold.EqualsIgnoreCase` folds ASCII letters only. Java's
  `equalsIgnoreCase` also folds other Unicode letters.
- Null is not modelled, with one exception:
  - `New` models a null list as `None`;
  - null names, null list elements and a null `kill` argument are left out.
- The one-argument node constructor (src/AssassinManager.java:150-152) is
  left out, because nothing calls it.
- Exceptions are returned as values. Dafny constructors cannot fail, so:
  - `Assassin.AssassinManager.constructor` requires a non-empty list;
  - the check the Java constructor performs lives in `New`.
- `Assassin.AssassinManager.Kill`:
  - it uses the `FindStalker` loop and the `KillSuccessor`/`KillHead` step
    methods as sub-steps, where the Java method has one loop with the
    unlinking inside;
  - the order of the scan, the branches and the heap updates are the same.
- The Java constructor leaves the graveyard pointer null by default. The
  model sets it to null explicitly.

The scan in `kill` checks the players after the head first, in ring
order, and the head last. With duplicate names, a later player therefore
dies before an earlier head.
