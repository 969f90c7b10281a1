/** The game's state manager as the Java code builds it: two singly-linked
    lists of player nodes, the kill ring (the living, in turn order; the last
    one stalks the first) and the graveyard (the dead, most recent first).
    Ghost sequences of nodes follow each list and tie it to the abstract game
    of module GameSpec. */
module Assassin {
  import opened CaseFold
  import opened GameSpec

  /** One player: a name that never changes, who killed them (None while
      alive) and the next node of whichever list holds them. */
  class AssassinNode {
    const name: string
    var killer: Option<string>
    var next: AssassinNode?

    constructor (name: string, next: AssassinNode?)
      ensures this.name == name && this.next == next && killer == None
    {
      this.name := name;
      this.killer := None;
      this.next := next;
    }
  }

  /** Each node of `s` links to the next one, and the last one to `last`. */
  ghost predicate Path(s: seq<AssassinNode>, last: AssassinNode?)
    reads s`next
  {
    forall i {:trigger s[i].next} :: 0 <= i < |s| ==> s[i].next == if i + 1 < |s| then s[i + 1] else last
  }

  /** The nodes of `s` form the list that starts at `head`: each links to the
      following one and the last one ends the list. */
  ghost predicate Linked(s: seq<AssassinNode>, head: AssassinNode?)
    reads s`next
  {
    head == (if s == [] then null else s[0]) && Path(s, null)
  }

  /** Following the link of a node of a list leads to the node after it
      in the list, or to null from the last node. */
  lemma NextLink(s: seq<AssassinNode>, head: AssassinNode?, i: nat)
    requires Linked(s, head) && i < |s|
    ensures s[i].next == if i < |s| - 1 then s[i + 1] else null
  {
  }

  ghost predicate Distinct(s: seq<AssassinNode>)
  {
    forall i, j :: 0 <= i < j < |s| ==> s[i] != s[j]
  }

  /** Nobody in `s` has a killer: they are all alive. */
  ghost predicate NoKillers(s: seq<AssassinNode>)
    reads s`killer
  {
    forall i :: 0 <= i < |s| ==> s[i].killer == None
  }

  /** The nodes of `s` are the deaths `d`, in order: each holds the victim's
      name and their killer. */
  ghost predicate Recorded(s: seq<AssassinNode>, d: seq<Death>)
    reads s`killer
  {
    |s| == |d| &&
    forall i :: 0 <= i < |s| ==> s[i].name == d[i].victim && s[i].killer == Some(d[i].killer)
  }

  ghost function Names(s: seq<AssassinNode>): seq<string>
  {
    seq(|s|, i requires 0 <= i < |s| => s[i].name)
  }

  class AssassinManager {
    var killRing: AssassinNode
    var graveyard: AssassinNode?
    ghost var ring: seq<AssassinNode>
    ghost var grave: seq<AssassinNode>
    ghost var deaths: seq<Death>

    /** The object invariant: both lists are well linked, the ring is never
        empty, every node is in exactly one list and only once, and a node
        has a killer exactly when it is in the graveyard. */
    ghost predicate Valid()
      reads this, ring, grave
    {
      |ring| >= 1 && Lists()
    }

    /** The invariant without the bound on the ring, which holds between the
        two halves of a kill too: the victim has left the ring but is not yet
        in the graveyard. */
    ghost predicate Lists()
      reads this, ring, grave
    {
      Linked(ring, killRing) && Linked(grave, graveyard) &&
      Distinct(ring) && Distinct(grave) &&
      (forall x :: x in ring ==> x !in grave) &&
      NoKillers(ring) && Recorded(grave, deaths)
    }

    /** The abstract game these lists hold. */
    ghost function State(): Game
      reads this
    {
      Game(Names(ring), deaths)
    }

    /** Builds the kill ring from the names, in order; the graveyard starts
        empty. */
    constructor (names: seq<string>)
      requires |names| >= 1
      ensures Valid() && State() == Game(names, [])
      ensures forall i :: 0 <= i < |ring| ==> fresh(ring[i])
    {
      var head := new AssassinNode(names[0], null);
      var curr := head;
      ghost var nodes := [head];
      var i := 1;
      while i < |names|
        invariant 1 <= i <= |names| && |nodes| == i
        invariant nodes[0] == head && curr == nodes[i - 1] && curr.next == null
        invariant forall j :: 0 <= j < i - 1 ==> nodes[j].next == nodes[j + 1]
        invariant Names(nodes) == names[..i]
        invariant Distinct(nodes)
        invariant forall j :: 0 <= j < i ==> fresh(nodes[j]) && nodes[j].killer == None
      {
        var node := new AssassinNode(names[i], null);
        curr.next := node;
        curr := node;
        nodes := nodes + [node];
        i := i + 1;
      }
      killRing := head;
      graveyard := null;
      ring := nodes;
      grave := [];
      deaths := [];
    }

    /** The Java constructor: a missing (null) or empty list of
        names is refused, otherwise the game starts with those names. */
    static method New(names: Option<seq<string>>) returns (r: Result<AssassinManager>)
      ensures match Init(names)
        case Fail(e) => r == Fail(e)
        case Ok(g) => r.Ok? && fresh(r.value) && r.value.Valid() && r.value.State() == g
      ensures r.Ok? ==> forall i :: 0 <= i < |r.value.ring| ==> fresh(r.value.ring[i])
    {
      if names.None? || |names.value| == 0 {
        return Fail(IllegalArgument);
      }
      var m := new AssassinManager(names.value);
      return Ok(m);
    }

    /** The game is over when one player is left in the ring. */
    function IsGameOver(): (over: bool)
      requires Valid()
      reads this, ring, grave
      ensures over <==> |ring| == 1
      ensures over == GameSpec.IsGameOver(State())
    {
      assert |ring| > 1 ==> ring[0].next == ring[1];
      killRing.next == null
    }

    /** The last player standing, once the game is over. */
    function Winner(): (w: Option<string>)
      requires Valid()
      reads this, ring, grave
      ensures w.Some? <==> |ring| == 1
      ensures w.Some? ==> Names(ring) == [w.value]
      ensures w == GameSpec.Winner(State())
    {
      if IsGameOver() then Some(killRing.name) else None
    }

    /** Whether a living player has this name, ignoring case. */
    method KillRingContains(name: string) returns (found: bool)
      requires Valid()
      ensures found == RingContains(State(), name)
    {
      var curr: AssassinNode? := killRing;
      ghost var i := 0;
      while curr != null
        invariant 0 <= i <= |ring|
        invariant curr == if i < |ring| then ring[i] else null
        invariant forall j :: 0 <= j < i ==> !EqualsIgnoreCase(ring[j].name, name)
        decreases |ring| - i
      {
        if EqualsIgnoreCase(curr.name, name) {
          assert Names(ring)[i] == curr.name;
          return true;
        }
        curr := curr.next;
        i := i + 1;
      }
      return false;
    }

    /** Whether a dead player has this name, ignoring case. */
    method GraveyardContains(name: string) returns (found: bool)
      requires Valid()
      ensures found == GameSpec.GraveyardContains(State(), name)
    {
      var curr: AssassinNode? := graveyard;
      ghost var i := 0;
      while curr != null
        invariant 0 <= i <= |grave|
        invariant curr == if i < |grave| then grave[i] else null
        invariant forall j :: 0 <= j < i ==> !EqualsIgnoreCase(grave[j].name, name)
        decreases |grave| - i
      {
        if EqualsIgnoreCase(curr.name, name) {
          assert Victims(deaths)[i] == curr.name;
          return true;
        }
        curr := curr.next;
        i := i + 1;
      }
      return false;
    }

    /** What printing the kill ring shows: the winner when the game is over,
        otherwise each living player and the one they stalk, in ring order,
        the last player stalking the first. */
    method PrintKillRing() returns (report: RingReport)
      requires Valid()
      ensures |ring| == 1 ==> report == Won(ring[0].name)
      ensures |ring| >= 2 ==>
        report.Stalking? && |report.pairs| == |ring| &&
        forall i :: 0 <= i < |ring| ==> report.pairs[i] == (ring[i].name, Target(Names(ring), i))
    {
      if IsGameOver() {
        return Won(killRing.name);
      }
      var pairs := [];
      var curr := killRing;
      ghost var i := 0;
      while curr.next != null
        invariant 0 <= i < |ring| && curr == ring[i] && |pairs| == i
        invariant forall j :: 0 <= j < i ==> pairs[j] == (ring[j].name, ring[j + 1].name)
        decreases |ring| - i
      {
        NextLink(ring, killRing, i);
        pairs := pairs + [(curr.name, curr.next.name)];
        curr := curr.next;
        i := i + 1;
      }
      NextLink(ring, killRing, i);
      pairs := pairs + [(curr.name, killRing.name)];
      forall j | 0 <= j < |ring|
        ensures pairs[j] == (ring[j].name, Target(Names(ring), j))
      {
        RingTargets(Names(ring), j);
      }
      return Stalking(pairs);
    }

    /** What printing the graveyard shows: each dead player and their
        killer, most recent first; nothing when nobody has died. */
    method PrintGraveyard() returns (entries: seq<Death>)
      requires Valid()
      ensures entries == State().graveyard
    {
      entries := [];
      if graveyard == null {
        return;
      }
      var curr: AssassinNode? := graveyard;
      ghost var i := 0;
      while curr != null
        invariant 0 <= i <= |grave| && |entries| == i
        invariant curr == if i < |grave| then grave[i] else null
        invariant entries == deaths[..i]
        decreases |grave| - i
      {
        entries := entries + [Death(curr.name, curr.killer.value)];
        curr := curr.next;
        i := i + 1;
      }
    }

    /** Puts a dead player's node, one that is in neither list, at the front
        of the graveyard, recording their death. */
    method AddToGraveyard(node: AssassinNode)
      requires |ring| >= 1 && Lists() && node.killer.Some? && node !in ring && node !in grave
      modifies this`graveyard, this`grave, this`deaths, node`next
      ensures Valid()
      ensures graveyard == node && grave == [node] + old(grave)
      ensures deaths == [Death(node.name, node.killer.value)] + old(deaths)
    {
      ghost var og := grave;
      node.next := graveyard;
      graveyard := node;
      grave := [node] + grave;
      deaths := [Death(node.name, node.killer.value)] + deaths;
      PushLinked(node, og);
      PushDistinct(node, og);
      forall j | 0 <= j < |grave|
        ensures grave[j].name == deaths[j].victim && grave[j].killer == Some(deaths[j].killer)
      {
        if j > 0 {
          assert grave[j] == og[j - 1] && deaths[j] == old(deaths)[j - 1];
        }
      }
    }

    /** Kills the living player with this name, ignoring case: the player
        before them in the ring (the last one, for the head) becomes their
        killer, they leave the ring and go to the front of the graveyard.
        A finished game and a name no living player has are refused, and
        then nothing changes. */
    method Kill(name: string) returns (thrown: Option<Error>)
      requires Valid()
      modifies this, ring
      ensures Valid()
      ensures match GameSpec.Kill(old(State()), name)
        case Fail(e) => thrown == Some(e) && ring == old(ring) && grave == old(grave) && State() == old(State())
        case Ok(g) => thrown == None && State() == g
      ensures thrown == None ==>
        var k := VictimIndex(Names(old(ring)), name).value;
        VictimIndex(Names(old(ring)), name).Some? && k < |old(ring)| &&
        ring == old(ring)[..k] + old(ring)[k + 1..] && grave == [old(ring)[k]] + old(grave)
    {
      if IsGameOver() {
        return Some(IllegalState);
      }
      ghost var g := State();
      var assassinNode, found, i := FindStalker(name);
      if found {
        KillPicksFirstMatch(g, name, i + 1);
        KillSuccessor(assassinNode, i);
        return None;
      }
      if EqualsIgnoreCase(killRing.name, name) {
        KillPicksFirstMatch(g, name, 0);
        KillHead(assassinNode);
        return None;
      }
      KillFails(g, name);
      return Some(IllegalArgument);
    }

    /** The scan of `kill`: walks the ring from the head and stops at the
        node whose successor has the name, ignoring case; when no node
        after the head has it, stops at the last node, the head's stalker. */
    method FindStalker(name: string) returns (assassinNode: AssassinNode, found: bool, ghost i: nat)
      requires Valid()
      ensures i < |ring| && assassinNode == ring[i]
      ensures found <==> FirstMatchFrom(Names(ring), name, 1).Some?
      ensures found ==> FirstMatchFrom(Names(ring), name, 1) == Some(i + 1)
      ensures !found ==> i == |ring| - 1
    {
      ghost var names := Names(ring);
      assassinNode := killRing;
      i := 0;
      while assassinNode.next != null
        invariant i < |ring| && assassinNode == ring[i]
        invariant forall j :: 1 <= j <= i ==> !EqualsIgnoreCase(names[j], name)
        decreases |ring| - i
      {
        NextLink(ring, killRing, i);
        if EqualsIgnoreCase(assassinNode.next.name, name) {
          FirstMatchAt(names, name, 1, i + 1);
          return assassinNode, true, i;
        }
        assassinNode := assassinNode.next;
        i := i + 1;
      }
      NextLink(ring, killRing, i);
      found := false;
    }

    /** The kill of a player after the head: their stalker, the node
        before them, skips over them and becomes their killer, and they go
        to the graveyard. */
    method KillSuccessor(assassinNode: AssassinNode, ghost i: nat)
      requires Valid() && i + 1 < |ring| && assassinNode == ring[i]
      modifies this, ring
      ensures Valid()
      ensures State() == Eliminate(old(State()), i + 1)
      ensures ring == old(ring)[..i + 1] + old(ring)[i + 2..] && grave == [old(ring)[i + 1]] + old(grave)
    {
      ghost var r, k := ring, i + 1;
      ghost var rest := r[..k] + r[k + 1..];
      NextLink(r, killRing, k);
      PathSplit(r, null, i);
      PathSplit(r, null, k + 1);
      NoKillersRemove(r, k);
      DistinctRemove(r, k);
      NotInSlice(r, i, 0, i);
      NotInSlice(r, i, k + 1, |r|);
      assert r[i] in r && r[k] in r;
      var victimNode := assassinNode.next;
      assassinNode.next := victimNode.next;
      victimNode.killer := Some(assassinNode.name);
      UnlinkedPath(r, k);
      ring := rest;
      NamesRemove(r, k);
      AddToGraveyard(victimNode);
    }

    /** The kill of the head: the ring now starts at the second player, the
        last player becomes the killer, and the head goes to the
        graveyard. */
    method KillHead(lastNode: AssassinNode)
      requires Valid() && 2 <= |ring| && lastNode == ring[|ring| - 1]
      modifies this, ring
      ensures Valid()
      ensures State() == Eliminate(old(State()), 0)
      ensures ring == old(ring)[1..] && grave == [old(ring)[0]] + old(grave)
    {
      ghost var r := ring;
      ghost var rest := r[..0] + r[1..];
      NextLink(r, killRing, 0);
      PathSplit(r, null, 1);
      NoKillersRemove(r, 0);
      DistinctRemove(r, 0);
      var victimNode := killRing;
      killRing := killRing.next;
      victimNode.killer := Some(lastNode.name);
      ring := rest;
      NamesRemove(r, 0);
      AddToGraveyard(victimNode);
    }
  }

  /** Pushing a node on a list whose head it links to gives a list headed
      by that node. */
  lemma PushLinked(v: AssassinNode, s: seq<AssassinNode>)
    requires Linked(s, v.next)
    ensures Linked([v] + s, v)
  {
    var t := [v] + s;
    forall j | 0 <= j < |t|
      ensures t[j].next == if j + 1 < |t| then t[j + 1] else null
    {
      if j > 0 {
        assert t[j] == s[j - 1];
      }
      if j + 1 < |t| {
        assert t[j + 1] == s[j];
      }
    }
  }

  /** Pushing a node that is not in a list without repeats keeps it without
      repeats. */
  lemma PushDistinct(v: AssassinNode, s: seq<AssassinNode>)
    requires Distinct(s) && v !in s
    ensures Distinct([v] + s)
  {
    var t := [v] + s;
    forall i, j | 0 <= i < j < |t|
      ensures t[i] != t[j]
    {
      assert t[j] == s[j - 1] && s[j - 1] in s;
      if i > 0 {
        assert t[i] == s[i - 1];
      }
    }
  }

  /** Splitting a list at position `k` gives a part that links to the node
      at `k` and a part that keeps the original ending. */
  lemma PathSplit(s: seq<AssassinNode>, last: AssassinNode?, k: nat)
    requires Path(s, last) && k <= |s|
    ensures Path(s[..k], if k < |s| then s[k] else last)
    ensures Path(s[k..], last)
  {
    forall j | 0 <= j < k
      ensures s[..k][j].next == if j + 1 < k then s[..k][j + 1] else if k < |s| then s[k] else last
    {
      assert s[..k][j] == s[j];
    }
    forall j | 0 <= j < |s| - k
      ensures s[k..][j].next == if j + 1 < |s| - k then s[k..][j + 1] else last
    {
      assert s[k..][j] == s[k + j];
      if j + 1 < |s| - k {
        assert s[k..][j + 1] == s[k + j + 1];
      }
    }
  }

  /** Once the node before position `k` links past it, the list without that
      node links up again. */
  lemma UnlinkedPath(s: seq<AssassinNode>, k: nat)
    requires 0 < k < |s|
    requires Path(s[..k - 1], s[k - 1]) && Path(s[k + 1..], null)
    requires s[k - 1].next == if k + 1 < |s| then s[k + 1] else null
    ensures Path(s[..k] + s[k + 1..], null)
  {
    var t := s[..k] + s[k + 1..];
    forall j | 0 <= j < |t|
      ensures t[j].next == if j + 1 < |t| then t[j + 1] else null
    {
      if j < k - 1 {
        assert t[j] == s[..k - 1][j] && t[j + 1] == s[j + 1];
      } else if j == k - 1 {
        assert t[j] == s[k - 1];
        if k + 1 < |s| {
          assert t[j + 1] == s[k + 1];
        }
      } else {
        assert t[j] == s[k + 1..][j - k];
        if j + 1 < |t| {
          assert t[j + 1] == s[k + 1..][j - k + 1];
        }
      }
    }
  }

  /** Removing one node keeps the others alive. */
  lemma NoKillersRemove(s: seq<AssassinNode>, k: nat)
    requires NoKillers(s) && k < |s|
    ensures NoKillers(s[..k] + s[k + 1..])
  {
    var t := s[..k] + s[k + 1..];
    assert forall j :: 0 <= j < |t| ==> t[j] == s[if j < k then j else j + 1];
  }

  /** In a list without repeated nodes, the node at `k` is not found outside
      its own position. */
  lemma NotInSlice(s: seq<AssassinNode>, k: nat, lo: nat, hi: nat)
    requires Distinct(s) && k < |s| && lo <= hi <= |s| && (k < lo || hi <= k)
    ensures s[k] !in s[lo..hi]
  {
    forall j | 0 <= j < hi - lo
      ensures s[lo..hi][j] != s[k]
    {
      assert s[lo..hi][j] == s[lo + j];
    }
  }

  /** Removing the node at position `k` removes its name at that position. */
  lemma NamesRemove(s: seq<AssassinNode>, k: nat)
    requires k < |s|
    ensures Names(s[..k] + s[k + 1..]) == Names(s)[..k] + Names(s)[k + 1..]
  {
  }

  /** Removing one node keeps the others distinct, and none of them is the
      removed one. */
  lemma DistinctRemove(s: seq<AssassinNode>, k: nat)
    requires Distinct(s) && k < |s|
    ensures Distinct(s[..k] + s[k + 1..])
    ensures forall x :: x in s[..k] + s[k + 1..] ==> x in s && x != s[k]
  {
    var t := s[..k] + s[k + 1..];
    assert forall j :: 0 <= j < |t| ==> t[j] == s[if j < k then j else j + 1];
  }
}
