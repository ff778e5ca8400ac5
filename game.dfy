/**
  The game window: the two players, whose turn it is, the stone picked up
  with the mouse, and the handlers that the window library calls (update
  once per frame, button_down and button_up on mouse clicks).
 */
module Game {
  import opened Constants
  import opened Damping
  import opened Stones
  import opened Sweeping
  import opened Players

  datatype Option<T> = None | Some(value: T)

  /** The mouse buttons, as far as the handlers tell them apart. */
  datatype Button = MsLeft | OtherButton

  /**
    The index of the last body in `bs` that the pointer hits, or None when
    it hits none: the stone that the selection loop of button_down ends on.
   */
  function LastHit(bs: seq<Body>, mx: real, my: real): (r: Option<nat>)
    ensures r.Some? ==> r.value < |bs| && Hit(bs[r.value], mx, my)
    ensures r.Some? ==> forall j :: r.value < j < |bs| ==> !Hit(bs[j], mx, my)
    ensures r.None? <==> forall j :: 0 <= j < |bs| ==> !Hit(bs[j], mx, my)
    decreases |bs|
  {
    if bs == [] then None
    else if Hit(bs[|bs| - 1], mx, my) then Some(|bs| - 1)
    else LastHit(bs[..|bs| - 1], mx, my)
  }

  /** Trying one more body: it becomes the last hit when the pointer hits it. */
  lemma LastHitStep(bs: seq<Body>, j: nat, mx: real, my: real)
    requires j < |bs|
    ensures LastHit(bs[..j + 1], mx, my) == if Hit(bs[j], mx, my) then Some(j) else LastHit(bs[..j], mx, my)
  {
    assert bs[..j + 1][..j] == bs[..j];
  }

  class Alggago {
    const players: seq<Player>
    var turn: Player
    var selected: Stone?

    /** Every stone in play. */
    ghost function AllStones(): set<Stone>
      reads players
    {
      set k, j | 0 <= k < |players| && 0 <= j < |players[k].stones| :: players[k].stones[j]
    }

    /**
      Two distinct players, black first and white second, with no stone in
      common; the turn belongs to one of them.
     */
    ghost predicate Valid()
      reads this`turn, players
    {
      |players| == 2 && players[0] != players[1] &&
      players[0].color == PLAYER_COLOR[0] && players[1].color == PLAYER_COLOR[1] &&
      players[0].Valid() && players[1].Valid() &&
      (forall s :: s in players[0].stones ==> s !in players[1].stones) &&
      (turn == players[0] || turn == players[1])
    }

    /** No stone in play moves or spins. */
    ghost predicate Settled()
      reads players, AllStones()
    {
      forall k, j :: 0 <= k < |players| && 0 <= j < |players[k].stones| ==> AtRest(players[k].stones[j].body)
    }

    /** The player whose turn follows that of `p`. */
    function Next(p: Player): (q: Player)
      requires |players| == 2 && players[0] != players[1] && (p == players[0] || p == players[1])
      ensures (q == players[0] || q == players[1]) && q != p
    {
      if p == players[0] then players[1] else players[0]
    }

    /**
      Alggago#initialize: one player per colour, each with NUM_STONES new
      stones drawn in order from `draws`; black moves first and nothing is
      picked up.
     */
    constructor (draws: seq<Draw>)
      requires |draws| == |PLAYER_COLOR| * NUM_STONES
      ensures Valid() && turn == players[0] && selected == null
      ensures forall k :: 0 <= k < 2 ==> fresh(players[k]) && |players[k].stones| == NUM_STONES
      ensures forall k, j :: 0 <= k < 2 && 0 <= j < NUM_STONES ==>
        fresh(players[k].stones[j]) && players[k].stones[j].body == Spawn(draws[k * NUM_STONES + j])
    {
      var ps: seq<Player> := [];
      var i := 0;
      while i < |PLAYER_COLOR|
        invariant 0 <= i <= |PLAYER_COLOR| && |ps| == i
        invariant forall k :: 0 <= k < i ==>
          fresh(ps[k]) && ps[k].Valid() && ps[k].color == PLAYER_COLOR[k] && |ps[k].stones| == NUM_STONES
        invariant forall k, j :: 0 <= k < i && 0 <= j < NUM_STONES ==>
          fresh(ps[k].stones[j]) && ps[k].stones[j].body == Spawn(draws[k * NUM_STONES + j])
        invariant forall a, b :: 0 <= a < b < i ==> ps[a] != ps[b]
        invariant forall a, b, s :: 0 <= a < b < i && s in ps[a].stones ==> s !in ps[b].stones
      {
        var player := new Player(PLAYER_COLOR[i], NUM_STONES, draws[i * NUM_STONES..(i + 1) * NUM_STONES]);
        ps := ps + [player];
        i := i + 1;
      }
      players := ps;
      turn := ps[0];
      selected := null;
    }

    /** The can_throw loop of button_down: true exactly when every stone is at rest. */
    method CanThrow() returns (canThrow: bool)
      ensures canThrow <==> Settled()
    {
      canThrow := true;
      var k := 0;
      while k < |players|
        invariant 0 <= k <= |players|
        invariant canThrow <==>
          forall k', j :: 0 <= k' < k && 0 <= j < |players[k'].stones| ==> AtRest(players[k'].stones[j].body)
      {
        var stones := players[k].stones;
        var j := 0;
        while j < |stones|
          invariant 0 <= j <= |stones|
          invariant canThrow <==>
            (forall k', j' :: 0 <= k' < k && 0 <= j' < |players[k'].stones| ==> AtRest(players[k'].stones[j'].body)) &&
            (forall j' :: 0 <= j' < j ==> AtRest(stones[j'].body))
        {
          var body := stones[j].body;
          if body.w != 0.0 || body.v.x != 0.0 || body.v.y != 0.0 {
            canThrow := false;
          }
          j := j + 1;
        }
        k := k + 1;
      }
    }

    /**
      button_down: when every stone is at rest, a left click picks up the
      last stone of the player to move that lies under the pointer, and
      keeps the earlier pick when there is none; any other click, or a
      click while a stone moves, changes nothing.
     */
    method ButtonDown(id: Button, mx: real, my: real)
      requires Valid()
      modifies this`selected
      ensures Valid()
      ensures selected ==
        if id == MsLeft && Settled() then
          match LastHit(turn.Bodies(), mx, my)
          case Some(j) => turn.stones[j]
          case None => old(selected)
        else old(selected)
    {
      var canThrow := CanThrow();
      if canThrow {
        match id
        case MsLeft => Select(mx, my);
        case OtherButton =>
      }
    }

    /**
      The selection loop of button_down: the turn holder's stones are tried
      in order, and each one under the pointer becomes the selection.
     */
    method Select(mx: real, my: real)
      requires Valid()
      modifies this`selected
      ensures Valid()
      ensures selected ==
        match LastHit(turn.Bodies(), mx, my)
        case Some(j) => turn.stones[j]
        case None => old(selected)
    {
      var stones := turn.stones;
      ghost var bodies := turn.Bodies();
      var j := 0;
      while j < |stones|
        invariant 0 <= j <= |stones|
        invariant selected ==
          match LastHit(bodies[..j], mx, my)
          case Some(h) => stones[h]
          case None => old(selected)
      {
        var p := stones[j].body.p;
        LastHitStep(bodies, j, mx, my);
        assert bodies[j].p == p;
        if p.x < mx && p.x + STONE_DIAMETER as real > mx && p.y < my && p.y + STONE_DIAMETER as real > my {
          selected := stones[j];
        }
        j := j + 1;
      }
      assert bodies[..j] == bodies && turn.Bodies() == bodies;
    }

    /**
      button_up: releasing the left button throws the picked-up stone
      (Flick towards the pointer), passes the turn to the other player and
      puts the stone down; releasing it with nothing picked up only clears
      the pick; any other button changes nothing.
     */
    method ButtonUp(id: Button, mx: real, my: real)
      requires Valid()
      modifies this`turn, this`selected, selected
      ensures Valid()
      ensures id == MsLeft ==> selected == null
      ensures id == MsLeft && old(selected) != null ==>
        old(selected).body == Flick(old(selected.body), mx, my) && turn == Next(old(turn))
      ensures id == MsLeft && old(selected) == null ==> turn == old(turn)
      ensures id != MsLeft ==> selected == old(selected) && turn == old(turn)
      ensures id != MsLeft && old(selected) != null ==> old(selected).body == old(selected.body)
    {
      match id
      case MsLeft =>
        if selected != null {
          var xDiff := mx - (selected.body.p.x + STONE_DIAMETER as real / 2.0);
          var yDiff := my - (selected.body.p.y + STONE_DIAMETER as real / 2.0);
          selected.body := selected.body.(v := Vec2(xDiff * FINGER_POWER as real, yDiff * FINGER_POWER as real));
          if turn == players[0] {
            turn := players[1];
          } else if turn == players[1] {
            turn := players[0];
          } else {
            assert false;
          }
        }
        selected := null;
      case OtherButton =>
    }

    /**
      Alggago#update after the physics step: every player's update, in
      order; each player's stones become what Sweep makes of them, and
      every stone a player's update removes was damped from the body it
      had before and is off the board.
     */
    method Update(norm: Vec2 -> real)
      requires Valid() && DivisibleNorm(norm)
      modifies players, players[0].stones, players[1].stones
      ensures Valid() && turn == old(turn) && selected == old(selected)
      ensures forall k :: 0 <= k < |players| ==> players[k].View() == Sweep(old(players[k].View()), 0, norm)
      ensures forall e :: e in old(players[0].View()) && e.0 !in players[0].stones ==>
        e.0.body == Tick(e.1, norm(e.1.v)) && Escaped(e.0.body)
      ensures forall e :: e in old(players[1].View()) && e.0 !in players[1].stones ==>
        e.0.body == Tick(e.1, norm(e.1.v)) && Escaped(e.0.body)
    {
      ghost var v0, v1 := players[0].View(), players[1].View();
      ghost var s0, s1 := players[0].stones, players[1].stones;
      forall e | e in v0 ensures e.0 !in s1 {
        var j :| 0 <= j < |v0| && v0[j] == e;
        assert e.0 == s0[j];
      }
      var k := 0;
      while k < |players|
        invariant k <= 2 && Progress(k, v0, v1, s0, s1, norm)
        invariant turn == old(turn) && selected == old(selected)
      {
        Step(k, norm, v0, v1, s0, s1);
        k := k + 1;
      }
    }

    /**
      How far the loop of Update has come: the first `k` players are
      updated (their stones are Sweep of their entries `v0`, `v1` before
      the loop, and every stone they lost was damped and is off the
      board); the others are as they were.
     */
    ghost predicate Progress(k: nat, v0: seq<(Stone, Body)>, v1: seq<(Stone, Body)>, s0: seq<Stone>, s1: seq<Stone>, norm: Vec2 -> real)
      requires DivisibleNorm(norm)
      reads this`turn, players, AllStones(), set s | s in s0 + s1
    {
      Valid() &&
      players[0].View() == (if 0 < k then Sweep(v0, 0, norm) else v0) &&
      players[1].View() == (if 1 < k then Sweep(v1, 0, norm) else v1) &&
      (forall s :: s in players[0].stones ==> s in s0) && (forall s :: s in players[1].stones ==> s in s1) &&
      (forall e :: e in v0 ==> e.0 in s0 && e.0 !in s1) && (forall e :: e in v1 ==> e.0 in s1) &&
      (0 < k ==> forall e :: e in v0 && e.0 !in players[0].stones ==> e.0.body == Tick(e.1, norm(e.1.v)) && Escaped(e.0.body)) &&
      (1 < k ==> forall e :: e in v1 && e.0 !in players[1].stones ==> e.0.body == Tick(e.1, norm(e.1.v)) && Escaped(e.0.body))
    }

    /** One turn of the loop of Update: player `k` is updated and the loop moves on. */
    method Step(k: nat, norm: Vec2 -> real, ghost v0: seq<(Stone, Body)>, ghost v1: seq<(Stone, Body)>, ghost s0: seq<Stone>, ghost s1: seq<Stone>)
      requires DivisibleNorm(norm) && k < 2 && Progress(k, v0, v1, s0, s1, norm)
      modifies players, s0, s1
      ensures Progress(k + 1, v0, v1, s0, s1, norm)
    {
      assert forall s :: s in players[k].stones ==> s in s0 || s in s1;
      assert players[k] in players;
      UpdatePlayer(k, norm);
    }

    /** The update of player `k`, which leaves the other player's stones alone. */
    method UpdatePlayer(k: nat, norm: Vec2 -> real)
      requires Valid() && DivisibleNorm(norm) && k < |players|
      modifies players[k], players[k].stones
      ensures Valid()
      ensures players[k].View() == Sweep(old(players[k].View()), 0, norm)
      ensures players[1 - k].View() == old(players[1 - k].View())
      ensures forall s :: s in players[k].stones ==> s in old(players[k].stones)
      ensures players[1 - k].stones == old(players[1 - k].stones)
      ensures forall e :: e in old(players[k].View()) && e.0 !in players[k].stones ==>
        e.0.body == Tick(e.1, norm(e.1.v)) && Escaped(e.0.body)
    {
      ghost var other := players[1 - k];
      ghost var before := players[k].View();
      assert forall s :: s in other.stones ==> s !in players[k].stones;
      forall e | e in before ensures e.0 in old(players[k].stones) && e.1 == old(e.0.body) {
        var j :| 0 <= j < |before| && before[j] == e;
      }
      players[k].Update(norm);
      EntriesUnchanged(other.stones);
    }
  }

  /** The turn alternates: two throws give it back, one never keeps it. */
  lemma TurnAlternates(g: Alggago, p: Player)
    requires g.Valid() && (p == g.players[0] || p == g.players[1])
    ensures g.Next(p) != p && g.Next(g.Next(p)) == p
  {
  }
}
