/**
  A player: a colour and the array of stones still in play, which
  Player#update damps and prunes in place.
 */
module Players {
  import opened Damping
  import opened Stones
  import opened Sweeping

  /** Array#delete: the array without any element equal to `x`, in order. */
  function Delete<T(==)>(xs: seq<T>, x: T): (r: seq<T>)
    ensures forall j :: 0 <= j < |r| ==> r[j] in xs && r[j] != x
    ensures forall j :: 0 <= j < |xs| && xs[j] != x ==> xs[j] in r
    ensures |r| <= |xs| && (x in xs ==> |r| < |xs|)
  {
    if xs == [] then []
    else (if xs[0] == x then [] else [xs[0]]) + Delete(xs[1..], x)
  }

  /** Deleting an element that occurs once closes the gap it leaves. */
  lemma {:induction false} DeleteOnce<T>(xs: seq<T>, i: nat)
    requires i < |xs| && forall a :: 0 <= a < |xs| && a != i ==> xs[a] != xs[i]
    ensures Delete(xs, xs[i]) == xs[..i] + xs[i + 1..]
    decreases |xs|
  {
    var x := xs[i];
    if i == 0 {
      assert xs[1..] == xs[i + 1..];
      DeleteAbsent(xs[1..], x);
    } else {
      var tail := xs[1..];
      forall a | 0 <= a < |tail| && a != i - 1 ensures tail[a] != tail[i - 1] {
        assert tail[a] == xs[a + 1];
      }
      DeleteOnce(tail, i - 1);
      assert tail[i - 1] == x;
      assert xs[..i] + xs[i + 1..] == [xs[0]] + (tail[..i - 1] + tail[i..]);
    }
  }

  lemma {:induction false} DeleteAbsent<T>(xs: seq<T>, x: T)
    requires x !in xs
    ensures Delete(xs, x) == xs
    decreases |xs|
  {
    if xs != [] {
      DeleteAbsent(xs[1..], x);
      assert xs == [xs[0]] + xs[1..];
    }
  }

  /** Each stone paired with its current body. */
  function Entries(ss: seq<Stone>): seq<(Stone, Body)>
    reads ss
  {
    seq(|ss|, j requires 0 <= j < |ss| reads ss => (ss[j], ss[j].body))
  }

  /** Entries depend only on the bodies of the stones. */
  twostate lemma EntriesUnchanged(ss: seq<Stone>)
    requires forall s :: s in ss ==> unchanged(s)
    ensures Entries(ss) == old(Entries(ss))
  {
    forall j | 0 <= j < |ss| ensures Entries(ss)[j] == old(Entries(ss))[j] {
      assert ss[j] in ss;
    }
  }

  /** Closing a gap in the stones closes it in their entries. */
  lemma EntriesWithout(ss: seq<Stone>, i: nat)
    requires i < |ss|
    ensures Entries(ss[..i] + ss[i + 1..]) == Entries(ss)[..i] + Entries(ss)[i + 1..]
  {
    var r, e := Entries(ss[..i] + ss[i + 1..]), Entries(ss)[..i] + Entries(ss)[i + 1..];
    forall j | 0 <= j < |r| ensures r[j] == e[j] {
      if j >= i {
        assert (ss[..i] + ss[i + 1..])[j] == ss[j + 1];
      }
    }
  }

  /** Dropping one stone keeps the rest distinct. */
  lemma DistinctWithout(ss: seq<Stone>, i: nat)
    requires i < |ss| && Unique(ss)
    ensures Unique(ss[..i] + ss[i + 1..])
    ensures forall s :: s in ss[..i] + ss[i + 1..] ==> s in ss && s != ss[i]
  {
    var r := ss[..i] + ss[i + 1..];
    forall a | 0 <= a < |r| ensures r[a] == if a < i then ss[a] else ss[a + 1] {
    }
  }

  /** One step of the intended walk: the entry at `i` is kept damped, or deleted and the index stays. */
  lemma CompactStep<K>(v: seq<(K, Body)>, i: nat, norm: Vec2 -> real)
    requires DivisibleNorm(norm) && i < |v|
    ensures var e := Ticked(v[i], norm);
      if Escaped(e.1) then
        var w := v[..i] + v[i + 1..]; w[..i] + Compact(w[i..], norm) == v[..i] + Compact(v[i..], norm)
      else
        var w := v[i := e]; w[..i + 1] + Compact(w[i + 1..], norm) == v[..i] + Compact(v[i..], norm)
  {
    var e := Ticked(v[i], norm);
    assert v[i..][0] == v[i] && v[i..][1..] == v[i + 1..];
    if Escaped(e.1) {
      var w := v[..i] + v[i + 1..];
      assert w[..i] == v[..i] && w[i..] == v[i + 1..];
    } else {
      var w := v[i := e];
      assert w[..i + 1] == v[..i] + [e] && w[i + 1..] == v[i + 1..];
    }
  }

  class Player {
    const color: string
    var stones: seq<Stone>

    /** The stones are distinct objects, all of the player's colour. */
    ghost predicate Valid()
      reads this
    {
      Unique(stones) && forall s :: s in stones ==> s.color == color
    }

    /** The stones in play, each with its body. */
    function View(): seq<(Stone, Body)>
      reads this, stones
    {
      Entries(stones)
    }

    /** The bodies of the stones in play, in order. */
    function Bodies(): seq<Body>
      reads this, stones
    {
      seq(|stones|, j requires 0 <= j < |stones| reads this, stones => stones[j].body)
    }

    /** Player#initialize: `num` new stones of the colour, the j-th drawn with draws[j]. */
    constructor (color: string, num: nat, draws: seq<Draw>)
      requires |draws| == num
      ensures Valid() && this.color == color && |stones| == num
      ensures forall j :: 0 <= j < num ==> fresh(stones[j]) && stones[j].body == Spawn(draws[j])
    {
      this.color := color;
      stones := [];
      new;
      var i := 0;
      while i < num
        invariant 0 <= i <= num && |stones| == i && Valid() && this.color == color
        invariant forall j :: 0 <= j < i ==> fresh(stones[j]) && stones[j].body == Spawn(draws[j])
      {
        var stone := new Stone(color, draws[i]);
        stones := stones + [stone];
        i := i + 1;
      }
    }

    /**
      Player#update: every stone reached by the walk is damped, and deleted
      from the array when it is then off the board; the array left is what
      Sweep computes, and every stone deleted was damped and is off the
      board.
     */
    method Update(norm: Vec2 -> real)
      requires Valid() && DivisibleNorm(norm)
      modifies this, stones
      ensures Valid() && forall s :: s in stones ==> s in old(stones)
      ensures View() == Sweep(old(View()), 0, norm)
      ensures forall s :: s in old(stones) && s !in stones ==>
        s.body == Tick(old(s.body), norm(old(s.body).v)) && Escaped(s.body)
    {
      ghost var start := View();
      var i := 0;
      while i < |stones|
        invariant Valid() && forall s :: s in stones ==> s in old(stones)
        invariant Sweep(View(), i, norm) == Sweep(start, 0, norm)
        invariant i <= |stones| ==> forall s :: s in old(stones) && s in stones[i..] ==> s.body == old(s.body)
        invariant forall s :: s in old(stones) && s !in stones ==>
          s.body == Tick(old(s.body), norm(old(s.body).v)) && Escaped(s.body)
        decreases |stones| - i
      {
        ghost var before := View();
        Visit(i, norm);
        SweepStep(before, i, norm);
        i := i + 1;
      }
    }

    /**
      The update Player#update evidently means: damp every stone and delete
      exactly those that end up off the board.  After a deletion the walk
      stays at the same index, so the stone that moves into it is visited.
     */
    method UpdateAsIntended(norm: Vec2 -> real)
      requires Valid() && DivisibleNorm(norm)
      modifies this, stones
      ensures Valid() && forall s :: s in stones ==> s in old(stones)
      ensures View() == Compact(old(View()), norm)
    {
      ghost var start := View();
      var i := 0;
      while i < |stones|
        invariant i <= |stones| && Valid() && forall s :: s in stones ==> s in old(stones)
        invariant View()[..i] + Compact(View()[i..], norm) == Compact(start, norm)
        decreases |stones| - i
      {
        ghost var before := View();
        var stone := stones[i];
        assert stone in old(stones) by { assert stone in stones; }
        Visit(i, norm);
        CompactStep(before, i, norm);
        assert stone.body == Ticked(before[i], norm).1;
        if !Escaped(stone.body) {
          i := i + 1;
        }
      }
      assert View()[i..] == [];
      assert View()[..i] == View();
    }

    /**
      The block of Player#update for the stone at index `i`: damp it, and
      delete it when it is then off the board.
     */
    method Visit(i: nat, norm: Vec2 -> real)
      requires Valid() && DivisibleNorm(norm) && i < |stones|
      modifies this, stones[i]
      ensures Valid() && forall s :: s in stones ==> s in old(stones)
      ensures var e := Ticked(old(View())[i], norm);
        View() == if Escaped(e.1) then old(View())[..i] + old(View())[i + 1..] else old(View())[i := e]
      ensures var s := old(stones[i]); s.body == Tick(old(s.body), norm(old(s.body).v))
      ensures old(stones[i]) in stones <==> !Escaped(old(stones[i]).body)
      ensures old(stones[i]) in stones ==> stones == old(stones)
      ensures old(stones[i]) !in stones ==> stones == old(stones[..i] + stones[i + 1..])
    {
      ghost var before := View();
      var stone := stones[i];
      stone.Update(norm);
      assert View() == before[i := Ticked(before[i], norm)] by {
        forall j | 0 <= j < |stones| && j != i ensures stones[j] != stone {
          assert stones[j] != stones[i];
        }
      }
      if Escaped(stone.body) {
        DeleteOnce(stones, i);
        DistinctWithout(stones, i);
        EntriesWithout(stones, i);
        stones := Delete(stones, stone);
      }
    }
  }
}
