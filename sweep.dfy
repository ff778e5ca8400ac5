/**
  The walk of Player#update over a player's stones, on values.  An entry
  pairs a stone (its key) with its body.  Player#update damps each stone
  and deletes it from the array when it ends up off the board, all inside
  one Array#each; deleting the current element moves the next one to the
  current index, which the walk then steps past.
 */
module Sweeping {
  import opened Damping
  import opened Stones

  /** One Stone#update of the entry's body; the key stays. */
  function Ticked<K>(e: (K, Body), norm: Vec2 -> real): (K, Body)
    requires DivisibleNorm(norm)
  {
    (e.0, Tick(e.1, norm(e.1.v)))
  }

  /** No element occurs twice. */
  ghost predicate Unique<K>(xs: seq<K>)
  {
    forall a, b :: 0 <= a < b < |xs| ==> xs[a] != xs[b]
  }

  /**
    Player#update as written, from position `i` of the array `cur` on:
    the entry at `i` is damped; if it is then off the board it is deleted
    and the walk moves on to position i + 1 of the shortened array, so the
    entry that moved into position `i` is not visited.
   */
  function Sweep<K>(cur: seq<(K, Body)>, i: nat, norm: Vec2 -> real): seq<(K, Body)>
    requires DivisibleNorm(norm)
    decreases |cur| - i
  {
    if i >= |cur| then cur
    else
      var t := Ticked(cur[i], norm);
      if Escaped(t.1) then Sweep(cur[..i] + cur[i + 1..], i + 1, norm)
      else Sweep(cur[i := t], i + 1, norm)
  }

  /** One step of the walk, at position `i`. */
  lemma SweepStep<K>(cur: seq<(K, Body)>, i: nat, norm: Vec2 -> real)
    requires DivisibleNorm(norm) && i < |cur|
    ensures var t := Ticked(cur[i], norm);
      Sweep(cur, i, norm) == if Escaped(t.1) then Sweep(cur[..i] + cur[i + 1..], i + 1, norm) else Sweep(cur[i := t], i + 1, norm)
  {
  }

  /**
    The same walk told along the list: `skip` says that the entry before
    was deleted, so this one is passed over, neither damped nor tested.
   */
  function Reference<K>(es: seq<(K, Body)>, skip: bool, norm: Vec2 -> real): seq<(K, Body)>
    requires DivisibleNorm(norm)
  {
    if es == [] then []
    else if skip then [es[0]] + Reference(es[1..], false, norm)
    else
      var t := Ticked(es[0], norm);
      if Escaped(t.1) then Reference(es[1..], true, norm)
      else [t] + Reference(es[1..], false, norm)
  }

  /**
    The evident intent of Player#update: damp every stone, then keep
    exactly those still on the board, in their order.
   */
  function Compact<K>(es: seq<(K, Body)>, norm: Vec2 -> real): (r: seq<(K, Body)>)
    requires DivisibleNorm(norm)
    ensures |r| <= |es|
    ensures forall j :: 0 <= j < |r| ==> !Escaped(r[j].1)
  {
    if es == [] then []
    else
      var t := Ticked(es[0], norm);
      (if Escaped(t.1) then [] else [t]) + Compact(es[1..], norm)
  }

  /**
    The index walk and the list walk agree: after a prefix `pre` has been
    walked (the last of it deleted exactly when `skip`), the walk leaves
    `pre` alone and processes the rest as Reference does.
   */
  lemma {:induction false} SweepIsReference<K>(pre: seq<(K, Body)>, rest: seq<(K, Body)>, skip: bool, norm: Vec2 -> real)
    requires DivisibleNorm(norm)
    ensures Sweep(pre + rest, |pre| + (if skip then 1 else 0), norm) == pre + Reference(rest, skip, norm)
    decreases |rest|, 1
  {
    if rest == [] {
      assert pre + rest == pre + [];
    } else if skip {
      PassOver(pre, rest, norm);
    } else {
      VisitFirst(pre, rest, norm);
    }
  }

  /** The entry after a deleted one is passed over: the walk starts behind it. */
  lemma {:induction false} PassOver<K>(pre: seq<(K, Body)>, rest: seq<(K, Body)>, norm: Vec2 -> real)
    requires DivisibleNorm(norm) && rest != []
    ensures Sweep(pre + rest, |pre| + 1, norm) == pre + Reference(rest, true, norm)
    decreases |rest|, 0
  {
    assert pre + rest == (pre + [rest[0]]) + rest[1..];
    SweepIsReference(pre + [rest[0]], rest[1..], false, norm);
    assert pre + Reference(rest, true, norm) == (pre + [rest[0]]) + Reference(rest[1..], false, norm);
  }

  /** The first entry of `rest` is damped, then deleted or kept. */
  lemma {:induction false} VisitFirst<K>(pre: seq<(K, Body)>, rest: seq<(K, Body)>, norm: Vec2 -> real)
    requires DivisibleNorm(norm) && rest != []
    ensures Sweep(pre + rest, |pre|, norm) == pre + Reference(rest, false, norm)
    decreases |rest|, 0
  {
    var cur, i := pre + rest, |pre|;
    assert cur[i] == rest[0];
    SweepStep(cur, i, norm);
    var t := Ticked(rest[0], norm);
    if Escaped(t.1) {
      assert cur[..i] + cur[i + 1..] == pre + rest[1..];
      SweepIsReference(pre, rest[1..], true, norm);
    } else {
      assert cur[i := t] == (pre + [t]) + rest[1..];
      SweepIsReference(pre + [t], rest[1..], false, norm);
      assert pre + Reference(rest, false, norm) == (pre + [t]) + Reference(rest[1..], false, norm);
    }
  }

  /** The whole of Player#update, as the list walk. */
  lemma SweepAll<K>(es: seq<(K, Body)>, norm: Vec2 -> real)
    requires DivisibleNorm(norm)
    ensures Sweep(es, 0, norm) == Reference(es, false, norm)
  {
    SweepIsReference([], es, false, norm);
    assert [] + es == es;
    assert [] + Reference(es, false, norm) == Reference(es, false, norm);
  }

  /**
    Entry `x` is what the walk makes of entry `j` of `es` when it keeps it:
    the damped entry, on the board, or the entry itself, untouched because
    the walk may have passed over it (the entry before it would be off the
    board once damped, or, at the start, `skip`).  Either way the stone and its position are the same.
   */
  ghost predicate Survivor<K>(x: (K, Body), es: seq<(K, Body)>, j: nat, skip: bool, norm: Vec2 -> real)
    requires DivisibleNorm(norm) && j < |es|
  {
    x.0 == es[j].0 && x.1.p == es[j].1.p &&
    ((x == Ticked(es[j], norm) && !Escaped(x.1)) ||
     (x == es[j] && (if j == 0 then skip else Escaped(Ticked(es[j - 1], norm).1))))
  }

  /**
    What survives the walk: every surviving entry is the survivor of some
    entry of the input.  The walk never adds an entry and never grows the
    array.
   */
  lemma {:induction false} ReferenceMembers<K>(es: seq<(K, Body)>, skip: bool, norm: Vec2 -> real)
    requires DivisibleNorm(norm)
    ensures |Reference(es, skip, norm)| <= |es|
    ensures forall x :: x in Reference(es, skip, norm) ==>
      exists j :: 0 <= j < |es| && Survivor(x, es, j, skip, norm)
    decreases |es|
  {
    if es != [] {
      var tail, next := es[1..], !skip && Escaped(Ticked(es[0], norm).1);
      ReferenceMembers(tail, next, norm);
      var r, rt := Reference(es, skip, norm), Reference(tail, next, norm);
      forall x | x in r
        ensures exists j :: 0 <= j < |es| && Survivor(x, es, j, skip, norm)
      {
        if x in rt {
          var j :| 0 <= j < |tail| && Survivor(x, tail, j, next, norm);
          assert tail[j] == es[j + 1];
          assert j > 0 ==> tail[j - 1] == es[j];
          assert Survivor(x, es, j + 1, skip, norm);
        } else {
          assert Survivor(x, es, 0, skip, norm);
        }
      }
    }
  }

  /** Player#update as written keeps only damped on-board stones and untouched stones whose predecessor would leave the board once damped. */
  lemma SweepSurvivors<K>(es: seq<(K, Body)>, norm: Vec2 -> real)
    requires DivisibleNorm(norm)
    ensures |Sweep(es, 0, norm)| <= |es|
    ensures forall x :: x in Sweep(es, 0, norm) ==>
      exists j :: 0 <= j < |es| && Survivor(x, es, j, false, norm)
  {
    SweepAll(es, norm);
    ReferenceMembers(es, false, norm);
  }

  /** The stones of the entries, in order. */
  function Keys<K>(es: seq<(K, Body)>): seq<K>
  {
    seq(|es|, j requires 0 <= j < |es| => es[j].0)
  }

  /** `xs` is `ys` with some elements left out, the rest in their order. */
  ghost predicate Subsequence<K>(xs: seq<K>, ys: seq<K>)
    decreases |ys|
  {
    if xs == [] then true
    else if ys == [] then false
    else (xs[0] == ys[0] && Subsequence(xs[1..], ys[1..])) || Subsequence(xs, ys[1..])
  }

  /** A subsequence has only elements of the whole, and is unique when the whole is. */
  lemma {:induction false} SubsequenceKeeps<K>(xs: seq<K>, ys: seq<K>)
    requires Subsequence(xs, ys)
    ensures forall x :: x in xs ==> x in ys
    ensures Unique(ys) ==> Unique(xs)
    decreases |ys|
  {
    if xs != [] {
      assert Unique(ys) ==> Unique(ys[1..]) by {
        if Unique(ys) {
          forall a, b | 0 <= a < b < |ys[1..]| ensures ys[1..][a] != ys[1..][b] {
            assert ys[1..][a] == ys[a + 1] && ys[1..][b] == ys[b + 1];
          }
        }
      }
      if xs[0] == ys[0] && Subsequence(xs[1..], ys[1..]) {
        SubsequenceKeeps(xs[1..], ys[1..]);
        forall x | x in xs ensures x in ys {
          if x != xs[0] {
            assert x in xs[1..];
          }
        }
        if Unique(ys) {
          assert ys[0] !in ys[1..];
          forall a, b | 0 <= a < b < |xs| ensures xs[a] != xs[b] {
            assert xs[b] == xs[1..][b - 1] && xs[b] in xs[1..];
            if a > 0 {
              assert xs[a] == xs[1..][a - 1];
            }
          }
        }
      } else {
        SubsequenceKeeps(xs, ys[1..]);
      }
    }
  }

  /** The list walk keeps the surviving stones in their order. */
  lemma {:induction false} ReferenceOrder<K>(es: seq<(K, Body)>, skip: bool, norm: Vec2 -> real)
    requires DivisibleNorm(norm)
    ensures Subsequence(Keys(Reference(es, skip, norm)), Keys(es))
    decreases |es|
  {
    if es != [] {
      var next := !skip && Escaped(Ticked(es[0], norm).1);
      ReferenceOrder(es[1..], next, norm);
      var r, rt := Reference(es, skip, norm), Reference(es[1..], next, norm);
      assert Keys(es)[1..] == Keys(es[1..]);
      if r != rt {
        assert r == [r[0]] + rt;
        assert Keys(r)[1..] == Keys(rt);
      }
    }
  }

  /** Player#update as written keeps the surviving stones in their order. */
  lemma SweepOrder<K>(es: seq<(K, Body)>, norm: Vec2 -> real)
    requires DivisibleNorm(norm)
    ensures Subsequence(Keys(Sweep(es, 0, norm)), Keys(es))
  {
    SweepAll(es, norm);
    ReferenceOrder(es, false, norm);
  }

  /** The intended update keeps the surviving stones in their order. */
  lemma {:induction false} CompactOrder<K>(es: seq<(K, Body)>, norm: Vec2 -> real)
    requires DivisibleNorm(norm)
    ensures Subsequence(Keys(Compact(es, norm)), Keys(es))
    decreases |es|
  {
    if es != [] {
      CompactOrder(es[1..], norm);
      var r, rt := Compact(es, norm), Compact(es[1..], norm);
      assert Keys(es)[1..] == Keys(es[1..]);
      if r != rt {
        assert r == [r[0]] + rt;
        assert Keys(r)[1..] == Keys(rt);
      }
    }
  }

  /** The walk keeps keys apart: no stone ends up twice in the array. */
  lemma ReferenceDistinct<K>(es: seq<(K, Body)>, skip: bool, norm: Vec2 -> real)
    requires DivisibleNorm(norm) && Unique(Keys(es))
    ensures Unique(Keys(Reference(es, skip, norm)))
    ensures forall x :: x in Reference(es, skip, norm) ==> exists j :: 0 <= j < |es| && x.0 == es[j].0
  {
    var r := Reference(es, skip, norm);
    ReferenceOrder(es, skip, norm);
    SubsequenceKeeps(Keys(r), Keys(es));
    forall x | x in r ensures exists j :: 0 <= j < |es| && x.0 == es[j].0 {
      var a :| 0 <= a < |r| && r[a] == x;
      assert Keys(r)[a] in Keys(es);
    }
  }

  /** Player#update as written never duplicates a stone and keeps only stones it had. */
  lemma SweepDistinct<K>(es: seq<(K, Body)>, norm: Vec2 -> real)
    requires DivisibleNorm(norm) && Unique(Keys(es))
    ensures Unique(Keys(Sweep(es, 0, norm)))
    ensures forall x :: x in Sweep(es, 0, norm) ==> exists j :: 0 <= j < |es| && x.0 == es[j].0
  {
    SweepAll(es, norm);
    ReferenceDistinct(es, false, norm);
  }

  /** Entry `x` is entry `j` of `es` damped, and on the board. */
  ghost predicate Kept<K>(x: (K, Body), es: seq<(K, Body)>, j: nat, norm: Vec2 -> real)
    requires DivisibleNorm(norm) && j < |es|
  {
    x == Ticked(es[j], norm) && !Escaped(x.1)
  }

  /** The intended update keeps exactly the damped stones that are on the board. */
  lemma {:induction false} CompactMembers<K>(es: seq<(K, Body)>, norm: Vec2 -> real)
    requires DivisibleNorm(norm)
    ensures forall x :: x in Compact(es, norm) <==> exists j :: 0 <= j < |es| && Kept(x, es, j, norm)
    decreases |es|
  {
    if es != [] {
      var tail := es[1..];
      CompactMembers(tail, norm);
      var t := Ticked(es[0], norm);
      var h := if Escaped(t.1) then [] else [t];
      assert Compact(es, norm) == h + Compact(tail, norm);
      forall x
        ensures x in Compact(es, norm) <==> exists j :: 0 <= j < |es| && Kept(x, es, j, norm)
      {
        if x in h {
          assert Kept(x, es, 0, norm);
        } else if x in Compact(tail, norm) {
          var j :| 0 <= j < |tail| && Kept(x, tail, j, norm);
          assert tail[j] == es[j + 1];
          assert Kept(x, es, j + 1, norm);
        } else {
          forall j | 0 <= j < |es| ensures !Kept(x, es, j, norm) {
            if j > 0 {
              assert tail[j - 1] == es[j];
              assert !Kept(x, tail, j - 1, norm);
            }
          }
        }
      }
    }
  }

  /** When no stone leaves the board, the walk as written and the intended update agree. */
  lemma {:induction false} SweepAgreesWhenNoneLeave<K>(es: seq<(K, Body)>, norm: Vec2 -> real)
    requires DivisibleNorm(norm)
    requires forall j :: 0 <= j < |es| ==> !Escaped(Ticked(es[j], norm).1)
    ensures Reference(es, false, norm) == Compact(es, norm)
    decreases |es|
  {
    if es != [] {
      assert !Escaped(Ticked(es[0], norm).1);
      forall j | 0 <= j < |es[1..]| ensures !Escaped(Ticked(es[1..][j], norm).1) {
        assert es[1..][j] == es[j + 1];
      }
      SweepAgreesWhenNoneLeave(es[1..], norm);
    }
  }

  /**
    The walk as written can leave a stone off the board in play: when two
    neighbouring stones are both off the board, the second one survives the
    update, while the intended update removes both.
   */
  lemma SweepSkipsSuccessor(norm: Vec2 -> real)
    requires DivisibleNorm(norm)
    ensures var gone := Body(Vec2(800.0, 100.0), ZERO, 0.0);
      Escaped(gone) &&
      Sweep([(1, gone), (2, gone)], 0, norm) == [(2, gone)] &&
      Compact([(1, gone), (2, gone)], norm) == []
  {
    var gone := Body(Vec2(800.0, 100.0), ZERO, 0.0);
    TickAtRest(gone, norm(gone.v));
    var es: seq<(int, Body)> := [(1, gone), (2, gone)];
    assert Ticked(es[0], norm) == es[0];
    assert Ticked(es[1], norm) == es[1];
    SweepAll(es, norm);
    assert es[1..] == [es[1]] && |es[1..][1..]| == 0;
    assert Reference(es, false, norm) == Reference([es[1]], true, norm);
    assert Compact(es, norm) == Compact([es[1]], norm);
  }
}
