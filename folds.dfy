/** An optional value: `None` stands for Python's `None` (no move chosen). */
module Wrappers {
  datatype Option<T> = None | Some(value: T)
}

/**
 * Running maxima, minima and sums over a list of values, folded left to right
 * from the sentinel starts the search code uses (-999999 for a maximum,
 * 999999 for a minimum, 0 for a sum).
 */
module Folds {
  import opened Wrappers

  /** The sentinel the search code uses as minus infinity. */
  const Bottom: real := -999999.0
  /** The sentinel the search code uses as plus infinity. */
  const Top: real := 999999.0

  function MaxReal(x: real, y: real): real { if x >= y then x else y }
  function MinReal(x: real, y: real): real { if x <= y then x else y }

  /** max(-999999, vals...): the value a running maximum started at Bottom ends with. */
  function MaxFold(vals: seq<real>): (m: real)
    ensures Bottom <= m
    ensures forall j :: 0 <= j < |vals| ==> vals[j] <= m
    ensures m == Bottom || exists j :: 0 <= j < |vals| && vals[j] == m
  {
    if vals == [] then Bottom
    else MaxReal(MaxFold(vals[..|vals| - 1]), vals[|vals| - 1])
  }

  /** min(999999, vals...): the value a running minimum started at Top ends with. */
  function MinFold(vals: seq<real>): (m: real)
    ensures m <= Top
    ensures forall j :: 0 <= j < |vals| ==> m <= vals[j]
    ensures m == Top || exists j :: 0 <= j < |vals| && vals[j] == m
  {
    if vals == [] then Top
    else MinReal(MinFold(vals[..|vals| - 1]), vals[|vals| - 1])
  }

  /** Extending a list can only raise its running maximum. */
  lemma {:induction false} MaxFoldPrefix(vals: seq<real>, i: nat)
    requires i <= |vals|
    ensures MaxFold(vals[..i]) <= MaxFold(vals)
  {
    var m := MaxFold(vals[..i]);
    if m != Bottom {
      var j :| 0 <= j < i && vals[..i][j] == m;
      assert vals[j] == m;
    }
  }

  /** Extending a list can only lower its running minimum. */
  lemma {:induction false} MinFoldPrefix(vals: seq<real>, i: nat)
    requires i <= |vals|
    ensures MinFold(vals) <= MinFold(vals[..i])
  {
    var m := MinFold(vals[..i]);
    if m != Top {
      var j :| 0 <= j < i && vals[..i][j] == m;
      assert vals[j] == m;
    }
  }

  /** The running maximum over one more value. */
  lemma MaxFoldSnoc(vals: seq<real>, i: nat)
    requires i < |vals|
    ensures MaxFold(vals[..i + 1]) == MaxReal(MaxFold(vals[..i]), vals[i])
  {
    assert vals[..i + 1][..i] == vals[..i];
  }

  /** The running minimum over one more value. */
  lemma MinFoldSnoc(vals: seq<real>, i: nat)
    requires i < |vals|
    ensures MinFold(vals[..i + 1]) == MinReal(MinFold(vals[..i]), vals[i])
  {
    assert vals[..i + 1][..i] == vals[..i];
  }

  /** The running sum over one more value. */
  lemma SumSnoc(vals: seq<real>, i: nat)
    requires i < |vals|
    ensures Sum(vals[..i + 1]) == Sum(vals[..i]) + vals[i]
  {
    assert vals[..i + 1][..i] == vals[..i];
  }

  function Sum(vals: seq<real>): real {
    if vals == [] then 0.0 else Sum(vals[..|vals| - 1]) + vals[|vals| - 1]
  }

  /** The sum of n values lies between n times their least and n times their greatest. */
  lemma {:induction false} SumBounds(vals: seq<real>, lo: real, hi: real)
    requires forall j :: 0 <= j < |vals| ==> lo <= vals[j] <= hi
    ensures |vals| as real * lo <= Sum(vals) <= |vals| as real * hi
  {
    if vals != [] {
      SumBounds(vals[..|vals| - 1], lo, hi);
    }
  }

  /** The running best and the index it came from, as a loop with a strict `>` keeps them. */
  datatype Choice = Choice(best: real, index: Option<nat>)

  /**
   * Left to right, starting from (Bottom, None): a value replaces the running best
   * only when it is strictly greater, so the earliest of equal values wins.
   */
  function FirstBest(vals: seq<real>): Choice {
    if vals == [] then Choice(Bottom, None)
    else
      var c := FirstBest(vals[..|vals| - 1]);
      if vals[|vals| - 1] > c.best then Choice(vals[|vals| - 1], Some(|vals| - 1)) else c
  }

  /** The move at an optional index. */
  function ActionAt<A>(acts: seq<A>, index: Option<nat>): Option<A> {
    match index
    case None => None
    case Some(k) => if k < |acts| then Some(acts[k]) else None
  }

  /**
   * The strict-`>` scan picks the first index holding the greatest value, unless
   * no value rises above the Bottom sentinel, in which case it picks nothing.
   */
  lemma {:induction false} FirstBestIsFirstMaximum(vals: seq<real>)
    ensures FirstBest(vals).best == MaxFold(vals)
    ensures FirstBest(vals).index.None? <==> forall j :: 0 <= j < |vals| ==> vals[j] <= Bottom
    ensures FirstBest(vals).index.Some? ==>
      var k := FirstBest(vals).index.value;
      k < |vals| && vals[k] == MaxFold(vals) && Bottom < vals[k] &&
      forall j :: 0 <= j < k ==> vals[j] < vals[k]
  {
    if vals != [] {
      var init := vals[..|vals| - 1];
      FirstBestIsFirstMaximum(init);
      assert forall j :: 0 <= j < |init| ==> init[j] == vals[j];
    }
  }
}
