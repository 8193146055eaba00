/** When one pass over the connections binds all ports: a condition on where the two directions of each connection
    stand in the visiting order. */
module BindPositions {
  import opened PortBinder

  /** The place of a connection; the length of the list if it is not there. */
  function Position(order: seq<Connection>, c: Connection): (k: nat)
    ensures k <= |order| && (k < |order| ==> order[k] == c) && (c in order ==> k < |order|)
  {
    if order == [] then 0
    else
      var k := Position(order[..|order| - 1], c);
      if k < |order| - 1 then k else if order[|order| - 1] == c then |order| - 1 else |order|
  }

  /** Where the other direction of the connection at place `i` stands. */
  function Twin(order: seq<Connection>, i: nat): nat
    requires i < |order|
  {
    Position(order, Swap(order[i]))
  }

  /** Of the two places of a connection, `i` is the first. */
  predicate IsFirst(order: seq<Connection>, i: nat)
    requires i < |order|
  {
    i < Twin(order, i) < |order|
  }

  function Below(p: Port): Port
    requires p.index > 0
  {
    p.(index := p.index - 1)
  }

  /** Connection `d` uses the index just below one that `c` uses, so it must be made first. */
  ghost predicate Needs(c: Connection, d: Connection) {
    || (c.left.index > 0 && HasPort(d, Below(c.left)))
    || (c.right.index > 0 && HasPort(d, Below(c.right)))
  }

  /** The connection with first place `i` cannot be made there: one it needs does not come before, or
      cannot be made at its own first place and has the second one behind `i`. */
  ghost predicate Forced(order: seq<Connection>, i: nat)
    requires i < |order|
    decreases i
  {
    exists j :: 0 <= j < |order| && IsFirst(order, j) && Needs(order[i], order[j])
                && (j >= i || (j < i && Twin(order, j) >= i && Forced(order, j)))
  }

  /** Nor can it be made at its second place. */
  ghost predicate Stuck(order: seq<Connection>, i: nat)
    requires i < |order|
  {
    exists j :: 0 <= j < |order| && IsFirst(order, j) && Needs(order[i], order[j])
                && (j >= Twin(order, i) || (Twin(order, j) >= Twin(order, i) && Forced(order, j)))
  }

  ghost predicate Listed(order: seq<Connection>, p: Port) {
    exists d :: d in order && HasPort(d, p)
  }

  /** Every listed index has the one below it listed. */
  ghost predicate NoGaps(order: seq<Connection>) {
    forall c :: c in order && c.left.index > 0 ==> Listed(order, Below(c.left))
  }

  ghost predicate NoneStuck(order: seq<Connection>) {
    forall i :: 0 <= i < |order| && IsFirst(order, i) ==> !Stuck(order, i)
  }

  // ---------- places ----------

  lemma TwinIs(order: seq<Connection>, i: nat)
    requires WellFormed(order) && i < |order|
    ensures Twin(order, i) < |order| && order[Twin(order, i)] == Swap(order[i])
    ensures Twin(order, i) != i && Twin(order, Twin(order, i)) == i
  {
    assert order[i] in order;
    var t := Twin(order, i);
    assert order[t] == Swap(order[i]) && order[t] in order && Swap(order[t]) == order[i];
    var u := Twin(order, t);
    assert order[u] == order[i];
    assert order[i].left != order[i].right;
  }

  /** The first place of the connection at `k`. */
  function FirstOf(order: seq<Connection>, k: nat): nat
    requires k < |order|
  {
    if k <= Twin(order, k) then k else Twin(order, k)
  }

  lemma FirstOfIs(order: seq<Connection>, k: nat)
    requires WellFormed(order) && k < |order|
    ensures var f := FirstOf(order, k);
            f < |order| && IsFirst(order, f) && (k == f || k == Twin(order, f)) && (order[k] == order[f] || order[k] == Swap(order[f]))
  {
    TwinIs(order, k);
  }

  /** Only the two places of a connection hold it. */
  lemma TwoPlaces(order: seq<Connection>, i: nat, k: nat)
    requires WellFormed(order) && i < |order| && k < |order| && (order[k] == order[i] || order[k] == Swap(order[i]))
    ensures k == i || k == Twin(order, i)
  {
    TwinIs(order, i);
  }

  lemma NeedsEither(c: Connection, d: Connection)
    ensures Needs(c, d) == Needs(Swap(c), d) == Needs(c, Swap(d))
  {
  }

  // ---------- what is made when ----------

  ghost predicate MadeAt(order: seq<Connection>, p: nat)
    requires p < |order|
  {
    Bindable(Greedy(order[..p]), order[p])
  }

  /** One direction of the connection is among `made`. */
  predicate Done(made: seq<Connection>, c: Connection) { c in made || Swap(c) in made }

  lemma {:induction false} MadeSomewhere(order: seq<Connection>, k: nat, c: Connection) returns (p: nat)
    requires k <= |order| && c in Greedy(order[..k])
    ensures p < k && order[p] == c && MadeAt(order, p)
  {
    GreedyStep(order, k - 1, Greedy(order[..k - 1]));
    if c in Greedy(order[..k - 1]) {
      p := MadeSomewhere(order, k - 1, c);
    } else {
      p := k - 1;
    }
  }

  /** A port of an unmade connection is next in line exactly when the index below it is bound. */
  lemma PortIsNext(order: seq<Connection>, made: seq<Connection>, c: Connection, p: Port)
    requires WellFormed(order) && PortsPaired(order) && c in order && HasPort(c, p)
    requires Valid(made) && (forall d :: d in made ==> d in order) && !Done(made, c)
    requires p.index > 0 ==> Listed(order, Below(p))
    requires forall d :: d in order && p.index > 0 && HasPort(d, Below(p)) ==> Done(made, d)
    ensures Count(made, NameOf(p)) == p.index
  {
    if p.index > 0 {
      var d :| d in order && HasPort(d, Below(p));
      var m := IndexOfEither(made, d);
      MadeIsPassed(made, m, Below(p));
    }
    if Count(made, NameOf(p)) > p.index {
      assert NoSelfConnection(made);
      var m := PassedWasMade(made, p);
      assert made[m] in order && SharePort(made[m], c);
      assert false;
    }
  }

  /** What a connection needs is made before it. */
  lemma NeededIsDone(order: seq<Connection>, made: seq<Connection>, c: Connection, d: Connection)
    requires WellFormed(order) && PortsPaired(order) && d in order && Needs(c, d)
    requires Valid(made) && (forall e :: e in made ==> e in order) && Bindable(made, c)
    ensures Done(made, d)
  {
    assert NoSelfConnection(made);
    var p := if c.left.index > 0 && HasPort(d, Below(c.left)) then Below(c.left) else Below(c.right);
    var m := PassedWasMade(made, p);
    assert made[m] in order && SharePort(made[m], d);
  }

  lemma NotTwice(made: seq<Connection>, c: Connection)
    requires Valid(made) && Bindable(made, c)
    ensures !Done(made, c)
  {
    if Done(made, c) {
      var m := IndexOfEither(made, c);
      MadeIsPassed(made, m, c.left);
    }
  }

  // ---------- the condition suffices ----------

  /** When a connection is made, if it is: at its second place if it is forced there, else at its first. */
  ghost function BindTime(order: seq<Connection>, i: nat): nat
    requires i < |order|
  {
    if Forced(order, i) then Twin(order, i) else i
  }

  /** Something the connection at `i` needs is not made before `t`. */
  ghost predicate Late(order: seq<Connection>, i: nat, t: nat)
    requires i < |order|
  {
    exists j :: 0 <= j < |order| && IsFirst(order, j) && Needs(order[i], order[j]) && BindTime(order, j) >= t
  }

  lemma ForcedIsLate(order: seq<Connection>, i: nat)
    requires i < |order|
    ensures Forced(order, i) <==> Late(order, i, i)
    ensures Stuck(order, i) <==> Late(order, i, Twin(order, i))
  {
  }

  /** In the first `k` steps exactly those are made whose time has come. */
  ghost predicate OnTime(order: seq<Connection>, k: nat)
    requires k <= |order|
  {
    forall i :: 0 <= i < |order| && IsFirst(order, i) ==> (Done(Greedy(order[..k]), order[i]) <==> BindTime(order, i) < k)
  }

  ghost predicate Fits(order: seq<Connection>) {
    WellFormed(order) && PortsPaired(order) && NoGaps(order)
  }

  /** Whether the connection at `k` is made there depends on the times of what it needs. */
  lemma BindableIff(order: seq<Connection>, k: nat)
    requires Fits(order) && k < |order| && OnTime(order, k)
    ensures MadeAt(order, k) <==> BindTime(order, FirstOf(order, k)) >= k && !Late(order, FirstOf(order, k), k)
  {
    var f, made, c := FirstOf(order, k), Greedy(order[..k]), order[k];
    FirstOfIs(order, k);
    MadeFromList(order, k);
    if MadeAt(order, k) {
      NotTwice(made, c);
      forall j | 0 <= j < |order| && IsFirst(order, j) && Needs(order[f], order[j]) ensures BindTime(order, j) < k {
        NeedsEither(order[f], order[j]);
        NeededIsDone(order, made, c, order[j]);
      }
    }
    if BindTime(order, f) >= k && !Late(order, f, k) {
      forall d | d in order && Needs(c, d) ensures Done(made, d) { NeededInTime(order, k, d); }
      BothAreNext(order, made, c);
    }
  }

  lemma MadeFromList(order: seq<Connection>, k: nat)
    requires k <= |order|
    ensures Valid(Greedy(order[..k])) && forall d :: d in Greedy(order[..k]) ==> d in order
  {
    GreedyIsValid(order[..k]);
  }

  lemma NeededInTime(order: seq<Connection>, k: nat, d: Connection)
    requires WellFormed(order) && k < |order| && OnTime(order, k)
    requires d in order && Needs(order[k], d) && !Late(order, FirstOf(order, k), k)
    ensures Done(Greedy(order[..k]), d)
  {
    var f, p := FirstOf(order, k), Position(order, d);
    var j := FirstOf(order, p);
    FirstOfIs(order, k);
    FirstOfIs(order, p);
    NeedsEither(order[f], order[j]);
    NeedsEither(order[k], order[j]);
    assert Needs(order[f], order[j]) && BindTime(order, j) < k;
  }

  lemma BothAreNext(order: seq<Connection>, made: seq<Connection>, c: Connection)
    requires Fits(order) && c in order && !Done(made, c)
    requires Valid(made) && (forall d :: d in made ==> d in order)
    requires forall d :: d in order && Needs(c, d) ==> Done(made, d)
    ensures Bindable(made, c)
  {
    assert Swap(c) in order;
    PortIsNext(order, made, c, c.left);
    PortIsNext(order, made, c, c.right);
  }

  lemma {:induction false} AllOnTime(order: seq<Connection>, k: nat)
    requires Fits(order) && NoneStuck(order) && k <= |order|
    ensures OnTime(order, k)
  {
    if k == 0 {
      assert order[..0] == [];
    } else {
      AllOnTime(order, k - 1);
      MadeWhenDue(order, k - 1);
      forall i | 0 <= i < |order| && IsFirst(order, i)
        ensures Done(Greedy(order[..k]), order[i]) <==> BindTime(order, i) < k
      {
        OneMoreStep(order, k - 1, i);
      }
    }
  }

  lemma MadeWhenDue(order: seq<Connection>, k: nat)
    requires Fits(order) && NoneStuck(order) && k < |order| && OnTime(order, k)
    ensures MadeAt(order, k) <==> BindTime(order, FirstOf(order, k)) == k
  {
    var f := FirstOf(order, k);
    FirstOfIs(order, k);
    BindableIff(order, k);
    ForcedIsLate(order, f);
  }

  lemma OneMoreStep(order: seq<Connection>, k: nat, i: nat)
    requires WellFormed(order) && k < |order| && i < |order| && IsFirst(order, i)
    requires Done(Greedy(order[..k]), order[i]) <==> BindTime(order, i) < k
    requires MadeAt(order, k) <==> BindTime(order, FirstOf(order, k)) == k
    ensures Done(Greedy(order[..k + 1]), order[i]) <==> BindTime(order, i) < k + 1
  {
    var made := Greedy(order[..k]);
    GreedyStep(order, k, made);
    TwinIs(order, i);
    if order[k] == order[i] || order[k] == Swap(order[i]) {
      TwoPlaces(order, i, k);
      assert FirstOf(order, k) == i;
    } else {
      assert Done(made + [order[k]], order[i]) <==> Done(made, order[i]);
    }
  }

  /** If every connection is made in some direction, half of the list is made. */
  lemma AllDoneIsHalf(order: seq<Connection>, made: seq<Connection>)
    requires WellFormed(order) && Valid(made) && forall d :: d in made ==> d in order
    requires forall c :: c in order ==> Done(made, c)
    ensures 2 * |made| == |order|
  {
    assert NoSelfConnection(made);
    ValidIsHalf(order, made);
    DoubledCount(made);
    DistinctCount(order);
    var all, both := (set c | c in order), (set c | c in made) + Backward(made);
    forall c | c in all ensures c in both { InBackward(made, c); }
    Subset(all, both);
  }

  lemma PositionsSuffice(order: seq<Connection>)
    requires Fits(order) && NoneStuck(order)
    ensures 2 * |Greedy(order)| == |order|
  {
    AllOnTime(order, |order|);
    assert order[..|order|] == order;
    GreedyIsValid(order);
    forall c | c in order ensures Done(Greedy(order), c) {
      var k := Position(order, c);
      FirstOfIs(order, k);
      TwinIs(order, FirstOf(order, k));
    }
    AllDoneIsHalf(order, Greedy(order));
  }

  // ---------- the condition is necessary ----------

  /** The place at which a needed connection was made, before the one that needs it. */
  lemma NeededEarlier(order: seq<Connection>, p: nat, j: nat) returns (q: nat)
    requires WellFormed(order) && PortsPaired(order) && p < |order| && j < |order| && MadeAt(order, p)
    requires Needs(order[p], order[j])
    ensures q < p && (q == j || q == Twin(order, j)) && MadeAt(order, q)
  {
    MadeFromList(order, p);
    NeededIsDone(order, Greedy(order[..p]), order[p], order[j]);
    if order[j] in Greedy(order[..p]) {
      q := MadeSomewhere(order, p, order[j]);
    } else {
      q := MadeSomewhere(order, p, Swap(order[j]));
    }
    TwoPlaces(order, j, q);
  }

  /** A forced connection is not made at its first place. */
  lemma {:induction false} ForcedIsLater(order: seq<Connection>, i: nat, p: nat)
    requires WellFormed(order) && PortsPaired(order) && i < |order| && IsFirst(order, i) && Forced(order, i)
    requires (p == i || p == Twin(order, i)) && p < |order| && MadeAt(order, p)
    ensures p == Twin(order, i)
    decreases i
  {
    if p == i {
      var j :| 0 <= j < |order| && IsFirst(order, j) && Needs(order[i], order[j])
               && (j >= i || (j < i && Twin(order, j) >= i && Forced(order, j)));
      var q := NeededEarlier(order, i, j);
      if j < i { ForcedIsLater(order, j, q); }
      assert false;
    }
  }

  lemma MadeIsNotStuck(order: seq<Connection>, i: nat, p: nat)
    requires WellFormed(order) && PortsPaired(order) && i < |order| && IsFirst(order, i)
    requires (p == i || p == Twin(order, i)) && p < |order| && MadeAt(order, p)
    ensures !Stuck(order, i)
  {
    if Stuck(order, i) {
      var j :| 0 <= j < |order| && IsFirst(order, j) && Needs(order[i], order[j])
               && (j >= Twin(order, i) || (Twin(order, j) >= Twin(order, i) && Forced(order, j)));
      TwinIs(order, i);
      NeedsEither(order[i], order[j]);
      var q := NeededEarlier(order, p, j);
      if j < Twin(order, i) { ForcedIsLater(order, j, q); }
      assert false;
    }
  }

  lemma PositionsAreNeeded(order: seq<Connection>)
    requires WellFormed(order) && 2 * |Greedy(order)| == |order|
    ensures PortsPaired(order) && NoGaps(order) && NoneStuck(order)
  {
    var made := Greedy(order);
    GreedyIsValid(order);
    SuccessMeansMatching(order, made);
    HalfIsEverything(order, made);
    assert NoSelfConnection(made);
    forall c | c in order && c.left.index > 0 ensures Listed(order, Below(c.left)) {
      SuccessBindsAllIndices(order, made, c);
      var m := PassedWasMade(made, Below(c.left));
      assert made[m] in order;
    }
    assert order[..|order|] == order;
    forall i | 0 <= i < |order| && IsFirst(order, i) ensures !Stuck(order, i) {
      assert order[i] in order;
      var p: nat;
      if order[i] in made {
        p := MadeSomewhere(order, |order|, order[i]);
      } else {
        p := MadeSomewhere(order, |order|, Swap(order[i]));
      }
      TwoPlaces(order, i, p);
      MadeIsNotStuck(order, i, p);
    }
  }

  /**
    * One pass binds everything if and only if the list pairs the ports, skips no index, and no connection has both
    * its places before what it needs can be made.
    */
  lemma BindsIffPositions(order: seq<Connection>)
    requires WellFormed(order)
    ensures 2 * |Greedy(order)| == |order| <==> PortsPaired(order) && NoGaps(order) && NoneStuck(order)
  {
    if 2 * |Greedy(order)| == |order| {
      PositionsAreNeeded(order);
    }
    if PortsPaired(order) && NoGaps(order) && NoneStuck(order) {
      PositionsSuffice(order);
    }
  }
}
