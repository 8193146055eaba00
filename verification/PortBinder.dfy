/** Binding the ports of a configuration: every connection is listed in both
    directions, and a port's connections must be made in index order. */
module PortBinder {

  datatype Port = Port(object_: string, name: string, index: nat)

  /** A port without its index. */
  datatype PortName = PortName(object_: string, name: string)

  datatype Connection = Connection(left: Port, right: Port)

  function NameOf(p: Port): PortName { PortName(p.object_, p.name) }

  function Swap(c: Connection): Connection { Connection(c.right, c.left) }

  function Uses(c: Connection, n: PortName): nat {
    (if NameOf(c.left) == n then 1 else 0) + (if NameOf(c.right) == n then 1 else 0)
  }

  /** How many connections to the named port have been made. */
  function Count(made: seq<Connection>, n: PortName): nat {
    if made == [] then 0 else Count(made[..|made| - 1], n) + Uses(made[|made| - 1], n)
  }

  predicate Bindable(made: seq<Connection>, c: Connection) {
    Count(made, NameOf(c.left)) == c.left.index && Count(made, NameOf(c.right)) == c.right.index
  }

  /** One pass over the connections that makes whatever can be made at once. */
  function Greedy(order: seq<Connection>): seq<Connection> {
    if order == [] then []
    else
      var made, c := Greedy(order[..|order| - 1]), order[|order| - 1];
      if Bindable(made, c) then made + [c] else made
  }

  // ---------- the method ----------

  datatype BindResult = Bound(made: seq<Connection>) | CannotOrder | MissingPort(name: PortName)

  ghost predicate Tracks(bindIndices: map<PortName, nat>, made: seq<Connection>) {
    forall n :: n in bindIndices ==> bindIndices[n] == Count(made, n)
  }

  /** The name is the left side of some connection. */
  ghost predicate IsLeft(connections: seq<Connection>, n: PortName) {
    exists c :: c in connections && NameOf(c.left) == n
  }

  /** The connection at place `k` is looked at although its right port is not known: its left one is next in line. */
  ghost predicate Misses(connections: seq<Connection>, order: seq<Connection>, k: int) {
    && 0 <= k < |order| && !IsLeft(connections, NameOf(order[k].right))
    && Count(Greedy(order[..k]), NameOf(order[k].left)) == order[k].left.index
  }

  method BindPorts(connections: seq<Connection>, order: seq<Connection>) returns (r: BindResult)
    requires multiset(order) == multiset(connections)
    ensures r.MissingPort? <==> exists k :: Misses(connections, order, k)
    ensures r.MissingPort? ==>
              exists k :: Misses(connections, order, k) && r.name == NameOf(order[k].right)
                          && forall j :: 0 <= j < k ==> !Misses(connections, order, j)
    ensures !r.MissingPort? ==>
              r == if 2 * |Greedy(order)| == |connections| then Bound(Greedy(order)) else CannotOrder
  {
    var bindIndices := MarkPorts(connections);
    var made: seq<Connection> := [];
    for i := 0 to |order|
      invariant (forall n :: n in bindIndices <==> IsLeft(connections, n)) && Tracks(bindIndices, made)
      invariant made == Greedy(order[..i])
      invariant forall j :: 0 <= j < i ==> !Misses(connections, order, j)
    {
      var c := order[i];
      var from_, to_ := NameOf(c.left), NameOf(c.right);
      assert Greedy(order[..i + 1]) == if Bindable(made, c) then made + [c] else made by { GreedyStep(order, i, made); }
      assert from_ in bindIndices by { FromIsLeft(connections, order, i); }
      if bindIndices[from_] == c.left.index {
        if to_ !in bindIndices {
          assert Misses(connections, order, i);
          return MissingPort(to_);
        }
        if bindIndices[to_] == c.right.index {
          CountNext(made, c);
          made := made + [c];
          bindIndices := bindIndices[from_ := bindIndices[from_] + 1];
          bindIndices := bindIndices[to_ := bindIndices[to_] + 1];
        }
      }
    }
    assert order[..|order|] == order;
    assert |order| == |connections| by { SameLength(order, connections); }
    if |made| * 2 != |connections| {
      return CannotOrder;
    }
    return Bound(made);
  }

  /** A counter for every port on a left side. */
  method MarkPorts(connections: seq<Connection>) returns (bindIndices: map<PortName, nat>)
    ensures forall n :: n in bindIndices <==> IsLeft(connections, n)
    ensures forall n :: n in bindIndices ==> bindIndices[n] == 0
  {
    bindIndices := map[];
    for i := 0 to |connections|
      invariant forall n :: n in bindIndices <==> IsLeft(connections[..i], n)
      invariant forall n :: n in bindIndices ==> bindIndices[n] == 0
    {
      forall n ensures IsLeft(connections[..i + 1], n) <==> IsLeft(connections[..i], n) || n == NameOf(connections[i].left) {
        assert connections[..i + 1] == connections[..i] + [connections[i]];
        assert connections[i] in connections[..i + 1];
      }
      bindIndices := bindIndices[NameOf(connections[i].left) := 0];
    }
    assert connections[..|connections|] == connections;
  }

  lemma FromIsLeft(connections: seq<Connection>, order: seq<Connection>, i: nat)
    requires multiset(order) == multiset(connections) && i < |order|
    ensures IsLeft(connections, NameOf(order[i].left))
  {
    assert order[i] in multiset(order);
    assert order[i] in connections;
  }

  lemma CountNext(made: seq<Connection>, c: Connection)
    ensures forall n :: Count(made + [c], n) == Count(made, n) + Uses(c, n)
  {
    assert (made + [c])[..|made|] == made;
  }

  lemma SameLength(a: seq<Connection>, b: seq<Connection>)
    requires multiset(a) == multiset(b)
    ensures |a| == |b|
  {
    assert |multiset(a)| == |a| && |multiset(b)| == |b|;
  }

  // ---------- sequences of connections that respect the indices ----------

  /** Every connection can be made at its place. */
  ghost predicate Valid(made: seq<Connection>) {
    forall m :: 0 <= m < |made| ==> Bindable(made[..m], made[m])
  }

  lemma ValidFront(made: seq<Connection>, k: nat)
    requires Valid(made) && k <= |made|
    ensures Valid(made[..k])
  {
    forall m | 0 <= m < k ensures Bindable(made[..k][..m], made[..k][m]) {
      assert made[..k][..m] == made[..m];
    }
  }

  lemma ValidNext(made: seq<Connection>, c: Connection)
    requires Valid(made) && Bindable(made, c)
    ensures Valid(made + [c])
  {
    var s := made + [c];
    forall m | 0 <= m < |s| ensures Bindable(s[..m], s[m]) {
      assert s[..m] == made[..m];
    }
  }

  lemma {:induction false} GreedyIsValid(order: seq<Connection>)
    ensures Valid(Greedy(order))
    ensures forall c :: c in Greedy(order) ==> c in order
  {
    if order != [] {
      var front, c := order[..|order| - 1], order[|order| - 1];
      GreedyIsValid(front);
      if Bindable(Greedy(front), c) { ValidNext(Greedy(front), c); }
    }
  }

  lemma {:induction false} CountMonotone(made: seq<Connection>, k: nat, n: PortName)
    requires k <= |made|
    ensures Count(made[..k], n) <= Count(made, n)
  {
    if k < |made| {
      var front := made[..|made| - 1];
      CountMonotone(front, k, n);
      assert front[..k] == made[..k];
    } else {
      assert made[..k] == made;
    }
  }

  ghost predicate HasPort(c: Connection, p: Port) { c.left == p || c.right == p }

  /** Once a connection is made, its ports' counters are past their indices. */
  lemma MadeIsPassed(made: seq<Connection>, m: nat, p: Port)
    requires Valid(made) && m < |made| && HasPort(made[m], p)
    ensures p.index < Count(made, NameOf(p))
  {
    assert Bindable(made[..m], made[m]);
    CountNext(made[..m], made[m]);
    assert made[..m + 1] == made[..m] + [made[m]];
    CountMonotone(made, m + 1, NameOf(p));
  }

  /** No port takes part in two connections, in either direction. */
  lemma PortsUsedOnce(made: seq<Connection>, i: nat, j: nat, p: Port)
    requires Valid(made) && i < j < |made| && HasPort(made[i], p)
    ensures !HasPort(made[j], p)
  {
    ValidFront(made, j);
    assert made[..j][i] == made[i];
    MadeIsPassed(made[..j], i, p);
    assert Bindable(made[..j], made[j]);
  }

  ghost predicate NoSelfConnection(s: seq<Connection>) {
    forall c :: c in s ==> c.left != c.right
  }

  /** The indices a connection binds at a named port. */
  function Ends(c: Connection, n: PortName): seq<nat> {
    (if NameOf(c.left) == n then [c.left.index] else []) + (if NameOf(c.right) == n then [c.right.index] else [])
  }

  /** The indices bound at a named port, in the order of binding. */
  function BoundIndices(made: seq<Connection>, n: PortName): seq<nat> {
    if made == [] then [] else BoundIndices(made[..|made| - 1], n) + Ends(made[|made| - 1], n)
  }

  /** The sequence 0, 1, ..., n-1. */
  function Upto(n: nat): seq<nat> {
    if n == 0 then [] else Upto(n - 1) + [n - 1]
  }

  /** Each port's indices are bound as 0, 1, 2, ... without gap or repeat. */
  lemma {:induction false} BoundInIndexOrder(made: seq<Connection>, n: PortName)
    requires Valid(made) && NoSelfConnection(made)
    ensures BoundIndices(made, n) == Upto(Count(made, n))
  {
    if made != [] {
      var front, c := made[..|made| - 1], made[|made| - 1];
      ValidFront(made, |made| - 1);
      BoundInIndexOrder(front, n);
      assert Bindable(front, c) && c in made;
      IndicesStep(made, n, Count(front, n), Count(made, n));
    }
  }

  lemma IndicesStep(made: seq<Connection>, n: PortName, k: nat, k': nat)
    requires made != [] && BoundIndices(made[..|made| - 1], n) == Upto(k)
    requires var c := made[|made| - 1];
             && k' == k + Uses(c, n) && c.left != c.right
             && (NameOf(c.left) == n ==> c.left.index == k) && (NameOf(c.right) == n ==> c.right.index == k)
    ensures BoundIndices(made, n) == Upto(k')
  {
    NextIndex(made[|made| - 1], n, k);
  }

  lemma NextIndex(c: Connection, n: PortName, k: nat)
    requires c.left != c.right
    requires (NameOf(c.left) == n ==> c.left.index == k) && (NameOf(c.right) == n ==> c.right.index == k)
    ensures Upto(k) + Ends(c, n) == Upto(k + Uses(c, n))
  {
    assert Ends(c, n) == if Uses(c, n) == 1 then [k] else [];
    assert Upto(k) + [] == Upto(k);
  }

  /** Every index below the counter belongs to a connection that was made. */
  lemma {:induction false} PassedWasMade(made: seq<Connection>, p: Port) returns (m: nat)
    requires Valid(made) && NoSelfConnection(made) && p.index < Count(made, NameOf(p))
    ensures m < |made| && HasPort(made[m], p)
  {
    var front, c := made[..|made| - 1], made[|made| - 1];
    ValidFront(made, |made| - 1);
    if p.index < Count(front, NameOf(p)) {
      m := PassedWasMade(front, p);
    } else {
      m := |made| - 1;
      assert Bindable(front, c) && c in made;
      assert NameOf(c.left) == NameOf(p) || NameOf(c.right) == NameOf(p);
    }
  }

  // ---------- what success means ----------

  ghost predicate Distinct(s: seq<Connection>) {
    forall i, j :: 0 <= i < j < |s| ==> s[i] != s[j]
  }

  /** The list a caller must supply: both directions of each connection, once each. */
  ghost predicate WellFormed(connections: seq<Connection>) {
    && Distinct(connections)
    && NoSelfConnection(connections)
    && forall c :: c in connections ==> Swap(c) in connections
  }

  lemma {:induction false} DistinctCount(s: seq<Connection>)
    requires Distinct(s)
    ensures |set c | c in s| == |s|
  {
    if s != [] {
      var front, last := s[..|s| - 1], s[|s| - 1];
      DistinctCount(front);
      assert (set c | c in s) == (set c | c in front) + {last};
    }
  }

  ghost function Backward(s: seq<Connection>): set<Connection> {
    set c | c in s :: Swap(c)
  }

  lemma InBackward(s: seq<Connection>, c: Connection)
    ensures c in Backward(s) <==> Swap(c) in s
  {
    if Swap(c) in s { assert Swap(Swap(c)) == c; }
  }

  lemma {:induction false} SwapCount(s: seq<Connection>)
    requires Distinct(s)
    ensures |Backward(s)| == |s|
  {
    if s == [] {
      assert Backward(s) == {};
    } else {
      var front, last := s[..|s| - 1], s[|s| - 1];
      SwapCount(front);
      assert forall c :: c in s <==> c in front || c == last;
      assert Backward(s) == Backward(front) + {Swap(last)};
      InBackward(front, Swap(last));
    }
  }

  lemma ValidIsDistinct(made: seq<Connection>)
    requires Valid(made)
    ensures Distinct(made)
  {
    forall i, j | 0 <= i < j < |made| ensures made[i] != made[j] {
      PortsUsedOnce(made, i, j, made[i].left);
    }
  }

  lemma OneDirectionOnly(made: seq<Connection>, c: Connection)
    requires Valid(made) && NoSelfConnection(made) && c in made
    ensures Swap(c) !in made
  {
    assert c.left != c.right;
    if Swap(c) in made {
      var i :| 0 <= i < |made| && made[i] == c;
      var j :| 0 <= j < |made| && made[j] == Swap(c);
      if i < j { PortsUsedOnce(made, i, j, c.left); }
      if j < i { PortsUsedOnce(made, j, i, c.left); }
    }
  }

  /** A valid choice of half the connections makes each of them in exactly one direction. */
  lemma HalfIsEverything(connections: seq<Connection>, made: seq<Connection>)
    requires WellFormed(connections) && Valid(made)
    requires (forall c :: c in made ==> c in connections) && 2 * |made| == |connections|
    ensures forall c :: c in connections ==> (c in made <==> Swap(c) !in made)
  {
    assert NoSelfConnection(made);
    DoubledCount(made);
    DistinctCount(connections);
    var both, all := (set c | c in made) + Backward(made), set c | c in connections;
    assert both <= all;
    SubsetOfSameSize(both, all);
    forall c | c in connections ensures c in made <==> Swap(c) !in made {
      assert c in both;
      InBackward(made, c);
      if c in made { OneDirectionOnly(made, c); }
    }
  }

  lemma SubsetOfSameSize(a: set<Connection>, b: set<Connection>)
    requires a <= b && |a| == |b|
    ensures a == b
  {
    assert b == a + (b - a);
  }

  /** On success, no two connections of the list share a port unless they are the two directions of one ... */
  lemma SuccessMeansMatching(connections: seq<Connection>, made: seq<Connection>)
    requires WellFormed(connections) && Valid(made)
    requires (forall c :: c in made ==> c in connections) && 2 * |made| == |connections|
    ensures PortsPaired(connections)
  {
    HalfIsEverything(connections, made);
    forall c, d | c in connections && d in connections && SharePort(c, d) ensures c == d || c == Swap(d) {
      var p := if HasPort(c, d.left) then d.left else d.right;
      var i := IndexOfEither(made, c);
      var j := IndexOfEither(made, d);
      if i < j { PortsUsedOnce(made, i, j, p); }
      if j < i { PortsUsedOnce(made, j, i, p); }
    }
  }

  /** ... and every listed index of a named port is among those bound as 0, 1, 2, ... */
  lemma SuccessBindsAllIndices(connections: seq<Connection>, made: seq<Connection>, c: Connection)
    requires WellFormed(connections) && Valid(made)
    requires (forall d :: d in made ==> d in connections) && 2 * |made| == |connections|
    requires c in connections
    ensures c.left.index < Count(made, NameOf(c.left)) == |BoundIndices(made, NameOf(c.left))|
  {
    HalfIsEverything(connections, made);
    var m := IndexOfEither(made, c);
    MadeIsPassed(made, m, c.left);
    assert NoSelfConnection(made);
    BoundInIndexOrder(made, NameOf(c.left));
    UptoLength(Count(made, NameOf(c.left)));
  }

  lemma {:induction false} UptoLength(n: nat)
    ensures |Upto(n)| == n
  {
    if n > 0 { UptoLength(n - 1); }
  }

  lemma IndexOfEither(made: seq<Connection>, c: Connection) returns (m: nat)
    requires c in made || Swap(c) in made
    ensures m < |made| && (made[m] == c || made[m] == Swap(c))
  {
    m :| 0 <= m < |made| && (made[m] == c || made[m] == Swap(c));
  }

  ghost predicate PortsPaired(connections: seq<Connection>) {
    forall c, d :: c in connections && d in connections && SharePort(c, d) ==> c == d || c == Swap(d)
  }

  ghost predicate SharePort(c: Connection, d: Connection) {
    HasPort(c, d.left) || HasPort(c, d.right)
  }

  // ---------- the pass is as good as any choice ----------

  /** The connections of `order` whose flag is set. */
  function Pick(order: seq<Connection>, keep: seq<bool>): seq<Connection>
    requires |keep| == |order|
  {
    if order == [] then []
    else Pick(order[..|order| - 1], keep[..|order| - 1]) + if keep[|order| - 1] then [order[|order| - 1]] else []
  }

  lemma {:induction false} PickedFrom(order: seq<Connection>, keep: seq<bool>)
    requires |keep| == |order|
    ensures forall c :: c in Pick(order, keep) ==> c in order
  {
    if order != [] { PickedFrom(order[..|order| - 1], keep[..|order| - 1]); }
  }

  lemma {:induction false} GreedyIsPick(order: seq<Connection>) returns (keep: seq<bool>)
    ensures |keep| == |order| && Pick(order, keep) == Greedy(order)
  {
    if order == [] {
      keep := [];
    } else {
      var front, c := order[..|order| - 1], order[|order| - 1];
      var k := GreedyIsPick(front);
      keep := k + [Bindable(Greedy(front), c)];
      assert keep[..|front|] == k;
    }
  }

  /** No valid choice from the same visiting order gets further at any port. */
  lemma {:induction false} GreedyIsAhead(order: seq<Connection>, keep: seq<bool>, n: PortName)
    requires |keep| == |order| && PortsPaired(order) && NoSelfConnection(order)
    requires Valid(Pick(order, keep))
    ensures Count(Pick(order, keep), n) <= Count(Greedy(order), n)
  {
    if order != [] {
      var front, c := order[..|order| - 1], order[|order| - 1];
      var flags := keep[..|order| - 1];
      var sel, made := Pick(front, flags), Greedy(front);
      if keep[|order| - 1] {
        assert Pick(order, keep)[..|sel|] == sel;
        ValidFront(Pick(order, keep), |sel|);
        assert Bindable(sel, c);
        GreedyIsAhead(front, flags, n);
        GreedyIsAhead(front, flags, NameOf(c.left));
        GreedyIsAhead(front, flags, NameOf(c.right));
        CountNext(sel, c);
        CountNext(made, c);
        if !Bindable(made, c) {
          GreedyIsValid(front);
          BothPassed(order, made, c, if Count(made, NameOf(c.left)) > c.left.index then c.left else c.right);
        }
      } else {
        assert Pick(order, keep) == sel;
        GreedyIsAhead(front, flags, n);
        CountNext(made, c);
      }
    }
  }

  /** If one end of a connection was already used, so was the other. */
  lemma BothPassed(order: seq<Connection>, made: seq<Connection>, c: Connection, p: Port)
    requires PortsPaired(order) && NoSelfConnection(order) && c in order && HasPort(c, p)
    requires Valid(made) && forall d :: d in made ==> d in order
    requires p.index < Count(made, NameOf(p))
    ensures Count(made, NameOf(c.left)) > c.left.index && Count(made, NameOf(c.right)) > c.right.index
  {
    assert NoSelfConnection(made);
    var m := PassedWasMade(made, p);
    assert made[m] in made && SharePort(made[m], c);
    MadeIsPassed(made, m, c.left);
    MadeIsPassed(made, m, c.right);
  }

  /** The pass binds everything exactly when some choice from its visiting order could. */
  lemma SucceedsIffPossible(order: seq<Connection>)
    requires WellFormed(order)
    ensures 2 * |Greedy(order)| == |order| <==>
            exists keep :: |keep| == |order| && Valid(Pick(order, keep)) && 2 * |Pick(order, keep)| == |order|
  {
    if 2 * |Greedy(order)| == |order| {
      var keep := GreedyIsPick(order);
      GreedyIsValid(order);
    }
    if keep :| |keep| == |order| && Valid(Pick(order, keep)) && 2 * |Pick(order, keep)| == |order| {
      var sel := Pick(order, keep);
      PickedFrom(order, keep);
      SuccessMeansMatching(order, sel);
      GreedyIsValid(order);
      forall c | c in sel ensures c in Greedy(order) || Swap(c) in Greedy(order) {
        GreedyIsAhead(order, keep, NameOf(c.left));
        var i :| 0 <= i < |sel| && sel[i] == c;
        MadeIsPassed(sel, i, c.left);
        var m := PassedWasMade(Greedy(order), c.left);
        assert Greedy(order)[m] in order && c in order && SharePort(Greedy(order)[m], c);
      }
      AsMany(order, sel, Greedy(order));
      ValidIsHalf(order, Greedy(order));
    }
  }

  /** The undirected connections of `sel` are among those of `made`, so `made` is not shorter. */
  lemma AsMany(order: seq<Connection>, sel: seq<Connection>, made: seq<Connection>)
    requires Valid(sel) && Valid(made) && NoSelfConnection(sel) && NoSelfConnection(made)
    requires forall c :: c in sel ==> c in made || Swap(c) in made
    ensures |sel| <= |made|
  {
    var a, b := (set c | c in sel) + Backward(sel), (set c | c in made) + Backward(made);
    DoubledCount(sel);
    DoubledCount(made);
    forall x | x in a ensures x in b {
      InBackward(sel, x);
      InBackward(made, x);
      assert Swap(Swap(x)) == x;
    }
    Subset(a, b);
  }

  lemma Subset(a: set<Connection>, b: set<Connection>)
    requires a <= b
    ensures |a| <= |b|
  {
    assert b == a + (b - a);
  }

  lemma DoubledCount(made: seq<Connection>)
    requires Valid(made) && NoSelfConnection(made)
    ensures |(set c | c in made) + Backward(made)| == 2 * |made|
  {
    ValidIsDistinct(made);
    DistinctCount(made);
    SwapCount(made);
    var forward := set c | c in made;
    forall c | c in forward ensures c !in Backward(made) {
      OneDirectionOnly(made, c);
      InBackward(made, c);
    }
    assert forward !! Backward(made);
  }

  /** No valid choice makes more than half of the listed connections. */
  lemma ValidIsHalf(order: seq<Connection>, made: seq<Connection>)
    requires WellFormed(order) && Valid(made) && forall c :: c in made ==> c in order
    ensures 2 * |made| <= |order|
  {
    assert NoSelfConnection(made);
    DoubledCount(made);
    DistinctCount(order);
    var a := (set c | c in made) + Backward(made);
    Subset(a, set c | c in order);
  }

  lemma GreedyStep(order: seq<Connection>, k: nat, made: seq<Connection>)
    requires k < |order| && Greedy(order[..k]) == made
    ensures Greedy(order[..k + 1]) == if Bindable(made, order[k]) then made + [order[k]] else made
  {
    assert order[..k + 1][..k] == order[..k];
  }
}
