/** The order in which the binder would visit connections if its ports could be compared, and a list it fails on. */
module SortedBinding {
  import opened PortBinder
  import opened Text

  // ---------- the order of ports ----------

  predicate NameLess(a: PortName, b: PortName) {
    StringLess(a.object_, b.object_) || (a.object_ == b.object_ && StringLess(a.name, b.name))
  }

  /** By object, port name and index. */
  predicate PortLess(p: Port, q: Port) {
    NameLess(NameOf(p), NameOf(q)) || (NameOf(p) == NameOf(q) && p.index < q.index)
  }

  predicate ConnectionLess(c: Connection, d: Connection) {
    PortLess(c.left, d.left) || (c.left == d.left && PortLess(c.right, d.right))
  }

  ghost predicate Sorted(s: seq<Connection>) {
    forall i, j :: 0 <= i < j < |s| ==> ConnectionLess(s[i], s[j])
  }

  lemma NameLessNotSelf(a: PortName)
    ensures !NameLess(a, a)
  {
    StringLessNotSelf(a.object_);
    StringLessNotSelf(a.name);
  }

  lemma NameLessTransitive(a: PortName, b: PortName, c: PortName)
    requires NameLess(a, b) && NameLess(b, c)
    ensures NameLess(a, c)
  {
    if StringLess(a.object_, b.object_) && StringLess(b.object_, c.object_) {
      StringLessTransitive(a.object_, b.object_, c.object_);
    }
    StringLessNotSelf(a.object_);
    if a.object_ == b.object_ == c.object_ { StringLessTransitive(a.name, b.name, c.name); }
  }

  // ---------- a sorted list that cannot be bound ----------

  function At(n: PortName, index: nat): Port { Port(n.object_, n.name, index) }

  ghost predicate FourNames(a: PortName, b: PortName, c: PortName, d: PortName) {
    a != b && a != c && a != d && b != c && b != d && c != d
  }

  /** The connections a[0]-b[1], b[0]-c[1] and c[0]-d[0], both directions. */
  function SortedExample(a: PortName, b: PortName, c: PortName, d: PortName): seq<Connection> {
    [Connection(At(a, 0), At(b, 1)), Connection(At(b, 0), At(c, 1)), Connection(At(b, 1), At(a, 0)),
     Connection(At(c, 0), At(d, 0)), Connection(At(c, 1), At(b, 0)), Connection(At(d, 0), At(c, 0))]
  }

  /** The same connections in an order that works. */
  function ReorderedExample(a: PortName, b: PortName, c: PortName, d: PortName): seq<Connection> {
    var s := SortedExample(a, b, c, d);
    [s[3], s[1], s[0], s[2], s[4], s[5]]
  }

  /** Sorting does not guarantee that one direction of each connection can be bound: for any ascending names there is
      a sorted list on which the pass gives up and that another order would have bound completely. */
  lemma SortedOrderCanFail(a: PortName, b: PortName, c: PortName, d: PortName)
    requires NameLess(a, b) && NameLess(b, c) && NameLess(c, d)
    ensures WellFormed(SortedExample(a, b, c, d)) && Sorted(SortedExample(a, b, c, d))
    ensures multiset(ReorderedExample(a, b, c, d)) == multiset(SortedExample(a, b, c, d))
    ensures 2 * |Greedy(SortedExample(a, b, c, d))| != |SortedExample(a, b, c, d)|
    ensures 2 * |Greedy(ReorderedExample(a, b, c, d))| == |ReorderedExample(a, b, c, d)|
  {
    AscendingNames(a, b, c, d);
    ExampleWellFormed(a, b, c, d);
    ExampleSorted(SortedExample(a, b, c, d));
    SortedPass(a, b, c, d);
    ReorderedPass(a, b, c, d);
    SameConnections(a, b, c, d);
  }

  lemma SameConnections(a: PortName, b: PortName, c: PortName, d: PortName)
    requires FourNames(a, b, c, d)
    ensures multiset(ReorderedExample(a, b, c, d)) == multiset(SortedExample(a, b, c, d))
  {
  }

  lemma AscendingNames(a: PortName, b: PortName, c: PortName, d: PortName)
    requires NameLess(a, b) && NameLess(b, c) && NameLess(c, d)
    ensures FourNames(a, b, c, d)
    ensures NameLess(a, c) && NameLess(a, d) && NameLess(b, d)
  {
    NameLessTransitive(a, b, c);
    NameLessTransitive(b, c, d);
    NameLessTransitive(a, c, d);
    NameLessNotSelf(a);
    NameLessNotSelf(b);
    NameLessNotSelf(c);
  }

  /** The left ports ascend, so the connections do. */
  lemma ExampleSorted(s: seq<Connection>)
    requires forall i, j :: 0 <= i < j < |s| ==> PortLess(s[i].left, s[j].left)
    ensures Sorted(s)
  {
  }

  lemma ExampleWellFormed(a: PortName, b: PortName, c: PortName, d: PortName)
    requires FourNames(a, b, c, d)
    ensures WellFormed(SortedExample(a, b, c, d))
  {
    var s := SortedExample(a, b, c, d);
    assert forall x :: x in s <==> x == s[0] || x == s[1] || x == s[2] || x == s[3] || x == s[4] || x == s[5];
    assert Swap(s[0]) == s[2] && Swap(s[1]) == s[4] && Swap(s[3]) == s[5];
  }

  lemma SortedPass(a: PortName, b: PortName, c: PortName, d: PortName)
    requires FourNames(a, b, c, d)
    ensures var s := SortedExample(a, b, c, d); Greedy(s) == [s[3], s[4]]
  {
    var s := SortedExample(a, b, c, d);
    SortedStart(s, At(a, 0), At(b, 0), At(b, 1), At(c, 1));
    GreedyStep(s, 3, []);
    CountOne(s[3]);
    GreedyStep(s, 4, [s[3]]);
    CountTwo(s[3], s[4]);
    GreedyStep(s, 5, [s[3], s[4]]);
    assert s[..6] == s;
  }

  /** A connection to an index other than the next is passed over. */
  lemma SortedStart(s: seq<Connection>, a: Port, b0: Port, b1: Port, c1: Port)
    requires |s| >= 3 && s[0] == Connection(a, b1) && s[1] == Connection(b0, c1) && s[2] == Connection(b1, a)
    requires b1.index != 0 && c1.index != 0
    ensures Greedy(s[..3]) == []
  {
    assert s[..0] == [];
    GreedyStep(s, 0, []);
    GreedyStep(s, 1, []);
    GreedyStep(s, 2, []);
  }

  lemma ReorderedPass(a: PortName, b: PortName, c: PortName, d: PortName)
    requires FourNames(a, b, c, d)
    ensures var t := ReorderedExample(a, b, c, d); Greedy(t) == [t[0], t[1], t[2]]
  {
    var t := ReorderedExample(a, b, c, d);
    GreedyStep(t, 0, []);
    CountOne(t[0]);
    GreedyStep(t, 1, [t[0]]);
    CountTwo(t[0], t[1]);
    GreedyStep(t, 2, [t[0], t[1]]);
    var made := [t[0], t[1]] + [t[2]];
    CountNext([t[0], t[1]], t[2]);
    GreedyStep(t, 3, made);
    GreedyStep(t, 4, made);
    GreedyStep(t, 5, made);
    assert t[..6] == t;
  }

  lemma CountOne(c: Connection)
    ensures forall n :: Count([c], n) == Uses(c, n)
  {
    CountNext([], c);
    assert [] + [c] == [c];
  }

  lemma CountTwo(c: Connection, d: Connection)
    ensures forall n :: Count([c, d], n) == Uses(c, n) + Uses(d, n)
  {
    CountOne(c);
    CountNext([c], d);
    assert [c] + [d] == [c, d];
  }
}
