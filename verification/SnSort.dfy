/** Instruction records of the O3 pipeline trace and the stable sort by
    sequence number that the viewer applies to its print queue. */
module SnSort {

  /** One instruction of the trace. A tick of zero means that the stage was never reached. */
  datatype Inst = Inst(
    sn: int,
    fetch: int, decode: int, rename: int, dispatch: int,
    issue: int, complete: int, retire: int, store: int,
    pc: string, upc: string, disasm: string)

  ghost predicate SortedBySn(s: seq<Inst>) {
    forall i, j :: 0 <= i < j < |s| ==> s[i].sn <= s[j].sn
  }

  /** Places `x` behind every element that does not exceed it. */
  function Insert(s: seq<Inst>, x: Inst): seq<Inst> {
    if s == [] || s[|s| - 1].sn <= x.sn then s + [x]
    else Insert(s[..|s| - 1], x) + [s[|s| - 1]]
  }

  /** `list.sort(key=sn)`: Python's sort keeps the order of equal keys. */
  function StableSort(s: seq<Inst>): seq<Inst> {
    if s == [] then [] else Insert(StableSort(s[..|s| - 1]), s[|s| - 1])
  }

  /** The elements of `s` that satisfy `keep`, in order. */
  function Filter(keep: Inst -> bool, s: seq<Inst>): seq<Inst> {
    if s == [] then []
    else Filter(keep, s[..|s| - 1]) + if keep(s[|s| - 1]) then [s[|s| - 1]] else []
  }

  /** How many elements of `s` have a larger sequence number than `sn`. */
  function Larger(s: seq<Inst>, sn: int): nat {
    if s == [] then 0
    else Larger(s[..|s| - 1], sn) + if s[|s| - 1].sn > sn then 1 else 0
  }

  // ---------- insertion ----------

  lemma {:induction false} InsertPermutes(s: seq<Inst>, x: Inst)
    ensures multiset(Insert(s, x)) == multiset(s) + multiset{x}
    ensures |Insert(s, x)| == |s| + 1
  {
    if s != [] && s[|s| - 1].sn > x.sn {
      InsertPermutes(s[..|s| - 1], x);
      assert s == s[..|s| - 1] + [s[|s| - 1]];
    }
  }

  lemma {:induction false} InsertKeepsSorted(s: seq<Inst>, x: Inst)
    requires SortedBySn(s)
    ensures SortedBySn(Insert(s, x))
  {
    if s != [] && s[|s| - 1].sn > x.sn {
      var front, last := s[..|s| - 1], s[|s| - 1];
      InsertKeepsSorted(front, x);
      InsertPermutes(front, x);
      var r := Insert(front, x);
      forall i | 0 <= i < |r| ensures r[i].sn <= last.sn {
        assert r[i] in multiset(r);
        assert r[i] in multiset(front) + multiset{x};
        assert r[i] == x || r[i] in front;
      }
      assert Insert(s, x) == r + [last];
    }
  }

  /** An element that is not smaller than anything in `a` is inserted behind `a`. */
  lemma {:induction false} InsertBehind(a: seq<Inst>, b: seq<Inst>, x: Inst)
    requires forall y :: y in a ==> y.sn <= x.sn
    ensures Insert(a + b, x) == a + Insert(b, x)
  {
    if b == [] {
      assert a + b == a;
    } else {
      var s := a + b;
      assert s[|s| - 1] == b[|b| - 1];
      if b[|b| - 1].sn > x.sn {
        assert s[..|s| - 1] == a + b[..|b| - 1];
        InsertBehind(a, b[..|b| - 1], x);
      }
    }
  }

  // ---------- the sort ----------

  lemma {:induction false} SortPermutes(s: seq<Inst>)
    ensures multiset(StableSort(s)) == multiset(s)
    ensures |StableSort(s)| == |s|
  {
    if s != [] {
      SortPermutes(s[..|s| - 1]);
      InsertPermutes(StableSort(s[..|s| - 1]), s[|s| - 1]);
      assert s == s[..|s| - 1] + [s[|s| - 1]];
    }
  }

  lemma {:induction false} SortSorts(s: seq<Inst>)
    ensures SortedBySn(StableSort(s))
  {
    if s != [] {
      SortSorts(s[..|s| - 1]);
      InsertKeepsSorted(StableSort(s[..|s| - 1]), s[|s| - 1]);
    }
  }

  lemma {:induction false} SortOfSorted(s: seq<Inst>)
    requires SortedBySn(s)
    ensures StableSort(s) == s
  {
    if s != [] {
      var front, last := s[..|s| - 1], s[|s| - 1];
      SortOfSorted(front);
      assert front != [] ==> front[|front| - 1] == s[|s| - 2];
      assert Insert(front, last) == front + [last] == s;
    }
  }

  // ---------- filters and counts ----------

  lemma {:induction false} FilterAppend(keep: Inst -> bool, a: seq<Inst>, b: seq<Inst>)
    ensures Filter(keep, a + b) == Filter(keep, a) + Filter(keep, b)
  {
    if b == [] {
      assert a + b == a;
    } else {
      assert (a + b)[..|a + b| - 1] == a + b[..|b| - 1];
      FilterAppend(keep, a, b[..|b| - 1]);
    }
  }

  lemma {:induction false} FilterNone(keep: Inst -> bool, s: seq<Inst>)
    requires forall x :: x in s ==> !keep(x)
    ensures Filter(keep, s) == []
  {
    if s != [] { FilterNone(keep, s[..|s| - 1]); }
  }

  lemma {:induction false} FilterMembers(keep: Inst -> bool, s: seq<Inst>)
    ensures forall x :: x in Filter(keep, s) <==> x in s && keep(x)
  {
    if s != [] {
      FilterMembers(keep, s[..|s| - 1]);
      assert s == s[..|s| - 1] + [s[|s| - 1]];
    }
  }

  lemma {:induction false} FilterCounts(keep: Inst -> bool, s: seq<Inst>, z: Inst)
    ensures multiset(Filter(keep, s))[z] == if keep(z) then multiset(s)[z] else 0
  {
    if s != [] {
      FilterCounts(keep, s[..|s| - 1], z);
      assert s == s[..|s| - 1] + [s[|s| - 1]];
    }
  }

  lemma {:induction false} FilterInsert(keep: Inst -> bool, s: seq<Inst>, x: Inst)
    requires SortedBySn(s)
    ensures Filter(keep, Insert(s, x)) ==
            if keep(x) then Insert(Filter(keep, s), x) else Filter(keep, s)
  {
    if s == [] || s[|s| - 1].sn <= x.sn {
      FilterInsertLast(keep, s, x);
    } else {
      FilterInsert(keep, s[..|s| - 1], x);
      FilterInsertStep(keep, s, x);
    }
  }

  lemma FilterInsertLast(keep: Inst -> bool, s: seq<Inst>, x: Inst)
    requires SortedBySn(s) && (s == [] || s[|s| - 1].sn <= x.sn)
    ensures Filter(keep, s + [x]) == if keep(x) then Insert(Filter(keep, s), x) else Filter(keep, s)
  {
    assert (s + [x])[..|s|] == s;
    var f := Filter(keep, s);
    assert f + [] == f;
    if f != [] {
      assert f[|f| - 1] in s by { FilterMembers(keep, s); }
    }
  }

  lemma {:induction false} FilterInsertStep(keep: Inst -> bool, s: seq<Inst>, x: Inst)
    requires s != [] && s[|s| - 1].sn > x.sn
    requires Filter(keep, Insert(s[..|s| - 1], x)) ==
             if keep(x) then Insert(Filter(keep, s[..|s| - 1]), x) else Filter(keep, s[..|s| - 1])
    ensures Filter(keep, Insert(s, x)) ==
            if keep(x) then Insert(Filter(keep, s), x) else Filter(keep, s)
  {
    var front, last := s[..|s| - 1], s[|s| - 1];
    var r, f := Insert(front, x), Filter(keep, front);
    assert (r + [last])[..|r|] == r;
    assert Filter(keep, Insert(s, x)) == Filter(keep, r) + if keep(last) then [last] else [];
    if keep(last) {
      assert Filter(keep, s) == f + [last];
      assert (f + [last])[..|f|] == f;
    } else {
      assert Filter(keep, s) == f + [] == f;
      assert Filter(keep, r) + [] == Filter(keep, r);
    }
  }

  /** Dropping elements before or after the sort makes no difference. */
  lemma {:induction false} FilterSort(keep: Inst -> bool, s: seq<Inst>)
    ensures Filter(keep, StableSort(s)) == StableSort(Filter(keep, s))
  {
    if s != [] {
      var front, last := s[..|s| - 1], s[|s| - 1];
      FilterSort(keep, front);
      SortSorts(front);
      FilterInsert(keep, StableSort(front), last);
      var f := Filter(keep, front);
      if keep(last) { assert (f + [last])[..|f|] == f; }
      else { assert f + [] == f; }
    }
  }

  lemma {:induction false} LargerAppend(a: seq<Inst>, b: seq<Inst>, sn: int)
    ensures Larger(a + b, sn) == Larger(a, sn) + Larger(b, sn)
  {
    if b == [] {
      assert a + b == a;
    } else {
      assert (a + b)[..|a + b| - 1] == a + b[..|b| - 1];
      LargerAppend(a, b[..|b| - 1], sn);
    }
  }

  lemma {:induction false} LargerInsert(s: seq<Inst>, x: Inst, sn: int)
    ensures Larger(Insert(s, x), sn) == Larger(s + [x], sn)
  {
    LargerAppend(s, [x], sn);
    if s != [] && s[|s| - 1].sn > x.sn {
      var front, last := s[..|s| - 1], s[|s| - 1];
      LargerInsert(front, x, sn);
      LargerAppend(front, [x], sn);
      LargerAppend(Insert(front, x), [last], sn);
    }
  }

  lemma {:induction false} LargerSort(s: seq<Inst>, sn: int)
    ensures Larger(StableSort(s), sn) == Larger(s, sn)
  {
    if s != [] {
      var front, last := s[..|s| - 1], s[|s| - 1];
      LargerSort(front, sn);
      assert Larger(StableSort(s), sn) == Larger(StableSort(front) + [last], sn) by {
        LargerInsert(StableSort(front), last, sn);
      }
      LargerAppend(StableSort(front), [last], sn);
    }
  }

  lemma {:induction false} LargerAtMostLength(s: seq<Inst>, sn: int)
    ensures Larger(s, sn) <= |s|
    ensures Larger(s, sn) == |s| <==> forall x :: x in s ==> x.sn > sn
    ensures Larger(s, sn) > 0 <==> exists x :: x in s && x.sn > sn
  {
    if s != [] {
      var front, last := s[..|s| - 1], s[|s| - 1];
      LargerAtMostLength(front, sn);
      assert forall x :: x in s <==> x in front || x == last;
      if last.sn > sn { assert last in s; }
    }
  }

  // ---------- what determines the sort ----------

  function HasSn(k: int): Inst -> bool {
    (i: Inst) => i.sn == k
  }

  ghost predicate SameKeyOrder(s: seq<Inst>, t: seq<Inst>) {
    forall k: int :: Filter(HasSn(k), s) == Filter(HasSn(k), t)
  }

  lemma {:induction false} SortKeepsKeyOrder(s: seq<Inst>)
    ensures SameKeyOrder(StableSort(s), s)
  {
    forall k: int ensures Filter(HasSn(k), StableSort(s)) == Filter(HasSn(k), s) {
      var f := HasSn(k);
      FilterSort(f, s);
      FilterMembers(f, s);
      assert forall x :: x in Filter(f, s) ==> x.sn == k;
      SortOfSorted(Filter(f, s));
    }
  }

  /** `StableSort` is the only arrangement that is sorted and keeps, for every
      sequence number, the records with that number in their original order. */
  lemma {:induction false} StableSortIsUnique(s: seq<Inst>, t: seq<Inst>)
    ensures t == StableSort(s) <==> SortedBySn(t) && SameKeyOrder(t, s)
  {
    SortSorts(s);
    SortKeepsKeyOrder(s);
    if SortedBySn(t) && SameKeyOrder(t, s) {
      SortedAndSameOrderAreEqual(t, StableSort(s));
    }
  }

  lemma {:induction false} SortedAndSameOrderAreEqual(t: seq<Inst>, u: seq<Inst>)
    requires SortedBySn(t) && SortedBySn(u) && SameKeyOrder(t, u)
    ensures t == u
  {
    if t == [] || u == [] {
      if u != [] { SharedKey(u, t, u[0]); }
      if t != [] { SharedKey(t, u, t[0]); }
    } else {
      var x, y := t[|t| - 1], u[|u| - 1];
      SharedKey(t, u, x);
      SharedKey(u, t, y);
      assert x.sn == y.sn;
      var f := HasSn(x.sn);
      assert Filter(f, t) == Filter(f, t[..|t| - 1]) + [x];
      assert Filter(f, u) == Filter(f, u[..|u| - 1]) + [y];
      assert Filter(f, t) == Filter(f, u);
      assert Filter(f, t)[|Filter(f, t)| - 1] == x;
      assert x == y;
      forall k: int
        ensures Filter(HasSn(k), t[..|t| - 1]) == Filter(HasSn(k), u[..|u| - 1])
      {
        var g := HasSn(k);
        var a, b := Filter(g, t[..|t| - 1]), Filter(g, u[..|u| - 1]);
        assert Filter(g, t) == Filter(g, u);
        if g(x) {
          assert a + [x] == b + [x];
          assert a == (a + [x])[..|a|] && b == (b + [x])[..|b|];
        } else {
          assert a + [] == a && b + [] == b;
        }
      }
      SortedAndSameOrderAreEqual(t[..|t| - 1], u[..|u| - 1]);
      assert t == t[..|t| - 1] + [x] && u == u[..|u| - 1] + [x];
    }
  }

  lemma {:induction false} SharedKey(t: seq<Inst>, u: seq<Inst>, x: Inst)
    requires SameKeyOrder(t, u) && x in t
    ensures exists i :: 0 <= i < |u| && u[i].sn == x.sn
  {
    var f := HasSn(x.sn);
    FilterMembers(f, t);
    FilterMembers(f, u);
    assert Filter(f, t) == Filter(f, u);
    assert x in Filter(f, u);
  }
}
