/** Facts about division and remainder that the layouts need. */
module DivFacts {

  type pos = n: nat | n > 0 witness 1

  /** The product, by repeated addition: where it is only one number among others the solver need not multiply. */
  function Times(a: nat, b: nat): nat {
    if a == 0 then 0 else Times(a - 1, b) + b
  }

  lemma {:induction false} TimesIs(a: nat, b: nat)
    ensures Times(a, b) == a * b
  {
    if a > 0 {
      TimesIs(a - 1, b);
      assert a * b == (a - 1) * b + b;
    }
  }

  lemma {:induction false} TimesPositive(a: nat, b: nat)
    requires a > 0 && b > 0
    ensures Times(a, b) >= b
  {
    if a > 1 { TimesPositive(a - 1, b); }
  }

  lemma DivMod(t: int, m: pos)
    ensures t == (t / m) * m + t % m && 0 <= t % m < m
  {
  }

  lemma DivAtLeast(t: int, m: pos, q: int)
    requires q * m <= t
    ensures q <= t / m
  {
    DivMod(t, m);
    if t / m < q { RowsApart(t / m, q, m); }
  }

  lemma DivBelow(t: int, m: pos, q: int)
    requires t < q * m
    ensures t / m < q
  {
    DivMod(t, m);
    if q < t / m { RowsApart(q, t / m, m); }
  }

  lemma {:induction false} NatTimes(k: nat, m: nat)
    ensures k * m >= 0
  {
    if k > 0 {
      NatTimes(k - 1, m);
      assert k * m == (k - 1) * m + m;
    }
  }

  lemma RowsApart(a: int, b: int, tw: pos)
    requires a < b
    ensures (a + 1) * tw == a * tw + tw <= b * tw
  {
    NatTimes(b - a - 1, tw);
    assert b * tw == (b - a - 1) * tw + a * tw + tw;
  }

  lemma DivMonotone(a: int, b: int, cycle: pos)
    requires a <= b
    ensures a / cycle <= b / cycle
  {
    DivMod(a, cycle);
    DivAtLeast(b, cycle, a / cycle);
  }

  lemma DivUnique(t: int, m: pos, q: int, r: int)
    requires 0 <= r < m && t == q * m + r
    ensures t / m == q && t % m == r
  {
    DivMod(t, m);
    if q < t / m { RowsApart(q, t / m, m); }
    if t / m < q { RowsApart(t / m, q, m); }
  }

  lemma Regroup(q: int, w: int, cell: int, c: int)
    ensures q * (w * c) + cell * c == (q * w + cell) * c
  {
    assert q * (w * c) == (q * w) * c;
  }

  lemma WholeRows(q: int, row: int, w: int, c: int, tw: int)
    requires tw == w * c
    ensures q * tw + row * tw == ((q + row) * w) * c
  {
    assert q * tw + row * tw == (q + row) * tw;
    assert (q + row) * (w * c) == ((q + row) * w) * c;
  }

  lemma CycleAroundRow(t: int, w: pos, c: pos, tw: pos)
    requires tw == w * c
    ensures (t % tw) / c == (t / c) % w
  {
    DivMod(t, tw);
    DivMod(t % tw, c);
    var q, cell := t / tw, (t % tw) / c;
    DivAtLeast(t % tw, c, 0);
    DivBelow(t % tw, c, w);
    Regroup(q, w, cell, c);
    DivUnique(t, c, q * w + cell, (t % tw) % c);
    DivUnique(q * w + cell, w, q, cell);
  }

  lemma OneTurnLater(x: int, w: pos)
    ensures (x + w) % w == x % w
  {
    DivMod(x, w);
    DivUnique(x + w, w, x / w + 1, x % w);
  }

  lemma WithinOneTurn(x: int, y: int, w: pos, k: int)
    requires k <= x < k + w && k <= y < k + w
    ensures x % w == y % w <==> x == y
  {
    DivMod(x, w);
    DivMod(y, w);
    if x / w < y / w { RowsApart(x / w, y / w, w); }
    if y / w < x / w { RowsApart(y / w, x / w, w); }
  }
}
