/** Quotients, remainders and products by repeated subtraction and addition, so that proofs about
    positions and slots go by induction; and their agreement with the operators. */
module Arithmetic {

  function Div(x: nat, n: nat): nat
    requires n > 0
  {
    if x < n then 0 else Div(x - n, n) + 1
  }

  function Mod(x: nat, n: nat): (r: nat)
    requires n > 0
    ensures r < n
  {
    if x < n then x else Mod(x - n, n)
  }

  function Times(k: nat, n: nat): nat {
    if k == 0 then 0 else Times(k - 1, n) + n
  }

  lemma {:induction false} TimesIsProduct(k: nat, n: nat)
    ensures Times(k, n) == k * n
  {
    if k > 0 {
      TimesIsProduct(k - 1, n);
      assert k * n == (k - 1) * n + n;
    }
  }

  lemma {:induction false} TimesLess(a: nat, b: nat, n: nat)
    requires a < b
    ensures Times(a, n) + n <= Times(b, n)
    decreases b
  {
    if a < b - 1 {
      TimesLess(a, b - 1, n);
    }
  }

  lemma {:induction false} TimesAdd(a: nat, b: nat, n: nat)
    ensures Times(a + b, n) == Times(a, n) + Times(b, n)
    decreases b
  {
    if b > 0 {
      TimesAdd(a, b - 1, n);
    }
  }

  lemma {:induction false} DivMod(x: nat, n: nat)
    requires n > 0
    ensures x == Times(Div(x, n), n) + Mod(x, n)
  {
    if x >= n {
      DivMod(x - n, n);
    }
  }

  lemma {:induction false} AddTimes(x: nat, k: nat, n: nat)
    requires n > 0
    ensures Mod(x + Times(k, n), n) == Mod(x, n) && Div(x + Times(k, n), n) == Div(x, n) + k
    decreases k
  {
    if k > 0 {
      AddTimes(x, k - 1, n);
      var y := x + Times(k - 1, n);
      assert Mod(y + n, n) == Mod(y, n) && Div(y + n, n) == Div(y, n) + 1;
    }
  }

  lemma {:induction false} DivIsQuotient(x: nat, n: nat)
    requires n > 0
    ensures Div(x, n) == x / n && Mod(x, n) == x % n
  {
    DivMod(x, n);
    TimesIsProduct(Div(x, n), n);
    RemainderUnique(x, n, Div(x, n), Mod(x, n));
  }

  lemma RemainderUnique(x: nat, m: nat, q: nat, r: nat)
    requires r < m && x == q * m + r
    ensures x % m == r && x / m == q
  {
    var q', r' := x / m, x % m;
    assert x == q' * m + r';
    TimesIsProduct(q, m);
    TimesIsProduct(q', m);
    if q < q' {
      TimesLess(q, q', m);
    } else if q' < q {
      TimesLess(q', q, m);
    }
  }
}
