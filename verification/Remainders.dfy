/** The few facts about remainders that ring indices and slot counters need. */
module Remainders {
  function Mod(n: nat, m: nat): (r: nat)
    requires m > 0
    ensures r < m
  {
    n % m
  }

  function Div(n: nat, m: nat): nat
    requires m > 0
  {
    n / m
  }

  lemma Scaled(d: int, m: int)
    requires m > 0
    ensures d >= 1 ==> d * m >= m
    ensures d <= -1 ==> d * m <= -m
  {
    if d >= 1 {
      assert (d - 1) * m >= 0;
    } else if d <= -1 {
      assert (-d - 1) * m >= 0;
    }
  }

  lemma DivMod(n: nat, m: nat)
    requires m > 0
    ensures n == Div(n, m) * m + Mod(n, m)
  {
  }

  lemma ModIsUnique(n: nat, m: nat, q: int, r: nat)
    requires m > 0 && n == q * m + r && r < m
    ensures Mod(n, m) == r && Div(n, m) == q
  {
    var d := n / m - q;
    assert d * m == r - n % m;
    Scaled(d, m);
  }

  lemma ModOfSum(n: nat, m: nat)
    requires m > 0
    ensures Mod(n + m, m) == Mod(n, m)
  {
    assert n + m == (n / m + 1) * m + n % m;
    ModIsUnique(n + m, m, n / m + 1, n % m);
  }

  lemma ModOfSmall(n: nat, m: nat)
    requires n < m
    ensures Mod(n, m) == n
  {
    ModIsUnique(n, m, 0, n);
  }

  /** Numbers less than m apart have different remainders. */
  lemma ModSeparates(n: nat, d: nat, m: nat)
    requires 0 < d < m
    ensures Mod(n + d, m) != Mod(n, m)
  {
    hide Mod;
    DivMod(n, m);
    DivMod(n + d, m);
    if Mod(n + d, m) == Mod(n, m) {
      assert (Div(n + d, m) - Div(n, m)) * m == d;
      Scaled(Div(n + d, m) - Div(n, m), m);
    }
  }

  lemma ModOfMultiple(q: nat, m: nat)
    requires m > 0
    ensures Mod(q * m, m) == 0
  {
    ModIsUnique(q * m, m, q, 0);
  }

  /** Reducing modulo a multiple of m first changes nothing. */
  lemma ModOfMod(n: nat, big: nat, m: nat)
    requires m > 0 && big > 0 && Mod(big, m) == 0
    ensures Mod(Mod(n, big), m) == Mod(n, m)
  {
    hide Mod;
    hide Div;
    DivMod(n, big);
    DivMod(big, m);
    DivMod(Mod(n, big), m);
    var a, q, b := Div(n, big), Div(big, m), Div(Mod(n, big), m);
    Regroup(a, q, b, m);
    ModIsUnique(n, m, a * q + b, Mod(Mod(n, big), m));
  }

  lemma Regroup(a: nat, q: nat, b: nat, m: nat)
    ensures a * (q * m) + b * m == (a * q + b) * m
  {
  }

  /** What a w-bit difference gives back when the true difference fits. */
  lemma WrappedDifference(a: nat, b: nat, w: nat)
    requires b <= a < b + w
    ensures Mod(Mod(a, w) + w - Mod(b, w), w) == a - b
  {
    hide Mod;
    hide Div;
    var d := a - b;
    if Mod(b, w) + d < w {
      DivMod(b, w);
      ModIsUnique(a, w, Div(b, w), Mod(b, w) + d);
      ModOfSum(d, w);
    } else {
      DivMod(b, w);
      NextMultiple(Div(b, w), w);
      ModIsUnique(a, w, Div(b, w) + 1, Mod(b, w) + d - w);
    }
    ModOfSmall(d, w);
  }

  lemma NextMultiple(q: nat, w: nat)
    ensures (q + 1) * w == q * w + w
  {
  }
}
