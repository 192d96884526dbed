/** Binomial coefficients by one product and one division. */
module Binomial {
  import opened Arithmetic

  /** Pascal's triangle. */
  function Choose(n: nat, k: nat): nat {
    if k == 0 then 1
    else if n == 0 then 0
    else Choose(n - 1, k - 1) + Choose(n - 1, k)
  }

  function Fact(n: nat): (f: nat)
    ensures f > 0
  {
    if n == 0 then 1 else n * Fact(n - 1)
  }

  /** The product of the numbers from `low` + 1 to `high`. */
  function Rising(low: nat, high: nat): nat
    requires low <= high
    decreases high
  {
    if low == high then 1 else high * Rising(low, high - 1)
  }

  lemma {:induction false} RisingFact(low: nat, high: nat)
    requires low <= high
    ensures Rising(low, high) * Fact(low) == Fact(high)
    decreases high
  {
    if low < high {
      RisingFact(low, high - 1);
      Associate(high, Rising(low, high - 1), Fact(low));
    }
  }

  lemma {:induction false} ChooseTooMany(n: nat, k: nat)
    requires k > n
    ensures Choose(n, k) == 0
  {
    if n > 0 {
      ChooseTooMany(n - 1, k - 1);
      ChooseTooMany(n - 1, k);
    }
  }

  lemma {:induction false} ChooseAll(n: nat)
    ensures Choose(n, n) == 1
  {
    if n > 0 {
      ChooseAll(n - 1);
      ChooseTooMany(n - 1, n);
    }
  }

  /** Pascal's triangle counts arrangements: C(n, k) * k! * (n - k)! is n!. */
  lemma {:induction false} ChooseFact(n: nat, k: nat)
    requires k <= n
    ensures Choose(n, k) * (Fact(k) * Fact(n - k)) == Fact(n)
    decreases n
  {
    if k == n {
      ChooseAll(n);
    } else if k > 0 {
      var a, b := Choose(n - 1, k - 1), Choose(n - 1, k);
      ChooseFact(n - 1, k - 1);
      ChooseFact(n - 1, k);
      Regroup(a, b, n, k, Fact(k - 1), Fact(n - k - 1), Fact(n - 1));
    }
  }

  lemma Regroup(a: nat, b: nat, n: nat, k: nat, f: nat, h: nat, m: nat)
    requires 0 < k < n
    requires a * (f * ((n - k) * h)) == m && b * ((k * f) * h) == m
    ensures (a + b) * ((k * f) * ((n - k) * h)) == n * m
  {
    var d := n - k;
    calc {
      (a + b) * ((k * f) * (d * h));
      a * ((k * f) * (d * h)) + b * ((k * f) * (d * h));
      { Associate(k, f, d * h); Swap(k * f, d, h); }
      a * (k * (f * (d * h))) + b * (d * ((k * f) * h));
      { Swap(a, k, f * (d * h)); Swap(b, d, (k * f) * h); }
      k * m + d * m;
      { Distribute(k, d, m); }
      n * m;
    }
  }

  /** The division in `binomial` is exact: its numerator is the coefficient times its denominator. */
  lemma DivisionIsExact(n: nat, k: nat)
    requires k <= n
    ensures Rising(k, n) == Choose(n, k) * Fact(n - k)
  {
    RisingFact(k, n);
    ChooseFact(n, k);
    var c, f, d := Choose(n, k), Fact(k), Fact(n - k);
    Swap(c, f, d);
    assert Rising(k, n) * f == (c * d) * f by { Swap(f, c, d); }
    Cancel(Rising(k, n), c * d, f);
  }

  method Factorial(n: nat) returns (result: nat)
    ensures result == Fact(n)
  {
    result := 1;
    for i := 1 to n + 1
      invariant result == Fact(i - 1)
    {
      result := result * i;
    }
  }

  lemma RisingStep(low: nat, high: nat)
    requires low <= high
    ensures Rising(low, high + 1) == Rising(low, high) * (high + 1)
    ensures Rising(low, low) == 1
  {
  }

  lemma ChooseNone(n: nat)
    ensures Choose(n, 0) == 1
  {
  }

  /** `binomial(n, k)`. */
  method ComputeBinomial(n: nat, k: nat) returns (c: nat)
    requires k <= n
    ensures c == Choose(n, k)
    ensures Rising(k, n) % Fact(n - k) == 0
  {
    hide Rising, Fact, Choose;
    DivisionIsExact(n, k);
    DivideUnique(Rising(k, n), Fact(n - k), Choose(n, k), 0);
    if k == 0 || k == n {
      ChooseAll(n);
      ChooseNone(n);
      return 1;
    }
    var product := k + 1;
    RisingStep(k, k);
    for i := k + 2 to n + 1
      invariant product == Rising(k, i - 1)
    {
      RisingStep(k, i - 1);
      product := product * i;
    }
    var f := Factorial(n - k);
    c := product / f;
  }

}
