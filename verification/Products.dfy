/** Products of natural numbers, one law at a time. */
module Products {
  lemma Distribute(a: nat, b: nat, p: nat)
    ensures (a + b) * p == a * p + b * p
  {
  }

  lemma Regroup(a: nat, b: nat, p: nat)
    ensures a * b * p == a * (b * p)
  {
  }

  lemma NoMore(a: nat, b: nat, p: nat)
    requires a <= b
    ensures a * p <= b * p
  {
    Distribute(a, b - a, p);
  }
}
