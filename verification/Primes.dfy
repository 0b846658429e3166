/**
 * The first 64 primes, as a table.
 *
 * A number below 18 * 18 is prime exactly when no prime up to 17 divides it, other than
 * itself. That sieve is compared with the table, interval by interval, which shows that
 * the table holds primes and skips none.
 */
module Primes {
  import opened Bits
  import opened Products

  ghost predicate IsPrime(n: nat) {
    n >= 2 && forall d :: 2 <= d < n ==> n % d != 0
  }

  function Prime(i: nat): nat
    requires i < 64
  {
    match i
    case 0 => 2 case 1 => 3 case 2 => 5 case 3 => 7 case 4 => 11 case 5 => 13 case 6 => 17
    case 7 => 19 case 8 => 23 case 9 => 29 case 10 => 31 case 11 => 37 case 12 => 41 case 13 => 43
    case 14 => 47 case 15 => 53 case 16 => 59 case 17 => 61 case 18 => 67 case 19 => 71 case 20 => 73
    case 21 => 79 case 22 => 83 case 23 => 89 case 24 => 97 case 25 => 101 case 26 => 103 case 27 => 107
    case 28 => 109 case 29 => 113 case 30 => 127 case 31 => 131 case 32 => 137 case 33 => 139 case 34 => 149
    case 35 => 151 case 36 => 157 case 37 => 163 case 38 => 167 case 39 => 173 case 40 => 179 case 41 => 181
    case 42 => 191 case 43 => 193 case 44 => 197 case 45 => 199 case 46 => 211 case 47 => 223 case 48 => 227
    case 49 => 229 case 50 => 233 case 51 => 239 case 52 => 241 case 53 => 251 case 54 => 257 case 55 => 263
    case 56 => 269 case 57 => 271 case 58 => 277 case 59 => 281 case 60 => 283 case 61 => 293 case 62 => 307
    case _ => 311
  }

  // The table read backwards.
  function Index(n: nat): nat {
    match n
    case 2 => 0 case 3 => 1 case 5 => 2 case 7 => 3 case 11 => 4 case 13 => 5 case 17 => 6
    case 19 => 7 case 23 => 8 case 29 => 9 case 31 => 10 case 37 => 11 case 41 => 12 case 43 => 13
    case 47 => 14 case 53 => 15 case 59 => 16 case 61 => 17 case 67 => 18 case 71 => 19 case 73 => 20
    case 79 => 21 case 83 => 22 case 89 => 23 case 97 => 24 case 101 => 25 case 103 => 26 case 107 => 27
    case 109 => 28 case 113 => 29 case 127 => 30 case 131 => 31 case 137 => 32 case 139 => 33 case 149 => 34
    case 151 => 35 case 157 => 36 case 163 => 37 case 167 => 38 case 173 => 39 case 179 => 40 case 181 => 41
    case 191 => 42 case 193 => 43 case 197 => 44 case 199 => 45 case 211 => 46 case 223 => 47 case 227 => 48
    case 229 => 49 case 233 => 50 case 239 => 51 case 241 => 52 case 251 => 53 case 257 => 54 case 263 => 55
    case 269 => 56 case 271 => 57 case 277 => 58 case 281 => 59 case 283 => 60 case 293 => 61 case 307 => 62
    case _ => 63
  }

  // No prime up to 17 divides n, unless it is n.
  predicate Sieved(n: nat) {
    && n >= 2
    && (n % 2 != 0 || n == 2) && (n % 3 != 0 || n == 3) && (n % 5 != 0 || n == 5) && (n % 7 != 0 || n == 7)
    && (n % 11 != 0 || n == 11) && (n % 13 != 0 || n == 13) && (n % 17 != 0 || n == 17)
  }

  function LeastPrime(m: nat): nat
    requires 2 <= m < 18
  {
    if m % 2 == 0 then 2 else if m % 3 == 0 then 3 else if m == 5 then 5 else m
  }

  lemma LeastPrimeDivides(m: nat)
    requires 2 <= m < 18
    ensures 2 <= LeastPrime(m) <= m && m % LeastPrime(m) == 0
    ensures LeastPrime(m) in {2, 3, 5, 7, 11, 13, 17}
  {
  }

  lemma Divides(n: nat, m: nat, p: nat)
    requires p > 0 && m > 0 && m % p == 0 && n % m == 0
    ensures n % p == 0
  {
    var k, j := n / m, m / p;
    Exact(n, m);
    Exact(m, p);
    assert n == p * (j * k) by {
      assert p * j * k == p * (j * k);
    }
    Multiple(p, j * k);
  }

  lemma Exact(n: nat, m: nat)
    requires m > 0 && n % m == 0
    ensures n == m * (n / m)
  {
  }

  lemma Multiple(p: nat, k: nat)
    requires p > 0
    ensures p * k % p == 0
  {
    RemainderUnique(p * k, p, k, 0);
  }

  lemma SmallDivisor(n: nat, m: nat)
    requires 2 <= m < 18 && m < n && n % m == 0
    ensures !Sieved(n)
  {
    LeastPrimeDivides(m);
    Divides(n, m, LeastPrime(m));
  }

  // One of two factors of a number below 18 * 18 is below 18.
  lemma SmallFactor(n: nat, d: nat)
    requires n < 324 && 2 <= d < n && n % d == 0
    ensures exists m :: 2 <= m < 18 && m < n && n % m == 0
  {
    var q := n / d;
    Exact(n, d);
    if d >= 18 {
      Factors(d, q);
      Multiple(q, d);
      assert 2 <= q < 18 && q < n && n % q == 0;
    }
  }

  lemma Factors(d: nat, q: nat)
    requires 18 <= d < d * q < 324
    ensures 2 <= q < 18
  {
    if q >= 18 {
      NoMore(18, d, q);
    }
  }

  lemma NoDivisor(n: nat, d: nat)
    requires n < 324 && Sieved(n) && 2 <= d < n
    ensures n % d != 0
  {
    if n % d == 0 {
      SmallFactor(n, d);
      var m :| 2 <= m < 18 && m < n && n % m == 0;
      SmallDivisor(n, m);
    }
  }

  // Below 18 * 18 the sieve leaves exactly the primes.
  lemma SievedExactly(n: nat)
    requires n < 324
    ensures Sieved(n) <==> IsPrime(n)
  {
    if Sieved(n) {
      forall d | 2 <= d < n
        ensures n % d != 0
      {
        NoDivisor(n, d);
      }
    }
  }

  lemma LowEntries(i: nat)
    requires i < 32
    ensures Sieved(Prime(i)) && Prime(i) < Prime(i + 1) < 324
  {
  }

  lemma HighEntries(i: nat)
    requires 32 <= i < 64
    ensures Sieved(Prime(i)) && Prime(i) < 324
    ensures i < 63 ==> Prime(i) < Prime(i + 1)
  {
  }

  // The entries are primes, in ascending order.
  lemma EntriesPrime(i: nat)
    requires i < 64
    ensures IsPrime(Prime(i))
    ensures i < 63 ==> Prime(i) < Prime(i + 1)
  {
    if i < 32 {
      LowEntries(i);
    } else {
      HighEntries(i);
    }
    SievedExactly(Prime(i));
  }

  lemma IndexFinds(n: nat)
    requires n in
      {2, 3, 5, 7, 11, 13, 17, 19, 23, 29, 31, 37, 41, 43, 47, 53, 59, 61, 67, 71, 73, 79, 83, 89,
       97, 101, 103, 107, 109, 113, 127, 131, 137, 139, 149, 151, 157, 163, 167, 173, 179, 181, 191,
       193, 197, 199, 211, 223, 227, 229, 233, 239, 241, 251, 257, 263, 269, 271, 277, 281, 283,
       293, 307, 311}
    ensures Index(n) < 64 && Prime(Index(n)) == n
  {
  }

  lemma LeftBelow48(n: nat)
    requires 2 <= n < 48 && Sieved(n)
    ensures n in {2, 3, 5, 7, 11, 13, 17, 19, 23, 29, 31, 37, 41, 43, 47}
  {
  }

  lemma LeftBelow80(n: nat)
    requires 48 <= n < 80 && Sieved(n)
    ensures n in {53, 59, 61, 67, 71, 73, 79}
  {
  }

  lemma LeftBelow112(n: nat)
    requires 80 <= n < 112 && Sieved(n)
    ensures n in {83, 89, 97, 101, 103, 107, 109}
  {
  }

  lemma LeftBelow144(n: nat)
    requires 112 <= n < 144 && Sieved(n)
    ensures n in {113, 127, 131, 137, 139}
  {
  }

  lemma LeftBelow176(n: nat)
    requires 144 <= n < 176 && Sieved(n)
    ensures n in {149, 151, 157, 163, 167, 173}
  {
  }

  lemma LeftBelow208(n: nat)
    requires 176 <= n < 208 && Sieved(n)
    ensures n in {179, 181, 191, 193, 197, 199}
  {
  }

  lemma LeftBelow240(n: nat)
    requires 208 <= n < 240 && Sieved(n)
    ensures n in {211, 223, 227, 229, 233, 239}
  {
  }

  lemma LeftBelow276(n: nat)
    requires 240 <= n < 276 && Sieved(n)
    ensures n in {241, 251, 257, 263, 269, 271}
  {
  }

  lemma LeftBelow312(n: nat)
    requires 276 <= n < 312 && Sieved(n)
    ensures n in {277, 281, 283, 293, 307, 311}
  {
  }

  // And no prime is skipped: so these are the first 64.
  lemma NoneSkipped(n: nat)
    requires IsPrime(n) && n < 312
    ensures Index(n) < 64 && Prime(Index(n)) == n
  {
    SievedExactly(n);
    if n < 48 {
      LeftBelow48(n);
    } else if n < 80 {
      LeftBelow80(n);
    } else if n < 112 {
      LeftBelow112(n);
    } else if n < 144 {
      LeftBelow144(n);
    } else if n < 176 {
      LeftBelow176(n);
    } else if n < 208 {
      LeftBelow208(n);
    } else if n < 240 {
      LeftBelow240(n);
    } else if n < 276 {
      LeftBelow276(n);
    } else {
      LeftBelow312(n);
    }
    IndexFinds(n);
  }
}
