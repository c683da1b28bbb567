/** `RationalRootTheorem`: the candidate rational roots ±p/q of a polynomial
    given as a degree-to-coefficient map, with p running over `Factorize` of
    the constant term's numerator and q over `Factorize` of the leading
    coefficient's denominator. */
module RationalRootTheorem {
  import opened Wrappers
  import opened Divisibility
  import opened Rationals
  import opened Ordering

  // ---------------------------------------------------------------------
  // Specification of `Factorize`.
  // ---------------------------------------------------------------------

  predicate Prime(p: int) {
    p >= 2 && forall d | 2 <= d < p :: p % d != 0
  }

  /** The primes below k that divide n, in increasing order. */
  function PrimeDivisorsBelow(n: nat, k: int): seq<int>
    decreases k
  {
    if k <= 2 then []
    else PrimeDivisorsBelow(n, k - 1) + (if Prime(k - 1) && n % (k - 1) == 0 then [k - 1] else [])
  }

  /** What `Factorize(n)` returns: 1, then the distinct prime factors of |n|
      in increasing order (not all divisors, and no multiplicities). */
  function Factors(n: int): (f: seq<int>)
    ensures AllPositive(f)
  {
    PrimeDivisorsBelowFacts(Abs(n), Abs(n) + 1);
    var rest := PrimeDivisorsBelow(Abs(n), Abs(n) + 1);
    assert forall i | 0 <= i < |rest| :: rest[i] in rest;
    [1] + rest
  }

  lemma {:induction false} PrimeDivisorsBelowFacts(n: nat, k: int)
    ensures StrictlyIncreasing(PrimeDivisorsBelow(n, k))
    ensures forall p :: p in PrimeDivisorsBelow(n, k) <==> 2 <= p < k && Prime(p) && n % p == 0
    decreases k
  {
    if k > 2 {
      PrimeDivisorsBelowFacts(n, k - 1);
      var prev := PrimeDivisorsBelow(n, k - 1);
      assert forall i | 0 <= i < |prev| :: prev[i] in prev;
    }
  }

  /** A positive multiple of d is at least d. */
  lemma DivisorBound(x: int, d: int)
    requires x > 0 && d > 0 && x % d == 0
    ensures d <= x
  {
    var q := ExactQuotient(x, d);
    MulMono(q, d);
  }

  /** Divisibility is transitive. */
  lemma DividesTrans(a: int, b: int, c: int)
    requires a > 0 && b > 0 && b % a == 0 && c % b == 0
    ensures c % a == 0
  {
    var s := ExactQuotient(b, a);
    var t := ExactQuotient(c, b);
    assert c == (t * s) * a;
    MultipleMod(c, t * s, a);
  }

  /** Every integer above 1 has a prime factor. */
  lemma {:induction false} PrimeFactorExists(n: int) returns (p: int)
    requires n >= 2
    ensures Prime(p) && n % p == 0
    decreases n
  {
    if Prime(n) {
      p := n;
      assert n == 1 * n;
      MultipleMod(n, 1, n);
    } else {
      var d :| 2 <= d < n && n % d == 0;
      p := PrimeFactorExists(d);
      DividesTrans(p, d, n);
    }
  }

  /** `Factorize` yields 1 followed by strictly increasing primes, each a
      factor of |n|, and, for n != 0, every prime factor of |n|. */
  lemma FactorsFacts(n: int)
    ensures |Factors(n)| >= 1 && Factors(n)[0] == 1
    ensures StrictlyIncreasing(Factors(n))
    ensures forall i | 1 <= i < |Factors(n)| :: Prime(Factors(n)[i]) && Abs(n) % Factors(n)[i] == 0
    ensures n != 0 ==> forall p | Prime(p) && Abs(n) % p == 0 :: p in Factors(n)
    ensures forall i | 0 <= i < |Factors(n)| :: Factors(n)[i] >= 1
  {
    var rest := PrimeDivisorsBelow(Abs(n), Abs(n) + 1);
    PrimeDivisorsBelowFacts(Abs(n), Abs(n) + 1);
    forall i | 1 <= i < |Factors(n)|
      ensures Prime(Factors(n)[i]) && Abs(n) % Factors(n)[i] == 0
    {
      assert Factors(n)[i] == rest[i - 1];
      assert rest[i - 1] in rest;
    }
    if n != 0 {
      forall p | Prime(p) && Abs(n) % p == 0
        ensures p in Factors(n)
      {
        DivisorBound(Abs(n), p);
        assert p in rest;
      }
    }
  }

  /** Only 0, 1 and -1 factorize to the bare [1]. */
  lemma FactorsTrivial(n: int)
    ensures Factors(n) == [1] <==> -1 <= n <= 1
  {
    FactorsFacts(n);
    if Abs(n) >= 2 {
      var p := PrimeFactorExists(Abs(n));
      assert p in Factors(n);
    }
  }

  // ---------------------------------------------------------------------
  // `Factorize`: trial division.
  // ---------------------------------------------------------------------

  /** The state of trial division of N at divisor i with cofactor m: every
      prime factor of N below i has been divided out of m, and every prime
      factor from i on still divides m. */
  ghost predicate Trial(N: nat, m: int, i: int) {
    && 2 <= i <= N + 1 && 1 <= m <= N && N % m == 0
    && (forall d | 2 <= d < i :: m % d != 0)
    && (forall p | i <= p && Prime(p) && N % p == 0 :: m % p == 0)
  }

  /** The same state while the prime i is being divided out. */
  ghost predicate Dividing(N: nat, m: int, i: int) {
    && 2 <= i <= N && 1 <= m <= N && N % m == 0
    && (forall d | 2 <= d < i :: m % d != 0)
    && (forall p | i < p && Prime(p) && N % p == 0 :: m % p == 0)
  }

  lemma MulBoth(a: int, b: int, c: int, d: int)
    requires 0 <= a <= b && 0 <= c <= d
    ensures a * c <= b * d
  {
    assert (b - a) * c >= 0;
    assert b * (d - c) >= 0;
  }

  /** While i * i <= m, i divides m exactly when it is a prime factor of N. */
  lemma NextCandidate(N: nat, m: int, i: int)
    requires Trial(N, m, i) && i * i <= m
    ensures i <= N
    ensures m % i == 0 <==> Prime(i) && N % i == 0
  {
    MulMono(i, i);
    if m % i == 0 {
      forall d | 2 <= d < i
        ensures i % d != 0
      {
        if i % d == 0 {
          DividesTrans(d, i, m);
        }
      }
      DividesTrans(i, m, N);
    }
  }

  /** Distinct primes share no factor. */
  lemma DistinctPrimesCoprime(i: int, p: int)
    requires Prime(i) && Prime(p) && i != p
    ensures Gcd(i, p) == 1
  {
    GcdDivides(i, p);
    var g := Gcd(i, p);
    DivisorBound(i, g);
    DivisorBound(p, g);
  }

  /** Dividing a positive multiple m of i >= 2 by i gives a smaller positive
      divisor of m. */
  lemma QuotientShrinks(m: int, i: int) returns (m': int)
    requires m >= 1 && i >= 2 && m % i == 0
    ensures m' == m / i && m == m' * i && 1 <= m' < m && m % m' == 0
  {
    m' := ExactQuotient(m, i);
    assert m' * i >= m' * 2;
    MultipleMod(m, i, m');
  }

  /** A factor of m' divides m' * i too. */
  lemma NoSmallFactor(m: int, m': int, i: int)
    requires m' >= 1 && m % m' == 0 && m >= 1
    requires forall d | 2 <= d < i :: m % d != 0
    ensures forall d | 2 <= d < i :: m' % d != 0
  {
    forall d | 2 <= d < i
      ensures m' % d != 0
    {
      if m' % d == 0 {
        DividesTrans(d, m', m);
      }
    }
  }

  /** A prime other than i that divides m' * i divides m'. */
  lemma OtherPrimesStay(N: nat, m: int, m': int, i: int)
    requires Prime(i) && m == m' * i
    requires forall p | i < p && Prime(p) && N % p == 0 :: m % p == 0
    ensures forall p | i < p && Prime(p) && N % p == 0 :: m' % p == 0
  {
    forall p | i < p && Prime(p) && N % p == 0
      ensures m' % p == 0
    {
      DistinctPrimesCoprime(i, p);
      assert (i * m') % p == 0;
      CoprimeDividesFactor(p, i, m');
    }
  }

  /** One step of `while (n % i == 0) n /= i;`. */
  lemma DivideOut(N: nat, m: int, i: int)
    requires Dividing(N, m, i) && Prime(i) && m % i == 0
    ensures Dividing(N, m / i, i) && m / i < m
  {
    var m' := QuotientShrinks(m, i);
    DividesTrans(m', m, N);
    NoSmallFactor(m, m', i);
    OtherPrimesStay(N, m, m', i);
  }

  lemma StartDividing(N: nat, m: int, i: int)
    requires Trial(N, m, i) && i <= N
    ensures Dividing(N, m, i)
  {
  }

  /** With i divided out completely, trial division moves on to i + 1. */
  lemma NextDivisor(N: nat, m: int, i: int)
    requires Dividing(N, m, i) && m % i != 0
    ensures Trial(N, m, i + 1)
    ensures PrimeDivisorsBelow(N, i + 1) == PrimeDivisorsBelow(N, i) + (if Prime(i) && N % i == 0 then [i] else [])
  {
  }

  /** Once i * i > m, what is left of m is 1 or a prime. */
  lemma LastFactorPrime(N: nat, m: int, i: int)
    requires Trial(N, m, i) && i * i > m && m > 1
    ensures Prime(m) && i <= m
  {
    forall d | 2 <= d < m
      ensures m % d != 0
    {
      if m % d == 0 {
        var q := ExactQuotient(m, d);
        assert m == d * q;
        MultipleMod(m, d, q);
        MulBoth(i, d, i, q);
      }
    }
    if m < i {
      assert m == 1 * m;
      MultipleMod(m, 1, m);
    }
  }

  /** Above the last trial divisor, the only prime factor of N left is m. */
  lemma {:induction false} Tail(N: nat, m: int, i: int, k: int)
    requires Trial(N, m, i) && (m == 1 || (Prime(m) && i <= m)) && i <= k <= N + 1
    ensures PrimeDivisorsBelow(N, k) == PrimeDivisorsBelow(N, i) + (if 1 < m < k then [m] else [])
    decreases k - i
  {
    if k > i {
      Tail(N, m, i, k - 1);
      var c := k - 1;
      if Prime(c) && N % c == 0 {
        assert m % c == 0;
        DivisorBound(m, c);
      }
      if 1 < m && m == c {
        DivisorBound(N, m);
      }
    }
  }

  /** When trial division stops, the cofactor left over, if above 1, is the
      last prime factor. */
  lemma LastFactor(N: nat, m: int, i: int)
    requires N == 0 ==> m == 0 && i == 2
    requires N > 0 ==> Trial(N, m, i)
    requires i * i > m
    ensures [1] + PrimeDivisorsBelow(N, i) + (if m > 1 then [m] else []) == [1] + PrimeDivisorsBelow(N, N + 1)
  {
    if N > 0 {
      if m > 1 {
        LastFactorPrime(N, m, i);
      }
      Tail(N, m, i, N + 1);
    }
  }

  /** `Factorize`: trial division of |n|, dividing each prime factor out of
      n as it is found, then adding what is left if it exceeds 1. */
  method Factorize(n: int) returns (factors: seq<int>)
    ensures factors == Factors(n)
  {
    var m := Abs(n);
    ghost var N: nat := m;
    factors := [1];
    var i := 2;
    while i * i <= m
      invariant N == 0 ==> m == 0 && i == 2
      invariant N > 0 ==> Trial(N, m, i)
      invariant factors == [1] + PrimeDivisorsBelow(N, i)
      decreases N + 1 - i
    {
      NextCandidate(N, m, i);
      StartDividing(N, m, i);
      if m % i == 0 {
        factors := factors + [i];
        while m % i == 0
          invariant Dividing(N, m, i)
          decreases m
        {
          DivideOut(N, m, i);
          m := m / i;
        }
      }
      NextDivisor(N, m, i);
      i := i + 1;
    }
    LastFactor(N, m, i);
    if m > 1 {
      factors := factors + [m];
    }
  }

  // ---------------------------------------------------------------------
  // `GetPossibleRoots`.
  // ---------------------------------------------------------------------

  predicate AllPositive(qs: seq<int>) {
    forall i | 0 <= i < |qs| :: qs[i] > 0
  }

  /** The two rationals one pair (p, q) adds: `new Rational(p, q)` and
      `new Rational(BigInteger.Negate(p), q)`. */
  function PairCandidates(p: int, q: int): set<Rat>
    requires q != 0
  {
    {Normalize(p, q), Normalize(-p, q)}
  }

  /** The candidates the inner loop adds for one p. */
  function Row(p: int, qs: seq<int>): set<Rat>
    requires AllPositive(qs)
  {
    if qs == [] then {}
    else Row(p, qs[..|qs| - 1]) + PairCandidates(p, qs[|qs| - 1])
  }

  /** The candidate set once the outer loop has run over ps. */
  function Grid(ps: seq<int>, qs: seq<int>): set<Rat>
    requires AllPositive(qs)
  {
    if ps == [] then {}
    else Grid(ps[..|ps| - 1], qs) + Row(ps[|ps| - 1], qs)
  }

  /** r is one of the ±p/q formed from p in ps and q in qs. */
  ghost predicate Formed(r: Rat, ps: seq<int>, qs: seq<int>)
    requires AllPositive(qs)
  {
    exists a, b | 0 <= a < |ps| && 0 <= b < |qs| :: r in PairCandidates(ps[a], qs[b])
  }

  lemma {:induction false} RowMembers(p: int, qs: seq<int>, r: Rat)
    requires AllPositive(qs)
    ensures r in Row(p, qs) <==> exists b | 0 <= b < |qs| :: r in PairCandidates(p, qs[b])
    decreases |qs|
  {
    if qs != [] {
      var init, last := qs[..|qs| - 1], qs[|qs| - 1];
      RowMembers(p, init, r);
      if r in Row(p, qs) {
        if r in Row(p, init) {
          var b :| 0 <= b < |init| && r in PairCandidates(p, init[b]);
          assert init[b] == qs[b];
        } else {
          assert r in PairCandidates(p, qs[|qs| - 1]);
        }
      }
      if exists b | 0 <= b < |qs| :: r in PairCandidates(p, qs[b]) {
        var b :| 0 <= b < |qs| && r in PairCandidates(p, qs[b]);
        if b < |qs| - 1 {
          assert init[b] == qs[b];
        }
      }
    }
  }

  /** Every member of the candidate set is some ±p/q. */
  lemma {:induction false} GridSound(ps: seq<int>, qs: seq<int>, r: Rat)
    requires AllPositive(qs) && r in Grid(ps, qs)
    ensures Formed(r, ps, qs)
    decreases |ps|
  {
    var init, last := ps[..|ps| - 1], ps[|ps| - 1];
    if r in Grid(init, qs) {
      GridSound(init, qs, r);
      var a, b :| 0 <= a < |init| && 0 <= b < |qs| && r in PairCandidates(init[a], qs[b]);
      assert init[a] == ps[a];
    } else {
      RowMembers(last, qs, r);
      var b :| 0 <= b < |qs| && r in PairCandidates(last, qs[b]);
      assert ps[|ps| - 1] == last;
    }
  }

  /** Every ±p/q is in the candidate set. */
  lemma {:induction false} GridComplete(ps: seq<int>, qs: seq<int>, r: Rat)
    requires AllPositive(qs) && Formed(r, ps, qs)
    ensures r in Grid(ps, qs)
    decreases |ps|
  {
    var init, last := ps[..|ps| - 1], ps[|ps| - 1];
    var a, b :| 0 <= a < |ps| && 0 <= b < |qs| && r in PairCandidates(ps[a], qs[b]);
    if a < |ps| - 1 {
      assert init[a] == ps[a];
      GridComplete(init, qs, r);
    } else {
      RowMembers(last, qs, r);
    }
  }

  /** The candidate set holds exactly the ±p/q for p in ps and q in qs. */
  lemma GridMembers(ps: seq<int>, qs: seq<int>, r: Rat)
    requires AllPositive(qs)
    ensures r in Grid(ps, qs) <==> Formed(r, ps, qs)
  {
    if r in Grid(ps, qs) {
      GridSound(ps, qs, r);
    }
    if Formed(r, ps, qs) {
      GridComplete(ps, qs, r);
    }
  }

  /** `new Rational(-p, q)` is the negation of `new Rational(p, q)`. */
  lemma NegateNormalize(p: int, q: int)
    requires q != 0
    ensures Normalize(-p, q) == Neg(Normalize(p, q))
  {
    NormalizeValue(p, q);
    NormalizeValue(-p, q);
    ValueDeterminesRat(Normalize(-p, q), Neg(Normalize(p, q)));
  }

  /** Both members of a pair are nonzero when p is, and each is the
      other's negation. */
  lemma PairFacts(p: int, q: int)
    requires p != 0 && q != 0
    ensures forall r | r in PairCandidates(p, q) :: r.num != 0 && Neg(r) in PairCandidates(p, q)
  {
    NegateNormalize(p, q);
    NegateNormalize(-p, q);
    assert - -p == p;
    var r1, r2 := Normalize(p, q), Normalize(-p, q);
    assert r1.num * q != 0;
    assert r2.num * q != 0;
  }

  /** With every p positive, no candidate is zero and the negation of a
      candidate is a candidate. */
  lemma FormedFacts(r: Rat, ps: seq<int>, qs: seq<int>)
    requires AllPositive(ps) && AllPositive(qs) && Formed(r, ps, qs)
    ensures r.num != 0 && Formed(Neg(r), ps, qs)
  {
    var a, b :| 0 <= a < |ps| && 0 <= b < |qs| && r in PairCandidates(ps[a], qs[b]);
    PairFacts(ps[a], qs[b]);
  }

  // ---------------------------------------------------------------------
  // `OrderBy(key)` on a set whose keys are pairwise distinct.
  // ---------------------------------------------------------------------

  ghost predicate Injective<T(!new)>(key: T -> real) {
    forall a, b :: key(a) == key(b) ==> a == b
  }

  predicate AscendingBy<T>(s: seq<T>, key: T -> real) {
    forall i, j | 0 <= i < j < |s| :: key(s[i]) < key(s[j])
  }

  lemma {:induction false} SmallestExists<T>(s: set<T>, key: T -> real) returns (m: T)
    requires s != {}
    ensures m in s && forall x | x in s :: key(m) <= key(x)
    decreases |s|
  {
    var a :| a in s;
    var t := s - {a};
    if t == {} {
      assert s == {a};
      m := a;
    } else {
      var b := SmallestExists(t, key);
      m := if key(a) < key(b) then a else b;
      forall x | x in s
        ensures key(m) <= key(x)
      {
        if x != a {
          assert x in t;
        }
      }
    }
  }

  /** With an injective key the smallest element is unique. */
  lemma SmallestUnique<T(!new)>(s: set<T>, key: T -> real, m: T, m': T)
    requires Injective(key)
    requires m in s && forall x | x in s :: key(m) <= key(x)
    requires m' in s && forall x | x in s :: key(m') <= key(x)
    ensures m == m'
  {
  }

  lemma HasSmallest<T>(s: set<T>, key: T -> real)
    requires s != {}
    ensures exists m :: m in s && forall x | x in s :: key(m) <= key(x)
  {
    var m := SmallestExists(s, key);
  }

  function Smallest<T(!new)>(s: set<T>, key: T -> real): (m: T)
    requires s != {} && Injective(key)
    ensures m in s && forall x | x in s :: key(m) <= key(x)
  {
    HasSmallest(s, key);
    assert forall m, m' | m in s && m' in s && (forall x | x in s :: key(m) <= key(x)) && (forall x | x in s :: key(m') <= key(x)) :: m == m';
    var m :| m in s && forall x | x in s :: key(m) <= key(x);
    m
  }

  /** The elements of a finite set in ascending order of an injective key:
      what `OrderBy` yields, whatever order the set is enumerated in. */
  function {:induction false} SortedBy<T(!new)>(s: set<T>, key: T -> real): (r: seq<T>)
    requires Injective(key)
    ensures |r| == |s| && AscendingBy(r, key)
    ensures forall x :: x in r <==> x in s
    decreases |s|
  {
    if s == {} then []
    else
      var m := Smallest(s, key);
      var rest := SortedBy(s - {m}, key);
      PrependSmallest(s, key, m, rest);
      [m] + rest
  }

  lemma PrependSmallest<T(!new)>(s: set<T>, key: T -> real, m: T, rest: seq<T>)
    requires Injective(key)
    requires m in s && forall x | x in s :: key(m) <= key(x)
    requires AscendingBy(rest, key) && forall x :: x in rest <==> x in s - {m}
    ensures AscendingBy([m] + rest, key) && forall x :: x in [m] + rest <==> x in s
  {
    forall j | 0 <= j < |rest|
      ensures key(m) < key(rest[j])
    {
      assert rest[j] in s - {m};
    }
  }

  /** Strictly ascending keys leave no room for duplicates. */
  lemma AscendingDistinct<T>(s: seq<T>, key: T -> real)
    requires AscendingBy(s, key)
    ensures forall i, j | 0 <= i < j < |s| :: s[i] != s[j]
  {
  }

  /** `Rational.ToDouble` as a total function on constructed rationals. */
  function DoubleOf(r: Rat): real {
    ToDouble(r)
  }

  lemma ValueInjective()
    ensures Injective(DoubleOf)
  {
    forall a: Rat, b: Rat | DoubleOf(a) == DoubleOf(b)
      ensures a == b
    {
      ValueDeterminesRat(a, b);
    }
  }

  // ---------------------------------------------------------------------
  // The candidate list.
  // ---------------------------------------------------------------------

  /** The leading coefficient, `coeffs[coeffs.Keys.Max()]`. */
  function Leading(coeffs: map<int, Rat>): Rat
    requires 0 in coeffs
  {
    assert 0 in coeffs.Keys;
    coeffs[Maximum(coeffs.Keys)]
  }

  /** The candidate set: ±p/q with p from the constant's numerator and q
      from the leading coefficient's denominator. */
  function CandidateSet(coeffs: map<int, Rat>): set<Rat>
    requires 0 in coeffs
  {
    Grid(Factors(coeffs[0].num), Factors(Leading(coeffs).den))
  }

  /** `GetPossibleRoots`: a map without degree 0 throws on `coeffs[0]`;
      otherwise the candidate set in ascending order of value. */
  function PossibleRoots(coeffs: map<int, Rat>): Result<seq<Rat>> {
    if 0 !in coeffs then Throw(KeyNotFound)
    else
      ValueInjective();
      Ok(SortedBy(CandidateSet(coeffs), DoubleOf))
  }

  /** The candidates are exactly the ±p/q described. */
  lemma CandidatesAreFormed(coeffs: map<int, Rat>, r: Rat)
    requires 0 in coeffs
    ensures PossibleRoots(coeffs).Ok?
    ensures r in PossibleRoots(coeffs).value <==> Formed(r, Factors(coeffs[0].num), Factors(Leading(coeffs).den))
  {
    GridMembers(Factors(coeffs[0].num), Factors(Leading(coeffs).den), r);
  }

  /** The candidate list is sorted ascending by value and has no
      duplicates. */
  lemma CandidatesAscending(coeffs: map<int, Rat>)
    requires 0 in coeffs
    ensures PossibleRoots(coeffs).Ok?
    ensures AscendingBy(PossibleRoots(coeffs).value, DoubleOf)
    ensures forall i, j | 0 <= i < j < |PossibleRoots(coeffs).value| :: PossibleRoots(coeffs).value[i] != PossibleRoots(coeffs).value[j]
  {
    AscendingDistinct(PossibleRoots(coeffs).value, DoubleOf);
  }

  /** No candidate is zero and the list is closed under negation. */
  lemma CandidatesSymmetric(coeffs: map<int, Rat>, r: Rat)
    requires 0 in coeffs
    ensures PossibleRoots(coeffs).Ok?
    ensures r in PossibleRoots(coeffs).value ==> r.num != 0 && Neg(r) in PossibleRoots(coeffs).value
  {
    var ps, qs := Factors(coeffs[0].num), Factors(Leading(coeffs).den);
    CandidatesAreFormed(coeffs, r);
    CandidatesAreFormed(coeffs, Neg(r));
    if r in PossibleRoots(coeffs).value {
      FormedFacts(r, ps, qs);
    }
  }

  /** Over p = q = 1 the only candidates are 1 and -1. */
  lemma OnlyUnits(r: Rat)
    requires Formed(r, [1], [1])
    ensures r == Rational(1, 1) || r == Rational(-1, 1)
  {
    assert Normalize(1, 1) == FromInt(1) && Normalize(-1, 1) == FromInt(-1);
  }

  /** The leading coefficient's denominator, not its numerator, bounds the
      candidates: 2x - 1 has the root 1/2, which is never proposed. */
  lemma MissesRootOneHalf()
    ensures var coeffs := map[0 := FromInt(-1), 1 := FromInt(2)];
            PossibleRoots(coeffs).Ok? && Rational(1, 2) !in PossibleRoots(coeffs).value
  {
    var coeffs := map[0 := FromInt(-1), 1 := FromInt(2)];
    assert coeffs.Keys == {0, 1};
    assert Maximum(coeffs.Keys) == 1;
    FactorsTrivial(-1);
    FactorsTrivial(1);
    var half: Rat := Rational(1, 2);
    CandidatesAreFormed(coeffs, half);
    if Formed(half, [1], [1]) {
      OnlyUnits(half);
    }
  }

  /** Only distinct primes are proposed as numerators: x - 4 has the root 4,
      which is never proposed. */
  lemma MissesRootFour()
    ensures var coeffs := map[0 := FromInt(-4), 1 := FromInt(1)];
            PossibleRoots(coeffs).Ok? && Rational(4, 1) !in PossibleRoots(coeffs).value
  {
    var coeffs := map[0 := FromInt(-4), 1 := FromInt(1)];
    assert coeffs.Keys == {0, 1};
    assert Maximum(coeffs.Keys) == 1;
    FactorsTrivial(1);
    assert !Prime(4) by {
      assert 4 % 2 == 0;
    }
    assert Factors(-4) == [1, 2];
    CandidatesAreFormed(coeffs, Rational(4, 1));
    FourNotFormed();
  }

  lemma FourNotFormed()
    ensures !Formed(Rational(4, 1), [1, 2], [1])
  {
    forall a, b | 0 <= a < 2 && 0 <= b < 1
      ensures Rational(4, 1) !in PairCandidates([1, 2][a], [1][b])
    {
      var p := [1, 2][a];
      assert [1][b] == 1;
      assert Normalize(p, 1) == FromInt(p) && Normalize(-p, 1) == FromInt(-p);
    }
  }

  /** One pass of the inner loop adds the pair for qs[j]. */
  lemma RowStep(p: int, qs: seq<int>, j: int, done: set<Rat>, candidates: set<Rat>)
    requires AllPositive(qs) && 0 <= j < |qs|
    requires candidates == done + Row(p, qs[..j])
    ensures candidates + {Normalize(p, qs[j])} + {Normalize(-p, qs[j])} == done + Row(p, qs[..j + 1])
  {
    assert qs[..j + 1][..j] == qs[..j];
  }

  lemma GridStep(ps: seq<int>, qs: seq<int>, i: int)
    requires AllPositive(qs) && 0 <= i < |ps|
    ensures Grid(ps[..i + 1], qs) == Grid(ps[..i], qs) + Row(ps[i], qs)
  {
    assert ps[..i + 1][..i] == ps[..i];
  }

  /** `GetPossibleRoots`: nested loops add ±p/q to a hash set, which is then
      ordered by value. */
  method GetPossibleRoots(coeffs: map<int, Rat>) returns (result: Result<seq<Rat>>)
    ensures result == PossibleRoots(coeffs)
  {
    if 0 !in coeffs {
      return Throw(KeyNotFound);
    }
    var constant := coeffs[0];
    var leading := Leading(coeffs);
    var pFactors := Factorize(constant.num);
    var qFactors := Factorize(leading.den);
    var candidates: set<Rat> := {};
    var i := 0;
    while i < |pFactors|
      invariant 0 <= i <= |pFactors|
      invariant candidates == Grid(pFactors[..i], qFactors)
    {
      var p := pFactors[i];
      var j := 0;
      ghost var done := candidates;
      while j < |qFactors|
        invariant 0 <= j <= |qFactors|
        invariant candidates == done + Row(p, qFactors[..j])
      {
        var q := qFactors[j];
        RowStep(p, qFactors, j, done, candidates);
        candidates := candidates + {Normalize(p, q)};
        candidates := candidates + {Normalize(-p, q)};
        j := j + 1;
      }
      assert qFactors[..j] == qFactors;
      GridStep(pFactors, qFactors, i);
      i := i + 1;
    }
    assert pFactors[..i] == pFactors;
    ValueInjective();
    return Ok(SortedBy(candidates, DoubleOf));
  }
}
