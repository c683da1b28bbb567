/** PolynomialLongDivision.cs: exact division of two polynomials given by
    their degree → coefficient maps, and the tree that spells out a quotient. */
module PolynomialLongDivision {
  import opened Wrappers
  import opened Expressions
  import opened Rationals
  import opened Ordering
  import opened PolynomialCoefficientCollector

  // ---------------------------------------------------------------------
  // One step: subtract termCoeff · x^termDegree · divisor from the remainder.
  // ---------------------------------------------------------------------

  /** One pass of the inner `foreach`: subtract `sub` from the entry of
      degree `deg`, removing it if the difference is zero, or store −sub if
      there is no such entry. */
  function SubtractAt(rem: map<int, Rat>, deg: int, sub: Rat): (r: map<int, Rat>)
    ensures CoefVal(r, deg) == CoefVal(rem, deg) - Rationals.ToDouble(sub)
    ensures r.Keys <= rem.Keys + {deg}
    ensures deg in rem ==> deg in r ==> r[deg].num != 0
  {
    if deg in rem then
      var newCoeff := Sub(rem[deg], sub);
      if newCoeff.num == 0 then rem - {deg} else rem[deg := newCoeff]
    else rem[deg := Neg(sub)]
  }

  lemma SubtractAtElsewhere(rem: map<int, Rat>, deg: int, sub: Rat, k: int)
    requires k != deg
    ensures k in SubtractAt(rem, deg, sub) <==> k in rem
    ensures CoefVal(SubtractAt(rem, deg, sub), k) == CoefVal(rem, k)
  {
    var r := SubtractAt(rem, deg, sub);
    if k in rem {
      assert k in r && r[k] == rem[k];
    }
  }

  /** The inner `foreach` over the divisor's degrees `degs`, in order: the
      pass over the first |degs| − 1 entries, then the last one. */
  function SubtractTerms(rem: map<int, Rat>, divisor: map<int, Rat>, degs: seq<int>, td: int, tc: Rat): map<int, Rat>
    decreases |degs|
  {
    if degs == [] then rem
    else
      var b := degs[|degs| - 1];
      SubtractAt(SubtractTerms(rem, divisor, degs[..|degs| - 1], td, tc), b + td, Mul(tc, Get(divisor, b)))
  }

  lemma SubtractTermsStep(rem: map<int, Rat>, divisor: map<int, Rat>, degs: seq<int>, j: int, td: int, tc: Rat)
    requires 0 <= j < |degs|
    ensures SubtractTerms(rem, divisor, degs[..j + 1], td, tc)
            == SubtractAt(SubtractTerms(rem, divisor, degs[..j], td, tc), degs[j] + td, Mul(tc, Get(divisor, degs[j])))
  {
    assert degs[..j + 1][..j] == degs[..j];
  }

  /** The remainder minus tc · x^td · divisor, the divisor's entries taken
      from the highest degree down as the `SortedDictionary` enumerates them. */
  function SubtractMultiple(rem: map<int, Rat>, divisor: map<int, Rat>, td: int, tc: Rat): map<int, Rat> {
    SubtractTerms(rem, divisor, Descending(divisor.Keys), td, tc)
  }

  /** The sum of tc · divisor[b] over the degrees b in `degs` with b + td == k. */
  function Matching(divisor: map<int, Rat>, degs: seq<int>, td: int, tc: Rat, k: int): real
    decreases |degs|
  {
    if degs == [] then 0.0
    else
      var b := degs[|degs| - 1];
      Matching(divisor, degs[..|degs| - 1], td, tc, k)
      + (if b + td == k then Rationals.ToDouble(Mul(tc, Get(divisor, b))) else 0.0)
  }

  lemma {:induction false} SubtractTermsValue(rem: map<int, Rat>, divisor: map<int, Rat>, degs: seq<int>, td: int, tc: Rat, k: int)
    ensures CoefVal(SubtractTerms(rem, divisor, degs, td, tc), k) == CoefVal(rem, k) - Matching(divisor, degs, td, tc, k)
    decreases |degs|
  {
    if degs != [] {
      var b := degs[|degs| - 1];
      var prev := SubtractTerms(rem, divisor, degs[..|degs| - 1], td, tc);
      SubtractTermsValue(rem, divisor, degs[..|degs| - 1], td, tc, k);
      if k != b + td {
        SubtractAtElsewhere(prev, b + td, Mul(tc, Get(divisor, b)), k);
      }
    }
  }

  /** Over distinct degrees, only b == k − td can match. */
  lemma {:induction false} MatchingSingle(divisor: map<int, Rat>, degs: seq<int>, td: int, tc: Rat, k: int)
    requires forall i, j | 0 <= i < j < |degs| :: degs[i] != degs[j]
    ensures Matching(divisor, degs, td, tc, k)
            == if k - td in degs then Rationals.ToDouble(Mul(tc, Get(divisor, k - td))) else 0.0
    decreases |degs|
  {
    if degs != [] {
      var n := |degs| - 1;
      var front := degs[..n];
      MatchingSingle(divisor, front, td, tc, k);
      if degs[n] + td == k {
        assert k - td !in front by {
          forall i | 0 <= i < |front|
            ensures front[i] != k - td
          {
            assert front[i] == degs[i];
          }
        }
      } else {
        assert k - td in degs <==> k - td in front by {
          if k - td in degs {
            var i :| 0 <= i < |degs| && degs[i] == k - td;
            assert i < n && front[i] == k - td;
          }
        }
      }
    }
  }

  lemma ZeroProduct(tc: Rat)
    ensures Rationals.ToDouble(Mul(tc, Zero)) == 0.0
  {
  }

  /** The remainder after one step, degree by degree. */
  lemma SubtractMultipleValue(rem: map<int, Rat>, divisor: map<int, Rat>, td: int, tc: Rat, k: int)
    ensures CoefVal(SubtractMultiple(rem, divisor, td, tc), k)
            == CoefVal(rem, k) - Rationals.ToDouble(Mul(tc, Get(divisor, k - td)))
  {
    var degs := Descending(divisor.Keys);
    DescendingMembers(divisor.Keys);
    DescendingDistinct(divisor.Keys);
    SubtractTermsValue(rem, divisor, degs, td, tc, k);
    MatchingSingle(divisor, degs, td, tc, k);
    if k - td !in degs {
      assert Get(divisor, k - td) == Zero;
      ZeroProduct(tc);
    }
  }

  /** Entries stay at or below `top` when every shifted divisor degree does. */
  lemma {:induction false} SubtractTermsBounded(rem: map<int, Rat>, divisor: map<int, Rat>, degs: seq<int>, td: int, tc: Rat, top: int)
    requires forall j | j in rem :: j <= top
    requires forall b | b in degs :: b + td <= top
    ensures forall j | j in SubtractTerms(rem, divisor, degs, td, tc) :: j <= top
    decreases |degs|
  {
    if degs != [] {
      var n := |degs| - 1;
      assert degs[n] in degs;
      assert forall b | b in degs[..n] :: b in degs;
      SubtractTermsBounded(rem, divisor, degs[..n], td, tc, top);
    }
  }

  /** When the first step removes degree `top` and no later step touches it,
      the pass leaves no entry there. */
  lemma {:induction false} SubtractTermsCancels(rem: map<int, Rat>, divisor: map<int, Rat>, degs: seq<int>, td: int, tc: Rat, top: int)
    requires degs != [] && degs[0] + td == top
    requires top !in SubtractAt(rem, top, Mul(tc, Get(divisor, degs[0])))
    requires forall i | 0 < i < |degs| :: degs[i] + td != top
    ensures top !in SubtractTerms(rem, divisor, degs, td, tc)
    decreases |degs|
  {
    var n := |degs| - 1;
    var front := degs[..n];
    if n == 0 {
      assert front == [];
    } else {
      assert front[0] == degs[0];
      forall i | 0 < i < |front|
        ensures front[i] + td != top
      {
        assert front[i] == degs[i];
      }
      SubtractTermsCancels(rem, divisor, front, td, tc, top);
      SubtractAtElsewhere(SubtractTerms(rem, divisor, front, td, tc), degs[n] + td, Mul(tc, Get(divisor, degs[n])), top);
    }
  }

  /** The leading term cancels exactly. */
  lemma LeadCancels(lead: Rat, ld: Rat)
    requires ld.num != 0
    ensures Div(lead, ld).Ok?
    ensures Sub(lead, Mul(Div(lead, ld).value, ld)).num == 0
  {
    var tc := Div(lead, ld).value;
    var d := Sub(lead, Mul(tc, ld));
    var m := Mul(tc, ld);
    assert Rationals.ToDouble(m) == Rationals.ToDouble(lead);
    assert Rationals.ToDouble(d) == Rationals.ToDouble(lead) - Rationals.ToDouble(m);
    ZeroIsCanonical(d);
  }

  /** The divisor the loop runs with: `dd` is its highest degree and `ld`,
      the coefficient there, is not zero. */
  predicate Leading(divisor: map<int, Rat>, dd: int, ld: Rat) {
    dd in divisor && divisor[dd] == ld && ld.num != 0 && forall b | b in divisor :: b <= dd
  }

  /** One iteration cancels the remainder's top degree: everything left is
      strictly below it. */
  lemma StepLowersTop(rem: map<int, Rat>, divisor: map<int, Rat>, dd: int, ld: Rat, cd: int, td: int, tc: Rat)
    requires Leading(divisor, dd, ld) && rem != map[]
    requires cd == Maximum(rem.Keys) >= dd && td == cd - dd && Div(rem[cd], ld) == Ok(tc)
    ensures forall j | j in SubtractMultiple(rem, divisor, td, tc) :: j < cd
  {
    LeadCancels(rem[cd], ld);
    assert Get(divisor, dd) == ld;
    assert cd !in SubtractAt(rem, cd, Mul(tc, ld));
    MultipleBelow(rem, divisor, dd, td, tc, cd);
  }

  /** The shifted divisor reaches `top` only through its leading degree; if
      that entry cancels, the result lies strictly below `top`. */
  lemma MultipleBelow(rem: map<int, Rat>, divisor: map<int, Rat>, dd: int, td: int, tc: Rat, top: int)
    requires dd in divisor && forall b | b in divisor :: b <= dd
    requires dd + td == top && forall j | j in rem :: j <= top
    requires top !in SubtractAt(rem, top, Mul(tc, Get(divisor, dd)))
    ensures forall j | j in SubtractMultiple(rem, divisor, td, tc) :: j < top
  {
    var degs := Descending(divisor.Keys);
    MaximumUnique(divisor.Keys, dd);
    DescendingSorted(divisor.Keys);
    forall i | 0 < i < |degs|
      ensures degs[i] + td != top
    {
      assert degs[0] > degs[i];
    }
    SubtractTermsBounded(rem, divisor, degs, td, tc, top);
    SubtractTermsCancels(rem, divisor, degs, td, tc, top);
  }

  /** How far the remainder's top degree still is from the divisor's. */
  function Measure(rem: map<int, Rat>, dd: int): nat {
    if rem == map[] || Maximum(rem.Keys) < dd then 0 else Maximum(rem.Keys) - dd + 1
  }

  lemma MeasureDrops(rem: map<int, Rat>, divisor: map<int, Rat>, dd: int, ld: Rat, cd: int, td: int, tc: Rat)
    requires Leading(divisor, dd, ld) && rem != map[]
    requires cd == Maximum(rem.Keys) >= dd && td == cd - dd && Div(rem[cd], ld) == Ok(tc)
    ensures Measure(SubtractMultiple(rem, divisor, td, tc), dd) < Measure(rem, dd)
  {
    StepLowersTop(rem, divisor, dd, ld, cd, td, tc);
  }

  /** `Divide`: the while loop, followed by the exactness check. */
  function LongDivide(rem: map<int, Rat>, divisor: map<int, Rat>, dd: int, ld: Rat, quotient: map<int, Rat>): Option<map<int, Rat>>
    requires Leading(divisor, dd, ld)
    decreases Measure(rem, dd)
  {
    if rem != map[] && Maximum(rem.Keys) >= dd then
      var cd := Maximum(rem.Keys);
      LeadCancels(rem[cd], ld);
      var tc := Div(rem[cd], ld).value;
      MeasureDrops(rem, divisor, dd, ld, cd, cd - dd, tc);
      LongDivide(SubtractMultiple(rem, divisor, cd - dd, tc), divisor, dd, ld, quotient[cd - dd := tc])
    else if rem != map[] && exists k | k in rem :: rem[k].num != 0 then None
    else Some(quotient)
  }

  /** One turn of the loop, as the loop body takes it. */
  lemma LongDivideStep(rem: map<int, Rat>, divisor: map<int, Rat>, dd: int, ld: Rat, quotient: map<int, Rat>, cd: int, td: int, tc: Rat)
    requires Leading(divisor, dd, ld) && rem != map[]
    requires cd == Maximum(rem.Keys) >= dd && td == cd - dd && Div(rem[cd], ld) == Ok(tc)
    ensures LongDivide(rem, divisor, dd, ld, quotient)
            == LongDivide(SubtractMultiple(rem, divisor, td, tc), divisor, dd, ld, quotient[td := tc])
  {
  }

  // ---------------------------------------------------------------------
  // What the division computes.
  // ---------------------------------------------------------------------

  /** Coefficient k of the product quotient · divisor, summed over the
      quotient degrees `ts`. */
  function ProductCoef(quotient: map<int, Rat>, divisor: map<int, Rat>, ts: seq<int>, k: int): real
    decreases |ts|
  {
    if ts == [] then 0.0
    else ProductCoef(quotient, divisor, ts[..|ts| - 1], k)
         + Rationals.ToDouble(Mul(Get(quotient, ts[|ts| - 1]), Get(divisor, k - ts[|ts| - 1])))
  }

  lemma {:induction false} ProductCoefFrame(q: map<int, Rat>, q2: map<int, Rat>, divisor: map<int, Rat>, ts: seq<int>, k: int)
    requires forall t | t in ts :: Get(q, t) == Get(q2, t)
    ensures ProductCoef(q, divisor, ts, k) == ProductCoef(q2, divisor, ts, k)
    decreases |ts|
  {
    if ts != [] {
      assert forall t | t in ts[..|ts| - 1] :: t in ts;
      ProductCoefFrame(q, q2, divisor, ts[..|ts| - 1], k);
    }
  }

  /** Appending one quotient degree adds its product term. */
  lemma ProductCoefSnoc(q: map<int, Rat>, divisor: map<int, Rat>, ts: seq<int>, t: int, k: int)
    ensures ProductCoef(q, divisor, ts + [t], k)
            == ProductCoef(q, divisor, ts, k) + Rationals.ToDouble(Mul(Get(q, t), Get(divisor, k - t)))
  {
    assert (ts + [t])[..|ts|] == ts;
  }

  /** Coefficient k of quotient · divisor. */
  function Product(quotient: map<int, Rat>, divisor: map<int, Rat>, k: int): real {
    ProductCoef(quotient, divisor, Descending(quotient.Keys), k)
  }

  /** Degree k of dividend = quotient · divisor + remainder. */
  predicate Splits(dividend: map<int, Rat>, rem: map<int, Rat>, divisor: map<int, Rat>, quotient: map<int, Rat>, k: int) {
    CoefVal(dividend, k) == CoefVal(rem, k) + Product(quotient, divisor, k)
  }

  /** What the loop keeps: the dividend equals quotient · divisor plus the
      remainder, degree by degree, and every quotient degree lies above every
      remainder degree shifted down by the divisor's degree. */
  ghost predicate Inv(dividend: map<int, Rat>, rem: map<int, Rat>, divisor: map<int, Rat>, dd: int, quotient: map<int, Rat>) {
    (forall k :: Splits(dividend, rem, divisor, quotient, k))
    && (forall t, j | t in quotient && j in rem :: j - dd < t)
    && (forall t | t in quotient :: t >= 0)
  }

  /** Adding a term below every quotient degree adds its product to each degree. */
  lemma ProductAddLeast(quotient: map<int, Rat>, divisor: map<int, Rat>, td: int, tc: Rat, k: int)
    requires forall t | t in quotient :: td < t
    ensures Product(quotient[td := tc], divisor, k)
            == Product(quotient, divisor, k) + Rationals.ToDouble(Mul(tc, Get(divisor, k - td)))
  {
    var q2 := quotient[td := tc];
    var ts := Descending(quotient.Keys);
    assert q2.Keys == quotient.Keys + {td};
    DescendingAddLeast(quotient.Keys, td);
    DescendingMembers(quotient.Keys);
    assert forall t | t in ts :: Get(quotient, t) == Get(q2, t);
    ProductCoefFrame(quotient, q2, divisor, ts, k);
    ProductCoefSnoc(q2, divisor, ts, td, k);
    assert Get(q2, td) == tc;
  }

  /** One degree of the identity survives one turn of the loop. */
  lemma StepKeepsSplit(dividend: map<int, Rat>, rem: map<int, Rat>, divisor: map<int, Rat>, quotient: map<int, Rat>, td: int, tc: Rat, k: int)
    requires forall t | t in quotient :: td < t
    requires Splits(dividend, rem, divisor, quotient, k)
    ensures Splits(dividend, SubtractMultiple(rem, divisor, td, tc), divisor, quotient[td := tc], k)
  {
    SubtractMultipleValue(rem, divisor, td, tc, k);
    ProductAddLeast(quotient, divisor, td, tc, k);
  }

  /** A turn of the loop that adds a term below every quotient degree and
      leaves the remainder below it keeps the invariant. */
  lemma StepKeepsInv(dividend: map<int, Rat>, rem: map<int, Rat>, divisor: map<int, Rat>, dd: int, quotient: map<int, Rat>, td: int, tc: Rat)
    requires Inv(dividend, rem, divisor, dd, quotient)
    requires td >= 0 && forall t | t in quotient :: td < t
    requires forall j | j in SubtractMultiple(rem, divisor, td, tc) :: j - dd < td
    ensures Inv(dividend, SubtractMultiple(rem, divisor, td, tc), divisor, dd, quotient[td := tc])
  {
    var rem2, q2 := SubtractMultiple(rem, divisor, td, tc), quotient[td := tc];
    forall k
      ensures Splits(dividend, rem2, divisor, q2, k)
    {
      StepKeepsSplit(dividend, rem, divisor, quotient, td, tc, k);
    }
  }

  /** A remainder whose entries are all zero stands for the zero polynomial. */
  lemma ZeroRemainder(dividend: map<int, Rat>, rem: map<int, Rat>, divisor: map<int, Rat>, quotient: map<int, Rat>, k: int)
    requires forall j | j in rem :: rem[j].num == 0
    requires Splits(dividend, rem, divisor, quotient, k)
    ensures CoefVal(dividend, k) == Product(quotient, divisor, k)
  {
    if k in rem {
      assert rem[k].num == 0;
    }
  }

  /** `quotient` has no negative degree and quotient · divisor equals the
      dividend in every degree. */
  ghost predicate ExactQuotient(dividend: map<int, Rat>, divisor: map<int, Rat>, quotient: map<int, Rat>) {
    (forall t | t in quotient :: t >= 0)
    && forall k :: CoefVal(dividend, k) == Product(quotient, divisor, k)
  }

  /** What the loop returns when it stops. */
  lemma LongDivideStops(rem: map<int, Rat>, divisor: map<int, Rat>, dd: int, ld: Rat, quotient: map<int, Rat>)
    requires Leading(divisor, dd, ld)
    requires rem == map[] || Maximum(rem.Keys) < dd
    ensures LongDivide(rem, divisor, dd, ld, quotient).Some? ==> forall j | j in rem :: rem[j].num == 0
    ensures LongDivide(rem, divisor, dd, ld, quotient).Some? ==> LongDivide(rem, divisor, dd, ld, quotient).value == quotient
  {
  }

  /** The invariant holds at the end of the loop, and the zero test turns it
      into the exact identity. */
  lemma InvAtExit(dividend: map<int, Rat>, rem: map<int, Rat>, divisor: map<int, Rat>, dd: int, quotient: map<int, Rat>)
    requires Inv(dividend, rem, divisor, dd, quotient)
    requires forall j | j in rem :: rem[j].num == 0
    ensures forall k :: CoefVal(dividend, k) == Product(quotient, divisor, k)
  {
    forall k
      ensures CoefVal(dividend, k) == Product(quotient, divisor, k)
    {
      ZeroRemainder(dividend, rem, divisor, quotient, k);
    }
  }

  /** The next quotient degree lies below every earlier one and is not
      negative; the remainder it leaves lies below the current top degree. */
  lemma NextTerm(dividend: map<int, Rat>, rem: map<int, Rat>, divisor: map<int, Rat>, dd: int, ld: Rat, quotient: map<int, Rat>, cd: int, td: int, tc: Rat)
    requires Leading(divisor, dd, ld) && rem != map[]
    requires cd == Maximum(rem.Keys) >= dd && td == cd - dd && Div(rem[cd], ld) == Ok(tc)
    requires Inv(dividend, rem, divisor, dd, quotient)
    ensures Inv(dividend, SubtractMultiple(rem, divisor, td, tc), divisor, dd, quotient[td := tc])
  {
    StepLowersTop(rem, divisor, dd, ld, cd, td, tc);
    assert forall t | t in quotient :: td < t;
    StepKeepsInv(dividend, rem, divisor, dd, quotient, td, tc);
  }

  /** Whatever the division returns satisfies dividend = quotient · divisor
      exactly; every quotient degree is non-negative. */
  lemma {:induction false} LongDivideExact(dividend: map<int, Rat>, rem: map<int, Rat>, divisor: map<int, Rat>, dd: int, ld: Rat, quotient: map<int, Rat>)
    requires Leading(divisor, dd, ld)
    requires Inv(dividend, rem, divisor, dd, quotient)
    ensures LongDivide(rem, divisor, dd, ld, quotient).Some? ==>
              ExactQuotient(dividend, divisor, LongDivide(rem, divisor, dd, ld, quotient).value)
    decreases Measure(rem, dd)
  {
    if rem != map[] && Maximum(rem.Keys) >= dd {
      var cd := Maximum(rem.Keys);
      LeadCancels(rem[cd], ld);
      var tc := Div(rem[cd], ld).value;
      var td := cd - dd;
      MeasureDrops(rem, divisor, dd, ld, cd, td, tc);
      NextTerm(dividend, rem, divisor, dd, ld, quotient, cd, td, tc);
      LongDivideStep(rem, divisor, dd, ld, quotient, cd, td, tc);
      LongDivideExact(dividend, SubtractMultiple(rem, divisor, td, tc), divisor, dd, ld, quotient[td := tc]);
    } else {
      LongDivideStops(rem, divisor, dd, ld, quotient);
      if LongDivide(rem, divisor, dd, ld, quotient).Some? {
        InvAtExit(dividend, rem, divisor, dd, quotient);
      }
    }
  }

  /** Division started from the dividend itself and an empty quotient. */
  lemma DivideStart(dividend: map<int, Rat>, divisor: map<int, Rat>, dd: int, ld: Rat)
    requires Leading(divisor, dd, ld)
    ensures LongDivide(dividend, divisor, dd, ld, map[]).Some? ==>
              ExactQuotient(dividend, divisor, LongDivide(dividend, divisor, dd, ld, map[]).value)
  {
    var none: map<int, Rat> := map[];
    assert Descending(none.Keys) == [];
    forall k
      ensures Splits(dividend, dividend, divisor, none, k)
    {
    }
    LongDivideExact(dividend, dividend, divisor, dd, ld, none);
  }

  /** `Divide`: long division of `dividend` by `divisor`; none unless it is exact. */
  method Divide(dividend: map<int, Rat>, divisor: map<int, Rat>, divisorDegree: int, leadingDivisor: Rat)
    returns (quotient: Option<map<int, Rat>>)
    requires Leading(divisor, divisorDegree, leadingDivisor)
    ensures quotient == LongDivide(dividend, divisor, divisorDegree, leadingDivisor, map[])
    ensures quotient.Some? ==> ExactQuotient(dividend, divisor, quotient.value)
  {
    DivideStart(dividend, divisor, divisorDegree, leadingDivisor);
    var degs := Descending(divisor.Keys);
    DescendingMembers(divisor.Keys);
    ghost var target := LongDivide(dividend, divisor, divisorDegree, leadingDivisor, map[]);
    var q: map<int, Rat> := map[];
    var remainder := dividend;
    while remainder != map[] && Maximum(remainder.Keys) >= divisorDegree
      invariant LongDivide(remainder, divisor, divisorDegree, leadingDivisor, q) == target
      decreases Measure(remainder, divisorDegree)
    {
      var currentDegree := Maximum(remainder.Keys);
      var leadingDividend := remainder[currentDegree];
      LeadCancels(leadingDividend, leadingDivisor);
      var termCoeff := Div(leadingDividend, leadingDivisor).value;
      var termDegree := currentDegree - divisorDegree;
      LongDivideStep(remainder, divisor, divisorDegree, leadingDivisor, q, currentDegree, termDegree, termCoeff);
      MeasureDrops(remainder, divisor, divisorDegree, leadingDivisor, currentDegree, termDegree, termCoeff);
      q := q[termDegree := termCoeff];
      remainder := SubtractTermDivisor(remainder, divisor, degs, termDegree, termCoeff);
    }
    LongDivideStops(remainder, divisor, divisorDegree, leadingDivisor, q);
    if remainder != map[] && exists k | k in remainder :: remainder[k].num != 0 {
      return None;
    }
    return Some(q);
  }

  /** The inner `foreach`: subtract termCoeff · x^termDegree · divisor,
      the divisor's degrees `degs` taken from the highest down. */
  method SubtractTermDivisor(remainder: map<int, Rat>, divisor: map<int, Rat>, degs: seq<int>, termDegree: int, termCoeff: Rat)
    returns (r: map<int, Rat>)
    requires degs == Descending(divisor.Keys)
    requires forall b | b in degs :: b in divisor
    ensures r == SubtractMultiple(remainder, divisor, termDegree, termCoeff)
  {
    r := remainder;
    var j := 0;
    while j < |degs|
      invariant 0 <= j <= |degs|
      invariant r == SubtractTerms(remainder, divisor, degs[..j], termDegree, termCoeff)
    {
      var degB := degs[j];
      var coeffB := divisor[degB];
      assert Get(divisor, degB) == coeffB;
      SubtractTermsStep(remainder, divisor, degs, j, termDegree, termCoeff);
      r := SubtractAt(r, degB + termDegree, Mul(termCoeff, coeffB));
      j := j + 1;
    }
    assert degs[..j] == degs;
  }

  // ---------------------------------------------------------------------
  // Spelling out a quotient as a tree.
  // ---------------------------------------------------------------------

  /** `ConstantFromRational`: a double constant holding the rational's value. */
  function ConstantFromRational(r: Rat): (e: Expr)
    ensures TypeOf(e) == DoubleT
    ensures forall x, v :: Denote(e, x, v) == Some(Rationals.ToDouble(r))
  {
    Double(Rationals.ToDouble(r))
  }

  /** The `power` the inner `for` loop builds: the parameter, multiplied on
      the right by the parameter while fewer than n copies are present. */
  function PowerChain(x: string, n: int): Expr
    decreases n
  {
    if n <= 1 then Param(x) else Bin(Multiply, PowerChain(x, n - 1), Param(x))
  }

  lemma {:induction false} PowerChainDenotes(x: string, n: int, v: real)
    requires n >= 1
    ensures Denote(PowerChain(x, n), x, v).Some?
    ensures Denote(PowerChain(x, n), x, v).value == RealPow(v, n)
    decreases n
  {
    if n > 1 {
      PowerChainDenotes(x, n - 1, v);
      DenoteProduct(PowerChain(x, n - 1), Param(x), x, v);
    } else {
      assert RealPow(v, 1) == RealPow(v, 0) * v;
    }
  }

  /** The chain holds exactly n copies of the parameter (one if n < 1). */
  lemma {:induction false} PowerChainOccurrences(x: string, n: int)
    ensures Occurrences(PowerChain(x, n)) == seq(if n < 1 then 1 else n, _ => x)
    decreases n
  {
    if n > 1 {
      PowerChainOccurrences(x, n - 1);
    }
  }

  /** The term for one nonzero coefficient c of degree d. */
  function Term(x: string, d: int, c: Rat): Expr {
    var coeffExpr := ConstantFromRational(c);
    if d == 0 then coeffExpr
    else if d == 1 then Bin(Multiply, coeffExpr, Param(x))
    else Bin(Multiply, coeffExpr, PowerChain(x, d))
  }

  lemma TermDenotes(x: string, d: int, c: Rat, v: real)
    requires d >= 0
    ensures Denote(Term(x, d, c), x, v).Some?
    ensures Denote(Term(x, d, c), x, v).value == Rationals.ToDouble(c) * RealPow(v, d)
  {
    var ce := ConstantFromRational(c);
    assert Denote(ce, x, v) == Some(Rationals.ToDouble(c));
    if d >= 1 {
      PowerChainDenotes(x, d, v);
      DenoteProduct(ce, PowerChain(x, d), x, v);
    }
  }

  /** The outer `foreach` over the degrees `degs` in order: zero coefficients
      are skipped and each further term is added on the right of the
      result so far; none while every coefficient met is zero. */
  function Joined(q: map<int, Rat>, x: string, degs: seq<int>): Option<Expr> {
    if degs == [] then None
    else
      var prev := Joined(q, x, degs[..|degs| - 1]);
      var d := degs[|degs| - 1];
      if Get(q, d).num == 0 then prev else Some(Joined1(q, x, prev, d))
  }

  /** The result after adding the term of degree d to `prev`. */
  function Joined1(q: map<int, Rat>, x: string, prev: Option<Expr>, d: int): Expr {
    var t := Term(x, d, Get(q, d));
    if prev.None? then t else Bin(Add, prev.value, t)
  }

  /** `BuildExpressionFromCoefficients`: the terms in descending degree,
      or the constant 0.0 when there are none. */
  function Build(q: map<int, Rat>, x: string): Expr {
    if q == map[] then Double(0.0)
    else
      var joined := Joined(q, x, Descending(q.Keys));
      if joined.None? then Double(0.0) else joined.value
  }

  /** The value of the polynomial with coefficients `q` at v, summed over
      the degrees `degs`. */
  function PolyValue(q: map<int, Rat>, degs: seq<int>, v: real): real
    requires forall i | 0 <= i < |degs| :: degs[i] >= 0
  {
    if degs == [] then 0.0
    else PolyValue(q, degs[..|degs| - 1], v) + CoefVal(q, degs[|degs| - 1]) * RealPow(v, degs[|degs| - 1])
  }

  /** Adding the term for degree d to the sum so far adds its monomial. */
  lemma JoinedStep(q: map<int, Rat>, x: string, prev: Option<Expr>, d: int, sum: real, v: real)
    requires d >= 0
    requires prev.None? ==> sum == 0.0
    requires prev.Some? ==> Denote(prev.value, x, v).Some? && Denote(prev.value, x, v).value == sum
    requires Get(q, d).num != 0
    ensures Denote(Joined1(q, x, prev, d), x, v).Some?
    ensures Denote(Joined1(q, x, prev, d), x, v).value == sum + CoefVal(q, d) * RealPow(v, d)
  {
    var t := Term(x, d, Get(q, d));
    TermDenotes(x, d, Get(q, d), v);
    if prev.Some? {
      DenoteSum(prev.value, t, x, v);
    }
  }

  lemma {:induction false} JoinedDenotes(q: map<int, Rat>, x: string, degs: seq<int>, v: real)
    requires forall i | 0 <= i < |degs| :: degs[i] >= 0
    ensures Joined(q, x, degs).None? ==> PolyValue(q, degs, v) == 0.0
    ensures Joined(q, x, degs).Some? ==> Denote(Joined(q, x, degs).value, x, v).Some?
    ensures Joined(q, x, degs).Some? ==> Denote(Joined(q, x, degs).value, x, v).value == PolyValue(q, degs, v)
  {
    if degs != [] {
      JoinedDenotes(q, x, degs[..|degs| - 1], v);
      JoinedExtend(q, x, degs, v);
    }
  }

  /** What `JoinedDenotes` states carries over from all degrees but the
      last to all of them. */
  lemma JoinedExtend(q: map<int, Rat>, x: string, degs: seq<int>, v: real)
    requires degs != []
    requires forall i | 0 <= i < |degs| :: degs[i] >= 0
    requires Joined(q, x, degs[..|degs| - 1]).None? ==> PolyValue(q, degs[..|degs| - 1], v) == 0.0
    requires Joined(q, x, degs[..|degs| - 1]).Some? ==> Denote(Joined(q, x, degs[..|degs| - 1]).value, x, v).Some?
    requires Joined(q, x, degs[..|degs| - 1]).Some? ==>
               Denote(Joined(q, x, degs[..|degs| - 1]).value, x, v).value == PolyValue(q, degs[..|degs| - 1], v)
    ensures Joined(q, x, degs).None? ==> PolyValue(q, degs, v) == 0.0
    ensures Joined(q, x, degs).Some? ==> Denote(Joined(q, x, degs).value, x, v).Some?
    ensures Joined(q, x, degs).Some? ==> Denote(Joined(q, x, degs).value, x, v).value == PolyValue(q, degs, v)
  {
    var front := degs[..|degs| - 1];
    var d := degs[|degs| - 1];
    if Get(q, d).num == 0 {
      SkipZero(q, x, degs, v);
    } else {
      var prev := Joined(q, x, front);
      var sum := PolyValue(q, front, v);
      assert Joined(q, x, degs) == Some(Joined1(q, x, prev, d));
      assert PolyValue(q, degs, v) == sum + CoefVal(q, d) * RealPow(v, d);
      JoinedStep(q, x, prev, d, sum, v);
    }
  }

  /** A zero coefficient adds neither a term nor a value. */
  lemma SkipZero(q: map<int, Rat>, x: string, degs: seq<int>, v: real)
    requires degs != [] && Get(q, degs[|degs| - 1]).num == 0
    requires forall i | 0 <= i < |degs| :: degs[i] >= 0
    ensures Joined(q, x, degs) == Joined(q, x, degs[..|degs| - 1])
    ensures PolyValue(q, degs, v) == PolyValue(q, degs[..|degs| - 1], v)
  {
    var d := degs[|degs| - 1];
    ZeroIsCanonical(Get(q, d));
    assert CoefVal(q, d) == 0.0;
  }

  /** The tree built from a quotient with nonnegative degrees denotes the
      quotient polynomial at every point. */
  lemma DescendingNonnegative(q: map<int, Rat>)
    requires forall k | k in q :: k >= 0
    ensures forall i | 0 <= i < |Descending(q.Keys)| :: Descending(q.Keys)[i] >= 0
  {
    var keys := q.Keys;
    var degs := Descending(keys);
    DescendingMembers(keys);
    forall i | 0 <= i < |degs|
      ensures degs[i] >= 0
    {
      var d := degs[i];
      assert d in degs;
      assert d in keys;
    }
  }

  lemma BuildDenotes(q: map<int, Rat>, x: string, v: real)
    requires forall k | k in q :: k >= 0
    ensures forall i | 0 <= i < |Descending(q.Keys)| :: Descending(q.Keys)[i] >= 0
    ensures Denote(Build(q, x), x, v).Some?
    ensures Denote(Build(q, x), x, v).value == PolyValue(q, Descending(q.Keys), v)
  {
    var degs := Descending(q.Keys);
    DescendingNonnegative(q);
    JoinedDenotes(q, x, degs, v);
    var joined := Joined(q, x, degs);
    if q == map[] {
      assert degs == [];
      assert Build(q, x) == Double(0.0);
    } else if joined.None? {
      assert Build(q, x) == Double(0.0);
    } else {
      assert Build(q, x) == joined.value;
    }
  }

  /** The terms `Joined` adds, in the order it adds them: one per nonzero
      coefficient. */
  function Terms(q: map<int, Rat>, x: string, degs: seq<int>): seq<Expr> {
    if degs == [] then []
    else
      var d := degs[|degs| - 1];
      Terms(q, x, degs[..|degs| - 1]) + (if Get(q, d).num == 0 then [] else [Term(x, d, Get(q, d))])
  }

  /** The operands of a left-nested chain of additions, left to right. */
  function Summands(e: Expr): seq<Expr> {
    if e.Bin? && e.op == Add then Summands(e.left) + [e.right] else [e]
  }

  /** The built sum is the left-nested addition of exactly the terms of the
      nonzero coefficients, in the order the degrees are met. */
  lemma {:induction false} JoinedSummands(q: map<int, Rat>, x: string, degs: seq<int>)
    ensures Joined(q, x, degs).None? <==> Terms(q, x, degs) == []
    ensures Joined(q, x, degs).Some? ==> Summands(Joined(q, x, degs).value) == Terms(q, x, degs)
  {
    if degs != [] {
      var d := degs[|degs| - 1];
      JoinedSummands(q, x, degs[..|degs| - 1]);
      var c := Get(q, d);
      if c.num != 0 {
        var t := Term(x, d, c);
        assert Summands(t) == [t];
      }
    }
  }

  /** A map with no nonzero coefficient (in particular the empty map) builds
      the constant 0.0. */
  lemma {:induction false} AllZeroBuildsZero(q: map<int, Rat>, x: string, degs: seq<int>)
    requires forall d | d in degs :: Get(q, d).num == 0
    ensures Joined(q, x, degs) == None
  {
    if degs != [] {
      assert forall e | e in degs[..|degs| - 1] :: e in degs;
      AllZeroBuildsZero(q, x, degs[..|degs| - 1]);
    }
  }

  /** `BuildExpressionFromCoefficients`, with its two loops. */
  method BuildExpressionFromCoefficients(coeffs: map<int, Rat>, param: string) returns (e: Expr)
    ensures e == Build(coeffs, param)
  {
    if coeffs == map[] {
      return Double(0.0);
    }
    var degs := Descending(coeffs.Keys);
    var result: Option<Expr> := None;
    var j := 0;
    while j < |degs|
      invariant 0 <= j <= |degs|
      invariant result == Joined(coeffs, param, degs[..j])
    {
      var degree := degs[j];
      var coeff := Get(coeffs, degree);
      assert degs[..j + 1][..j] == degs[..j];
      if coeff.num != 0 {
        var coeffExpr := ConstantFromRational(coeff);
        var term: Expr;
        if degree == 0 {
          term := coeffExpr;
        } else if degree == 1 {
          term := Bin(Multiply, coeffExpr, Param(param));
        } else {
          var power := Param(param);
          var i := 1;
          while i < degree
            invariant 1 <= i && (i <= degree || i == 1)
            invariant power == PowerChain(param, i)
          {
            power := Bin(Multiply, power, Param(param));
            i := i + 1;
          }
          term := Bin(Multiply, coeffExpr, power);
        }
        result := if result.None? then Some(term) else Some(Bin(Add, result.value, term));
      }
      j := j + 1;
    }
    assert degs[..j] == degs;
    e := if result.None? then Double(0.0) else result.value;
  }

  // ---------------------------------------------------------------------
  // TryDivide.
  // ---------------------------------------------------------------------

  /** `TryDivide`: collect both sides, divide exactly, build the quotient;
      none (null) for a non-polynomial side, an empty divisor, a zero
      leading divisor coefficient or an inexact division. A collector that
      throws makes it throw. */
  function TryDivideSpec(numerator: Expr, denominator: Expr, x: string): Result<Option<Expr>>
    requires Plain(numerator) && Plain(denominator)
  {
    var num :- Collect(x, numerator);
    if !num.0 then Ok(None)
    else
      var den :- Collect(x, denominator);
      if !den.0 then Ok(None) else Ok(DivideMaps(num.1, den.1, x))
  }

  /** The part of `TryDivide` after both collectors succeeded. */
  function DivideMaps(dividend: map<int, Rat>, divisor: map<int, Rat>, x: string): Option<Expr> {
    if divisor == map[] then None
    else
      var dd := Maximum(divisor.Keys);
      var ld := divisor[dd];
      if ld.num == 0 then None
      else
        var quotient := LongDivide(dividend, divisor, dd, ld, map[]);
        if quotient.None? then None else Some(Build(quotient.value, x))
  }

  /** A tree returned by `TryDivide` spells out an exact quotient of the two
      collected coefficient maps. */
  lemma TryDivideExact(numerator: Expr, denominator: Expr, x: string)
    requires Plain(numerator) && Plain(denominator)
    ensures TryDivideSpec(numerator, denominator, x).Ok? && TryDivideSpec(numerator, denominator, x).value.Some? ==>
              Collect(x, numerator).Ok? && Collect(x, denominator).Ok?
              && exists q :: ExactQuotient(Collect(x, numerator).value.1, Collect(x, denominator).value.1, q)
                             && TryDivideSpec(numerator, denominator, x).value.value == Build(q, x)
  {
    var r := TryDivideSpec(numerator, denominator, x);
    if r.Ok? && r.value.Some? {
      var num := Collect(x, numerator).value;
      var den := Collect(x, denominator).value;
      assert r.value == DivideMaps(num.1, den.1, x);
      var dd := Maximum(den.1.Keys);
      var ld := den.1[dd];
      DivideStart(num.1, den.1, dd, ld);
      var q := LongDivide(num.1, den.1, dd, ld, map[]).value;
      assert ExactQuotient(num.1, den.1, q) && r.value.value == Build(q, x);
    }
  }

  /** The null cases of `TryDivide`. */
  lemma TryDivideNull(numerator: Expr, denominator: Expr, x: string)
    requires Plain(numerator) && Plain(denominator)
    ensures Collect(x, numerator).Ok? && !Collect(x, numerator).value.0 ==> TryDivideSpec(numerator, denominator, x) == Ok(None)
    ensures Collect(x, numerator).Ok? && Collect(x, denominator).Ok? && !Collect(x, denominator).value.0 ==>
              TryDivideSpec(numerator, denominator, x) == Ok(None)
    ensures (Collect(x, numerator).Ok? && Collect(x, numerator).value.0 && Collect(x, denominator).Ok?
             && Collect(x, denominator).value.1 == map[]) ==> TryDivideSpec(numerator, denominator, x) == Ok(None)
    ensures Collect(x, numerator).Throw? ==> TryDivideSpec(numerator, denominator, x).Throw?
  {
  }

  /** `TryDivide` itself, on two fresh collectors. */
  method TryDivide(numerator: Expr, denominator: Expr, param: string) returns (result: Option<Expr>, thrown: Option<Exn>)
    requires Plain(numerator) && Plain(denominator)
    ensures TryDivideSpec(numerator, denominator, param).Throw? <==> thrown.Some?
    ensures TryDivideSpec(numerator, denominator, param).Ok? ==> result == TryDivideSpec(numerator, denominator, param).value
  {
    result := None;
    ghost var numSpec := VisitSpec(param, numerator, Initial);
    var numCollector := new Collector(param);
    thrown := numCollector.Visit(numerator);
    if thrown.Some? {
      return;
    }
    assert numSpec.Ok? && numCollector.Snapshot() == numSpec.value;
    if !numCollector.isPolynomial {
      return;
    }
    var dividend := numCollector.coefficients;
    ghost var denSpec := VisitSpec(param, denominator, Initial);
    var denCollector := new Collector(param);
    thrown := denCollector.Visit(denominator);
    if thrown.Some? {
      return;
    }
    assert denSpec.Ok? && denCollector.Snapshot() == denSpec.value;
    if !denCollector.isPolynomial {
      return;
    }
    result := DivideCollected(dividend, denCollector.coefficients, param);
  }

  /** `TryDivide` from `var dividend = …` on. */
  method DivideCollected(dividend: map<int, Rat>, divisor: map<int, Rat>, param: string) returns (result: Option<Expr>)
    ensures result == DivideMaps(dividend, divisor, param)
  {
    if divisor == map[] {
      return None;
    }
    var divisorDegree := Maximum(divisor.Keys);
    var leadingDivisor := divisor[divisorDegree];
    if leadingDivisor.num == 0 {
      return None;
    }
    var quotient := Divide(dividend, divisor, divisorDegree, leadingDivisor);
    if quotient.None? {
      return None;
    }
    var e := BuildExpressionFromCoefficients(quotient.value, param);
    return Some(e);
  }
}
