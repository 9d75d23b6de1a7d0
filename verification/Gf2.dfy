/** Polynomials over GF(2) as the sets of their exponents, and the multiples of the
    generator x^16 + x^15 + x^2 + 1. */
module Gf2 {

  type Poly = set<nat>
  type Bits = seq<bool>

  const GENERATOR: Poly := {16, 15, 2, 0}

  function Add(a: Poly, b: Poly): (c: Poly)
    ensures forall e {:trigger e in c} :: e in c <==> (e in a) != (e in b)
  {
    (a - b) + (b - a)
  }

  /** The coefficient b times p. */
  function Scaled(b: bool, p: Poly): Poly {
    if b then p else {}
  }

  /** x * a */
  function MulX(a: Poly): (c: Poly)
    ensures forall e: nat {:trigger e in c} :: e in c <==> e >= 1 && e - 1 in a
  {
    var c := set e | e in a :: e + 1;
    assert forall e: nat {:trigger e in c} :: e in c ==> e >= 1 && e - 1 in a;
    assert forall e: nat {:trigger e in c} :: e >= 1 && e - 1 in a ==> (e - 1) + 1 in c;
    c
  }

  /** x^n * a */
  function MulXn(a: Poly, n: nat): Poly {
    if n == 0 then a else MulX(MulXn(a, n - 1))
  }

  lemma {:induction false} MulXnMember(a: Poly, n: nat, e: nat)
    ensures e in MulXn(a, n) <==> e >= n && e - n in a
    decreases n
  {
    if n > 0 && e > 0 {
      MulXnMember(a, n - 1, e - 1);
    }
  }

  /** The product of the generator and the polynomial whose coefficients are q, highest first. */
  function MulG(q: Bits): Poly
    decreases |q|
  {
    if |q| == 0 then {}
    else Add(MulX(MulG(q[..|q| - 1])), Scaled(q[|q| - 1], GENERATOR))
  }

  ghost predicate Multiple(p: Poly) {
    exists q :: p == MulG(q)
  }

  ghost predicate Congruent(a: Poly, b: Poly) {
    Multiple(Add(a, b))
  }

  predicate Below(p: Poly, n: nat) {
    forall e :: e in p ==> e < n
  }

  /* ---------- Algebra ---------- */

  lemma {:induction false} AddSelf(a: Poly, b: Poly)
    ensures Add(a, b) == {} <==> a == b
  {
    if Add(a, b) == {} {
      assert forall e :: e in a <==> e in b;
    }
  }

  lemma {:induction false} AddComm(a: Poly, b: Poly)
    ensures Add(a, b) == Add(b, a)
  {}

  lemma {:induction false} MulXAdd(a: Poly, b: Poly)
    ensures MulX(Add(a, b)) == Add(MulX(a), MulX(b))
  {}

  lemma {:induction false} MulXInjective(a: Poly, b: Poly)
    requires MulX(a) == MulX(b)
    ensures a == b
  {
    forall e
      ensures e in a <==> e in b
    {
      assert e in a <==> e + 1 in MulX(a);
      assert e in b <==> e + 1 in MulX(b);
    }
  }

  /* ---------- Multiples of the generator ---------- */

  function Zeros(n: nat): Bits { seq(n, _ => false) }

  lemma {:induction false} LeadingZeros(n: nat, q: Bits)
    ensures MulG(Zeros(n) + q) == MulG(q)
    decreases |q|, n
  {
    var z := Zeros(n) + q;
    if |q| > 0 {
      assert z[..|z| - 1] == Zeros(n) + q[..|q| - 1];
      LeadingZeros(n, q[..|q| - 1]);
    } else if n > 0 {
      assert z[..|z| - 1] == Zeros(n - 1) + [];
      LeadingZeros(n - 1, []);
      assert MulX({}) == {};
    } else {
      assert z == q;
    }
  }

  function AddBits(q: Bits, r: Bits): Bits
    requires |q| == |r|
  {
    seq(|q|, i requires 0 <= i < |q| => q[i] != r[i])
  }

  lemma {:induction false} MulGAdd(q: Bits, r: Bits)
    requires |q| == |r|
    ensures MulG(AddBits(q, r)) == Add(MulG(q), MulG(r))
    decreases |q|
  {
    if |q| > 0 {
      var n := |q| - 1;
      MulGAdd(q[..n], r[..n]);
      assert AddBits(q, r)[..n] == AddBits(q[..n], r[..n]);
      MulXAdd(MulG(q[..n]), MulG(r[..n]));
    }
  }

  lemma {:induction false} MultipleAdd(a: Poly, b: Poly)
    requires Multiple(a) && Multiple(b)
    ensures Multiple(Add(a, b))
  {
    var q :| a == MulG(q);
    var r :| b == MulG(r);
    var q', r' := Zeros(|r|) + q, Zeros(|q|) + r;
    LeadingZeros(|r|, q);
    LeadingZeros(|q|, r);
    MulGAdd(q', r');
    assert Add(a, b) == MulG(AddBits(q', r'));
  }

  lemma {:induction false} MultipleMulX(a: Poly)
    requires Multiple(a)
    ensures Multiple(MulX(a))
  {
    var q :| a == MulG(q);
    assert (q + [false])[..|q|] == q;
    assert MulX(a) == MulG(q + [false]);
  }

  /** The generator has a constant term, so x can be cancelled. */
  lemma {:induction false} MultipleDivX(a: Poly)
    requires Multiple(MulX(a))
    ensures Multiple(a)
  {
    var q :| MulX(a) == MulG(q);
    if |q| == 0 {
      assert MulX(a) == MulX({});
      MulXInjective(a, {});
      assert a == MulG([]);
    } else {
      assert 0 !in MulX(a);
      assert !q[|q| - 1];
      assert MulG(q) == MulX(MulG(q[..|q| - 1]));
      MulXInjective(a, MulG(q[..|q| - 1]));
    }
  }

  lemma {:induction false} MultipleDivXn(a: Poly, n: nat)
    requires Multiple(MulXn(a, n))
    ensures Multiple(a)
  {
    if n > 0 {
      MultipleDivX(MulXn(a, n - 1));
      MultipleDivXn(a, n - 1);
    }
  }

  lemma {:induction false} MultipleMulXn(a: Poly, n: nat)
    requires Multiple(a)
    ensures Multiple(MulXn(a, n))
  {
    if n > 0 {
      MultipleMulXn(a, n - 1);
      MultipleMulX(MulXn(a, n - 1));
    }
  }

  /** The leading coefficient of q reappears, 16 places up, in the product. */
  lemma {:induction false} MulGDegree(q: Bits) returns (e: nat)
    ensures MulG(q) == {} || (e in MulG(q) && e >= 16)
    decreases |q|
  {
    e := 16;
    if |q| > 0 {
      var p := MulG(q[..|q| - 1]);
      e := MulGDegree(q[..|q| - 1]);
      if p == {} {
        assert MulX(p) == {};
        assert MulG(q) == Scaled(q[|q| - 1], GENERATOR);
        e := 16;
      } else {
        assert e + 1 in MulX(p) && e + 1 !in GENERATOR;
        e := e + 1;
      }
    }
  }

  /** Zero is the only multiple of degree below 16. */
  lemma {:induction false} SmallMultipleIsZero(a: Poly)
    requires Multiple(a) && Below(a, 16)
    ensures a == {}
  {
    var q :| a == MulG(q);
    var e := MulGDegree(q);
  }

  /** Remainders are unique. */
  lemma {:induction false} CongruentSmallEqual(a: Poly, b: Poly)
    requires Congruent(a, b) && Below(a, 16) && Below(b, 16)
    ensures a == b
  {
    SmallMultipleIsZero(Add(a, b));
    AddSelf(a, b);
  }

  /* ---------- Congruence ---------- */

  lemma {:induction false} CongruentTrans(a: Poly, b: Poly, c: Poly)
    requires Congruent(a, b) && Congruent(b, c)
    ensures Congruent(a, c)
  {
    MultipleAdd(Add(a, b), Add(b, c));
    assert Add(Add(a, b), Add(b, c)) == Add(a, c);
  }

  lemma {:induction false} CongruentAdd(a: Poly, b: Poly, c: Poly)
    requires Congruent(a, b)
    ensures Congruent(Add(a, c), Add(b, c))
  {
    assert Add(Add(a, c), Add(b, c)) == Add(a, b);
  }

  lemma {:induction false} CongruentMulX(a: Poly, b: Poly)
    requires Congruent(a, b)
    ensures Congruent(MulX(a), MulX(b))
  {
    MulXAdd(a, b);
    MultipleMulX(Add(a, b));
  }

  lemma {:induction false} MultipleOfCongruent(a: Poly, b: Poly)
    requires Congruent(a, b)
    ensures Multiple(a) <==> Multiple(b)
  {
    if Multiple(a) {
      MultipleAdd(a, Add(a, b));
      assert Add(a, Add(a, b)) == b;
    }
    if Multiple(b) {
      MultipleAdd(b, Add(a, b));
      assert Add(b, Add(a, b)) == a;
    }
  }

  lemma {:induction false} EqualCongruent(a: Poly)
    ensures Congruent(a, a)
  {
    assert Add(a, a) == {} == MulG([]);
  }

  lemma {:induction false} AddGenerator(a: Poly)
    ensures Congruent(Add(a, GENERATOR), a)
  {
    assert MulG([true]) == GENERATOR by {
      assert [true][..0] == [];
      assert MulX({}) == {};
    }
    assert Add(Add(a, GENERATOR), a) == MulG([true]);
  }

  /* ---------- Parity: x + 1 divides the generator ---------- */

  lemma {:induction false} AddSize(a: Poly, b: Poly)
    ensures |Add(a, b)| % 2 == (|a| + |b|) % 2
  {
    assert a == (a - b) + (a * b);
    assert b == (b - a) + (a * b);
    assert |a| == |a - b| + |a * b|;
    assert |b| == |b - a| + |a * b|;
  }

  lemma {:induction false} MulXSize(a: Poly)
    ensures |MulX(a)| == |a|
    decreases |a|
  {
    if a == {} {
      assert MulX(a) == {};
    } else {
      var e :| e in a;
      MulXSize(a - {e});
      assert MulX(a) == MulX(a - {e}) + {e + 1};
    }
  }

  predicate Even(p: Poly) { |p| % 2 == 0 }

  lemma {:induction false} EvenAdd(a: Poly, b: Poly)
    ensures Even(Add(a, b)) <==> (Even(a) <==> Even(b))
  {
    AddSize(a, b);
  }

  lemma {:induction false} ScaledGeneratorEven(b: bool)
    ensures Even(Scaled(b, GENERATOR))
  {
    assert GENERATOR == {16} + {15} + {2} + {0};
  }

  lemma {:induction false} EvenMulX(p: Poly)
    ensures Even(MulX(p)) <==> Even(p)
  {
    MulXSize(p);
  }

  lemma {:induction false} MulGEven(q: Bits)
    ensures Even(MulG(q))
    decreases |q|
  {
    if |q| > 0 {
      var p := MulG(q[..|q| - 1]);
      MulGEven(q[..|q| - 1]);
      EvenMulX(p);
      ScaledGeneratorEven(q[|q| - 1]);
      EvenAdd(MulX(p), Scaled(q[|q| - 1], GENERATOR));
    }
  }

  lemma {:induction false} MultipleEven(a: Poly)
    requires Multiple(a)
    ensures Even(a)
  {
    var q :| a == MulG(q);
    MulGEven(q);
  }
}
