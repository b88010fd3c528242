/** The score calculators and risk categorizers of the dashboard (app.py lines 9-38) and the
    BMI formula of its sidebar (app.py line 51). Every calculator is partial in the Python way:
    a missing input (`None`) or a guarded domain error yields `None`, never a number. */
module Scores {
  import opened Optional
  import opened RealArith

  /** A stand-in for `math.sqrt`: any function that is positive on positive input. That is the
      only property FIB-4 needs of it (the denominator `platelets * sqrt(alt)` is then non-zero). */
  type SquareRoot = f: real -> real | forall x: real :: 0.0 < x ==> 0.0 < f(x)
    witness (x: real) => 1.0

  // ---------------------------------------------------------------------------------------
  // Score calculators

  /** FIB-4 = (age * AST) / (platelets * sqrt(ALT)); `None` when an input is missing or when
      ALT or the platelet count is not positive. The second ensures states the formula as the
      identity the score satisfies: multiplied back by its denominator it gives age * AST. */
  function Fib4(age: Option<real>, ast: Option<real>, alt: Option<real>, platelets: Option<real>,
                sqrt: SquareRoot): (r: Option<real>)
    ensures r.None? <==> (age.None? || ast.None? || alt.None? || platelets.None?
                          || alt.value <= 0.0 || platelets.value <= 0.0)
    ensures r.Some? ==> r.value * (platelets.value * sqrt(alt.value)) == age.value * ast.value
  {
    if age.None? || ast.None? || alt.None? || platelets.None? || alt.value <= 0.0 || platelets.value <= 0.0 then
      None
    else
      Some((age.value * ast.value) / (platelets.value * sqrt(alt.value)))
  }

  /** A FIB-4 that is computed is positive exactly when age * AST is positive (the denominator
      is always positive), so with a positive age and AST it is never 0. */
  lemma Fib4Sign(age: real, ast: real, alt: real, platelets: real, sqrt: SquareRoot)
    requires alt > 0.0 && platelets > 0.0
    ensures var r := Fib4(Some(age), Some(ast), Some(alt), Some(platelets), sqrt);
            r.Some? && (r.value > 0.0 <==> age * ast > 0.0) && (r.value == 0.0 <==> age * ast == 0.0)
  {
    QuotientByPositiveProduct(age * ast, platelets, sqrt(alt));
  }

  /** The condition under which `nfs` can evaluate its formula without dividing by zero: the
      division `ast / alt` is reached only when all six inputs are present, and then ALT must
      be non-zero (the source does not guard this; the sidebar's ALT widget starts at 1). */
  predicate NfsDefined(age: Option<real>, bmi: Option<real>, ast: Option<real>, alt: Option<real>,
                       platelets: Option<real>, albumin: Option<real>)
  {
    (age.Some? && bmi.Some? && ast.Some? && alt.Some? && platelets.Some? && albumin.Some?)
      ==> alt.value != 0.0
  }

  /** Whether any of the six inputs the NAFLD fibrosis score checks is missing. */
  predicate NfsInputMissing(age: Option<real>, bmi: Option<real>, ast: Option<real>, alt: Option<real>,
                            platelets: Option<real>, albumin: Option<real>)
  {
    age.None? || bmi.None? || ast.None? || alt.None? || platelets.None? || albumin.None?
  }

  /** NAFLD fibrosis score. `None` exactly when one of age, BMI, AST, ALT, platelets, albumin is
      missing; `hasT2d` is a plain flag and is never checked. */
  function Nfs(age: Option<real>, bmi: Option<real>, hasT2d: bool, ast: Option<real>, alt: Option<real>,
               platelets: Option<real>, albumin: Option<real>): (r: Option<real>)
    requires NfsDefined(age, bmi, ast, alt, platelets, albumin)
    ensures r.None? <==> NfsInputMissing(age, bmi, ast, alt, platelets, albumin)
  {
    if NfsInputMissing(age, bmi, ast, alt, platelets, albumin) then
      None
    else
      Some(-1.675 + 0.037 * age.value + 0.094 * bmi.value + 1.13 * (if hasT2d then 1.0 else 0.0)
           + 0.99 * (ast.value / alt.value) - 0.013 * platelets.value - 0.66 * albumin.value)
  }

  /** Type 2 diabetes does not decide whether the score is computed, and switching it on raises
      the score by exactly 1.13 with every other input unchanged. */
  lemma NfsDiabetesStep(age: Option<real>, bmi: Option<real>, ast: Option<real>, alt: Option<real>,
                        platelets: Option<real>, albumin: Option<real>)
    requires NfsDefined(age, bmi, ast, alt, platelets, albumin)
    ensures var without := Nfs(age, bmi, false, ast, alt, platelets, albumin);
            var with := Nfs(age, bmi, true, ast, alt, platelets, albumin);
            with.None? == without.None? && (with.Some? ==> with.value == without.value + 1.13)
  {
  }

  /** Every further year of age raises a computed NAFLD fibrosis score by 0.037, and every
      further g/dL of albumin lowers it by 0.66. */
  lemma NfsAgeAndAlbuminSteps(age: real, bmi: real, hasT2d: bool, ast: real, alt: real,
                              platelets: real, albumin: real)
    requires alt != 0.0
    ensures Nfs(Some(age + 1.0), Some(bmi), hasT2d, Some(ast), Some(alt), Some(platelets), Some(albumin)).value
            == Nfs(Some(age), Some(bmi), hasT2d, Some(ast), Some(alt), Some(platelets), Some(albumin)).value + 0.037
    ensures Nfs(Some(age), Some(bmi), hasT2d, Some(ast), Some(alt), Some(platelets), Some(albumin + 1.0)).value
            == Nfs(Some(age), Some(bmi), hasT2d, Some(ast), Some(alt), Some(platelets), Some(albumin)).value - 0.66
  {
  }

  /** The remaining terms: the score is -1.675 when every input but ALT is 0, each further
      kg/m² of BMI raises it by 0.094, each further unit of the AST/ALT ratio by 0.99, and each
      further 10^9/L of platelets lowers it by 0.013. With the two lemmas above this fixes every
      coefficient of the formula. */
  lemma NfsInterceptAndSteps(age: real, bmi: real, hasT2d: bool, ast: real, alt: real,
                             platelets: real, albumin: real)
    requires alt != 0.0
    ensures Nfs(Some(0.0), Some(0.0), false, Some(0.0), Some(alt), Some(0.0), Some(0.0)) == Some(-1.675)
    ensures Nfs(Some(age), Some(bmi + 1.0), hasT2d, Some(ast), Some(alt), Some(platelets), Some(albumin)).value
            == Nfs(Some(age), Some(bmi), hasT2d, Some(ast), Some(alt), Some(platelets), Some(albumin)).value + 0.094
    ensures Nfs(Some(age), Some(bmi), hasT2d, Some(ast + alt), Some(alt), Some(platelets), Some(albumin)).value
            == Nfs(Some(age), Some(bmi), hasT2d, Some(ast), Some(alt), Some(platelets), Some(albumin)).value + 0.99
    ensures Nfs(Some(age), Some(bmi), hasT2d, Some(ast), Some(alt), Some(platelets + 1.0), Some(albumin)).value
            == Nfs(Some(age), Some(bmi), hasT2d, Some(ast), Some(alt), Some(platelets), Some(albumin)).value - 0.013
  {
    QuotientShift(ast, alt);
  }

  /** HOMA-IR = insulin * glucose / 405; `None` exactly when either input is missing. The
      second ensures states the score as the identity it satisfies: 405 times it is the
      product of the two inputs. */
  function HomaIr(glucose: Option<real>, insulin: Option<real>): (r: Option<real>)
    ensures r.None? <==> (glucose.None? || insulin.None?)
    ensures r.Some? ==> 405.0 * r.value == insulin.value * glucose.value
  {
    if glucose.None? || insulin.None? then None else Some((insulin.value * glucose.value) / 405.0)
  }

  /** A computed HOMA-IR is zero exactly when one of its inputs is zero, and non-negative when
      both inputs are: zero is a real value of the score, not a missing one. */
  lemma HomaIrZeroAndSign(glucose: real, insulin: real)
    ensures var r := HomaIr(Some(glucose), Some(insulin));
            r.Some? && (r.value == 0.0 <==> glucose == 0.0 || insulin == 0.0)
            && (glucose >= 0.0 && insulin >= 0.0 ==> r.value >= 0.0)
  {
    var r := HomaIr(Some(glucose), Some(insulin));
    if r.value == 0.0 {
      assert insulin * glucose == 0.0;
    }
  }

  /** Estimated average glucose from HbA1c: 28.7 * a1c - 46.7; `None` exactly when HbA1c is
      missing. The partner below inverts it. */
  function Eag(a1c: Option<real>): (r: Option<real>)
    ensures r.None? <==> a1c.None?
    ensures r.Some? ==> A1cFromEag(r.value) == a1c.value
  {
    if a1c.None? then None else Some(28.7 * a1c.value - 46.7)
  }

  /** The HbA1c that yields a given estimated average glucose. */
  function A1cFromEag(eag: real): real
  {
    (eag + 46.7) / 28.7
  }

  /** eAG and A1cFromEag are mutually inverse, so eAG loses no information about HbA1c. */
  lemma EagRoundTrip(a1c: real, eag: real)
    ensures A1cFromEag(Eag(Some(a1c)).value) == a1c
    ensures Eag(Some(A1cFromEag(eag))) == Some(eag)
  {
  }

  /** eAG is strictly increasing in HbA1c. */
  lemma EagStrictlyIncreasing(a: real, b: real)
    requires a < b
    ensures Eag(Some(a)).value < Eag(Some(b)).value
  {
  }

  // ---------------------------------------------------------------------------------------
  // Body-mass index (sidebar, app.py line 51)

  /** A height in centimetres, in metres. */
  function Metres(height: real): real
  {
    height / 100.0
  }

  /** BMI = weight / (height / 100)^2, with height in centimetres, written as two divisions by
      the height in metres. Multiplied back by the height in metres twice it gives the weight. */
  function Bmi(weight: real, height: real): (r: real)
    requires height != 0.0
    ensures r * Metres(height) * Metres(height) == weight
  {
    weight / Metres(height) / Metres(height)
  }

  /** BMI is positive for a positive weight, grows with weight at a fixed height and falls as
      a positive height grows at a fixed weight. */
  lemma BmiMonotone(w1: real, w2: real, h1: real, h2: real)
    requires 0.0 < w1 <= w2 && 0.0 < h1 <= h2
    ensures 0.0 < Bmi(w1, h1)
    ensures Bmi(w1, h1) <= Bmi(w2, h1)
    ensures Bmi(w1, h2) <= Bmi(w1, h1)
  {
    var m1, m2 := Metres(h1), Metres(h2);
    QuotientSign(w1, m1);
    QuotientSign(w1 / m1, m1);
    QuotientOrder(w1, w2, m1, m1);
    QuotientOrder(w1 / m1, w2 / m1, m1, m1);
    QuotientOrder(w1, w1, m2, m1);
    QuotientSign(w1, m2);
    QuotientOrder(w1 / m2, w1 / m1, m2, m1);
  }

  // ---------------------------------------------------------------------------------------
  // Risk categorizers

  /** The risk bands, and `Unknown` for a score that was not computed. */
  datatype Category = Unknown | Low | Indeterminate | High {
    /** The label the dashboard shows: an em dash for a missing score. */
    function Label(): (s: string)
      ensures s == "\U{2014}" <==> Unknown?
    {
      match this
      case Unknown => "\U{2014}"
      case Low => "Low"
      case Indeterminate => "Indeterminate"
      case High => "High"
    }

    /** The order of the bands, Low < Indeterminate < High. */
    function Rank(): nat
      requires !Unknown?
    {
      match this
      case Low => 0
      case Indeterminate => 1
      case High => 2
    }
  }

  /** FIB-4 bands: below 1.3 low, 1.3 to 2.67 (both ends included) indeterminate, above high. */
  function CategorizeFib4(x: Option<real>): (c: Category)
    ensures c == Unknown <==> x.None?
    ensures c == Low <==> x.Some? && x.value < 1.3
    ensures c == Indeterminate <==> x.Some? && 1.3 <= x.value <= 2.67
    ensures c == High <==> x.Some? && x.value > 2.67
  {
    if x.None? then Unknown
    else if x.value < 1.3 then Low
    else if x.value <= 2.67 then Indeterminate
    else High
  }

  /** NFS bands: below -1.455 low, -1.455 to 0.676 (both ends included) indeterminate, above high. */
  function CategorizeNfs(x: Option<real>): (c: Category)
    ensures c == Unknown <==> x.None?
    ensures c == Low <==> x.Some? && x.value < -1.455
    ensures c == Indeterminate <==> x.Some? && -1.455 <= x.value <= 0.676
    ensures c == High <==> x.Some? && x.value > 0.676
  {
    if x.None? then Unknown
    else if x.value < -1.455 then Low
    else if x.value <= 0.676 then Indeterminate
    else High
  }

  /** Both categorizers are monotone: a larger score never falls into a lower band. */
  lemma CategoriesMonotone(x: real, y: real)
    requires x <= y
    ensures CategorizeFib4(Some(x)).Rank() <= CategorizeFib4(Some(y)).Rank()
    ensures CategorizeNfs(Some(x)).Rank() <= CategorizeNfs(Some(y)).Rank()
  {
  }

  /** The boundary values are decided exactly: the lower bound of each indeterminate band is
      not low, and its upper bound is not high. */
  lemma CategoryBoundaries()
    ensures CategorizeFib4(Some(1.29)) == Low && CategorizeFib4(Some(1.3)) == Indeterminate
    ensures CategorizeFib4(Some(2.67)) == Indeterminate && CategorizeFib4(Some(2.68)) == High
    ensures CategorizeNfs(Some(-1.46)) == Low && CategorizeNfs(Some(-1.455)) == Indeterminate
    ensures CategorizeNfs(Some(0.676)) == Indeterminate && CategorizeNfs(Some(0.677)) == High
    ensures CategorizeFib4(None).Label() == CategorizeNfs(None).Label() == "\U{2014}"
  {
  }
}
