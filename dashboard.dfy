/** The single-patient path of the dashboard (app.py lines 40-77): the sidebar's values, the
    four scores computed from them, the two risk labels, and how each score is shown. */
module Dashboard {
  import opened Optional
  import opened Scores
  import opened RealArith

  /** The sex selector; the calculators do not use it. */
  datatype Sex = M | F

  /** The sidebar's values. Age is a whole number of years; height is in centimetres. */
  datatype Snapshot = Snapshot(
    age: int,
    sex: Sex,
    weight: real,
    height: real,
    ast: real,
    alt: real,
    platelets: real,
    albumin: real,
    hasT2d: bool,
    glucose: real,
    insulin: real,
    a1c: real)

  /** The bounds the sidebar's number widgets enforce on what they hand over. */
  predicate WithinWidgetBounds(s: Snapshot)
  {
    18 <= s.age <= 100
    && 30.0 <= s.weight <= 250.0
    && 120.0 <= s.height <= 220.0
    && 1.0 <= s.ast <= 500.0
    && 1.0 <= s.alt <= 500.0
    && 10.0 <= s.platelets <= 800.0
    && 1.0 <= s.albumin <= 6.5
    && 40.0 <= s.glucose <= 400.0
    && 0.0 <= s.insulin <= 200.0
    && 4.0 <= s.a1c <= 14.0
  }

  /** The `scores` dictionary, the BMI shown under the sidebar and the two risk labels. */
  datatype Report = Report(
    bmi: real,
    fib4: Option<real>,
    nfs: Option<real>,
    homaIr: Option<real>,
    eag: Option<real>,
    fib4Category: Category,
    nfsCategory: Category)

  /** Evaluates the sidebar's values. Within the widgets' bounds every score is computed (so no
      label is the dash), FIB-4 is positive, eAG is at least 68.1 mg/dL, and HOMA-IR is 0
      exactly when the fasting insulin is 0. */
  function Evaluate(s: Snapshot, sqrt: SquareRoot): (r: Report)
    requires WithinWidgetBounds(s)
    ensures r.fib4.Some? && r.nfs.Some? && r.homaIr.Some? && r.eag.Some?
    ensures r.fib4.value > 0.0
    ensures r.eag.value >= 68.1
    ensures r.homaIr.value == 0.0 <==> s.insulin == 0.0
    ensures r.fib4Category != Unknown && r.nfsCategory != Unknown
    ensures r.bmi > 0.0
  {
    var age := s.age as real;
    var bmi := Bmi(s.weight, s.height);
    var fib4 := Fib4(Some(age), Some(s.ast), Some(s.alt), Some(s.platelets), sqrt);
    var nfs := Nfs(Some(age), Some(bmi), s.hasT2d, Some(s.ast), Some(s.alt), Some(s.platelets), Some(s.albumin));
    var homaIr := HomaIr(Some(s.glucose), Some(s.insulin));
    var eag := Eag(Some(s.a1c));
    ProductPositive(age, s.ast);
    Fib4Sign(age, s.ast, s.alt, s.platelets, sqrt);
    HomaIrZeroAndSign(s.glucose, s.insulin);
    BmiMonotone(s.weight, s.weight, s.height, s.height);
    Report(bmi, fib4, nfs, homaIr, eag, CategorizeFib4(fib4), CategorizeNfs(nfs))
  }

  /** What a metric tile shows: the dash, or the (formatted) number. */
  datatype Shown = Dash | Figure(value: real)

  /** `f"{score:.2f}" if score else "—"` as written: Python's truthiness makes both `None` and
      exactly `0.0` show the dash. */
  function Display(score: Option<real>): (d: Shown)
    ensures d == Dash <==> score.None? || score.value == 0.0
    ensures d.Figure? ==> score == Some(d.value)
  {
    if score.None? || score.value == 0.0 then Dash else Figure(score.value)
  }

  /** The display the placeholder is meant for: the dash stands for a score that could not be
      computed, and every computed score is shown, 0 included. */
  function DisplayIntended(score: Option<real>): (d: Shown)
    ensures d == Dash <==> score.None?
    ensures d.Figure? ==> score == Some(d.value)
  {
    if score.None? then Dash else Figure(score.value)
  }

  /** The two displays differ on exactly one value: a computed score of 0. */
  lemma DisplayDiffersOnlyAtZero(score: Option<real>)
    ensures Display(score) != DisplayIntended(score) <==> score == Some(0.0)
  {
  }

  /** Within the widgets' bounds the FIB-4 and eAG tiles always show a number, and the HOMA-IR
      tile shows the dash exactly when the fasting insulin is 0, which its widget allows: a
      computed HOMA-IR of 0 is then shown as missing, while the intended display shows it. */
  lemma ZeroInsulinShownAsMissing(s: Snapshot, sqrt: SquareRoot)
    requires WithinWidgetBounds(s)
    ensures var r := Evaluate(s, sqrt);
            Display(r.fib4).Figure? && Display(r.eag).Figure?
            && (Display(r.homaIr) == Dash <==> s.insulin == 0.0)
            && DisplayIntended(r.homaIr) == Figure(r.homaIr.value)
  {
  }

  /** The sidebar's default values with the fasting insulin set to 0: HOMA-IR is computed as 0,
      its tile shows the dash, and the intended display shows 0. */
  lemma ZeroInsulinExample(sqrt: SquareRoot)
    ensures var s := Snapshot(52, M, 86.0, 170.0, 40.0, 45.0, 220.0, 4.2, true, 120.0, 0.0, 7.2);
            var r := Evaluate(s, sqrt);
            r.homaIr == Some(0.0) && Display(r.homaIr) == Dash && DisplayIntended(r.homaIr) == Figure(0.0)
  {
  }
}
