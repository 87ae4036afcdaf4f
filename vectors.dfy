/**
  The rotating vectors of sketch.js as values: how a vector is built from
  its row of controls, refreshed, scaled and stepped on each tick, and how
  the active ones are summed into the head position.

  Angles are measured in turns (one turn is TWO_PI radians) and computed
  exactly. The trigonometry is supplied by the caller as a function polar:
  polar(r, a) stands for (r * cos(2 * PI * a), r * sin(2 * PI * a)), which is
  Math.cos and Math.sin of the angle a turns makes in radians.
 */
module Vectors {
  import opened Wrappers
  import opened JsNumber
  import opened Controls

  /** The margin kept free on each edge of the canvas, in pixels. */
  const Margin: int := 40

  /** One arm. scaledRadius is 0.0 until the vector is first scaled (the
      source leaves it undefined, and never reads it before that). */
  datatype Vector = Vector(
    angle: real,
    radius: int,
    n: int,
    d: int,
    angularDelta: real,
    steps: int,
    initialAngle: real,
    scaledRadius: real)

  /** A vector with D == 0 takes no part in a tick. */
  predicate Active(v: Vector) {
    v.d != 0
  }

  /** zParseInt when parseInt has already returned parsed (None is NaN):
      the number, or the fallback. */
  function OrElse(parsed: Option<int>, fallback: int): int {
    match parsed
    case Some(n) => n
    case None => fallback
  }

  /** zParseInt(val, fallback): parseInt(val, 10), or the fallback when that is NaN. */
  function ZParseInt(val: string, fallback: int): int {
    OrElse(ParseInt(val, Decimal), fallback)
  }

  /** zParseInt gives back every integer written by String(n), whatever
      the fallback. */
  lemma ZParseIntOfToString(n: int, fallback: int)
    ensures ZParseInt(ToStringDecimal(n), fallback) == n
  {
    ParseDecimalOfToString(n, Decimal);
  }

  /** zParseInt reads white space, an optional sign and a run of decimal
      digits as the signed value of the run, and ignores what follows the
      run ("12px" is 12, "3.7" is 3). */
  lemma ZParseIntOfNumeral(blanks: string, sign: Sign, w: string, rest: string, fallback: int)
    requires forall i :: 0 <= i < |blanks| ==> IsWhitespace(blanks[i])
    requires w != [] && forall i :: 0 <= i < |w| ==> IsDigit(w[i], 10)
    requires rest == [] || !IsDigit(rest[0], 10)
    ensures ZParseInt(blanks + SignText(sign) + w + rest, fallback) == Signed(sign, DigitsValue(w, 10))
  {
    ParseNumeral(blanks, sign, w, rest, Decimal);
  }

  /** With no decimal digit after the white space and the sign (an empty
      input, "abc", "-", ".5"), zParseInt gives the fallback. */
  lemma ZParseIntFallback(blanks: string, sign: Sign, rest: string, fallback: int)
    requires forall i :: 0 <= i < |blanks| ==> IsWhitespace(blanks[i])
    requires rest == [] || !IsDigit(rest[0], 10)
    requires sign == NoSign && rest != [] ==> !IsWhitespace(rest[0]) && rest[0] != '+' && rest[0] != '-'
    ensures ZParseInt(blanks + SignText(sign) + rest, fallback) == fallback
  {
    ParseNoDigits(blanks, sign, rest, Decimal);
  }

  /** What parseInt(·, 10) makes of the length, N and D inputs of one row. */
  datatype RowReading = RowReading(length: Option<int>, n: Option<int>, d: Option<int>)

  function ReadRow(p: VectorParam): RowReading {
    RowReading(ParseInt(p.length, Decimal), ParseInt(p.n, Decimal), ParseInt(p.d, Decimal))
  }

  /** N * TWO_PI / D radians per step, that is N / D turns; 0 when D is 0. */
  function AngularDelta(n: int, d: int): (r: real)
    ensures d != 0 ==> r * d as real == n as real
    ensures d == 0 ==> r == 0.0
  {
    if d != 0 then n as real / d as real else 0.0
  }

  /** The vector that resetVectorsAndTrail builds from a row of controls:
      unparsable inputs count as 0. */
  function Rebuilt(row: RowReading): (r: Vector)
    ensures r.angle == 0.0 && r.steps == 0 && r.initialAngle == 0.0 && r.scaledRadius == 0.0
    ensures row.length.Some? ==> r.radius == row.length.value
    ensures row.n.Some? ==> r.n == row.n.value
    ensures row.d.Some? ==> r.d == row.d.value
    ensures row.length.None? ==> r.radius == 0
    ensures row.n.None? ==> r.n == 0
    ensures row.d.None? ==> r.d == 0
    ensures Active(r) ==> r.angularDelta * r.d as real == r.n as real
  {
    var radius := OrElse(row.length, 0);
    var n := OrElse(row.n, 0);
    var d := OrElse(row.d, 0);
    Vector(0.0, radius, n, d, AngularDelta(n, d), 0, 0.0, 0.0)
  }

  /** draw's live update: radius, N, D and the angular step are re-read from
      the row; angle, steps and initialAngle are kept. */
  function Refreshed(v: Vector, row: RowReading): (r: Vector)
    ensures r.angle == v.angle && r.steps == v.steps && r.initialAngle == v.initialAngle
    ensures r.scaledRadius == v.scaledRadius
    ensures (r.radius, r.n, r.d) == (Rebuilt(row).radius, Rebuilt(row).n, Rebuilt(row).d)
    ensures r.angularDelta == AngularDelta(r.n, r.d)
  {
    var radius := OrElse(row.length, 0);
    var n := OrElse(row.n, 0);
    var d := OrElse(row.d, 0);
    v.(radius := radius, n := n, d := d, angularDelta := AngularDelta(n, d))
  }

  /** What one vector contributes to totalNominal. */
  function Nominal(v: Vector): nat {
    if Active(v) then Abs(v.radius) else 0
  }

  /** totalNominal: the reduce over the vectors, in order. */
  function TotalNominal(vs: seq<Vector>): (r: nat)
    ensures forall i :: 0 <= i < |vs| ==> Nominal(vs[i]) <= r
  {
    if vs == [] then 0
    else
      var init := vs[..|vs| - 1];
      assert forall i :: 0 <= i < |init| ==> init[i] == vs[i];
      TotalNominal(init) + Nominal(vs[|vs| - 1])
  }

  /** The largest radius that keeps the pattern inside the margin. */
  function MaxRadius(width: int, height: int, pixelSize: int): (r: real)
    ensures r + Margin as real + pixelSize as real / 2.0 + 1.0 <= width as real / 2.0
    ensures r + Margin as real + pixelSize as real / 2.0 + 1.0 <= height as real / 2.0
    ensures r + Margin as real + pixelSize as real / 2.0 + 1.0 == width as real / 2.0
      || r + Margin as real + pixelSize as real / 2.0 + 1.0 == height as real / 2.0
  {
    (if width < height then width else height) as real / 2.0
      - Margin as real - pixelSize as real / 2.0 - 1.0
  }

  /** scaleFactor: maxRadius over the total radius, or 1 when that is 0. */
  function ScaleFactor(totalNominal: int, maxRadius: real): (r: real)
    ensures totalNominal == 0 ==> r == 1.0
    ensures totalNominal != 0 ==> r * totalNominal as real == maxRadius
  {
    if totalNominal != 0 then maxRadius / totalNominal as real else 1.0
  }

  /** Scaling an active vector sets its scaledRadius; an inactive one is left alone. */
  function Scaled(v: Vector, scaleFactor: real): Vector {
    if Active(v) then v.(scaledRadius := v.radius as real * scaleFactor) else v
  }

  /** One step of an active vector: the angle advances by the angular step
      and the step counter by one, modulo D; when the counter wraps to 0 the
      angle snaps back to initialAngle. An inactive vector is left alone. */
  function Stepped(v: Vector): (r: Vector)
    ensures !Active(v) ==> r == v
    ensures Active(v) && v.steps >= 0 ==> 0 <= r.steps < Abs(v.d) && r.steps == (v.steps + 1) % Abs(v.d)
    ensures Active(v) && r.steps == 0 ==> r.angle == v.initialAngle
    ensures Active(v) && r.steps != 0 ==> r.angle == v.angle + v.angularDelta
    ensures (r.radius, r.n, r.d, r.angularDelta) == (v.radius, v.n, v.d, v.angularDelta)
    ensures r.initialAngle == v.initialAngle && r.scaledRadius == v.scaledRadius
  {
    if !Active(v) then v
    else
      var steps := JsRem(v.steps + 1, v.d);
      v.(angle := if steps == 0 then v.initialAngle else v.angle + v.angularDelta, steps := steps)
  }

  /** The angle reached from start after k angular steps of delta each. */
  function AngleAfter(start: real, delta: real, k: nat): real {
    if k == 0 then start else AngleAfter(start, delta, k - 1) + delta
  }

  /** A vector whose angle is initialAngle plus steps angular steps, with
      the counter below |D|: the state every active vector starts in after a
      reset and keeps as long as its N and D stay the same. */
  predicate InPhase(v: Vector) {
    && Active(v)
    && 0 <= v.steps < Abs(v.d)
    && v.angle == AngleAfter(v.initialAngle, v.angularDelta, v.steps)
  }

  /** Stepping keeps a vector in phase. */
  lemma SteppedInPhase(v: Vector)
    requires InPhase(v)
    ensures InPhase(Stepped(v))
  {
    JsRemSmall(v.steps + 1, v.d);
  }

  /** The vector after k steps. */
  function StepTimes(v: Vector, k: nat): Vector {
    if k == 0 then v else Stepped(StepTimes(v, k - 1))
  }

  /** A vector at the start of its cycle reaches step k after k steps, at
      initialAngle plus k angular steps, and is back where it started after
      exactly |D| steps. */
  lemma {:induction false} CycleReturns(v: Vector, k: nat)
    requires Active(v) && v.steps == 0 && v.angle == v.initialAngle
    requires k <= Abs(v.d)
    ensures k < Abs(v.d) ==>
      StepTimes(v, k) == v.(steps := k, angle := AngleAfter(v.initialAngle, v.angularDelta, k))
    ensures k == Abs(v.d) ==> StepTimes(v, k) == v
  {
    if k > 0 {
      CycleReturns(v, k - 1);
      JsRemSmall(k, v.d);
      if k == Abs(v.d) {
        assert v.(steps := 0, angle := v.initialAngle) == v;
      }
    }
  }

  /** The active vectors, in order. */
  function ActiveOnly(vs: seq<Vector>): (r: seq<Vector>)
    ensures forall i :: 0 <= i < |r| ==> Active(r[i])
  {
    if vs == [] then []
    else ActiveOnly(vs[..|vs| - 1]) + if Active(vs[|vs| - 1]) then [vs[|vs| - 1]] else []
  }

  /** Inactive vectors add nothing to totalNominal. */
  lemma {:induction false} TotalNominalOfActive(vs: seq<Vector>)
    ensures TotalNominal(ActiveOnly(vs)) == TotalNominal(vs)
  {
    if vs != [] {
      var init, last := vs[..|vs| - 1], vs[|vs| - 1];
      TotalNominalOfActive(init);
      var a := ActiveOnly(init);
      if Active(last) {
        assert ActiveOnly(vs) == a + [last];
        assert (a + [last])[..|a|] == a;
      } else {
        assert ActiveOnly(vs) == a + [];
        assert a + [] == a;
      }
    }
  }

  /** totalNominal is 0 exactly when every active vector has radius 0, and
      then the scale factor falls back to 1. */
  lemma {:induction false} TotalNominalZero(vs: seq<Vector>, maxRadius: real)
    ensures TotalNominal(vs) == 0 <==> forall i :: 0 <= i < |vs| && Active(vs[i]) ==> vs[i].radius == 0
    ensures (forall i :: 0 <= i < |vs| && Active(vs[i]) ==> vs[i].radius == 0) ==> ScaleFactor(TotalNominal(vs), maxRadius) == 1.0
  {
    if vs != [] {
      var init := vs[..|vs| - 1];
      TotalNominalZero(init, maxRadius);
      assert forall i :: 0 <= i < |init| ==> init[i] == vs[i];
    }
  }

  /** Every vector scaled by the same factor. */
  function ScaleAll(vs: seq<Vector>, scaleFactor: real): (r: seq<Vector>)
    ensures |r| == |vs|
    ensures forall i :: 0 <= i < |vs| ==> r[i] == Scaled(vs[i], scaleFactor)
  {
    if vs == [] then [] else ScaleAll(vs[..|vs| - 1], scaleFactor) + [Scaled(vs[|vs| - 1], scaleFactor)]
  }

  /** Where an active vector's arm points, relative to its base: its scaled
      radius along its angle. An inactive vector has no arm. */
  function Arm(v: Vector, polar: (real, real) -> (real, real)): (real, real) {
    if Active(v) then polar(v.scaledRadius, v.angle)
    else (0.0, 0.0)
  }

  /** The offset of the head from the centre: the arms of the vectors,
      added in order. */
  function Offset(vs: seq<Vector>, polar: (real, real) -> (real, real)): (real, real) {
    if vs == [] then (0.0, 0.0)
    else
      var o := Offset(vs[..|vs| - 1], polar);
      var arm := Arm(vs[|vs| - 1], polar);
      (o.0 + arm.0, o.1 + arm.1)
  }

  /** Inactive vectors do not move the head. */
  lemma {:induction false} OffsetOfActive(vs: seq<Vector>, polar: (real, real) -> (real, real))
    ensures Offset(ActiveOnly(vs), polar) == Offset(vs, polar)
  {
    if vs != [] {
      var init, last := vs[..|vs| - 1], vs[|vs| - 1];
      OffsetOfActive(init, polar);
      if Active(last) {
        OffsetSnoc(ActiveOnly(init), last, polar);
      } else {
        assert ActiveOnly(vs) == ActiveOnly(init);
      }
    }
  }

  lemma OffsetSnoc(vs: seq<Vector>, v: Vector, polar: (real, real) -> (real, real))
    ensures Offset(vs + [v], polar).0 == Offset(vs, polar).0 + Arm(v, polar).0
    ensures Offset(vs + [v], polar).1 == Offset(vs, polar).1 + Arm(v, polar).1
  {
    var w := vs + [v];
    assert w[..|w| - 1] == vs;
    assert w[|w| - 1] == v;
  }
}
