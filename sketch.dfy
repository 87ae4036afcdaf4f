/**
  The animation state of sketch.js: the vectors, the trail and the trail's
  length limit, with the canvas recorded as the list of pixel calls made on
  it. setup, draw, resetVectorsAndTrail and clearAndReset change that state
  step by step, as the source does; the functions below say what a tick
  computes, and the lemmas say what that means for the trail and the canvas.
 */
module Sketch {
  import opened Wrappers
  import opened JsNumber
  import opened Controls
  import opened Trail
  import opened Vectors

  /** The trail length before any control says otherwise. */
  const DefaultTrailLength: int := 300

  /** What draw and resetVectorsAndTrail read from the controls, as
      numbers: parseInt(·, 10) of each vector input and of pixelSize, and
      parseInt of snakeLength with no radix. None stands for NaN. */
  datatype Readings = Readings(rows: seq<RowReading>, pixelSize: Option<int>, snakeLength: Option<int>)

  /** Read the controls. */
  function Read(form: Form): (r: Readings)
    ensures |r.rows| == |form.vectors|
    ensures forall i :: 0 <= i < |form.vectors| ==>
      OrElse(r.rows[i].d, 0) == ZParseInt(form.vectors[i].d, 0)
      && OrElse(r.rows[i].n, 0) == ZParseInt(form.vectors[i].n, 0)
      && OrElse(r.rows[i].length, 0) == ZParseInt(form.vectors[i].length, 0)
    ensures OrElse(r.pixelSize, 1) == ZParseInt(form.pixelSize, 1)
  {
    var rows := seq(|form.vectors|, i requires 0 <= i < |form.vectors| => ReadRow(form.vectors[i]));
    Readings(rows, ParseInt(form.pixelSize, Decimal), ParseInt(form.snakeLength, Auto))
  }

  /** Controls that hold integers written by String(n) are read back as
      those integers: every row, the pixel size, and the trail length. */
  lemma ReadOfNumbers(form: Form, lengths: seq<int>, ns: seq<int>, ds: seq<int>, pixelSize: int, snakeLength: int)
    requires |lengths| == |ns| == |ds| == |form.vectors|
    requires forall i :: 0 <= i < |form.vectors| ==>
      form.vectors[i] == VectorParam(ToStringDecimal(lengths[i]), ToStringDecimal(ns[i]), ToStringDecimal(ds[i]))
    requires form.pixelSize == ToStringDecimal(pixelSize) && form.snakeLength == ToStringDecimal(snakeLength)
    ensures forall i :: 0 <= i < |form.vectors| ==>
      Read(form).rows[i] == RowReading(Some(lengths[i]), Some(ns[i]), Some(ds[i]))
    ensures Read(form).pixelSize == Some(pixelSize) && Read(form).snakeLength == Some(snakeLength)
  {
    forall i | 0 <= i < |form.vectors|
      ensures Read(form).rows[i] == RowReading(Some(lengths[i]), Some(ns[i]), Some(ds[i]))
    {
      ParseDecimalOfToString(lengths[i], Decimal);
      ParseDecimalOfToString(ns[i], Decimal);
      ParseDecimalOfToString(ds[i], Decimal);
    }
    ParseDecimalOfToString(pixelSize, Decimal);
    ParseDecimalOfToString(snakeLength, Auto);
  }

  /** The trail length is read with parseInt and no radix, so "0x" followed
      by hexadecimal digits is read in base 16 ("0x20" is 32). */
  lemma SnakeLengthHex(form: Form, x: char, w: string)
    requires x == 'x' || x == 'X'
    requires w != [] && forall i :: 0 <= i < |w| ==> IsDigit(w[i], 16)
    requires form.snakeLength == ['0', x] + w
    ensures Read(form).snakeLength == Some(DigitsValue(w, 16))
  {
    BareHexShape(x, w);
    ParseHexNumeral("", NoSign, x, w, "", Auto);
  }

  lemma BareHexShape(x: char, w: string)
    ensures "" + SignText(NoSign) + ['0', x] + w + "" == ['0', x] + w
  {
  }

  /** The snakeLength control replaces maxTrailLength only when it parses to
      a number above 1, so the limit never drops below 2. */
  function NextMaxTrailLength(current: int, snakeLength: Option<int>): (r: int)
    ensures current >= 2 ==> r >= 2
    ensures r == current || snakeLength == Some(r)
    ensures snakeLength.Some? && snakeLength.value > 1 ==> r == snakeLength.value
  {
    match snakeLength
    case Some(len) => if len > 1 then len else current
    case None => current
  }

  /** The pixel size draw reads, 1 when the control does not parse. */
  function PixelSize(input: Readings): int {
    OrElse(input.pixelSize, 1)
  }

  /** The vectors resetVectorsAndTrail builds, one per row. */
  function RebuildAll(rows: seq<RowReading>): seq<Vector> {
    seq(|rows|, i requires 0 <= i < |rows| => Rebuilt(rows[i]))
  }

  /** draw's live update, row by row. */
  function RefreshAll(vs: seq<Vector>, rows: seq<RowReading>): seq<Vector>
    requires |rows| == |vs|
  {
    seq(|vs|, i requires 0 <= i < |vs| => Refreshed(vs[i], rows[i]))
  }

  /** One step of every vector. */
  function StepAll(vs: seq<Vector>): seq<Vector> {
    seq(|vs|, i requires 0 <= i < |vs| => Stepped(vs[i]))
  }

  /** The vectors after one tick: refreshed from the form, scaled to fit the
      canvas, then stepped. */
  function Ticked(vs: seq<Vector>, input: Readings, width: int, height: int): seq<Vector>
    requires |input.rows| == |vs|
  {
    var refreshed := RefreshAll(vs, input.rows);
    var scaleFactor := ScaleFactor(TotalNominal(refreshed), MaxRadius(width, height, PixelSize(input)));
    StepAll(ScaleAll(refreshed, scaleFactor))
  }

  /** The new head: the centre of the canvas plus the arms of the stepped
      vectors, rounded as roundXY does, with the pixel size of this tick. */
  function HeadPoint(vs: seq<Vector>, width: int, height: int, pixelSize: int, polar: (real, real) -> (real, real)): (r: Point)
    ensures r.pixelSize == pixelSize
    ensures var cx := width as real / 2.0 + Offset(vs, polar).0;
      cx - 0.5 < r.x as real <= cx + 0.5
    ensures var cy := height as real / 2.0 + Offset(vs, polar).1;
      cy - 0.5 < r.y as real <= cy + 0.5
  {
    var o := Offset(vs, polar);
    Point(Round(width as real / 2.0 + o.0), Round(height as real / 2.0 + o.1), pixelSize)
  }

  /** How many entries a tick evicts from a trail of n entries: the flush
      down to the limit, and one more because the trail is then full. */
  function Evictions(n: nat, maxTrailLength: int): (k: nat)
    requires maxTrailLength >= 2
    ensures k <= n
    ensures n >= maxTrailLength ==> n - k == maxTrailLength - 1
    ensures n < maxTrailLength ==> k == 0
  {
    if n >= maxTrailLength then n - maxTrailLength + 1 else 0
  }

  /** The trail after a tick: what the evictions leave, then the head. */
  function TrailStep(t: seq<Point>, maxTrailLength: int, head: Point): (r: seq<Point>)
    requires maxTrailLength >= 2
    ensures 1 <= |r| <= maxTrailLength
    ensures r[|r| - 1] == head
    ensures |r| == if |t| < maxTrailLength then |t| + 1 else maxTrailLength
    ensures r[..|r| - 1] == t[|t| - (|r| - 1)..]
  {
    t[Evictions(|t|, maxTrailLength)..] + [head]
  }

  /** The pixel calls of a tick: those of the evictions, then the head. */
  function TickLog(t: seq<Point>, maxTrailLength: int, head: Point): seq<Event>
    requires maxTrailLength >= 2
  {
    EvictionLog(t, Evictions(|t|, maxTrailLength)) + [DrawPixel(head)]
  }

  /** A tick erases exactly the entries that leave the trail, oldest first,
      each with its own pixel size: what it erases followed by what remains
      before the head is the old trail. */
  lemma TickErasesEvicted(t: seq<Point>, maxTrailLength: int, head: Point)
    requires maxTrailLength >= 2
    ensures Erased(TickLog(t, maxTrailLength, head)) + TrailStep(t, maxTrailLength, head)[..|TrailStep(t, maxTrailLength, head)| - 1] == t
  {
    var k := Evictions(|t|, maxTrailLength);
    ErasedAppend(EvictionLog(t, k), [DrawPixel(head)]);
    EvictionErasesRemoved(t, k);
    assert Erased([DrawPixel(head)]) == [];
    var r := TrailStep(t, maxTrailLength, head);
    assert r[..|r| - 1] == t[k..];
    assert t[..k] + t[k..] == t;
  }

  /** A tick draws the entries that become the front on a spot just erased,
      each with its own pixel size, and then the head. */
  lemma TickDrawsFrontsThenHead(t: seq<Point>, maxTrailLength: int, head: Point)
    requires maxTrailLength >= 2
    ensures Drawn(TickLog(t, maxTrailLength, head)) == CoincidentFronts(t, Evictions(|t|, maxTrailLength)) + [head]
  {
    var k := Evictions(|t|, maxTrailLength);
    DrawnAppend(EvictionLog(t, k), [DrawPixel(head)]);
    EvictionRedrawsCoincident(t, k);
    assert Drawn([DrawPixel(head)]) == [head];
  }

  /** The flush down to the limit (from t0 and s0 to t1 and s1), then the
      eviction of a full trail and the push of the head (from t1 and s1 to
      t2 and s2), make up one tick. */
  lemma TickComposes(t0: seq<Point>, s0: seq<Event>, t1: seq<Point>, s1: seq<Event>,
                     t2: seq<Point>, s2: seq<Event>, maxTrailLength: int, head: Point)
    requires maxTrailLength >= 2
    requires |t1| == if |t0| > maxTrailLength then maxTrailLength else |t0|
    requires t1 == t0[|t0| - |t1|..]
    requires s1 == s0 + EvictionLog(t0, |t0| - |t1|)
    requires t2 == (if |t1| == maxTrailLength then t1[1..] else t1) + [head]
    requires s2 == s1 + (if |t1| == maxTrailLength then RemovalEvents(t1, 0) else []) + [DrawPixel(head)]
    ensures t2 == TrailStep(t0, maxTrailLength, head)
    ensures s2 == s0 + TickLog(t0, maxTrailLength, head)
  {
    var f := |t0| - |t1|;
    var k := Evictions(|t0|, maxTrailLength);
    if |t1| == maxTrailLength {
      assert k == f + 1;
      assert t1[1..] == t0[k..];
      RemovalOfSuffix(t0, f);
      var log, removal := EvictionLog(t0, f), RemovalEvents(t1, 0);
      assert EvictionLog(t0, f + 1) == log + removal;
      assert s2 == s0 + log + removal + [DrawPixel(head)];
      AppendAssoc(s0, log, removal, [DrawPixel(head)]);
    } else {
      assert k == f;
      assert s2 == s0 + EvictionLog(t0, f) + [DrawPixel(head)];
    }
  }

  lemma AppendAssoc<T>(a: seq<T>, b: seq<T>, c: seq<T>, d: seq<T>)
    ensures a + b + c + d == a + (b + c + d)
  {
  }

  /** Stepping never makes a step counter negative. */
  lemma StepAllKeepsCountersNatural(vs: seq<Vector>)
    requires forall i :: 0 <= i < |vs| ==> vs[i].steps >= 0
    ensures forall i :: 0 <= i < |StepAll(vs)| ==> StepAll(vs)[i].steps >= 0
  {
  }

  /** Right after a reset every vector is at angle 0 with step 0 and
      initialAngle 0; the active ones are in phase, and each comes back to
      that state after |D| ticks as long as its row is not edited. */
  lemma RebuiltStartsCycle(p: RowReading)
    ensures Rebuilt(p).angle == 0.0 && Rebuilt(p).steps == 0 && Rebuilt(p).initialAngle == 0.0
    ensures Active(Rebuilt(p)) ==> InPhase(Rebuilt(p)) && StepTimes(Rebuilt(p), Abs(Rebuilt(p).d)) == Rebuilt(p)
  {
    var v := Rebuilt(p);
    if Active(v) {
      CycleReturns(v, Abs(v.d));
    }
  }

  /** The building loop of resetVectorsAndTrail: one new vector per row. */
  method BuildVectors(ps: seq<RowReading>) returns (r: seq<Vector>)
    ensures r == RebuildAll(ps)
  {
    r := [];
    for i := 0 to |ps|
      invariant |r| == i
      invariant forall j :: 0 <= j < i ==> r[j] == Rebuilt(ps[j])
    {
      r := r + [Rebuilt(ps[i])];
    }
  }

  /** The live-update loop of draw: every vector takes radius, N, D and
      the angular step from its row. */
  method RefreshVectors(vs: seq<Vector>, ps: seq<RowReading>) returns (r: seq<Vector>)
    requires |ps| == |vs|
    ensures r == RefreshAll(vs, ps)
  {
    r := vs;
    for i := 0 to |vs|
      invariant |r| == |vs|
      invariant forall j :: 0 <= j < i ==> r[j] == Refreshed(vs[j], ps[j])
      invariant forall j :: i <= j < |vs| ==> r[j] == vs[j]
    {
      r := r[i := Refreshed(r[i], ps[i])];
    }
  }

  /** The scaling loop of draw: each active vector's scaledRadius becomes
      its radius times the scale factor; inactive vectors are skipped. */
  method ScaleVectors(vs: seq<Vector>, scaleFactor: real) returns (r: seq<Vector>)
    ensures r == ScaleAll(vs, scaleFactor)
  {
    r := vs;
    for i := 0 to |vs|
      invariant |r| == |vs|
      invariant forall j :: 0 <= j < i ==> r[j] == Scaled(vs[j], scaleFactor)
      invariant forall j :: i <= j < |vs| ==> r[j] == vs[j]
    {
      if Active(r[i]) {
        r := r[i := r[i].(scaledRadius := r[i].radius as real * scaleFactor)];
      }
    }
  }

  /** The stepping loop of draw: each active vector's angle advances by its
      angular step and its counter by one modulo D (JavaScript's %), and the
      angle returns to initialAngle when the counter wraps to 0. */
  method StepVectors(vs: seq<Vector>) returns (r: seq<Vector>)
    ensures r == StepAll(vs)
  {
    r := vs;
    for i := 0 to |vs|
      invariant |r| == |vs|
      invariant forall j :: 0 <= j < i ==> r[j] == Stepped(vs[j])
      invariant forall j :: i <= j < |vs| ==> r[j] == vs[j]
    {
      if Active(r[i]) {
        var v := r[i];
        var angle := v.angle + v.angularDelta;
        var steps := JsRem(v.steps + 1, v.d);
        if steps == 0 {
          angle := v.initialAngle;
        }
        r := r[i := v.(angle := angle, steps := steps)];
      }
    }
  }

  /** The summing loop of draw: starting from the centre, each active
      vector adds its scaled radius along its angle. */
  method SumVectors(vs: seq<Vector>, centerX: real, centerY: real, polar: (real, real) -> (real, real)) returns (x: real, y: real)
    ensures x == centerX + Offset(vs, polar).0 && y == centerY + Offset(vs, polar).1
  {
    x, y := centerX, centerY;
    for i := 0 to |vs|
      invariant x == centerX + Offset(vs[..i], polar).0
      invariant y == centerY + Offset(vs[..i], polar).1
    {
      OffsetSnoc(vs[..i], vs[i], polar);
      assert vs[..i + 1] == vs[..i] + [vs[i]];
      var v := vs[i];
      if Active(v) {
        var arm := polar(v.scaledRadius, v.angle);
        x := x + arm.0;
        y := y + arm.1;
      }
    }
    assert vs[..|vs|] == vs;
  }

  /** The middle of draw: scale the active vectors to fit the canvas,
      step them, and sum their arms into the new head. */
  method MoveVectors(vs: seq<Vector>, width: int, height: int, pixelSize: int, polar: (real, real) -> (real, real))
    returns (r: seq<Vector>, head: Point)
    requires forall i :: 0 <= i < |vs| ==> vs[i].steps >= 0
    ensures r == StepAll(ScaleAll(vs, ScaleFactor(TotalNominal(vs), MaxRadius(width, height, pixelSize))))
    ensures forall i :: 0 <= i < |r| ==> r[i].steps >= 0
    ensures head == HeadPoint(r, width, height, pixelSize, polar)
  {
    var scaleFactor := ScaleFactor(TotalNominal(vs), MaxRadius(width, height, pixelSize));
    var scaled := ScaleVectors(vs, scaleFactor);
    assert forall i :: 0 <= i < |scaled| ==> scaled[i].steps >= 0;
    StepAllKeepsCountersNatural(scaled);
    r := StepVectors(scaled);
    var x, y := SumVectors(r, width as real / 2.0, height as real / 2.0, polar);
    head := Point(Round(x), Round(y), pixelSize);
  }

  class Sketch {
    var vectors: seq<Vector>
    var trail: seq<Point>
    var maxTrailLength: int
    /** Every call made on the canvas so far, in order. */
    var surface: seq<Event>

    ghost predicate Valid()
      reads this
    {
      && maxTrailLength >= 2
      && |trail| <= maxTrailLength
      && forall i :: 0 <= i < |vectors| ==> vectors[i].steps >= 0
    }

    /** The module-level state before setup runs. */
    constructor ()
      ensures Valid()
      ensures vectors == [] && trail == [] && maxTrailLength == DefaultTrailLength && surface == []
    {
      vectors, trail, maxTrailLength, surface := [], [], DefaultTrailLength, [];
    }

    /** setup: clear the canvas, then build the vectors and empty the trail. */
    method Setup(input: Readings)
      requires Valid() && |input.rows| == VectorCount
      modifies this
      ensures Valid()
      ensures vectors == RebuildAll(input.rows) && trail == []
      ensures maxTrailLength == NextMaxTrailLength(old(maxTrailLength), input.snakeLength)
      ensures surface == old(surface) + [Background]
    {
      surface := surface + [Background];
      ResetVectorsAndTrail(input);
    }

    /** Build one vector per row of controls, take the trail length from the
        form, and empty the trail. The canvas is not touched. */
    method ResetVectorsAndTrail(input: Readings)
      requires Valid() && |input.rows| == VectorCount
      modifies this
      ensures Valid()
      ensures vectors == RebuildAll(input.rows) && trail == []
      ensures maxTrailLength == NextMaxTrailLength(old(maxTrailLength), input.snakeLength)
      ensures surface == old(surface)
    {
      var vs := BuildVectors(input.rows);
      vectors := vs;
      maxTrailLength := NextMaxTrailLength(maxTrailLength, input.snakeLength);
      trail := [];
    }

    /** clearAndReset: clear the canvas, reset, then set each vector's
        initialAngle to its angle. The reset has just set every angle to 0,
        so every vector ends at angle 0, step 0, initialAngle 0. */
    method ClearAndReset(input: Readings)
      requires Valid() && |input.rows| == VectorCount
      modifies this
      ensures Valid()
      ensures trail == [] && surface == old(surface) + [Background]
      ensures maxTrailLength == NextMaxTrailLength(old(maxTrailLength), input.snakeLength)
      ensures vectors == RebuildAll(input.rows)
      ensures forall i :: 0 <= i < |vectors| ==>
        vectors[i].angle == 0.0 && vectors[i].steps == 0 && vectors[i].initialAngle == 0.0
    {
      surface := surface + [Background];
      ResetVectorsAndTrail(input);
      var vs := vectors;
      for i := 0 to |vs|
        invariant |vs| == |vectors|
        invariant forall j :: 0 <= j < i ==> vs[j] == vectors[j].(initialAngle := vectors[j].angle)
        invariant forall j :: i <= j < |vs| ==> vs[j] == vectors[j]
      {
        vs := vs[i := vs[i].(initialAngle := vs[i].angle)];
      }
      forall j | 0 <= j < |vs|
        ensures vs[j] == vectors[j]
      {
        RebuiltStartsCycle(input.rows[j]);
      }
      vectors := vs;
    }

    /** Remove the oldest trail entry: erase its pixel with its own size and,
        if the entry that becomes the front lies on the same spot, draw that
        entry again with its own size. */
    method EvictFront()
      requires trail != []
      modifies this
      ensures trail == old(trail)[1..]
      ensures surface == old(surface) + RemovalEvents(old(trail), 0)
      ensures vectors == old(vectors) && maxTrailLength == old(maxTrailLength)
    {
      var gone := trail[0];
      trail := trail[1..];
      surface := surface + [ErasePixel(gone)];
      if |trail| > 0 {
        var next := trail[0];
        if SameSpot(next, gone) {
          surface := surface + [DrawPixel(next)];
        }
      }
    }

    /** The flush loop of draw: evict from the front while the trail is
        longer than the limit. */
    method FlushTrail()
      requires maxTrailLength >= 2
      modifies this
      ensures |trail| == if |old(trail)| > maxTrailLength then maxTrailLength else |old(trail)|
      ensures trail == old(trail)[|old(trail)| - |trail|..]
      ensures surface == old(surface) + EvictionLog(old(trail), |old(trail)| - |trail|)
      ensures vectors == old(vectors) && maxTrailLength == old(maxTrailLength)
    {
      ghost var removed := 0;
      while |trail| > maxTrailLength
        invariant 0 <= removed <= |old(trail)|
        invariant |old(trail)| > maxTrailLength ==> |trail| >= maxTrailLength
        invariant |old(trail)| <= maxTrailLength ==> removed == 0
        invariant trail == old(trail)[removed..]
        invariant surface == old(surface) + EvictionLog(old(trail), removed)
        invariant vectors == old(vectors) && maxTrailLength == old(maxTrailLength)
        decreases |trail|
      {
        RemovalOfSuffix(old(trail), removed);
        EvictFront();
        removed := removed + 1;
      }
    }

    /** The end of draw: when the trail is full, evict its oldest entry so
        that the head fits; then push the head and draw it. */
    method PlaceHead(head: Point)
      requires maxTrailLength >= 2 && |trail| <= maxTrailLength
      modifies this
      ensures trail == (if |old(trail)| == old(maxTrailLength) then old(trail)[1..] else old(trail)) + [head]
      ensures surface == old(surface)
        + (if |old(trail)| == old(maxTrailLength) then RemovalEvents(old(trail), 0) else [])
        + [DrawPixel(head)]
      ensures vectors == old(vectors) && maxTrailLength == old(maxTrailLength)
    {
      if |trail| >= maxTrailLength {
        EvictFront();
      }
      trail := trail + [head];
      surface := surface + [DrawPixel(head)];
    }

    /** One frame: refresh the vectors from the form, read the pixel size
        and the trail length, flush the trail down to its limit, scale and
        step the vectors, sum them into the new head, evict once more if the
        trail is full, and push and draw the head. */
    method Draw(input: Readings, width: int, height: int, polar: (real, real) -> (real, real))
      requires Valid()
      requires |vectors| == VectorCount && |input.rows| == VectorCount
      modifies this
      ensures Valid()
      ensures maxTrailLength == NextMaxTrailLength(old(maxTrailLength), input.snakeLength)
      ensures vectors == Ticked(old(vectors), input, width, height)
      ensures trail == TrailStep(old(trail), maxTrailLength, HeadPoint(vectors, width, height, PixelSize(input), polar))
      ensures surface == old(surface) + TickLog(old(trail), maxTrailLength, HeadPoint(vectors, width, height, PixelSize(input), polar))
    {
      // Live update of radius, N, D and the angular step.
      var vs := RefreshVectors(vectors, input.rows);
      var pixelSize := OrElse(input.pixelSize, 1);
      maxTrailLength := NextMaxTrailLength(maxTrailLength, input.snakeLength);

      // Immediate flush down to the limit.
      ghost var t0, s0 := trail, surface;
      FlushTrail();
      ghost var t1, s1 := trail, surface;

      // Scale, step and sum the vectors, then place the head.
      var head;
      vs, head := MoveVectors(vs, width, height, pixelSize, polar);
      vectors := vs;
      PlaceHead(head);
      TickComposes(t0, s0, t1, s1, trail, surface, maxTrailLength, head);
    }
  }
}
