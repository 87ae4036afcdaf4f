/**
  The trail of sketch.js as values: the points it holds, the drawing calls
  it makes, and what evicting entries from its front draws and erases.
 */
module Trail {

  /** A trail entry: the head position already rounded by roundXY, and the
      pixel size in force when it was drawn. */
  datatype Point = Point(x: int, y: int, pixelSize: int)

  /** A call on the canvas: drawPixel, erasePixel, or background(30), which
      clears the whole canvas. */
  datatype Event = DrawPixel(p: Point) | ErasePixel(p: Point) | Background

  predicate SameSpot(a: Point, b: Point) {
    a.x == b.x && a.y == b.y
  }

  /** What removing entry i of trail t draws, when the entries before it are
      gone already: its pixel is erased with its own size, and if the entry
      that becomes the front lies on the same spot, that entry is drawn again
      with its own size. */
  function RemovalEvents(t: seq<Point>, i: nat): (r: seq<Event>)
    requires i < |t|
    ensures 1 <= |r| <= 2 && r[0] == ErasePixel(t[i])
    ensures |r| == 2 <==> i + 1 < |t| && SameSpot(t[i + 1], t[i])
    ensures |r| == 2 ==> r[1] == DrawPixel(t[i + 1])
  {
    [ErasePixel(t[i])] + if i + 1 < |t| && SameSpot(t[i + 1], t[i]) then [DrawPixel(t[i + 1])] else []
  }

  /** What removing the first k entries of t one at a time draws. */
  function EvictionLog(t: seq<Point>, k: nat): (r: seq<Event>)
    requires k <= |t|
    ensures k <= |r| <= 2 * k
  {
    if k == 0 then [] else EvictionLog(t, k - 1) + RemovalEvents(t, k - 1)
  }

  /** The points erased by a sequence of calls, in order. */
  function Erased(log: seq<Event>): seq<Point> {
    if log == [] then []
    else (if log[0].ErasePixel? then [log[0].p] else []) + Erased(log[1..])
  }

  /** The points drawn by a sequence of calls, in order. */
  function Drawn(log: seq<Event>): seq<Point> {
    if log == [] then []
    else (if log[0].DrawPixel? then [log[0].p] else []) + Drawn(log[1..])
  }

  /** The entries among t[1..k] that lie on the same spot as the entry just
      before them: those that become the front when a pixel they share is
      erased. */
  function CoincidentFronts(t: seq<Point>, k: nat): seq<Point>
    requires k <= |t|
  {
    if k == 0 then []
    else CoincidentFronts(t, k - 1) + if k < |t| && SameSpot(t[k], t[k - 1]) then [t[k]] else []
  }

  lemma {:induction false} ErasedAppend(a: seq<Event>, b: seq<Event>)
    ensures Erased(a + b) == Erased(a) + Erased(b)
  {
    if a != [] {
      assert (a + b)[1..] == a[1..] + b;
      ErasedAppend(a[1..], b);
    } else {
      assert a + b == b;
    }
  }

  lemma {:induction false} DrawnAppend(a: seq<Event>, b: seq<Event>)
    ensures Drawn(a + b) == Drawn(a) + Drawn(b)
  {
    if a != [] {
      assert (a + b)[1..] == a[1..] + b;
      DrawnAppend(a[1..], b);
    } else {
      assert a + b == b;
    }
  }

  /** Every removed entry is erased exactly once, in removal order, at its
      own spot and with its own pixel size; nothing else is erased. */
  lemma {:induction false} EvictionErasesRemoved(t: seq<Point>, k: nat)
    requires k <= |t|
    ensures Erased(EvictionLog(t, k)) == t[..k]
  {
    if k > 0 {
      EvictionErasesRemoved(t, k - 1);
      ErasedAppend(EvictionLog(t, k - 1), RemovalEvents(t, k - 1));
      var extra := if k < |t| && SameSpot(t[k], t[k - 1]) then [DrawPixel(t[k])] else [];
      ErasedAppend([ErasePixel(t[k - 1])], extra);
      assert Erased([ErasePixel(t[k - 1])]) == [t[k - 1]];
      assert t[..k] == t[..k - 1] + [t[k - 1]];
    }
  }

  /** An eviction redraws exactly the entries that become the front on the
      spot just erased, in order, each with its own pixel size. */
  lemma {:induction false} EvictionRedrawsCoincident(t: seq<Point>, k: nat)
    requires k <= |t|
    ensures Drawn(EvictionLog(t, k)) == CoincidentFronts(t, k)
  {
    if k > 0 {
      var i := k - 1;
      var before, removal := EvictionLog(t, i), RemovalEvents(t, i);
      var next := if i + 1 < |t| && SameSpot(t[i + 1], t[i]) then [t[i + 1]] else [];
      assert EvictionLog(t, k) == before + removal;
      assert CoincidentFronts(t, k) == CoincidentFronts(t, i) + next;
      EvictionRedrawsCoincident(t, i);
      DrawnAppend(before, removal);
      RemovalDrawn(t, i);
    }
  }

  /** Removing one entry draws the next entry when it lies on the same spot,
      and nothing otherwise. */
  lemma RemovalDrawn(t: seq<Point>, i: nat)
    requires i < |t|
    ensures Drawn(RemovalEvents(t, i)) == if i + 1 < |t| && SameSpot(t[i + 1], t[i]) then [t[i + 1]] else []
  {
    var extra := if i + 1 < |t| && SameSpot(t[i + 1], t[i]) then [DrawPixel(t[i + 1])] else [];
    DrawnAppend([ErasePixel(t[i])], extra);
    assert Drawn([ErasePixel(t[i])]) == [];
    if extra != [] {
      assert Drawn(extra) == [t[i + 1]];
    }
  }

  /** Each redraw in an eviction immediately follows the erasure of a pixel
      on the same spot. */
  lemma {:induction false} RedrawFollowsErase(t: seq<Point>, k: nat)
    requires k <= |t|
    ensures forall j :: 0 <= j < |EvictionLog(t, k)| && EvictionLog(t, k)[j].DrawPixel? ==>
      j > 0 && EvictionLog(t, k)[j - 1].ErasePixel? && SameSpot(EvictionLog(t, k)[j - 1].p, EvictionLog(t, k)[j].p)
  {
    if k > 0 {
      RedrawFollowsErase(t, k - 1);
      var before := EvictionLog(t, k - 1);
      var log := EvictionLog(t, k);
      assert log == before + RemovalEvents(t, k - 1);
      forall j | 0 <= j < |log| && log[j].DrawPixel?
        ensures j > 0 && log[j - 1].ErasePixel? && SameSpot(log[j - 1].p, log[j].p)
      {
        if j >= |before| {
          assert log[|before|] == ErasePixel(t[k - 1]);
          assert j == |before| + 1;
        } else {
          assert log[j] == before[j];
          assert log[j - 1] == before[j - 1];
        }
      }
    }
  }

  /** Removing entry i of t once the entries before it are gone is removing
      the front of what is left. */
  lemma RemovalOfSuffix(t: seq<Point>, i: nat)
    requires i < |t|
    ensures RemovalEvents(t[i..], 0) == RemovalEvents(t, i)
  {
    assert t[i..][0] == t[i];
    if i + 1 < |t| {
      assert t[i..][1] == t[i + 1];
    }
  }
}
