/**
  The preset manager of presets.js: the list of named presets kept in the
  browser's storage, how the current controls and colour segments are
  saved into it (replacing a preset of the same name), how a preset is
  deleted, and how loading one fills the controls back in.

  The stored list is the value JSON.parse gives back; a preset read from
  storage may have been imported from a file, so its colour segments and
  their colours need not be arrays.
 */
module Presets {
  import opened Wrappers
  import opened JsNumber
  import opened Controls
  import opened ColorSettings
  import opened Lists

  /** A segment's colour as stored: an array of components, or anything
      else an imported file may hold. */
  datatype StoredColor = Components(components: Color) | NotAnArray

  datatype StoredSegment = StoredSegment(length: int, pixelColor: StoredColor)

  /** A preset's colorSegments as stored: an array of segments, or anything else. */
  datatype StoredSegments = SegmentList(list: seq<StoredSegment>) | NotAList

  datatype Preset = Preset(
    name: string,
    vectorParams: seq<VectorParam>,
    pixelSize: string,
    snakeLength: string,
    drawSpeed: string,
    colorSegments: StoredSegments,
    colorStep: string)

  /** What a segment list that is not an array becomes: one red pixel. */
  const FallbackSegment: Segment := Segment(1, Red)

  /** The row a preset with fewer than eight vectors leaves in place of the
      missing ones: length 1, N 1, D 0 (an inactive vector). */
  const DefaultSlot: VectorParam := VectorParam("1", "1", "0")

  /** The copy made of one segment: its length, and its colour when that is
      an array, red otherwise. */
  function CopySegment(s: StoredSegment): Segment {
    Segment(s.length, match s.pixelColor case Components(c) => c case NotAnArray => Red)
  }

  /** The deep copy of a colour-segment list that savePreset stores and
      loadPreset restores. */
  function Normalized(s: StoredSegments): (r: seq<Segment>)
    ensures s.NotAList? ==> r == [FallbackSegment]
    ensures s.SegmentList? ==> |r| == |s.list|
    ensures s.SegmentList? ==> forall i :: 0 <= i < |r| ==>
      && r[i].length == s.list[i].length
      && (s.list[i].pixelColor.Components? ==> r[i].pixelColor == s.list[i].pixelColor.components)
      && (s.list[i].pixelColor.NotAnArray? ==> r[i].pixelColor == Red)
  {
    match s
    case NotAList => [FallbackSegment]
    case SegmentList(list) => seq(|list|, i requires 0 <= i < |list| => CopySegment(list[i]))
  }

  /** The page's segments as they are written to storage. */
  function Stored(segs: seq<Segment>): (r: seq<StoredSegment>)
    ensures |r| == |segs|
    ensures forall i :: 0 <= i < |r| ==> r[i].pixelColor.Components?
  {
    seq(|segs|, i requires 0 <= i < |segs| => StoredSegment(segs[i].length, Components(segs[i].pixelColor)))
  }

  /** Loading restores exactly the segments that were saved. */
  lemma NormalizedOfStored(segs: seq<Segment>)
    ensures Normalized(SegmentList(Stored(segs))) == segs
  {
    var r := Normalized(SegmentList(Stored(segs)));
    assert forall i :: 0 <= i < |segs| ==> r[i] == segs[i];
  }

  /** Saving what was loaded and loading it again gives the same segments. */
  lemma NormalizedTwice(s: StoredSegments)
    ensures Normalized(SegmentList(Stored(Normalized(s)))) == Normalized(s)
  {
    NormalizedOfStored(Normalized(s));
  }

  predicate HasName(ps: seq<Preset>, name: string) {
    exists i :: 0 <= i < |ps| && ps[i].name == name
  }

  /** No two presets share a name. */
  predicate NamesDistinct(ps: seq<Preset>) {
    forall i, j :: 0 <= i < j < |ps| ==> ps[i].name != ps[j].name
  }

  /** presets.findIndex(p => p.name === name): the first preset with that
      name, or -1 when there is none. */
  function FindIndex(ps: seq<Preset>, name: string): (r: int)
    ensures -1 <= r < |ps|
    ensures r == -1 <==> !HasName(ps, name)
    ensures r >= 0 ==> ps[r].name == name
    ensures r >= 0 ==> forall i :: 0 <= i < r ==> ps[i].name != name
  {
    if ps == [] then -1
    else if ps[0].name == name then 0
    else
      var k := FindIndex(ps[1..], name);
      assert forall i :: 1 <= i < |ps| ==> ps[i] == ps[1..][i - 1];
      if k == -1 then -1 else k + 1
  }

  /** The list after saving p: p replaces the first preset of the same
      name, or is appended when no preset has that name. Every preset of
      another name keeps its place. */
  function Upsert(ps: seq<Preset>, p: Preset): (r: seq<Preset>)
    ensures |r| == if HasName(ps, p.name) then |ps| else |ps| + 1
    ensures p in r
    ensures forall i :: 0 <= i < |ps| && ps[i].name != p.name ==> r[i] == ps[i]
    ensures forall i :: 0 <= i < |r| ==> r[i] == p || (i < |ps| && r[i] == ps[i])
    ensures HasName(ps, p.name) ==> r[FindIndex(ps, p.name)] == p
    ensures HasName(ps, p.name) ==> forall i :: 0 <= i < |ps| && i != FindIndex(ps, p.name) ==> r[i] == ps[i]
    ensures !HasName(ps, p.name) ==> r[..|ps|] == ps && r[|ps|] == p
  {
    var idx := FindIndex(ps, p.name);
    if idx != -1 then
      assert ps[idx := p][idx] == p;
      ps[idx := p]
    else
      assert (ps + [p])[|ps|] == p;
      ps + [p]
  }

  /** Looking the name up after saving finds the saved preset: in the place
      of the old one of that name, or at the end. */
  lemma UpsertThenFind(ps: seq<Preset>, p: Preset)
    ensures FindIndex(Upsert(ps, p), p.name) == if HasName(ps, p.name) then FindIndex(ps, p.name) else |ps|
    ensures Upsert(ps, p)[FindIndex(Upsert(ps, p), p.name)] == p
  {
    var r := Upsert(ps, p);
    var j := FindIndex(r, p.name);
    if HasName(ps, p.name) {
      var idx := FindIndex(ps, p.name);
      assert r == ps[idx := p];
      assert r[idx].name == p.name;
    } else {
      assert r == ps + [p];
      assert r[|ps|].name == p.name;
    }
  }

  /** Saving the same preset twice leaves the list as saving it once. */
  lemma UpsertTwice(ps: seq<Preset>, p: Preset)
    ensures Upsert(Upsert(ps, p), p) == Upsert(ps, p)
  {
    var r := Upsert(ps, p);
    UpsertThenFind(ps, p);
    assert HasName(r, p.name) by {
      assert r[FindIndex(r, p.name)].name == p.name;
    }
  }

  /** Saving never creates a second preset of the same name. */
  lemma UpsertKeepsNamesDistinct(ps: seq<Preset>, p: Preset)
    requires NamesDistinct(ps)
    ensures NamesDistinct(Upsert(ps, p))
  {
    var r := Upsert(ps, p);
    forall i, j | 0 <= i < j < |r|
      ensures r[i].name != r[j].name
    {
      if HasName(ps, p.name) {
        var idx := FindIndex(ps, p.name);
        assert r == ps[idx := p];
        if i != idx && j != idx {
        } else if i == idx {
          assert ps[j].name != ps[idx].name;
        } else {
          assert ps[i].name != ps[idx].name;
        }
      } else {
        assert r == ps + [p];
        if j == |ps| {
          assert r[i] == ps[i];
        }
      }
    }
  }

  /** Deleting a preset never creates two presets of the same name. */
  lemma RemoveKeepsNamesDistinct(ps: seq<Preset>, index: nat)
    requires NamesDistinct(ps)
    ensures NamesDistinct(RemoveAt(ps, index))
  {
    var r := RemoveAt(ps, index);
    forall i, j | 0 <= i < j < |r|
      ensures r[i].name != r[j].name
    {
      var i', j' := if i < index then i else i + 1, if j < index then j else j + 1;
      assert r[i] == ps[i'] && r[j] == ps[j'];
    }
  }

  /** The preset savePreset builds from the first eight rows of controls,
      the other inputs and the segment list. */
  function Saved(name: string, form: Form, segs: seq<Segment>): (p: Preset)
    requires |form.vectors| >= VectorCount
    ensures p.name == name && |p.vectorParams| == VectorCount
    ensures forall i :: 0 <= i < VectorCount ==> p.vectorParams[i] == form.vectors[i]
    ensures Normalized(p.colorSegments) == segs
  {
    NormalizedOfStored(segs);
    Preset(name, form.vectors[..VectorCount], form.pixelSize, form.snakeLength, form.drawSpeed,
      SegmentList(Stored(segs)), form.colorStep)
  }

  /** The rows loadPreset writes: the preset's own vectors, as many of them
      as fit, then the default row. */
  function Slots(vp: seq<VectorParam>): (r: seq<VectorParam>)
    ensures |r| == VectorCount
    ensures forall i :: 0 <= i < VectorCount && i < |vp| ==> r[i] == vp[i]
    ensures forall i :: |vp| <= i < VectorCount ==> r[i] == DefaultSlot
  {
    seq(VectorCount, i requires 0 <= i < VectorCount => if i < |vp| then vp[i] else DefaultSlot)
  }

  /** The controls after loading p: the name in the name field and the title,
      the eight rows from the preset, the other inputs from the preset, and
      the radius statistic reset to 0. Rows past the eighth are left alone. */
  function Loaded(p: Preset, form: Form): (r: Form)
    requires |form.vectors| >= VectorCount
    ensures r.presetName == p.name && r.title == p.name && r.maxRadiusStat == "0"
    ensures |r.vectors| == |form.vectors|
    ensures forall i :: 0 <= i < VectorCount && i < |p.vectorParams| ==> r.vectors[i] == p.vectorParams[i]
    ensures forall i :: |p.vectorParams| <= i < VectorCount ==> r.vectors[i] == DefaultSlot
    ensures forall i :: VectorCount <= i < |form.vectors| ==> r.vectors[i] == form.vectors[i]
    ensures r.pixelSize == p.pixelSize && r.snakeLength == p.snakeLength && r.drawSpeed == p.drawSpeed
    ensures r.colorStep == p.colorStep
  {
    form.(
      presetName := p.name,
      title := p.name,
      vectors := Slots(p.vectorParams) + form.vectors[VectorCount..],
      pixelSize := p.pixelSize,
      snakeLength := p.snakeLength,
      drawSpeed := p.drawSpeed,
      colorStep := p.colorStep,
      maxRadiusStat := "0")
  }

  /** Loading a preset just saved from the same controls gives those
      controls back and the saved segments, with its name in the name
      field and the title, and the radius statistic reset. */
  lemma LoadAfterSave(name: string, form: Form, segs: seq<Segment>)
    requires |form.vectors| >= VectorCount
    ensures Loaded(Saved(name, form, segs), form)
      == form.(presetName := name, title := name, maxRadiusStat := "0")
    ensures Normalized(Saved(name, form, segs).colorSegments) == segs
  {
    var p := Saved(name, form, segs);
    assert Slots(p.vectorParams) == form.vectors[..VectorCount];
    assert form.vectors[..VectorCount] + form.vectors[VectorCount..] == form.vectors;
  }

  /** The colorStep control after loadPreset's closing saveSettings and
      loadSettings, as the code is written: saveSettings stores
      window.colorStep, not the control, and loadSettings writes what it
      reads back into the control, or 1 unless that is at least 1. */
  function SettingsColorStep(windowColorStep: int): (r: string)
    ensures windowColorStep >= 1 ==> ParseInt(r, Decimal) == Some(windowColorStep)
    ensures windowColorStep < 1 ==> r == "1"
  {
    if windowColorStep >= 1 then
      ParseDecimalOfToString(windowColorStep, Decimal);
      ToStringDecimal(windowColorStep)
    else "1"
  }

  /** The controls after loadPreset as written: as Loaded, except that the
      colorStep control ends up showing window.colorStep instead of the
      preset's colorStep. */
  function LoadedAsWritten(p: Preset, form: Form, windowColorStep: int): (r: Form)
    requires |form.vectors| >= VectorCount
    ensures r.colorStep == SettingsColorStep(windowColorStep)
    ensures r.(colorStep := p.colorStep) == Loaded(p, form)
  {
    Loaded(p, form).(colorStep := SettingsColorStep(windowColorStep))
  }

  /** As written, loading a preset just saved does not give the saved
      colorStep back whenever it differs from window.colorStep as
      loadSettings rewrites it: with window.colorStep 1 and a colorStep
      control of "5", the control shows "1" after the load. */
  lemma LoadAsWrittenLosesColorStep(name: string, form: Form, segs: seq<Segment>, windowColorStep: int)
    requires |form.vectors| >= VectorCount
    requires form.colorStep != SettingsColorStep(windowColorStep)
    ensures LoadedAsWritten(Saved(name, form, segs), form, windowColorStep)
      != form.(presetName := name, title := name, maxRadiusStat := "0")
    ensures windowColorStep == 1 && form.colorStep == "5" ==>
      LoadedAsWritten(Saved(name, form, segs), form, windowColorStep).colorStep == "1"
  {
    assert DecimalNat(1) == "1";
  }

  /** The presets in storage, and the operations of the preset panel. */
  class PresetManager {
    /** What getPresets returns: the parsed list, or [] when storage holds none. */
    var presets: seq<Preset>

    constructor (stored: seq<Preset>)
      ensures presets == stored
    {
      presets := stored;
    }

    /** savePreset(name): collects the first eight rows of vector controls,
        the other inputs and the current colour segments into a preset, and
        saves it in place of the first one of that name or at the end. */
    method SavePreset(name: string, form: Form, panel: ColorPanel)
      requires |form.vectors| >= VectorCount
      modifies this
      ensures presets == Upsert(old(presets), Saved(name, form, panel.segments))
    {
      var vectorParams: seq<VectorParam> := [];
      var i := 0;
      while i < VectorCount
        invariant 0 <= i <= VectorCount
        invariant vectorParams == form.vectors[..i]
      {
        vectorParams := vectorParams + [form.vectors[i]];
        i := i + 1;
      }
      var colorSegments := SegmentList(Stored(panel.segments));
      var idx := FindIndex(presets, name);
      var preset := Preset(name, vectorParams, form.pixelSize, form.snakeLength, form.drawSpeed,
        colorSegments, form.colorStep);
      if idx != -1 {
        presets := presets[idx := preset];
      } else {
        presets := presets + [preset];
      }
    }

    /** The Save button: the name field, trimmed, must not be empty; the
        trimmed name is then written back to the name field and the title.
        An empty name saves nothing and leaves the controls as they are. */
    method SaveButton(form: Form, panel: ColorPanel) returns (f: Form)
      requires |form.vectors| >= VectorCount
      modifies this
      ensures Trim(form.presetName) == [] ==> presets == old(presets) && f == form
      ensures Trim(form.presetName) != [] ==>
        && presets == Upsert(old(presets), Saved(Trim(form.presetName), form, panel.segments))
        && f == form.(presetName := Trim(form.presetName), title := Trim(form.presetName))
    {
      var name := Trim(form.presetName);
      if name == [] {
        return form;
      }
      SavePreset(name, form, panel);
      f := form.(presetName := name, title := name);
    }

    /** deletePreset(index): an index outside the list changes nothing;
        otherwise that one preset is removed and the rest keep their order. */
    method DeletePreset(index: int)
      modifies this
      ensures (index < 0 || index >= |old(presets)|) ==> presets == old(presets)
      ensures 0 <= index < |old(presets)| ==> presets == RemoveAt(old(presets), index)
    {
      if index < 0 || index >= |presets| {
        return;
      }
      presets := RemoveAt(presets, index);
    }

    /** loadPreset(index): a missing preset changes nothing; otherwise the
        controls are filled in from it, row by row, and its colour segments
        replace the page's. */
    method LoadPreset(index: int, form: Form, panel: ColorPanel) returns (f: Form)
      requires |form.vectors| >= VectorCount
      modifies panel
      ensures !(0 <= index < |presets|) ==> f == form && panel.segments == old(panel.segments)
      ensures 0 <= index < |presets| ==>
        f == Loaded(presets[index], form) && panel.segments == Normalized(presets[index].colorSegments)
    {
      if !(0 <= index < |presets|) {
        return form;
      }
      var preset := presets[index];
      var vectors := form.vectors;
      var i := 0;
      while i < VectorCount
        invariant 0 <= i <= VectorCount
        invariant |vectors| == |form.vectors|
        invariant forall k :: 0 <= k < i ==> vectors[k] == Slots(preset.vectorParams)[k]
        invariant forall k :: i <= k < |vectors| ==> vectors[k] == form.vectors[k]
      {
        if i < |preset.vectorParams| {
          vectors := vectors[i := preset.vectorParams[i]];
        } else {
          vectors := vectors[i := DefaultSlot];
        }
        i := i + 1;
      }
      assert vectors == Slots(preset.vectorParams) + form.vectors[VectorCount..];
      panel.segments := Normalized(preset.colorSegments);
      f := form.(
        presetName := preset.name,
        title := preset.name,
        vectors := vectors,
        pixelSize := preset.pixelSize,
        snakeLength := preset.snakeLength,
        drawSpeed := preset.drawSpeed,
        colorStep := preset.colorStep,
        maxRadiusStat := "0");
    }
  }

  /** Saving the controls and the segments under a name and loading the
      preset found under that name gives the controls and the segments back. */
  method SaveThenLoad(stored: seq<Preset>, form: Form) returns (f: Form)
    requires |form.vectors| >= VectorCount && Trim(form.presetName) != []
    ensures f == form.(presetName := Trim(form.presetName), title := Trim(form.presetName), maxRadiusStat := "0")
  {
    var manager := new PresetManager(stored);
    var panel := new ColorPanel();
    panel.AddColorSegment();
    ghost var segs := panel.segments;
    var named := manager.SaveButton(form, panel);
    var name := Trim(form.presetName);
    var index := FindIndex(manager.presets, name);
    UpsertThenFind(stored, Saved(name, form, segs));
    f := manager.LoadPreset(index, named, panel);
    LoadAfterSave(name, named, segs);
    assert panel.segments == segs;
  }
}
