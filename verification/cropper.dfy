/**
  The image cropper as a whole: the loaded image, the crop, the gesture in
  progress and the text of the four numeric fields, with one transition per
  browser event the cropper handles.
 */
module Cropper {
  import opened Optional
  import opened Decimal
  import opened Geometry
  import opened NumberInput
  import opened HitTest
  import opened Gesture

  /** Raw text of the x, y, width and height fields. */
  datatype Fields = Fields(x: string, y: string, width: string, height: string)

  datatype FieldName = XField | YField | WidthField | HeightField

  /** Everything the cropper's event handlers read and write. */
  datatype App = App(image: Option<Bounds>, crop: Rect, interaction: Interaction, fields: Fields)

  /** The browser events the cropper reacts to; pointer positions are already in image pixels. */
  datatype Event =
    | Load(bounds: Bounds)
    | Input(field: FieldName, text: string)
    | PointerDown(at: Point)
    | PointerMove(at: Point)
    | PointerUp
    | PointerCancel

  /** The mouse cursor shown over the canvas. */
  datatype Cursor = Default | NwseResize | NeswResize | MoveCursor

  /** Before any image is loaded: no gesture, and whatever the fields and crop hold. */
  function Initial(fields: Fields, crop: Rect): App {
    App(None, crop, Idle, fields)
  }

  /** `syncInputsFromCrop`: each field shows its crop value in decimal. */
  function SyncFields(c: Rect): Fields {
    Fields(IntToString(c.x), IntToString(c.y), IntToString(c.width), IntToString(c.height))
  }

  /** Each synchronised field reads back as the crop value it shows. */
  lemma SyncFieldsRoundTrip(c: Rect)
    ensures ParseOptionalNumber(SyncFields(c).x) == Some(c.x)
    ensures ParseOptionalNumber(SyncFields(c).y) == Some(c.y)
    ensures ParseOptionalNumber(SyncFields(c).width) == Some(c.width)
    ensures ParseOptionalNumber(SyncFields(c).height) == Some(c.height)
  {
    ParseIntToString(c.x);
    ParseIntToString(c.y);
    ParseIntToString(c.width);
    ParseIntToString(c.height);
  }

  /** The user types into one field: only that field's text changes. */
  function SetField(f: Fields, name: FieldName, text: string): Fields {
    match name
    case XField => f.(x := text)
    case YField => f.(y := text)
    case WidthField => f.(width := text)
    case HeightField => f.(height := text)
  }

  /** All four fields hold a finite number. */
  predicate AllFieldsNumeric(f: Fields) {
    && ParseOptionalNumber(f.x).Some? && ParseOptionalNumber(f.y).Some?
    && ParseOptionalNumber(f.width).Some? && ParseOptionalNumber(f.height).Some?
  }

  /**
    The image's `onload` handler: the crop takes the size the width and
    height fields ask for (`Number(text) || 1`, clamped to the image) and is
    centred; the fields are rewritten. The gesture in progress, if any, is
    left as it was.
   */
  function LoadImage(s: App, b: Bounds): (r: App)
    ensures r.image == Some(b) && r.interaction == s.interaction
    ensures r.crop.width == Clamp(RequestedSize(s.fields.width, b.width), 1, b.width)
    ensures r.crop.height == Clamp(RequestedSize(s.fields.height, b.height), 1, b.height)
    ensures Positive(b) ==> Valid(r.crop, b)
    ensures Positive(b) ==> r.crop.x == (b.width - r.crop.width) / 2
    ensures Positive(b) ==> r.crop.y == (b.height - r.crop.height) / 2
    ensures r.fields == SyncFields(r.crop)
  {
    var crop := InitialCrop(b, RequestedSize(s.fields.width, b.width),
                               RequestedSize(s.fields.height, b.height));
    s.(image := Some(b), crop := crop, fields := SyncFields(crop))
  }

  /**
    `updateCropFromInputs`: with an image loaded, rebuild the crop from the
    fields, an unset field falling back to the crop's current value; size
    first, then position within the room the new size leaves. The fields are
    rewritten only when all four hold numbers, so a half-typed field is not
    overwritten.
   */
  function UpdateCropFromInputs(s: App): (r: App)
    ensures s.image.None? ==> r == s
    ensures r.image == s.image && r.interaction == s.interaction
    ensures s.image.Some? && Positive(s.image.value) ==> Valid(r.crop, s.image.value)
    ensures s.image.Some? ==>
      var b := s.image.value;
      && r.crop.width == Clamp(ParseOptionalNumber(s.fields.width).GetOr(s.crop.width), 1, b.width)
      && r.crop.height == Clamp(ParseOptionalNumber(s.fields.height).GetOr(s.crop.height), 1, b.height)
      && (1 <= r.crop.width ==> r.crop.x == Clamp(ParseOptionalNumber(s.fields.x).GetOr(s.crop.x), 0, b.width - r.crop.width))
      && (1 <= r.crop.height ==> r.crop.y == Clamp(ParseOptionalNumber(s.fields.y).GetOr(s.crop.y), 0, b.height - r.crop.height))
    ensures s.image.Some? && AllFieldsNumeric(s.fields) ==> r.fields == SyncFields(r.crop)
    ensures !AllFieldsNumeric(s.fields) ==> r.fields == s.fields
  {
    if s.image.None? then s
    else
      var b := s.image.value;
      var parsedWidth := ParseOptionalNumber(s.fields.width);
      var parsedHeight := ParseOptionalNumber(s.fields.height);
      var parsedX := ParseOptionalNumber(s.fields.x);
      var parsedY := ParseOptionalNumber(s.fields.y);
      var width := Clamp(parsedWidth.GetOr(s.crop.width), 1, b.width);
      var height := Clamp(parsedHeight.GetOr(s.crop.height), 1, b.height);
      var x0 := Clamp(parsedX.GetOr(s.crop.x), 0, b.width - 1);
      var y0 := Clamp(parsedY.GetOr(s.crop.y), 0, b.height - 1);
      assert 1 <= width ==> Clamp(x0, 0, b.width - width) == Clamp(parsedX.GetOr(s.crop.x), 0, b.width - width) by {
        if 1 <= width { ClampNarrowing(parsedX.GetOr(s.crop.x), 0, b.width - 1, b.width - width); }
      }
      assert 1 <= height ==> Clamp(y0, 0, b.height - height) == Clamp(parsedY.GetOr(s.crop.y), 0, b.height - height) by {
        if 1 <= height { ClampNarrowing(parsedY.GetOr(s.crop.y), 0, b.height - 1, b.height - height); }
      }
      var crop := Rect(Clamp(x0, 0, b.width - width), Clamp(y0, 0, b.height - height), width, height);
      var fields := if AllFieldsNumeric(s.fields) then SyncFields(crop) else s.fields;
      s.(crop := crop, fields := fields)
  }

  /**
    `startPointerInteraction`: with an image loaded, a press on a handle
    starts a resize of that handle and a press elsewhere on the crop starts a
    move, either way remembering the pointer and the crop. Any other press
    changes nothing.
   */
  function PointerDownAt(s: App, p: Point): (r: App)
    ensures r.image == s.image && r.crop == s.crop && r.fields == s.fields
    ensures s.image.None? ==> r == s
    ensures HandleAt(s.crop, p).None? && !InCrop(s.crop, p) ==> r == s
    ensures s.image.Some? && HandleAt(s.crop, p).Some? ==>
              r.interaction == Resizing(HandleAt(s.crop, p).value, Snapshot(p, s.crop))
    ensures s.image.Some? && HandleAt(s.crop, p).None? && InCrop(s.crop, p) ==>
              r.interaction == Moving(Snapshot(p, s.crop))
  {
    if s.image.None? then s
    else
      var handle := HandleAt(s.crop, p);
      if handle.None? && !InCrop(s.crop, p) then s
      else
        var snap := Snapshot(p, s.crop);
        s.(interaction := if handle.Some? then Resizing(handle.value, snap) else Moving(snap))
  }

  /**
    `movePointerInteraction`: during a gesture, recompute the crop from the
    gesture's snapshot and show it in the fields; otherwise do nothing.
   */
  function PointerMoveTo(s: App, p: Point): (r: App)
    ensures s.interaction.Idle? || s.image.None? ==> r == s
    ensures r.image == s.image && r.interaction == s.interaction
    ensures s.image.Some? && s.interaction.Moving? ==>
              r.crop == MoveCrop(s.image.value, s.crop, s.interaction.snap, p)
    ensures s.image.Some? && s.interaction.Resizing? ==>
              r.crop == ResizeCrop(s.image.value, s.interaction.snap, s.interaction.handle, p)
    ensures s.image.Some? && !s.interaction.Idle? ==> r.fields == SyncFields(r.crop)
  {
    if s.interaction.Idle? || s.image.None? then s
    else
      var crop := match s.interaction
        case Resizing(h, snap) => ResizeCrop(s.image.value, snap, h, p)
        case Moving(snap) => MoveCrop(s.image.value, s.crop, snap, p);
      s.(crop := crop, fields := SyncFields(crop))
  }

  /**
    `endPointerInteraction`, for both pointer-up and pointer-cancel: the
    gesture ends wherever the pointer is, and the crop keeps its last value.
   */
  function EndInteraction(s: App): (r: App)
    ensures r.interaction.Idle?
    ensures r.image == s.image && r.crop == s.crop && r.fields == s.fields
  {
    s.(interaction := Idle)
  }

  /** The cropper's response to one event. */
  function Step(s: App, e: Event): App {
    match e
    case Load(b) => LoadImage(s, b)
    case Input(name, text) => UpdateCropFromInputs(s.(fields := SetField(s.fields, name, text)))
    case PointerDown(p) => PointerDownAt(s, p)
    case PointerMove(p) => PointerMoveTo(s, p)
    case PointerUp => EndInteraction(s)
    case PointerCancel => EndInteraction(s)
  }

  /** The cropper's state after a sequence of events. */
  function Run(s: App, events: seq<Event>): App
    decreases |events|
  {
    if |events| == 0 then s else Run(Step(s, events[0]), events[1..])
  }

  /**
    `updateCursor`: a diagonal resize cursor over a handle, a move cursor over
    the rest of the crop, the default cursor elsewhere or with no image.
   */
  function CursorAt(s: App, p: Point): (c: Cursor)
    ensures s.image.None? ==> c == Default
    ensures s.image.Some? ==> (c == NwseResize <==> HandleAt(s.crop, p) in {Some(NW), Some(SE)})
    ensures s.image.Some? ==> (c == NeswResize <==> HandleAt(s.crop, p) in {Some(NE), Some(SW)})
    ensures s.image.Some? ==> (c == MoveCursor <==> HandleAt(s.crop, p).None? && InCrop(s.crop, p))
  {
    if s.image.None? then Default
    else match HandleAt(s.crop, p)
      case Some(NW) => NwseResize
      case Some(SE) => NwseResize
      case Some(NE) => NeswResize
      case Some(SW) => NeswResize
      case None => if InCrop(s.crop, p) then MoveCursor else Default
  }

  /** A gesture's snapshot lies inside the image too. */
  predicate SnapshotFits(i: Interaction, b: Bounds) {
    match i
    case Idle => true
    case Moving(snap) => Valid(snap.crop, b)
    case Resizing(_, snap) => Valid(snap.crop, b)
  }

  /** The state invariant: once an image is loaded, the crop and any live snapshot are valid for it. */
  predicate Inv(s: App) {
    match s.image
    case None => true
    case Some(b) => Positive(b) && Valid(s.crop, b) && SnapshotFits(s.interaction, b)
  }

  /**
    With a valid crop, a field whose text is unset leaves its value as it
    was, and so does a position whose size was not touched.
   */
  lemma UnsetFieldKeepsValue(s: App)
    requires Inv(s) && s.image.Some?
    ensures ParseOptionalNumber(s.fields.width).None? ==> UpdateCropFromInputs(s).crop.width == s.crop.width
    ensures ParseOptionalNumber(s.fields.height).None? ==> UpdateCropFromInputs(s).crop.height == s.crop.height
    ensures ParseOptionalNumber(s.fields.width).None? && ParseOptionalNumber(s.fields.x).None? ==>
              UpdateCropFromInputs(s).crop.x == s.crop.x
    ensures ParseOptionalNumber(s.fields.height).None? && ParseOptionalNumber(s.fields.y).None? ==>
              UpdateCropFromInputs(s).crop.y == s.crop.y
  {
  }

  /** Applying the fields a second time changes nothing more. */
  lemma UpdateCropFromInputsIdempotent(s: App)
    requires s.image.Some? ==> Positive(s.image.value)
    ensures UpdateCropFromInputs(UpdateCropFromInputs(s)) == UpdateCropFromInputs(s)
  {
    SyncFieldsRoundTrip(UpdateCropFromInputs(s).crop);
  }

  /**
    Fields that each read as the crop's own value, or are unset, leave a
    valid crop where it is; the fields are rewritten only if all are set.
   */
  lemma FieldsMatchingCropKeepIt(s: App)
    requires Inv(s) && s.image.Some?
    requires ParseOptionalNumber(s.fields.x).GetOr(s.crop.x) == s.crop.x
    requires ParseOptionalNumber(s.fields.y).GetOr(s.crop.y) == s.crop.y
    requires ParseOptionalNumber(s.fields.width).GetOr(s.crop.width) == s.crop.width
    requires ParseOptionalNumber(s.fields.height).GetOr(s.crop.height) == s.crop.height
    ensures UpdateCropFromInputs(s).crop == s.crop
  {
  }

  /**
    While the fields show the crop, clearing the width field changes only
    that field's text: the empty width falls back to the current width.
   */
  lemma ClearWidthKeepsCrop(s: App)
    requires Inv(s) && s.image.Some? && s.fields == SyncFields(s.crop)
    ensures Step(s, Input(WidthField, "")) == s.(fields := s.fields.(width := ""))
  {
    var t := s.(fields := s.fields.(width := ""));
    assert SetField(s.fields, WidthField, "") == t.fields;
    assert Step(s, Input(WidthField, "")) == UpdateCropFromInputs(t);
    SyncFieldsRoundTrip(s.crop);
    assert ParseOptionalNumber(t.fields.width) == None;
    FieldsMatchingCropKeepIt(t);
    var r := UpdateCropFromInputs(t);
    assert !AllFieldsNumeric(t.fields);
    assert r == App(t.image, t.crop, t.interaction, t.fields);
  }

  /**
    With the width field cleared, typing a whole number into the x field
    moves the crop to that x, kept inside the image, and leaves the cleared
    field alone.
   */
  lemma TypeXAfterClearingWidth(s: App, n: int)
    requires Inv(s) && s.image.Some? && s.fields == SyncFields(s.crop).(width := "")
    ensures var r := Step(s, Input(XField, IntToString(n)));
            && r.crop == s.crop.(x := Clamp(n, 0, s.image.value.width - s.crop.width))
            && r.fields == s.fields.(x := IntToString(n))
  {
    var b := s.image.value;
    var t := s.(fields := s.fields.(x := IntToString(n)));
    SyncFieldsRoundTrip(s.crop);
    ParseIntToString(n);
    assert ParseOptionalNumber(t.fields.width) == None;
    var r := UpdateCropFromInputs(t);
    assert r.crop.width == s.crop.width && r.crop.height == s.crop.height;
    assert r.crop.y == s.crop.y;
  }

  /**
    Clearing the width field and then typing a number into x: the crop moves
    and the cleared field stays empty instead of being refilled.
   */
  lemma UnsetFieldSurvivesEdit(s: App, n: int)
    requires Inv(s) && s.image.Some? && s.fields == SyncFields(s.crop)
    ensures var r := Run(s, [Input(WidthField, ""), Input(XField, IntToString(n))]);
            && r.crop == s.crop.(x := Clamp(n, 0, s.image.value.width - s.crop.width))
            && r.fields.width == ""
  {
    var es := [Input(WidthField, ""), Input(XField, IntToString(n))];
    ClearWidthKeepsCrop(s);
    var s1 := s.(fields := s.fields.(width := ""));
    TypeXAfterClearingWidth(s1, n);
    var s2 := Step(s1, es[1]);
    assert Run(s, es) == Run(s1, es[1..]);
    assert Run(s1, es[1..]) == Run(s2, es[2..]);
  }

  /**
    The cursor foretells what pressing there would do: the move cursor
    exactly where a move would start, a diagonal cursor exactly where a
    resize of a handle on that diagonal would start, and the default cursor
    exactly where a press does nothing.
   */
  lemma CursorMatchesPointerDown(s: App, p: Point)
    requires s.interaction.Idle?
    ensures CursorAt(s, p) == Default <==> PointerDownAt(s, p) == s
    ensures CursorAt(s, p) == MoveCursor <==> PointerDownAt(s, p).interaction.Moving?
    ensures CursorAt(s, p) == NwseResize <==>
              PointerDownAt(s, p).interaction.Resizing? && PointerDownAt(s, p).interaction.handle in {NW, SE}
    ensures CursorAt(s, p) == NeswResize <==>
              PointerDownAt(s, p).interaction.Resizing? && PointerDownAt(s, p).interaction.handle in {NE, SW}
  {
  }

  /** A press both on the crop body and in a handle's reach grabs the handle. */
  lemma HandleBeatsBody(s: App, p: Point, h: Handle)
    requires s.image.Some? && InCrop(s.crop, p) && HandleAt(s.crop, p) == Some(h)
    ensures PointerDownAt(s, p).interaction == Resizing(h, Snapshot(p, s.crop))
  {
  }

  /** A click, a press and a release with no move between, leaves the idle cropper as it was. */
  lemma ClickChangesNothing(s: App, p: Point)
    requires s.interaction.Idle?
    ensures Run(s, [PointerDown(p), PointerUp]) == s
  {
    var events := [PointerDown(p), PointerUp];
    var s1 := PointerDownAt(s, p);
    assert Run(s, events) == Run(s1, events[1..]);
    assert events[1..] == [PointerUp];
    assert Run(s1, [PointerUp]) == Run(EndInteraction(s1), []);
  }

  /** Grabbing the body and moving by nothing leaves the crop where it was. */
  lemma MoveByNothingKeepsCrop(s: App, p: Point)
    requires Inv(s) && s.image.Some? && s.interaction.Idle?
    requires HandleAt(s.crop, p).None? && InCrop(s.crop, p)
    ensures PointerMoveTo(PointerDownAt(s, p), p).crop == s.crop
  {
    MoveBackToStart(s.image.value, Snapshot(p, s.crop));
  }

  /**
    A resize puts the dragged corner at the pointer, not at the grabbed
    corner plus the pointer's displacement: grabbing the south-east handle
    of a valid crop inside the image and moving by nothing snaps that
    corner to the rounded pointer.
   */
  lemma GrabbedCornerJumpsToPointer(s: App, p: Point)
    requires Inv(s) && s.image.Some? && s.interaction.Idle?
    requires HandleAt(s.crop, p) == Some(SE)
    requires s.crop.x < Round(p.x) <= s.image.value.width
    requires s.crop.y < Round(p.y) <= s.image.value.height
    ensures var r := PointerMoveTo(PointerDownAt(s, p), p).crop;
            r.x == s.crop.x && r.y == s.crop.y && r.Right() == Round(p.x) && r.Bottom() == Round(p.y)
  {
  }

  /** Every event except a load during a gesture keeps the invariant. */
  lemma StepPreservesInv(s: App, e: Event)
    requires Inv(s)
    requires e.Load? ==> Positive(e.bounds) && s.interaction.Idle?
    ensures Inv(Step(s, e))
  {
    match e
    case Input(name, text) =>
      var s' := s.(fields := SetField(s.fields, name, text));
      assert Inv(s');
    case _ =>
  }

  /** The events are positive-size loads, each arriving while no gesture is live. */
  predicate LoadsOnlyWhenIdle(s: App, events: seq<Event>)
    decreases |events|
  {
    |events| == 0 ||
    ((events[0].Load? ==> Positive(events[0].bounds) && s.interaction.Idle?)
     && LoadsOnlyWhenIdle(Step(s, events[0]), events[1..]))
  }

  /** The invariant holds after any run in which no image is loaded mid-gesture. */
  lemma {:induction false} RunPreservesInv(s: App, events: seq<Event>)
    requires Inv(s) && LoadsOnlyWhenIdle(s, events)
    ensures Inv(Run(s, events))
    decreases |events|
  {
    if |events| > 0 {
      StepPreservesInv(s, events[0]);
      RunPreservesInv(Step(s, events[0]), events[1..]);
    }
  }

  /**
    Loading a smaller image while a corner is being dragged keeps the old
    snapshot, and the next pointer-move builds a crop of negative size from
    it: 800x600 image with fields asking for 200x200, press on the
    south-east handle, load a 50x50 image, move to (10, 10).
   */
  lemma LoadDuringResizeBreaksCrop(s: App, size: int)
    requires size == 200
    requires s == Initial(Fields("0", "0", IntToString(size), IntToString(size)), Rect(0, 0, size, size))
    ensures var r := PointerMoveTo(LoadImage(PointerDownAt(LoadImage(s, Bounds(800, 600)),
                                                           Point(500.0, 400.0)),
                                             Bounds(50, 50)),
                                   Point(10.0, 10.0));
            && r.image == Some(Bounds(50, 50))
            && r.crop == Rect(300, 200, -250, -150)
            && !Valid(r.crop, Bounds(50, 50))
  {
    var s1 := LoadImage(s, Bounds(800, 600));
    LoadAsksForFields(s, Bounds(800, 600), size, size);
    assert s1.image == Some(Bounds(800, 600)) && s1.crop == Rect(300, 200, 200, 200);
    ResizeAfterLoadingSmaller(s1);
  }

  /** A press on the south-east corner of (300, 200, 200, 200) grabs that corner. */
  lemma PressSouthEast(s: App, p: Point)
    requires s.image.Some? && s.crop == Rect(300, 200, 200, 200) && p == Point(500.0, 400.0)
    ensures PointerDownAt(s, p).interaction == Resizing(SE, Snapshot(p, s.crop))
  {
    assert Near(s.crop, SE, p);
  }

  /**
    Dragging the south-east corner of the snapshot (300, 200, 200, 200),
    taken at (500, 400), to (10, 10) inside a 50x50 image.
   */
  lemma ResizeFromStaleSnapshot(b: Bounds, snap: Snapshot, p: Point)
    requires b == Bounds(50, 50) && snap == Snapshot(Point(500.0, 400.0), Rect(300, 200, 200, 200))
    requires p == Point(10.0, 10.0)
    ensures ResizeCrop(b, snap, SE, p) == Rect(300, 200, -250, -150)
  {
    RoundOfInt(10);
  }

  /**
    The last three events of the run above: press the south-east handle of
    (300, 200, 200, 200), load a 50x50 image, move to (10, 10).
   */
  lemma ResizeAfterLoadingSmaller(s: App)
    requires s.image == Some(Bounds(800, 600)) && s.crop == Rect(300, 200, 200, 200)
    ensures var r := PointerMoveTo(LoadImage(PointerDownAt(s, Point(500.0, 400.0)), Bounds(50, 50)),
                                   Point(10.0, 10.0));
            r.image == Some(Bounds(50, 50)) && r.crop == Rect(300, 200, -250, -150)
  {
    var p := Point(500.0, 400.0);
    var snap := Snapshot(p, s.crop);
    PressSouthEast(s, p);
    var s2 := PointerDownAt(s, p);
    var s3 := LoadImage(s2, Bounds(50, 50));
    assert s3.interaction == Resizing(SE, snap);
    ResizeFromStaleSnapshot(Bounds(50, 50), snap, Point(10.0, 10.0));
  }

  /**
    Width and height fields showing whole numbers that fit the image ask for
    exactly that size, centred.
   */
  lemma LoadAsksForFields(s: App, b: Bounds, w: int, h: int)
    requires Positive(b) && 1 <= w <= b.width && 1 <= h <= b.height
    requires s.fields.width == IntToString(w) && s.fields.height == IntToString(h)
    ensures LoadImage(s, b).crop == Rect((b.width - w) / 2, (b.height - h) / 2, w, h)
  {
    assert RequestedSize(s.fields.width, b.width) == w by {
      ParseIntToString(w);
    }
    assert RequestedSize(s.fields.height, b.height) == h by {
      ParseIntToString(h);
    }
    var r := LoadImage(s, b);
    assert r.crop.width == w && r.crop.height == h;
  }

  /** Loading an image that also ends the live gesture. */
  function LoadImageDiscardingGesture(s: App, b: Bounds): (r: App)
    ensures r.interaction.Idle?
    ensures r.image == Some(b) && r.crop == LoadImage(s, b).crop && r.fields == LoadImage(s, b).fields
    ensures Inv(s) && Positive(b) ==> Inv(r)
  {
    LoadImage(s, b).(interaction := Idle)
  }

  /**
    `Step` with loads that end the live gesture: a load always leaves the
    cropper idle, and every event, loads included, keeps the invariant.
   */
  function StepIntended(s: App, e: Event): (r: App)
    ensures e.Load? ==> r.interaction.Idle?
    ensures Inv(s) && (e.Load? ==> Positive(e.bounds)) ==> Inv(r)
  {
    if e.Load? then LoadImageDiscardingGesture(s, e.bounds)
    else
      assert Inv(s) ==> Inv(Step(s, e)) by {
        if Inv(s) { StepPreservesInv(s, e); }
      }
      Step(s, e)
  }

  function RunIntended(s: App, events: seq<Event>): App
    decreases |events|
  {
    if |events| == 0 then s else RunIntended(StepIntended(s, events[0]), events[1..])
  }

  /** When loads discard the live gesture, every run keeps the invariant. */
  lemma {:induction false} RunIntendedPreservesInv(s: App, events: seq<Event>)
    requires Inv(s)
    requires forall i :: 0 <= i < |events| && events[i].Load? ==> Positive(events[i].bounds)
    ensures Inv(RunIntended(s, events))
    decreases |events|
  {
    if |events| > 0 {
      var e := events[0];
      if !e.Load? {
        StepPreservesInv(s, e);
      }
      RunIntendedPreservesInv(StepIntended(s, e), events[1..]);
    }
  }
}
