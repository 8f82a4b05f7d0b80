/**
 * The frame onDraw paints, abstracted to an ordered list of draw operations:
 * which element is drawn, at which turn fraction, with which stroke width.
 * Pixel coordinates, radii and colours are not modelled.
 */
module Drawing {
  import opened Hands

  /** thickStroke and thinStroke: the two stroke widths of the white paint. */
  const THICK_STROKE: real := 8.0
  const THIN_STROKE: real := 4.0

  /** The white paint's stroke width in active and in ambient mode. */
  function StrokeFor(ambient: bool): (width: real)
    ensures width == THIN_STROKE <==> ambient
    ensures width == THICK_STROKE <==> !ambient
  {
    if ambient then THIN_STROKE else THICK_STROKE
  }

  /** The two colours canvas.drawColor fills the whole canvas with. */
  datatype CanvasColor = Black | OuterOuterBackground

  /** The two filled circles: the outer ring (outerPaint) and the inner face (bgPaint). */
  datatype Disc = OuterRing | InnerFace

  datatype Hand = SecondHand | MinuteHand | HourHand

  datatype DrawOp =
    | FillCanvas(color: CanvasColor)
    | FillDisc(disc: Disc)
    | HandLine(hand: Hand, turn: real, width: real)
    | TickLine(index: nat, turn: real, width: real)
    | BorderArc(width: real)

  predicate IsSecondHand(op: DrawOp) { op.HandLine? && op.hand == SecondHand }
  predicate IsMinuteHand(op: DrawOp) { op.HandLine? && op.hand == MinuteHand }
  predicate IsHourHand(op: DrawOp) { op.HandLine? && op.hand == HourHand }
  predicate IsTick(op: DrawOp) { op.TickLine? }
  predicate IsBorder(op: DrawOp) { op.BorderArc? }
  /** The layers only active mode paints: the coloured canvas fill and both discs. */
  predicate IsBackgroundLayer(op: DrawOp) { op == FillCanvas(OuterOuterBackground) || op.FillDisc? }

  /** The number of operations in `ops` that satisfy `p`. */
  function Count(ops: seq<DrawOp>, p: DrawOp -> bool): nat
  {
    if ops == [] then 0 else (if p(ops[0]) then 1 else 0) + Count(ops[1..], p)
  }

  lemma {:induction false} CountConcat(a: seq<DrawOp>, b: seq<DrawOp>, p: DrawOp -> bool)
    ensures Count(a + b, p) == Count(a, p) + Count(b, p)
  {
    if a == [] {
      assert a + b == b;
    } else {
      assert (a + b)[1..] == a[1..] + b;
      CountConcat(a[1..], b, p);
    }
  }

  /** The i-th tick mark: tickIndex * 2*pi / 4, that is i quarter turns. */
  function Tick(i: nat, width: real): DrawOp
  {
    TickLine(i, i as real / 4.0, width)
  }

  /** The four tick marks in the order the tick loop draws them. */
  function Ticks(width: real): (ticks: seq<DrawOp>)
    ensures |ticks| == 4
    ensures forall i :: 0 <= i < 4 ==> ticks[i] == Tick(i, width)
  {
    [Tick(0, width), Tick(1, width), Tick(2, width), Tick(3, width)]
  }

  /** What active mode paints before the minute hand: coloured fill, both discs, second hand. */
  function ActiveLayers(f: ClockFields): seq<DrawOp>
  {
    [FillCanvas(OuterOuterBackground), FillDisc(OuterRing), FillDisc(InnerFace),
     HandLine(SecondHand, SecondTurn(f), THIN_STROKE)]
  }

  /**
   * The frame for calendar fields `f`, in ambient mode or not, with the white
   * paint at stroke width `width`. The second hand uses the red paint, whose
   * width is always thinStroke. The black fill comes first, the four ticks
   * and the border arc last.
   */
  function Frame(ambient: bool, width: real, f: ClockFields): (ops: seq<DrawOp>)
    ensures |ops| == (if ambient then 8 else 12)
    ensures ops[0] == FillCanvas(Black)
    ensures ops[|ops| - 5..|ops| - 1] == Ticks(width)
    ensures ops[|ops| - 1] == BorderArc(width)
  {
    [FillCanvas(Black)]
    + (if ambient then [] else ActiveLayers(f))
    + [HandLine(MinuteHand, MinuteTurn(f), width), HandLine(HourHand, HourTurn(f), width)]
    + Ticks(width)
    + [BorderArc(width)]
  }

  /** Counting the pieces of a frame one by one. */
  lemma {:induction false} FrameCount(ambient: bool, width: real, f: ClockFields, p: DrawOp -> bool)
    ensures Count(Frame(ambient, width, f), p)
         == Count([FillCanvas(Black)], p)
          + (if ambient then 0 else Count(ActiveLayers(f), p))
          + Count([HandLine(MinuteHand, MinuteTurn(f), width)], p)
          + Count([HandLine(HourHand, HourTurn(f), width)], p)
          + Count(Ticks(width), p)
          + Count([BorderArc(width)], p)
  {
    var a := [FillCanvas(Black)];
    var b := if ambient then [] else ActiveLayers(f);
    var c := [HandLine(MinuteHand, MinuteTurn(f), width), HandLine(HourHand, HourTurn(f), width)];
    var d := Ticks(width);
    var e := [BorderArc(width)];
    assert Frame(ambient, width, f) == a + b + c + d + e;
    CountConcat(a + b + c + d, e, p);
    CountConcat(a + b + c, d, p);
    CountConcat(a + b, c, p);
    CountConcat(a, b, p);
    CountConcat([c[0]], [c[1]], p);
    assert c == [c[0]] + [c[1]];
    if !ambient {
      assert Count(b, p) == Count(ActiveLayers(f), p);
    } else {
      assert Count(b, p) == 0;
    }
  }

  /** Counting a four-operation list element by element. */
  lemma CountFour(a: DrawOp, b: DrawOp, c: DrawOp, d: DrawOp, p: DrawOp -> bool)
    ensures Count([a, b, c, d], p)
         == (if p(a) then 1 else 0) + (if p(b) then 1 else 0) + (if p(c) then 1 else 0) + (if p(d) then 1 else 0)
  {
    assert [d][1..] == [];
    assert [c, d][1..] == [d];
    assert [b, c, d][1..] == [c, d];
    assert [a, b, c, d][1..] == [b, c, d];
    assert Count([d], p) == (if p(d) then 1 else 0);
    assert Count([c, d], p) == (if p(c) then 1 else 0) + Count([d], p);
    assert Count([b, c, d], p) == (if p(b) then 1 else 0) + Count([c, d], p);
  }

  lemma CountTicks(width: real, p: DrawOp -> bool)
    ensures Count(Ticks(width), p)
         == (if p(Tick(0, width)) then 1 else 0) + (if p(Tick(1, width)) then 1 else 0)
          + (if p(Tick(2, width)) then 1 else 0) + (if p(Tick(3, width)) then 1 else 0)
  {
    CountFour(Tick(0, width), Tick(1, width), Tick(2, width), Tick(3, width), p);
  }

  lemma CountActiveLayers(f: ClockFields, p: DrawOp -> bool)
    ensures Count(ActiveLayers(f), p)
         == (if p(FillCanvas(OuterOuterBackground)) then 1 else 0) + (if p(FillDisc(OuterRing)) then 1 else 0)
          + (if p(FillDisc(InnerFace)) then 1 else 0)
          + (if p(HandLine(SecondHand, SecondTurn(f), THIN_STROKE)) then 1 else 0)
  {
    CountFour(FillCanvas(OuterOuterBackground), FillDisc(OuterRing), FillDisc(InnerFace),
              HandLine(SecondHand, SecondTurn(f), THIN_STROKE), p);
  }

  /**
   * Active mode paints exactly one second hand and the three background
   * layers; ambient mode paints neither. Both paint exactly one minute hand,
   * one hour hand, four ticks and one border arc.
   */
  lemma FrameContents(ambient: bool, width: real, f: ClockFields)
    ensures Count(Frame(ambient, width, f), IsSecondHand) == (if ambient then 0 else 1)
    ensures Count(Frame(ambient, width, f), IsBackgroundLayer) == (if ambient then 0 else 3)
    ensures Count(Frame(ambient, width, f), IsMinuteHand) == 1
    ensures Count(Frame(ambient, width, f), IsHourHand) == 1
    ensures Count(Frame(ambient, width, f), IsTick) == 4
    ensures Count(Frame(ambient, width, f), IsBorder) == 1
  {
    FrameCount(ambient, width, f, IsSecondHand);
    CountTicks(width, IsSecondHand);
    CountActiveLayers(f, IsSecondHand);
    FrameCount(ambient, width, f, IsBackgroundLayer);
    CountTicks(width, IsBackgroundLayer);
    CountActiveLayers(f, IsBackgroundLayer);
    FrameCount(ambient, width, f, IsMinuteHand);
    CountTicks(width, IsMinuteHand);
    CountActiveLayers(f, IsMinuteHand);
    FrameCount(ambient, width, f, IsHourHand);
    CountTicks(width, IsHourHand);
    CountActiveLayers(f, IsHourHand);
    FrameCount(ambient, width, f, IsTick);
    CountTicks(width, IsTick);
    CountActiveLayers(f, IsTick);
    FrameCount(ambient, width, f, IsBorder);
    CountTicks(width, IsBorder);
    CountActiveLayers(f, IsBorder);
  }

  /**
   * The order of the frame between the black fill and the ticks: in active
   * mode the coloured fill, the outer ring, the inner face and the second
   * hand; then, in both modes, the minute hand and the hour hand at the turns
   * of the calendar fields.
   */
  lemma FrameLayout(ambient: bool, width: real, f: ClockFields)
    ensures var ops := Frame(ambient, width, f);
      var n := |ops|;
      && ops[n - 7] == HandLine(MinuteHand, MinuteTurn(f), width)
      && ops[n - 6] == HandLine(HourHand, HourTurn(f), width)
      && (!ambient ==> ops[1..4] == [FillCanvas(OuterOuterBackground), FillDisc(OuterRing), FillDisc(InnerFace)])
      && (!ambient ==> ops[4] == HandLine(SecondHand, SecondTurn(f), THIN_STROKE))
  {
  }
}
