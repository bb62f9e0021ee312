/**
 Which size a presentation gets (the size policy of src/capture/mod.rs).

 The encoder limits scale with `f64` arithmetic.  The floored product is the exact rational floor, except
 that rounding may put a product that is exactly an integer just below it.  `Rounding` says when; every
 claim here holds for every such choice.
 */
module SizePolicy {
  import opened Arithmetic
  import opened Regions

  const MAX_LONG: nat := 3840
  const MAX_SHORT: nat := 2160
  const MAX_PRESENTATION_AREA: nat := 3840 * 2400
  const U32_MAX: nat := 0xffff_ffff

  /** For (value, numerator, denominator): the exact integer product came out just below. */
  type Rounding = (nat, nat, nat) -> bool

  type Dimensions = (nat, nat)

  /** `v & !1`. */
  function Even(v: nat): nat { v - v % 2 }

  /** `(v as f64 * (num as f64 / den as f64)).floor() as u32`. */
  function Scaled(v: nat, num: nat, den: nat, rounding: Rounding): nat
    requires den > 0
  {
    var exact := MulDiv(v, num, den);
    if exact > 0 && exact * den == v * num && rounding(v, num, den) then exact - 1 else exact
  }

  predicate WithinLimits(size: Dimensions) {
    Max(size.0, size.1) <= MAX_LONG && Min(size.0, size.1) <= MAX_SHORT
  }

  /** The tighter of the two limits, as a fraction. */
  function LimitingScale(long: nat, short: nat): (scale: (nat, nat))
    requires 0 < short <= long
    ensures scale.1 > 0
  {
    if MAX_LONG * short <= MAX_SHORT * long then (MAX_LONG, long) else (MAX_SHORT, short)
  }

  function ClampToLimits(size: Dimensions, rounding: Rounding): Dimensions {
    var width, height := Even(size.0), Even(size.1);
    if width == 0 || height == 0 || WithinLimits((width, height)) then (width, height)
    else
      var scale := LimitingScale(Max(width, height), Min(width, height));
      (Even(Max(Scaled(width, scale.0, scale.1, rounding), 2)), Even(Max(Scaled(height, scale.0, scale.1, rounding), 2)))
  }

  function Normalize(requested: Dimensions, source: Dimensions, rounding: Rounding): Dimensions {
    var width, height := Even(requested.0), Even(requested.1);
    if width == 0 || height == 0 || source.0 == 0 || source.1 == 0 then (0, 0)
    else ClampToLimits(FitToSource(width, height, Even(Max(source.0, 2)), Even(Max(source.1, 2))), rounding)
  }

  function MulDiv(a: nat, b: nat, c: nat): nat
    requires c > 0
  {
    a * b / c
  }

  /** Shrink a request that exceeds the source in both directions, keeping its aspect ratio. */
  function FitToSource(width: nat, height: nat, fitWidth: nat, fitHeight: nat): Dimensions
    requires width > 0 && height > 0
  {
    if width <= fitWidth || height <= fitHeight then (width, height)
    else if width * fitHeight <= height * fitWidth then (fitWidth, MulDiv(height, fitWidth, width))
    else
      var padded := MulDiv(width, fitHeight, height);
      (if padded >= 4 then padded - padded % 4 else padded - padded % 2, fitHeight)
  }

  /** A scale of at most `limit` over `v` brings `v` down to `limit`. */
  lemma ScaledAtMost(v: nat, num: nat, den: nat, limit: nat, rounding: Rounding)
    requires den > 0 && v * num <= limit * den
    ensures Scaled(v, num, den, rounding) <= limit
  {
    AtMostQuotient(limit + 1, v * num, den);
    assert (limit + 1) * den == limit * den + den;
  }

  // ----- the limits

  /** Both limits hold after scaling, and no side grew. */
  lemma ScaledWithinLimits(width: nat, height: nat, rounding: Rounding)
    requires 0 < width && 0 < height && !WithinLimits((width, height))
    ensures var scale := LimitingScale(Max(width, height), Min(width, height));
            && WithinLimits((Scaled(width, scale.0, scale.1, rounding), Scaled(height, scale.0, scale.1, rounding)))
            && Scaled(width, scale.0, scale.1, rounding) <= width
            && Scaled(height, scale.0, scale.1, rounding) <= height
  {
    var long, short := Max(width, height), Min(width, height);
    var scale := LimitingScale(long, short);
    assert long * scale.0 <= MAX_LONG * scale.1 && short * scale.0 <= MAX_SHORT * scale.1;
    assert scale.0 <= scale.1;
    ScaledAtMost(long, scale.0, scale.1, MAX_LONG, rounding);
    ScaledAtMost(short, scale.0, scale.1, MAX_SHORT, rounding);
    MulMonotone(scale.0, scale.1, width);
    MulMonotone(scale.0, scale.1, height);
    ScaledAtMost(width, scale.0, scale.1, width, rounding);
    ScaledAtMost(height, scale.0, scale.1, height, rounding);
  }

  /** An even side that shrinks to `scaled` pixels becomes even again and keeps at least two. */
  lemma ShrunkSide(side: nat, scaled: nat)
    requires side >= 2 && scaled <= side
    ensures 2 <= Even(Max(scaled, 2)) <= side && Even(Max(scaled, 2)) % 2 == 0 && Even(Max(scaled, 2)) <= Max(scaled, 2)
  {
  }

  /** The clamped size is even, within the limits, never larger, and empty only if the request is. */
  lemma ClampIsSafe(size: Dimensions, rounding: Rounding)
    ensures var c := ClampToLimits(size, rounding);
            && c.0 % 2 == 0 && c.1 % 2 == 0 && c.0 <= size.0 && c.1 <= size.1
            && (c.0 == 0 || c.1 == 0 <==> size.0 < 2 || size.1 < 2)
            && (size.0 >= 2 && size.1 >= 2 ==> WithinLimits(c))
  {
    hide Scaled, LimitingScale;
    var width, height := Even(size.0), Even(size.1);
    if width != 0 && height != 0 && !WithinLimits((width, height)) {
      var scale := LimitingScale(Max(width, height), Min(width, height));
      ScaledWithinLimits(width, height, rounding);
      ShrunkSide(width, Scaled(width, scale.0, scale.1, rounding));
      ShrunkSide(height, Scaled(height, scale.0, scale.1, rounding));
    }
  }

  /** Clamping again changes nothing, even if the rounding went another way. */
  lemma ClampIsIdempotent(size: Dimensions, first: Rounding, second: Rounding)
    ensures ClampToLimits(ClampToLimits(size, first), second) == ClampToLimits(size, first)
  {
    ClampIsSafe(size, first);
  }

  /** What fits already is left alone, apart from odd pixels. */
  lemma ClampKeepsWhatFits(size: Dimensions, rounding: Rounding)
    requires WithinLimits(size) && size.0 % 2 == 0 && size.1 % 2 == 0
    ensures ClampToLimits(size, rounding) == size
  {
  }

  /** A side scaled by num/den and made even loses less than three pixels. */
  lemma ScaledSideIsClose(side: nat, num: nat, den: nat, rounding: Rounding)
    requires den > 0
    ensures var e := Even(Max(Scaled(side, num, den, rounding), 2));
            && side * num < (e + 3) * den
            && (e > 2 ==> e * den <= side * num)
  {
    var scaled := Scaled(side, num, den, rounding);
    var e := Even(Max(scaled, 2));
    AtMostQuotient(scaled, side * num, den);
    AtMostQuotient(scaled + 2, side * num, den);
    MulMonotone(scaled + 2, e + 3, den);
    MulMonotone(e, Max(scaled, 2), den);
  }

  /**
   A size over the limits is scaled by one factor on both sides, within three pixels, and by no more than
   needed: one of the limits is reached within two pixels.
   */
  lemma ClampIsTight(size: Dimensions, rounding: Rounding)
    requires size.0 >= 2 && size.1 >= 2 && !WithinLimits((Even(size.0), Even(size.1)))
    ensures var c := ClampToLimits(size, rounding);
            var scale := LimitingScale(Max(Even(size.0), Even(size.1)), Min(Even(size.0), Even(size.1)));
            && Even(size.0) * scale.0 < (c.0 + 3) * scale.1 && (c.0 > 2 ==> c.0 * scale.1 <= Even(size.0) * scale.0)
            && Even(size.1) * scale.0 < (c.1 + 3) * scale.1 && (c.1 > 2 ==> c.1 * scale.1 <= Even(size.1) * scale.0)
            && (Max(c.0, c.1) >= MAX_LONG - 2 || Min(c.0, c.1) >= MAX_SHORT - 2)
  {
    var width, height := Even(size.0), Even(size.1);
    var long, short := Max(width, height), Min(width, height);
    var scale := LimitingScale(long, short);
    ScaledSideIsClose(width, scale.0, scale.1, rounding);
    ScaledSideIsClose(height, scale.0, scale.1, rounding);
    LimitingSide(scale.1, scale.0, rounding);
    ClampedOrder(width, height, scale.0, scale.1, rounding);
  }

  /** The side that limits the scale comes out at its limit, or just below. */
  lemma LimitingSide(side: nat, limit: nat, rounding: Rounding)
    requires side > 0
    ensures limit - 1 <= Scaled(side, limit, side, rounding) <= limit
  {
    AtMostQuotient(limit, side * limit, side);
    AtMostQuotient(limit + 1, side * limit, side);
    assert limit * side == side * limit && (limit + 1) * side == side * limit + side;
  }

  /** Scaling by one factor keeps the longer side the longer one, give or take the evening. */
  lemma ClampedOrder(width: nat, height: nat, num: nat, den: nat, rounding: Rounding)
    requires den > 0
    ensures width <= height ==> MulDiv(width, num, den) <= MulDiv(height, num, den)
    ensures height <= width ==> MulDiv(height, num, den) <= MulDiv(width, num, den)
  {
    MulMonotone(Min(width, height), Max(width, height), num);
    AtMostQuotient(Min(width, height) * num / den, Max(width, height) * num, den);
    AtMostQuotient(Min(width, height) * num / den, Min(width, height) * num, den);
  }

  // ----- the fit

  lemma FitIsSafe(width: nat, height: nat, fitWidth: nat, fitHeight: nat)
    requires width >= 2 && height >= 2 && fitWidth >= 2 && fitHeight >= 2
    ensures var f := FitToSource(width, height, fitWidth, fitHeight);
            && 2 <= f.0 <= width && 2 <= f.1 <= height
            && (f.0 <= fitWidth || f.1 <= fitHeight)
  {
    if width > fitWidth && height > fitHeight {
      if width * fitHeight <= height * fitWidth {
        FittedSide(width, height, fitWidth, fitHeight);
      } else {
        FittedSide(height, width, fitHeight, fitWidth);
        assert height * fitWidth <= width * fitHeight;
      }
    }
  }

  /**
   A request that exceeds the source in both directions is shrunk in proportion until one side is the
   source's: exactly in height, and in width to the multiple of four below.
   */
  lemma FitKeepsAspect(width: nat, height: nat, fitWidth: nat, fitHeight: nat)
    requires width >= 2 && height >= 2 && fitWidth >= 2 && fitHeight >= 2
    ensures var f := FitToSource(width, height, fitWidth, fitHeight);
            && (width <= fitWidth || height <= fitHeight ==> f == (width, height))
            && (width > fitWidth && height > fitHeight && width * fitHeight <= height * fitWidth ==>
                  && f.0 == fitWidth && f.1 >= fitHeight
                  && f.1 * width <= height * fitWidth < (f.1 + 1) * width)
            && (width > fitWidth && height > fitHeight && width * fitHeight > height * fitWidth ==>
                  && f.1 == fitHeight && f.0 > fitWidth - 4 && (f.0 >= 4 ==> f.0 % 4 == 0)
                  && f.0 * height <= width * fitHeight < (f.0 + 4) * height)
  {
    if width > fitWidth && height > fitHeight {
      if width * fitHeight <= height * fitWidth {
        FittedSide(width, height, fitWidth, fitHeight);
        Proportional(height * fitWidth, width, height * fitWidth / width);
      } else {
        assert height * fitWidth <= width * fitHeight;
        FittedSide(height, width, fitHeight, fitWidth);
        Proportional(width * fitHeight, height, FitToSource(width, height, fitWidth, fitHeight).0);
      }
    }
  }

  /** A number at most three below the quotient, multiplied out. */
  lemma Proportional(a: nat, b: nat, q: nat)
    requires b > 0 && q <= a / b < q + 4
    ensures q * b <= a < (q + 4) * b
    ensures q == a / b ==> a < (q + 1) * b
  {
    AtMostQuotient(q, a, b);
    AtMostQuotient(q + 4, a, b);
    AtMostQuotient(q + 1, a, b);
  }

  /** When `a` is cut to `fitA`, the other side follows in proportion and stays between `fitB` and `b`. */
  lemma FittedSide(a: nat, b: nat, fitA: nat, fitB: nat)
    requires fitA < a && a * fitB <= b * fitA
    ensures fitB <= b * fitA / a <= b
  {
    AtMostQuotient(fitB, b * fitA, a);
    assert fitB * a == a * fitB;
    MulMonotone(fitA, a, b);
    AtMostQuotient(b + 1, b * fitA, a);
    assert (b + 1) * a == a * b + a;
    assert fitA * b == b * fitA;
  }

  /**
   The normalized size is even, within the encoder limits, never larger than the request, and does not
   exceed the source in both directions.
   */
  lemma NormalizeIsSafe(requested: Dimensions, source: Dimensions, rounding: Rounding)
    ensures var n := Normalize(requested, source, rounding);
            && n.0 % 2 == 0 && n.1 % 2 == 0 && n.0 <= requested.0 && n.1 <= requested.1 && WithinLimits(n)
            && (n == (0, 0) <==> requested.0 < 2 || requested.1 < 2 || source.0 == 0 || source.1 == 0)
            && (n != (0, 0) ==> n.0 >= 2 && n.1 >= 2)
            && (n != (0, 0) ==> n.0 <= Even(Max(source.0, 2)) || n.1 <= Even(Max(source.1, 2)))
  {
    var width, height := Even(requested.0), Even(requested.1);
    if width != 0 && height != 0 && source.0 != 0 && source.1 != 0 {
      var fitWidth, fitHeight := Even(Max(source.0, 2)), Even(Max(source.1, 2));
      FitIsSafe(width, height, fitWidth, fitHeight);
      ClampIsSafe(FitToSource(width, height, fitWidth, fitHeight), rounding);
    }
  }

  /** Normalizing again changes nothing: negotiation settles in one step. */
  lemma NormalizeIsIdempotent(requested: Dimensions, source: Dimensions, first: Rounding, second: Rounding)
    ensures Normalize(Normalize(requested, source, first), source, second) == Normalize(requested, source, first)
  {
    NormalizeIsSafe(requested, source, first);
    var n := Normalize(requested, source, first);
    if n != (0, 0) {
      ClampKeepsWhatFits(n, second);
    }
  }

  // ----- decisions

  datatype ResizeTarget = ManagedHeadlessOutput | PhysicalPresentation
  datatype ResizeDecision = ResizeDecision(target: ResizeTarget, width: nat, height: nat)

  function Decide(physical: bool, size: Dimensions, current: Dimensions): Option<ResizeDecision> {
    if size.0 == 0 || size.1 == 0 || size == current then None
    else Some(ResizeDecision(if physical then PhysicalPresentation else ManagedHeadlessOutput, size.0, size.1))
  }

  /** `request_initial_size` clamps the client's size before it decides. */
  function InitialSizeDecision(physical: bool, fixed: bool, current: Dimensions, client: Dimensions,
                               source: Option<Dimensions>, rounding: Rounding): Option<ResizeDecision>
  {
    if fixed then None
    else
      var requested := ClampToLimits(client, rounding);
      if physical then
        if source.None? then None else Decide(physical, Normalize(requested, source.value, rounding), current)
      else Decide(physical, requested, current)
  }

  datatype Orientation = Landscape | Portrait | LandscapeFlipped | PortraitFlipped
  datatype Monitor = Monitor(primary: bool, position: Option<(int, int)>, orientation: Option<Orientation>, width: nat, height: nat)

  function FirstPrimary(monitors: seq<Monitor>): Option<Monitor> {
    if monitors == [] then None
    else if monitors[0].primary then Some(monitors[0])
    else FirstPrimary(monitors[1..])
  }

  function HeadlessDisplayControlSize(monitors: seq<Monitor>): Option<Dimensions> {
    if FirstPrimary(monitors).Some? then Some((FirstPrimary(monitors).value.width, FirstPrimary(monitors).value.height))
    else if monitors != [] then Some((monitors[0].width, monitors[0].height))
    else None
  }

  function PhysicalDisplayControlSize(monitors: seq<Monitor>): Option<Dimensions> {
    if |monitors| != 1 then None
    else
      var m := monitors[0];
      if !m.primary || m.position != Some((0, 0)) then None
      else if m.orientation.Some? && !m.orientation.value.Landscape? then None
      else if m.width * m.height > MAX_PRESENTATION_AREA then None
      else Some((m.width, m.height))
  }

  function DisplayControlDecision(monitors: seq<Monitor>, physical: bool, fixed: bool, current: Dimensions,
                                  source: Option<Dimensions>, rounding: Rounding): Option<ResizeDecision>
  {
    var requested := if physical then PhysicalDisplayControlSize(monitors) else HeadlessDisplayControlSize(monitors);
    if fixed || requested.None? || (physical && source.None?) then None
    else Decide(physical,
                if physical then Normalize(requested.value, source.value, rounding) else ClampToLimits(requested.value, rounding),
                current)
  }

  /**
   Once a decision is applied, neither repeating the request nor a client that adopts the applied size
   and asks for it leads to another one.
   */
  lemma InitialSizeSettles(physical: bool, fixed: bool, current: Dimensions, client: Dimensions,
                           source: Option<Dimensions>, rounding: Rounding)
    requires InitialSizeDecision(physical, fixed, current, client, source, rounding).Some?
    ensures var d := InitialSizeDecision(physical, fixed, current, client, source, rounding).value;
            && 2 <= d.width <= client.0 && 2 <= d.height <= client.1 && d.width % 2 == 0 && d.height % 2 == 0
            && WithinLimits((d.width, d.height))
            && InitialSizeDecision(physical, fixed, (d.width, d.height), client, source, rounding) == None
            && InitialSizeDecision(physical, fixed, (d.width, d.height), (d.width, d.height), source, rounding) == None
  {
    ClampIsSafe(client, rounding);
    if physical {
      PhysicalSizeIsStable(client, source.value, rounding);
    } else {
      ClampIsIdempotent(client, rounding, rounding);
    }
  }

  /** The size a physical presentation gets is what both steps give back for it. */
  lemma PhysicalSizeIsStable(client: Dimensions, source: Dimensions, rounding: Rounding)
    ensures var n := Normalize(ClampToLimits(client, rounding), source, rounding);
            && n.0 <= client.0 && n.1 <= client.1 && n.0 % 2 == 0 && n.1 % 2 == 0 && WithinLimits(n)
            && (n != (0, 0) ==> n.0 >= 2 && n.1 >= 2)
            && ClampToLimits(n, rounding) == n && Normalize(n, source, rounding) == n
  {
    ClampIsSafe(client, rounding);
    var requested := ClampToLimits(client, rounding);
    NormalizeIsSafe(requested, source, rounding);
    NormalizeIsIdempotent(requested, source, rounding, rounding);
    ClampKeepsWhatFits(Normalize(requested, source, rounding), rounding);
  }

  /** The same for display control, where the echo is a single monitor of the applied size. */
  lemma DisplayControlSettles(monitors: seq<Monitor>, echo: Monitor, physical: bool, fixed: bool, current: Dimensions,
                              source: Option<Dimensions>, rounding: Rounding)
    requires DisplayControlDecision(monitors, physical, fixed, current, source, rounding).Some?
    requires var d := DisplayControlDecision(monitors, physical, fixed, current, source, rounding).value;
             echo.width == d.width && echo.height == d.height
    ensures var d := DisplayControlDecision(monitors, physical, fixed, current, source, rounding).value;
            && 2 <= d.width && 2 <= d.height && d.width % 2 == 0 && d.height % 2 == 0 && WithinLimits((d.width, d.height))
            && DisplayControlDecision(monitors, physical, fixed, (d.width, d.height), source, rounding) == None
            && DisplayControlDecision([echo], physical, fixed, (d.width, d.height), source, rounding) == None
  {
    var applied := (echo.width, echo.height);
    SingleMonitor(echo);
    if physical {
      var requested := PhysicalDisplayControlSize(monitors).value;
      NormalizeIsSafe(requested, source.value, rounding);
      NormalizeIsIdempotent(requested, source.value, rounding, rounding);
      assert Normalize(applied, source.value, rounding) == applied;
    } else {
      var requested := HeadlessDisplayControlSize(monitors).value;
      ClampIsSafe(requested, rounding);
      ClampIsIdempotent(requested, rounding, rounding);
      assert ClampToLimits(applied, rounding) == applied;
    }
  }

  lemma SingleMonitor(m: Monitor)
    ensures HeadlessDisplayControlSize([m]) == Some((m.width, m.height))
    ensures PhysicalDisplayControlSize([m]).Some? ==> PhysicalDisplayControlSize([m]).value == (m.width, m.height)
  {
    assert FirstPrimary([m]) == if m.primary then Some(m) else FirstPrimary([]);
  }

  /** The two ways of asking agree: an initial size and a display-control layout of that size decide alike. */
  lemma BothRequestsAgree(monitor: Monitor, physical: bool, fixed: bool, current: Dimensions,
                          source: Option<Dimensions>, rounding: Rounding)
    requires monitor.primary && monitor.position == Some((0, 0)) && monitor.orientation == None
    requires WithinLimits((monitor.width, monitor.height))
    ensures InitialSizeDecision(physical, fixed, current, (monitor.width, monitor.height), source, rounding) ==
            DisplayControlDecision([monitor], physical, fixed, current, source, rounding)
  {
    var size := (monitor.width, monitor.height);
    SingleMonitor(monitor);
    AreaWithinLimits(monitor.width, monitor.height);
    EvenWithinLimits(size, rounding);
    if source.Some? {
      OddPixelsDoNotMatter(size, source.value, rounding);
    }
  }

  lemma EvenWithinLimits(size: Dimensions, rounding: Rounding)
    requires WithinLimits(size)
    ensures ClampToLimits(size, rounding) == (Even(size.0), Even(size.1))
  {
  }

  lemma OddPixelsDoNotMatter(size: Dimensions, source: Dimensions, rounding: Rounding)
    ensures Normalize((Even(size.0), Even(size.1)), source, rounding) == Normalize(size, source, rounding)
  {
    assert Even(Even(size.0)) == Even(size.0) && Even(Even(size.1)) == Even(size.1);
  }

  lemma AreaWithinLimits(width: nat, height: nat)
    requires WithinLimits((width, height))
    ensures width * height <= MAX_PRESENTATION_AREA
  {
    if width >= height {
      MulMonotone(width, MAX_LONG, height);
    } else {
      MulMonotone(width, MAX_SHORT, height);
    }
  }

  // ----- what a request gets

  /**
   A managed output gets the size a client asks for, if that is an even size within the limits and another
   one than it has; nothing else changes it, and a size too small to show, or a fixed resolution, is ignored.
   */
  lemma ManagedGetsWhatFits(fixed: bool, current: Dimensions, client: Dimensions, source: Option<Dimensions>, rounding: Rounding)
    ensures fixed || client.0 < 2 || client.1 < 2 ==> InitialSizeDecision(false, fixed, current, client, source, rounding) == None
    ensures !fixed && Showable(client) ==>
              InitialSizeDecision(false, fixed, current, client, source, rounding) ==
              if client == current then None else Some(ResizeDecision(ManagedHeadlessOutput, client.0, client.1))
  {
    ClampIsSafe(client, rounding);
    if WithinLimits(client) && client.0 % 2 == 0 && client.1 % 2 == 0 {
      ClampKeepsWhatFits(client, rounding);
    }
  }

  /** A physical output is presented at the size asked for, if that also fits the source in one direction. */
  lemma PhysicalGetsWhatFits(fixed: bool, current: Dimensions, client: Dimensions, source: Option<Dimensions>, rounding: Rounding)
    ensures fixed || source.None? || client.0 < 2 || client.1 < 2 || source.value.0 == 0 || source.value.1 == 0 ==>
              InitialSizeDecision(true, fixed, current, client, source, rounding) == None
    ensures !fixed && source.Some? && Showable(client) &&
            0 < source.value.0 && 0 < source.value.1 && (client.0 <= Even(Max(source.value.0, 2)) || client.1 <= Even(Max(source.value.1, 2))) ==>
              InitialSizeDecision(true, fixed, current, client, source, rounding) ==
              if client == current then None else Some(ResizeDecision(PhysicalPresentation, client.0, client.1))
  {
    ClampIsSafe(client, rounding);
    if source.Some? {
      NormalizeIsSafe(ClampToLimits(client, rounding), source.value, rounding);
    }
    if WithinLimits(client) && client.0 % 2 == 0 && client.1 % 2 == 0 {
      ClampKeepsWhatFits(client, rounding);
    }
  }

  lemma {:induction false} FirstPrimaryAt(monitors: seq<Monitor>, k: nat)
    requires k < |monitors| && monitors[k].primary && forall j :: 0 <= j < k ==> !monitors[j].primary
    ensures FirstPrimary(monitors) == Some(monitors[k])
    decreases k
  {
    if k == 0 {
    } else {
      FirstPrimaryAt(monitors[1..], k - 1);
    }
  }

  lemma {:induction false} NoPrimary(monitors: seq<Monitor>)
    requires forall j :: 0 <= j < |monitors| ==> !monitors[j].primary
    ensures FirstPrimary(monitors) == None
    decreases |monitors|
  {
    if monitors == [] {
    } else {
      NoPrimary(monitors[1..]);
    }
  }

  /** Monitor `k` is the first primary one, or the first one where none is primary. */
  ghost predicate Leads(monitors: seq<Monitor>, k: nat) {
    k < |monitors| &&
    if monitors[k].primary then forall j :: 0 <= j < k ==> !monitors[j].primary
    else k == 0 && forall j :: 0 <= j < |monitors| ==> !monitors[j].primary
  }

  /** An even size within the limits. */
  ghost predicate Showable(size: Dimensions) {
    2 <= size.0 && 2 <= size.1 && size.0 % 2 == 0 && size.1 % 2 == 0 && WithinLimits(size)
  }

  /** A managed output follows the first primary monitor of the layout, or the first one if none is primary. */
  lemma LayoutFollowsPrimary(monitors: seq<Monitor>, k: nat, fixed: bool, current: Dimensions, source: Option<Dimensions>, rounding: Rounding)
    requires Leads(monitors, k)
    ensures var size := (monitors[k].width, monitors[k].height);
            && (fixed || size.0 < 2 || size.1 < 2 ==> DisplayControlDecision(monitors, false, fixed, current, source, rounding) == None)
            && (!fixed && Showable(size) ==>
                  DisplayControlDecision(monitors, false, fixed, current, source, rounding) ==
                  if size == current then None else Some(ResizeDecision(ManagedHeadlessOutput, size.0, size.1)))
  {
    var size := (monitors[k].width, monitors[k].height);
    if monitors[k].primary {
      FirstPrimaryAt(monitors, k);
    } else {
      NoPrimary(monitors);
    }
    ClampIsSafe(size, rounding);
    if WithinLimits(size) && size.0 % 2 == 0 && size.1 % 2 == 0 {
      ClampKeepsWhatFits(size, rounding);
    }
  }

  /** A physical output takes part only in a layout of one upright primary monitor at the origin, of a size it can show. */
  lemma PhysicalNeedsOneMonitor(monitors: seq<Monitor>, fixed: bool, current: Dimensions, source: Option<Dimensions>, rounding: Rounding)
    requires DisplayControlDecision(monitors, true, fixed, current, source, rounding).Some?
    ensures |monitors| == 1 && monitors[0].primary && monitors[0].position == Some((0, 0))
    ensures monitors[0].orientation == None || monitors[0].orientation == Some(Landscape)
    ensures monitors[0].width * monitors[0].height <= MAX_PRESENTATION_AREA
    ensures var d := DisplayControlDecision(monitors, true, fixed, current, source, rounding).value;
            d.target == PhysicalPresentation && (d.width, d.height) != current && d.width <= monitors[0].width && d.height <= monitors[0].height
  {
    NormalizeIsSafe((monitors[0].width, monitors[0].height), source.value, rounding);
  }
}
