/** `ScaleFactorManager`: the scale factor of each screen, in exact arithmetic. */
module ScaleFactor {

  datatype OsType = LINUX | WIN | MACOS

  datatype ScreenInfo = ScreenInfo(availableWidth: int, availableHeight: int, dotsPerInch: real, devicePixelRatio: real)

  const STEP := 0.25

  function Min(a: real, b: real): real {
    if a < b then a else b
  }

  function Max(a: real, b: real): real {
    if a < b then b else a
  }

  /** `qRound`: to the nearest integer, halves upwards. */
  function Round(x: real): int {
    if x >= 0.0 then (x + 0.5).Floor
    else
      var k := Truncated(x - 1.0);
      (x - k as real + 0.5).Floor + k
  }

  /** C's conversion of a real to an integer. */
  function Truncated(x: real): int {
    if x >= 0.0 then x.Floor else -((-x).Floor)
  }

  predicate IsQuarter(x: real) {
    (4.0 * x).Floor as real == 4.0 * x
  }

  /** The largest multiple of a quarter not above `x`. */
  function QuarterBelow(x: real): real {
    (4.0 * x).Floor as real / 4.0
  }

  /** The nearest multiple of a quarter, halves upwards. */
  function NearestQuarter(x: real): real {
    (4.0 * x + 0.5).Floor as real / 4.0
  }

  /** What `adjustScaleValueToSuitableIncrement` computes. */
  function Adjusted(scale: real, maxScale: real): real {
    var s := Min(scale, maxScale);
    if maxScale > 1.0 then Min(NearestQuarter(s), QuarterBelow(maxScale)) else s
  }

  lemma RoundIsNearest(x: real)
    ensures Round(x) == (x + 0.5).Floor
  {
    if x < 0.0 {
      var k := Truncated(x - 1.0);
      assert (x + 0.5 - k as real).Floor == (x + 0.5).Floor - k;
    }
  }

  /** The rounding loop: it steps down at most once. */
  method AdjustScaleValueToSuitableIncrement(scale: real, maxScale: real) returns (r: real, ghost rounds: nat)
    ensures r == Adjusted(scale, maxScale)
    ensures rounds <= 1
  {
    var s := Min(scale, maxScale);
    r := s;
    rounds := 0;
    if maxScale > 1.0 {
      RoundIsNearest(s / STEP);
      r := Round(s / STEP) as real * STEP;
      assert s / STEP == 4.0 * s;
      assert r == NearestQuarter(s);
      QuarterFacts(s, maxScale);
      while r > maxScale
        invariant rounds <= 1
        invariant rounds == 0 ==> r == NearestQuarter(s)
        invariant rounds == 1 ==> r == QuarterBelow(maxScale) && NearestQuarter(s) > maxScale
        decreases 1 - rounds
      {
        r := r - STEP;
        rounds := rounds + 1;
      }
    }
  }

  /** Rounding a value not above the maximum overshoots it by less than one step. */
  lemma QuarterFacts(s: real, maxScale: real)
    requires s <= maxScale
    ensures QuarterBelow(maxScale) <= maxScale < QuarterBelow(maxScale) + STEP
    ensures NearestQuarter(s) > maxScale ==> NearestQuarter(s) - STEP == QuarterBelow(maxScale)
    ensures NearestQuarter(s) <= maxScale ==> NearestQuarter(s) <= QuarterBelow(maxScale)
  {
    var n, m := (4.0 * s + 0.5).Floor, (4.0 * maxScale).Floor;
    assert n as real <= 4.0 * s + 0.5 < n as real + 1.0;
    assert m as real <= 4.0 * maxScale < m as real + 1.0;
    assert n <= m + 1;
  }

  /** Larger requests and larger screens never give a smaller factor, below or above the rounding threshold. */
  lemma AdjustedIsMonotone(a: real, b: real, maxA: real, maxB: real)
    requires a <= b && maxA <= maxB
    requires maxA > 1.0 || maxB <= 1.0
    ensures Adjusted(a, maxA) <= Adjusted(b, maxB)
  {
    var s, t := Min(a, maxA), Min(b, maxB);
    assert s <= t;
    if maxA > 1.0 {
      assert (4.0 * s + 0.5).Floor <= (4.0 * t + 0.5).Floor;
      assert (4.0 * maxA).Floor <= (4.0 * maxB).Floor;
    }
  }

  function MaxScale(screen: ScreenInfo, multiScreen: bool): real {
    screen.availableHeight as real * (if multiScreen then screen.devicePixelRatio else 1.0) / 810.0
  }

  function LinuxScale(screen: ScreenInfo): real {
    if screen.devicePixelRatio > 1.0 then 1.0
    else
      var scale :=
        if screen.dotsPerInch > 96.0 then screen.dotsPerInch / 96.0
        else Max(Min(screen.availableWidth as real / 1920.0, screen.availableHeight as real / 1080.0) * 0.75, 1.0);
      Min(scale, 3.0)
  }

  /** The factor one screen gets. */
  function Factor(os: OsType, screen: ScreenInfo, multiScreen: bool): real {
    var wanted := if os == LINUX then LinuxScale(screen) else if multiScreen then screen.devicePixelRatio else 1.0;
    var scale := Adjusted(wanted, MaxScale(screen, multiScreen));
    if scale < 1.0 && screen.devicePixelRatio <= 1.0 then 1.0 else scale
  }

  /** The factor asked for on Linux: none where Qt scales by itself; else 96 dots per inch for 1, up to 3; and where
      they are no more, 2560 by 1440 pixels for 1, at least 1 and up to 3, by the tighter side. */
  lemma WantedOnLinux(screen: ScreenInfo)
    ensures var r, w, h := LinuxScale(screen), screen.availableWidth as real, screen.availableHeight as real;
            if screen.devicePixelRatio > 1.0 then r == 1.0
            else if screen.dotsPerInch > 96.0 then
              if screen.dotsPerInch <= 288.0 then 96.0 * r == screen.dotsPerInch else r == 3.0
            else if w <= 2560.0 || h <= 1440.0 then r == 1.0
            else if w >= 7680.0 && h >= 4320.0 then r == 3.0
            else
              && 1.0 < r < 3.0 && 2560.0 * r <= w && 1440.0 * r <= h
              && (2560.0 * r == w || 1440.0 * r == h)
  {}

  /** The maximum leaves room for 810 pixels of height. */
  lemma MaxScaleExactly(screen: ScreenInfo, multiScreen: bool)
    ensures 810.0 * MaxScale(screen, multiScreen) ==
            if multiScreen then screen.availableHeight as real * screen.devicePixelRatio
            else screen.availableHeight as real
  {}

  /** A single screen, and on Linux any that Qt scales by itself, keeps its factor 1 unless it is too low for it and
      Qt scales it. */
  lemma FactorOne(os: OsType, screen: ScreenInfo, multiScreen: bool)
    requires if os == LINUX then screen.devicePixelRatio > 1.0 else !multiScreen
    ensures var maxScale := MaxScale(screen, multiScreen);
            Factor(os, screen, multiScreen) ==
              if maxScale >= 1.0 || screen.devicePixelRatio <= 1.0 then 1.0 else maxScale
  {}

  lemma QuarterIsQuarter(n: int)
    ensures IsQuarter(n as real / 4.0)
  {
    assert 4.0 * (n as real / 4.0) == n as real;
  }

  /** A quarter there is room for: within an eighth of what is wanted, or the largest one and still too small. */
  predicate Fits(factor: real, wanted: real, maxScale: real) {
    && IsQuarter(factor) && factor <= maxScale
    && (-0.125 <= wanted - factor <= 0.125 || (factor < wanted && maxScale < factor + 0.25))
  }

  lemma AdjustedFits(wanted: real, maxScale: real)
    requires maxScale > 1.0
    ensures Fits(Adjusted(wanted, maxScale), wanted, maxScale)
  {
    var s := Min(wanted, maxScale);
    QuarterFacts(s, maxScale);
    QuarterIsQuarter((4.0 * s + 0.5).Floor);
    QuarterIsQuarter((4.0 * maxScale).Floor);
  }

  /** Elsewhere each of several screens keeps 1 where Qt does not scale it; otherwise it gets the ratio Qt scales it
      by, as far as it has room. */
  lemma MultiScreenFactor(os: OsType, screen: ScreenInfo)
    requires os != LINUX
    ensures var ratio, maxScale, f := screen.devicePixelRatio, MaxScale(screen, true), Factor(os, screen, true);
            if ratio <= 1.0 then f == 1.0 else if maxScale <= 1.0 then f == maxScale else Fits(f, ratio, maxScale)
  {
    if MaxScale(screen, true) > 1.0 {
      AdjustedFits(screen.devicePixelRatio, MaxScale(screen, true));
    }
  }

  predicate FactorChanges(screen: ScreenInfo, multiScreen: bool, factor: real) {
    if multiScreen then factor != screen.devicePixelRatio else factor != 1.0
  }

  /** A factor needs no rescaling exactly when it is the one the screen has already. */
  lemma KeptFactor(screen: ScreenInfo, factor: real)
    ensures !FactorChanges(screen, false, factor) <==> factor == 1.0
    ensures !FactorChanges(screen, true, factor) <==> factor == screen.devicePixelRatio
  {}

  /** Every quarter between 1 and 3 that the screen can hold. */
  predicate Suitable(factor: real, maxScale: real) {
    1.0 <= factor <= 3.0 && IsQuarter(factor) && factor <= Max(1.0, maxScale)
  }

  /** On Linux, without automatic scaling, every factor is suitable. */
  lemma LinuxFactorIsSuitable(screen: ScreenInfo, multiScreen: bool)
    requires screen.devicePixelRatio <= 1.0
    ensures Suitable(Factor(LINUX, screen, multiScreen), MaxScale(screen, multiScreen))
  {
    var wanted, maxScale := LinuxScale(screen), MaxScale(screen, multiScreen);
    assert 1.0 <= wanted <= 3.0;
    QuarterIsQuarter(4);
    if maxScale > 1.0 {
      var s := Min(wanted, maxScale);
      var n, m := (4.0 * s + 0.5).Floor, (4.0 * maxScale).Floor;
      QuarterIsQuarter(n);
      QuarterIsQuarter(m);
      assert n >= 4 && m >= 4;
      assert 4.0 * s + 0.5 <= 12.5 && n <= 12;
      QuarterFacts(s, maxScale);
    }
  }

  /** On Linux without automatic scaling a screen with room for more than 1 gets the factor asked for, as far as it
      has room, and any other screen gets 1. */
  lemma LinuxFactor(screen: ScreenInfo, multiScreen: bool)
    requires screen.devicePixelRatio <= 1.0
    ensures var maxScale, f := MaxScale(screen, multiScreen), Factor(LINUX, screen, multiScreen);
            if maxScale <= 1.0 then f == 1.0 else Fits(f, LinuxScale(screen), maxScale)
  {
    var maxScale := MaxScale(screen, multiScreen);
    LinuxFactorIsSuitable(screen, multiScreen);
    if maxScale > 1.0 {
      AdjustedFits(LinuxScale(screen), maxScale);
    }
  }

  class ScaleFactorManager {
    const osType: OsType
    const screens: seq<ScreenInfo>
    var calculatedScales: seq<real>

    constructor (osType: OsType, screens: seq<ScreenInfo>)
      ensures this.osType == osType && this.screens == screens && calculatedScales == []
    {
      this.osType, this.screens, calculatedScales := osType, screens, [];
    }

    method ComputeScales() returns (needsRescaling: bool)
      modifies this
      ensures |calculatedScales| == |old(calculatedScales)| + |screens|
      ensures calculatedScales[..|old(calculatedScales)|] == old(calculatedScales)
      ensures forall i :: 0 <= i < |screens| ==>
                calculatedScales[|old(calculatedScales)| + i] == Factor(osType, screens[i], |screens| > 1)
      ensures osType == LINUX ==> forall i :: 0 <= i < |screens| && screens[i].devicePixelRatio <= 1.0 ==>
                Suitable(calculatedScales[|old(calculatedScales)| + i], MaxScale(screens[i], |screens| > 1))
      ensures needsRescaling <==>
              exists i :: 0 <= i < |screens|
                          && FactorChanges(screens[i], |screens| > 1, Factor(osType, screens[i], |screens| > 1))
    {
      needsRescaling := false;
      var multiScreen := |screens| > 1;
      var i := 0;
      ghost var base := |calculatedScales|;
      while i < |screens|
        invariant 0 <= i <= |screens| && |calculatedScales| == base + i
        invariant calculatedScales[..base] == old(calculatedScales)
        invariant forall k :: 0 <= k < i ==> calculatedScales[base + k] == Factor(osType, screens[k], multiScreen)
        invariant needsRescaling <==> exists k ::
            0 <= k < i && FactorChanges(screens[k], multiScreen, Factor(osType, screens[k], multiScreen))
      {
        var scale := if multiScreen then screens[i].devicePixelRatio else 1.0;
        if osType == LINUX {
          scale := LinuxScale(screens[i]);
        }
        ghost var rounds;
        scale, rounds := AdjustScaleValueToSuitableIncrement(scale, MaxScale(screens[i], multiScreen));
        if scale < 1.0 && screens[i].devicePixelRatio <= 1.0 {
          scale := 1.0;
        }
        if (!multiScreen && scale != 1.0) || (multiScreen && scale != screens[i].devicePixelRatio) {
          needsRescaling := true;
        }
        calculatedScales := calculatedScales + [scale];
        i := i + 1;
      }
      forall k | 0 <= k < |screens| && screens[k].devicePixelRatio <= 1.0 {
        LinuxFactorIsSuitable(screens[k], multiScreen);
      }
    }
  }
}
