/** The statistics section: `formatNumber` and the once-only animated
    counter that counts a statistic up from 0 when it scrolls into view. */
module Stats {
  import opened Text

  /** `(n / d).toFixed(0)` for a whole number n >= 0 and an even divisor d:
      the nearest whole number, a tie rounding up. */
  function RoundHalfUp(n: nat, d: nat): (q: nat)
    requires d > 0 && d % 2 == 0
    ensures d * (2 * q - 1) <= 2 * n < d * (2 * q + 1)
  {
    var q := (n + d / 2) / d;
    assert q * d <= n + d / 2 < q * d + d;
    q
  }

  /** `formatNumber(num)`: millions as M, thousands as K, anything smaller
      as its plain decimal. The suffix tells the magnitude apart, and only
      negative numbers start with '-'. */
  function FormatNumber(n: int): (r: string)
    ensures |r| >= 1 && (n < 0 <==> r[0] == '-')
    ensures r[|r| - 1] == 'M' <==> n >= 1000000
    ensures r[|r| - 1] == 'K' <==> 1000 <= n < 1000000
  {
    if n >= 1000000 then NatToString(RoundHalfUp(n, 1000000)) + "M"
    else if n >= 1000 then NatToString(RoundHalfUp(n, 1000)) + "K"
    else IntToString(n)
  }

  /** What the formatted text says: from a million up, a numeral for
      n / 10^6 rounded half up, then "M"; from a thousand up, a numeral for
      n / 1000 rounded half up, then "K"; below that the numeral of n, after
      a '-' when n is negative. A numeral is fixed by its value
      (Text.NumeralUnique), so this determines the text. */
  lemma FormatNumberSpec(n: int)
    ensures |FormatNumber(n)| >= 1
    ensures n >= 1000000 ==> var r := FormatNumber(n);
      r[|r| - 1] == 'M' && IsNumeral(r[..|r| - 1]) &&
      var q := ParseDecimal(r[..|r| - 1]);
      1000000 * (2 * q - 1) <= 2 * n < 1000000 * (2 * q + 1)
    ensures 1000 <= n < 1000000 ==> var r := FormatNumber(n);
      r[|r| - 1] == 'K' && IsNumeral(r[..|r| - 1]) &&
      var q := ParseDecimal(r[..|r| - 1]);
      1000 * (2 * q - 1) <= 2 * n < 1000 * (2 * q + 1)
    ensures 0 <= n < 1000 ==> IsNumeral(FormatNumber(n)) && ParseDecimal(FormatNumber(n)) == n
    ensures n < 0 ==> var r := FormatNumber(n);
      r[0] == '-' && IsNumeral(r[1..]) && ParseDecimal(r[1..]) == -n
  {
    if n >= 1000000 {
      SuffixedNumeral(n, 1000000, 'M');
      assert FormatNumber(n) == NatToString(RoundHalfUp(n, 1000000)) + ['M'];
    } else if n >= 1000 {
      SuffixedNumeral(n, 1000, 'K');
      assert FormatNumber(n) == NatToString(RoundHalfUp(n, 1000)) + ['K'];
    } else if n >= 0 {
      NatToStringNumeral(n);
    } else {
      NatToStringNumeral(-n);
      assert FormatNumber(n)[1..] == NatToString(-n);
    }
  }

  /** A rounded quotient followed by a suffix letter: dropping the letter
      leaves the quotient's numeral. */
  lemma SuffixedNumeral(n: nat, d: nat, c: char)
    requires d > 0 && d % 2 == 0
    ensures var r := NatToString(RoundHalfUp(n, d)) + [c];
      r[|r| - 1] == c && IsNumeral(r[..|r| - 1]) && ParseDecimal(r[..|r| - 1]) == RoundHalfUp(n, d) &&
      d * (2 * RoundHalfUp(n, d) - 1) <= 2 * n < d * (2 * RoundHalfUp(n, d) + 1)
  {
    var digits := NatToString(RoundHalfUp(n, d));
    NatToStringNumeral(RoundHalfUp(n, d));
    assert (digits + [c])[..|digits|] == digits;
  }

  /** Rounding carries just below a million, and a settled two-million
      counter reads "2M+". */
  lemma FormatNumberExamples()
    ensures FormatNumber(999999) == "1000K"
    ensures FormatNumber(1500) == "2K"
    ensures FormatNumber(2000000) + "+" == "2M+"
    ensures FormatNumber(70) == "70"
  {
    assert NatToString(1) == "1";
    assert NatToString(10) == "10";
    assert NatToString(100) == "100";
    assert NatToString(1000) == "1000";
    assert NatToString(2) == "2";
    assert NatToString(7) == "7";
  }

  /** `Math.min(elapsed / (duration * 1000), 1)`: the elapsed share of a
      tween lasting `duration` seconds, capped at 1. */
  function Progress(elapsed: int, duration: real): (p: real)
    requires duration > 0.0
    ensures p <= 1.0
    ensures elapsed >= 0 ==> 0.0 <= p
    ensures p == 1.0 <==> elapsed as real >= duration * 1000.0
    ensures p < 1.0 ==> p * (duration * 1000.0) == elapsed as real
  {
    var ratio := elapsed as real / (duration * 1000.0);
    assert ratio * (duration * 1000.0) == elapsed as real;
    if ratio <= 1.0 then ratio else 1.0
  }

  /** `1 - Math.pow(1 - p, 3)`, the ease-out cubic: it runs from 0 at the
      start to 1 at the end and stays in [0, 1] in between. */
  function Ease(p: real): (e: real)
    ensures 0.0 <= p <= 1.0 ==> 0.0 <= e <= 1.0
    ensures p == 0.0 ==> e == 0.0
    ensures p == 1.0 ==> e == 1.0
  {
    CubeUnit(1.0 - p);
    1.0 - (1.0 - p) * (1.0 - p) * (1.0 - p)
  }

  /** A cube of a number in [0, 1] lies in [0, 1]. */
  lemma CubeUnit(a: real)
    ensures 0.0 <= a <= 1.0 ==> 0.0 <= a * a * a <= 1.0
  {
    if 0.0 <= a <= 1.0 {
      CubeMono(a, a);
    }
  }

  /** Multiplying by a non-negative factor keeps order. */
  lemma MulMono(x: real, y: real, z: real)
    requires 0.0 <= x <= y && 0.0 <= z
    ensures 0.0 <= x * z <= y * z && z * x <= z * y
  {
  }

  /** Squaring keeps order on [0, 1] and stays in [0, 1]. */
  lemma SquareMono(b: real, a: real)
    requires 0.0 <= b <= a <= 1.0
    ensures 0.0 <= b * b <= a * a <= a
  {
    assert 0.0 <= b * b by { MulMono(0.0, b, b); }
    assert b * b <= a * b by { MulMono(b, a, b); }
    assert a * b <= a * a by { MulMono(b, a, a); }
    assert a * a <= a by { MulMono(a, 1.0, a); }
  }

  /** Cubing keeps order on [0, 1] and stays in [0, 1]. */
  lemma CubeMono(b: real, a: real)
    requires 0.0 <= b <= a <= 1.0
    ensures 0.0 <= b * b * b <= a * a * a <= 1.0
  {
    SquareMono(b, a);
    var bb, aa := b * b, a * a;
    assert 0.0 <= bb * b by { MulMono(0.0, bb, b); }
    assert bb * b <= aa * b by { MulMono(bb, aa, b); }
    assert aa * b <= aa * a by { MulMono(b, a, aa); }
    assert aa * a <= a by { MulMono(aa, 1.0, a); }
  }

  /** The eased value starts at 0, ends at 1, never leaves [0, 1] on [0, 1],
      and never goes down there. */
  lemma EaseMonotone(p: real, q: real)
    requires 0.0 <= p <= q <= 1.0
    ensures Ease(0.0) == 0.0 && Ease(1.0) == 1.0
    ensures 0.0 <= Ease(p) <= Ease(q) <= 1.0
  {
    CubeMono(1.0 - q, 1.0 - p);
  }

  /** `Math.floor(easeProgress * value)`: the count shown on a frame. For a
      non-negative target it lies in [0, value], and at progress 1 it is the
      target. */
  function FrameCount(value: int, p: real): (count: int)
    ensures 0 <= value && 0.0 <= p <= 1.0 ==> 0 <= count <= value
    ensures p == 1.0 ==> count == value
  {
    ScaledFloorBound(Ease(p), value);
    (Ease(p) * value as real).Floor
  }

  /** Scaling a whole number by a factor in [0, 1] and rounding down stays
      in [0, value]; the factor 1 gives the value back. */
  lemma ScaledFloorBound(e: real, value: int)
    ensures 0 <= value && 0.0 <= e <= 1.0 ==> 0 <= (e * value as real).Floor <= value
    ensures e == 1.0 ==> (e * value as real).Floor == value
  {
    var v := value as real;
    if 0 <= value && 0.0 <= e <= 1.0 {
      ScaleOrder(e, 1.0, v);
      FloorMono(0.0, e * v);
      FloorMono(e * v, v);
    }
    if e == 1.0 {
      assert e * v == v;
    }
  }

  /** For a non-negative target the shown count lies in [0, value], never
      decreases as progress grows, and equals the target at progress 1. */
  lemma FrameCountBounds(value: int, p: real, q: real)
    requires 0 <= value && 0.0 <= p <= q <= 1.0
    ensures 0 <= FrameCount(value, p) <= FrameCount(value, q) <= value
    ensures FrameCount(value, 1.0) == value
  {
    EaseMonotone(p, q);
    var ep, eq := Ease(p), Ease(q);
    ScaledFloorMono(ep, eq, value);
    assert FrameCount(value, p) == (ep * value as real).Floor;
    assert FrameCount(value, q) == (eq * value as real).Floor;
  }

  /** Rounding down two scalings of a whole number by factors in [0, 1]
      keeps their order and stays in [0, value]. */
  lemma ScaledFloorMono(a: real, b: real, value: int)
    requires 0 <= value && 0.0 <= a <= b <= 1.0
    ensures 0 <= (a * value as real).Floor <= (b * value as real).Floor <= value
  {
    var v := value as real;
    ScaleOrder(a, b, v);
    FloorChain(a * v, b * v, v);
  }

  /** Scaling a non-negative amount by two factors in [0, 1] keeps their
      order and never exceeds the amount. */
  lemma ScaleOrder(a: real, b: real, v: real)
    requires 0.0 <= a <= b <= 1.0 && 0.0 <= v
    ensures 0.0 <= a * v <= b * v <= v
  {
    MulMono(a, b, v);
    MulMono(b, 1.0, v);
  }

  /** `Math.floor` keeps order. */
  lemma FloorMono(x: real, y: real)
    requires x <= y
    ensures x.Floor <= y.Floor
  {
  }

  /** Rounding down a chain of non-negative reals keeps the chain. */
  lemma FloorChain(x: real, y: real, z: real)
    requires 0.0 <= x <= y <= z
    ensures 0 <= x.Floor <= y.Floor <= z.Floor
  {
    FloorMono(0.0, x);
    FloorMono(x, y);
    FloorMono(y, z);
  }

  /** A counter's target and the text that follows it. */
  datatype Stat = Stat(value: int, suffix: string, caption: string)

  /** The four main statistics. */
  const MainStats: seq<Stat> := [
    Stat(2000000, "+", "Active Players"),
    Stat(70, "+", "Games Available"),
    Stat(500, "+", "Tournaments"),
    Stat(10000000, "+", "Downloads")
  ]

  /** What each main counter reads once its tween has finished. */
  lemma MainStatsSettle()
    ensures |MainStats| == 4
    ensures FormatNumber(FrameCount(MainStats[0].value, 1.0)) + MainStats[0].suffix == "2M+"
    ensures FormatNumber(FrameCount(MainStats[1].value, 1.0)) + MainStats[1].suffix == "70+"
    ensures FormatNumber(FrameCount(MainStats[2].value, 1.0)) + MainStats[2].suffix == "500+"
    ensures FormatNumber(FrameCount(MainStats[3].value, 1.0)) + MainStats[3].suffix == "10M+"
  {
    FormatNumberExamples();
    assert Ease(1.0) == 1.0;
    assert NatToString(5) == "5";
    assert NatToString(50) == "50";
    assert NatToString(500) == "500";
    assert NatToString(1) == "1";
    assert NatToString(10) == "10";
  }

  /** One mounted `AnimatedCounter`: the `hasAnimated` latch, the counted
      value, whether its intersection observer is connected, the start of
      its tween and whether an animation frame is pending. Clock readings
      are passed in. */
  class AnimatedCounter {
    const value: int
    const suffix: string
    /** Tween length in seconds (default 2). */
    const duration: real
    var count: int
    var hasAnimated: bool
    var observing: bool
    var startTime: int
    var frameRequested: bool
    /** How many tweens this counter has started. */
    ghost var tweenStarts: nat

    ghost predicate Valid()
      reads this
    {
      duration > 0.0 &&
      tweenStarts == (if hasAnimated then 1 else 0) &&
      (frameRequested ==> hasAnimated)
    }

    /** The text the counter renders. */
    function Display(): string
      reads this
    {
      FormatNumber(count) + suffix
    }

    constructor (value: int, suffix: string, duration: real)
      requires duration > 0.0
      ensures this.value == value && this.suffix == suffix && this.duration == duration
      ensures count == 0 && !hasAnimated && !observing && !frameRequested
      ensures Valid()
    {
      this.value := value;
      this.suffix := suffix;
      this.duration := duration;
      count := 0;
      hasAnimated := false;
      observing := false;
      startTime := 0;
      frameRequested := false;
      tweenStarts := 0;
    }

    /** The effect: without a rendered element, or once animated, it does
        nothing; otherwise it starts observing the element. */
    method Mount(elementPresent: bool)
      requires Valid()
      modifies this`observing
      ensures Valid()
      ensures observing == (old(observing) || (elementPresent && !hasAnimated))
    {
      if elementPresent && !hasAnimated {
        observing := true;
      }
    }

    /** The effect's cleanup disconnects the observer; a pending frame is not
        cancelled. */
    method Unmount()
      requires Valid()
      modifies this`observing
      ensures Valid() && !observing
    {
      observing := false;
    }

    /** `animate()`: one frame of the tween read at clock `now`. */
    method Animate(now: int)
      requires Valid() && hasAnimated
      modifies this`count, this`frameRequested
      ensures Valid()
      ensures count == FrameCount(value, Progress(now - startTime, duration))
      ensures frameRequested <==> ((now - startTime) as real < duration * 1000.0)
      ensures now >= startTime && value >= 0 ==> 0 <= count <= value
      ensures !frameRequested ==> count == value
    {
      var progress := Progress(now - startTime, duration);
      count := FrameCount(value, progress);
      frameRequested := progress < 1.0;
      if now >= startTime && value >= 0 {
        FrameCountBounds(value, progress, 1.0);
      }
      if !frameRequested {
        assert Ease(1.0) == 1.0;
      }
    }

    /** The observer callback: each entry says whether the element is in
        view. The first entry in view while the latch is open closes it,
        records the start time and draws the first frame; every later entry,
        in this batch or any other, is ignored. */
    method OnEntries(entries: seq<bool>, now: int)
      requires Valid() && observing
      modifies this`hasAnimated, this`startTime, this`count, this`frameRequested, this`tweenStarts
      ensures Valid()
      ensures hasAnimated <==> old(hasAnimated) || true in entries
      ensures old(hasAnimated) ==> startTime == old(startTime) && count == old(count) && frameRequested == old(frameRequested)
      ensures !old(hasAnimated) && hasAnimated ==> startTime == now && count == 0 && frameRequested
      ensures !hasAnimated ==> startTime == old(startTime) && count == old(count) && frameRequested == old(frameRequested) && tweenStarts == old(tweenStarts)
      ensures tweenStarts <= 1 && tweenStarts >= old(tweenStarts)
    {
      var i := 0;
      while i < |entries|
        invariant 0 <= i <= |entries|
        invariant Valid()
        invariant hasAnimated <==> old(hasAnimated) || true in entries[..i]
        invariant old(hasAnimated) ==> startTime == old(startTime) && count == old(count) && frameRequested == old(frameRequested)
        invariant !old(hasAnimated) && hasAnimated ==> startTime == now && count == 0 && frameRequested
        invariant !hasAnimated ==> startTime == old(startTime) && count == old(count) && frameRequested == old(frameRequested) && tweenStarts == old(tweenStarts)
        invariant tweenStarts >= old(tweenStarts)
      {
        assert entries[..i + 1] == entries[..i] + [entries[i]];
        if entries[i] && !hasAnimated {
          hasAnimated := true;
          tweenStarts := tweenStarts + 1;
          startTime := now;
          Animate(now);
          assert Progress(0, duration) == 0.0;
          assert Ease(0.0) == 0.0;
        }
        i := i + 1;
      }
      assert entries[..|entries|] == entries;
    }

    /** Pending frames drawn at the successive clock readings: frames keep
        coming while progress is below 1 and stop at the first reading that
        reaches the full duration, which leaves the target displayed. */
    method RunFrames(clock: seq<int>) returns (frames: nat)
      requires Valid() && frameRequested
      modifies this`count, this`frameRequested
      ensures Valid()
      ensures frames <= |clock|
      ensures forall i :: 0 <= i < frames - 1 ==> (clock[i] - startTime) as real < duration * 1000.0
      ensures frameRequested ==> frames == |clock|
      ensures !frameRequested ==> 0 < frames && (clock[frames - 1] - startTime) as real >= duration * 1000.0
      ensures !frameRequested ==> count == value && Display() == FormatNumber(value) + suffix
      ensures frames > 0 ==> count == FrameCount(value, Progress(clock[frames - 1] - startTime, duration))
      ensures frames == 0 ==> count == old(count) && frameRequested
    {
      frames := 0;
      while frames < |clock| && frameRequested
        invariant frames <= |clock|
        invariant Valid()
        invariant frames == 0 ==> frameRequested && count == old(count)
        invariant forall i :: 0 <= i < frames - 1 ==> (clock[i] - startTime) as real < duration * 1000.0
        invariant frames > 0 ==> count == FrameCount(value, Progress(clock[frames - 1] - startTime, duration))
        invariant frames > 0 ==> (frameRequested <==> (clock[frames - 1] - startTime) as real < duration * 1000.0)
        invariant !frameRequested ==> count == value
      {
        Animate(clock[frames]);
        frames := frames + 1;
      }
    }
  }
}
