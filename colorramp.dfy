/**
 * The colour-ramp engine: an ordered list of ticks (position, colour) that
 * can be extended one tick at a time, interpolated at a position, and baked
 * into an RGBA8 lookup texture.
 *
 * Positions and channels are `real`: the f32 rounding of the Rust code is not
 * modelled. The one non-finite value that the code can produce on ordinary
 * inputs, the 0/0 of a zero-width bracket, is kept as `Sample.NaN`.
 */
module Colorramp {
  import opened Wrappers

  // ---------------------------------------------------------------------------
  // Colours
  // ---------------------------------------------------------------------------

  /** Four channels, nominally in [0, 1] but never clamped. */
  datatype Color = Color(r: real, g: real, b: real, a: real)

  /** `Color * f32`: every channel scaled by `k`. */
  function Scale(c: Color, k: real): (r: Color)
    ensures k == 1.0 ==> r == c
    ensures k == 0.0 ==> r == Color(0.0, 0.0, 0.0, 0.0)
  {
    Color(c.r * k, c.g * k, c.b * k, c.a * k)
  }

  /** `Color + Color`: channel-wise sum. */
  function Plus(c: Color, d: Color): (r: Color)
    ensures d == Color(0.0, 0.0, 0.0, 0.0) ==> r == c
    ensures c == Color(0.0, 0.0, 0.0, 0.0) ==> r == d
  {
    Color(c.r + d.r, c.g + d.g, c.b + d.b, c.a + d.a)
  }

  /**
   * The blend `c1 * (1 - f) + c2 * f` built from the two operators: every
   * channel moves the fraction `f` of the way from `c1` towards `c2`.
   */
  function Lerp(c1: Color, c2: Color, f: real): (r: Color)
    ensures r.r == c1.r + f * (c2.r - c1.r) && r.g == c1.g + f * (c2.g - c1.g)
    ensures r.b == c1.b + f * (c2.b - c1.b) && r.a == c1.a + f * (c2.a - c1.a)
  {
    Plus(Scale(c1, 1.0 - f), Scale(c2, f))
  }

  /** The blend starts at the first colour and ends at the second. */
  lemma LerpEndpoints(c1: Color, c2: Color)
    ensures Lerp(c1, c2, 0.0) == c1
    ensures Lerp(c1, c2, 1.0) == c2
  {
  }

  /** Blending a colour with itself gives that colour back, whatever the factor. */
  lemma LerpOfEqualColors(c: Color, f: real)
    ensures Lerp(c, c, f) == c
  {
  }

  predicate InUnit(x: real) {
    0.0 <= x <= 1.0
  }

  predicate ChannelsInUnit(c: Color) {
    InUnit(c.r) && InUnit(c.g) && InUnit(c.b) && InUnit(c.a)
  }

  // Real-arithmetic facts, kept in small lemmas so that no larger proof has
  // to rediscover them.

  lemma ProductBounds(f: real, d: real)
    requires 0.0 < f <= 1.0 && 0.0 < d
    ensures 0.0 < f * d <= d
  {
    assert d - f * d == (1.0 - f) * d;
  }

  lemma QuotientOf(x: real, d: real, f: real)
    requires d != 0.0 && x == f * d
    ensures x / d == f
  {
    var q := x / d;
    assert q * d == x;
    assert (q - f) * d == 0.0;
  }

  lemma MulNonNegative(x: real, y: real)
    requires 0.0 <= x && 0.0 <= y
    ensures 0.0 <= x * y
  {
  }

  lemma QuotientInUnit(a: real, d: real)
    requires 0.0 <= a <= d && 0.0 < d
    ensures InUnit(a / d)
  {
    var q := a / d;
    var r := 1.0 / d;
    assert r * d == 1.0;
    assert r > 0.0;
    assert q == a * r;
    MulNonNegative(a, r);
    MulNonNegative(d - a, r);
    assert (d - a) * r == 1.0 - q;
  }

  lemma SampleOffsetBound(span: real, w: nat, p: nat)
    requires 0.0 <= span && p < w
    ensures 0.0 <= (p as real) * (span / (w as real)) <= span
  {
    var q := span / (w as real);
    assert q * (w as real) == span;
    assert q >= 0.0;
    var m := (p as real) * q;
    assert 0.0 <= m;
    assert ((w as real) - (p as real)) * q >= 0.0;
    assert m <= span;
  }

  lemma LerpChannelInUnit(x: real, y: real, f: real, z: real)
    requires InUnit(x) && InUnit(y) && InUnit(f)
    requires z == x * (1.0 - f) + y * f
    ensures InUnit(z)
  {
    var u, v := x * (1.0 - f), y * f;
    MulNonNegative(x, 1.0 - f);
    MulNonNegative(1.0 - x, 1.0 - f);
    assert (1.0 - x) * (1.0 - f) == (1.0 - f) - u;
    MulNonNegative(y, f);
    MulNonNegative(1.0 - y, f);
    assert (1.0 - y) * f == f - v;
  }

  /** A convex blend of two colours with channels in [0, 1] stays in [0, 1]. */
  lemma LerpStaysInUnit(c1: Color, c2: Color, f: real)
    requires ChannelsInUnit(c1) && ChannelsInUnit(c2) && InUnit(f)
    ensures ChannelsInUnit(Lerp(c1, c2, f))
  {
    var l := Lerp(c1, c2, f);
    LerpChannelInUnit(c1.r, c2.r, f, l.r);
    LerpChannelInUnit(c1.g, c2.g, f, l.g);
    LerpChannelInUnit(c1.b, c2.b, f, l.b);
    LerpChannelInUnit(c1.a, c2.a, f, l.a);
  }

  // ---------------------------------------------------------------------------
  // Ticks and their order
  // ---------------------------------------------------------------------------

  datatype Tick = Tick(position: real, color: Color)

  /** Ascending by position; equal positions allowed. */
  predicate Sorted(s: seq<Tick>) {
    forall i, j :: 0 <= i < j < |s| ==> s[i].position <= s[j].position
  }

  /** Strictly ascending by position: no two ticks share a position. */
  predicate StrictlyIncreasing(s: seq<Tick>) {
    forall i, j :: 0 <= i < j < |s| ==> s[i].position < s[j].position
  }

  /**
   * Where a stable sort by position puts a tick at position `p` that comes
   * after all of `s`: behind every tick at or below `p`, in front of every
   * tick above it.
   */
  function InsertionPoint(s: seq<Tick>, p: real): (k: nat)
    ensures k <= |s|
    ensures forall j :: k <= j < |s| ==> s[j].position > p
    ensures 0 < k ==> s[k - 1].position <= p
  {
    if |s| == 0 || s[|s| - 1].position <= p then |s|
    else InsertionPoint(s[..|s| - 1], p)
  }

  /** `s` with `t` placed at its insertion point. */
  function Insert(s: seq<Tick>, t: Tick): (r: seq<Tick>)
    ensures |r| == |s| + 1
  {
    var k := InsertionPoint(s, t.position);
    s[..k] + [t] + s[k..]
  }

  /**
   * A stable sort by position (insertion sort). A stable sort's output is
   * determined by its input, so this is what `sort_by` with a position
   * comparison produces.
   */
  function SortByPosition(s: seq<Tick>): (r: seq<Tick>)
    ensures |r| == |s|
  {
    if s == [] then [] else Insert(SortByPosition(s[..|s| - 1]), s[|s| - 1])
  }

  /** One step of `sort_by` on a pushed tick: swapping it with its left neighbour. */
  lemma SwapLeft(o: seq<Tick>, t: Tick, cur: seq<Tick>, i: nat)
    requires 0 < i <= |o| && cur == o[..i] + [t] + o[i..]
    ensures cur[i - 1 := t][i := cur[i - 1]] == o[..i - 1] + [t] + o[i - 1..]
  {
    var next := cur[i - 1 := t][i := cur[i - 1]];
    var want := o[..i - 1] + [t] + o[i - 1..];
    assert |next| == |want|;
    forall k | 0 <= k < |next| ensures next[k] == want[k] {
      if k < i - 1 {
        assert next[k] == cur[k] == o[k];
      } else if k == i - 1 {
      } else if k == i {
        assert next[k] == cur[i - 1] == o[i - 1];
      } else {
        assert next[k] == cur[k] == o[k - 1];
      }
    }
  }

  /** Where the swapping stops is the insertion point. */
  lemma IsInsertionPoint(s: seq<Tick>, p: real, i: nat)
    requires i <= |s|
    requires forall j :: i <= j < |s| ==> s[j].position > p
    requires 0 < i ==> s[i - 1].position <= p
    ensures i == InsertionPoint(s, p)
  {
  }

  /** Inserting into a sorted list keeps it sorted. */
  lemma InsertSorted(s: seq<Tick>, t: Tick)
    requires Sorted(s)
    ensures Sorted(Insert(s, t))
  {
    var k := InsertionPoint(s, t.position);
    var r := Insert(s, t);
    forall i, j | 0 <= i < j < |r| ensures r[i].position <= r[j].position {
      if j < k || i > k {
      } else if i == k {
        assert r[j] == s[j - 1];
      } else if j == k {
        assert r[i] == s[i] && s[i].position <= s[k - 1].position;
      } else {
        assert r[i] == s[i] && r[j] == s[j - 1];
      }
    }
  }

  /**
   * Insertion adds exactly the new tick: the result is one longer and is a
   * permutation of the old ticks plus the new one.
   */
  lemma InsertPermutation(s: seq<Tick>, t: Tick)
    ensures |Insert(s, t)| == |s| + 1
    ensures multiset(Insert(s, t)) == multiset(s) + multiset{t}
  {
    var k := InsertionPoint(s, t.position);
    assert s == s[..k] + s[k..];
  }

  /**
   * Insertion keeps the old ticks in their relative order: taking the new
   * tick back out of the result gives the old list.
   */
  lemma InsertKeepsOrder(s: seq<Tick>, t: Tick)
    ensures var k := InsertionPoint(s, t.position);
      var r := Insert(s, t);
      k < |r| && r[k] == t && r[..k] + r[k + 1..] == s
  {
    var k := InsertionPoint(s, t.position);
    var r := Insert(s, t);
    assert r[..k] == s[..k];
    assert r[k + 1..] == s[k..];
    assert s == s[..k] + s[k..];
  }

  /**
   * Insertion is stable: the new tick sits behind every old tick whose
   * position is at or below its own (so behind all ticks at an equal
   * position), and in front of every greater one.
   */
  lemma InsertStable(s: seq<Tick>, t: Tick)
    requires Sorted(s)
    ensures var k := InsertionPoint(s, t.position);
      var r := Insert(s, t);
      (forall j :: 0 <= j < k ==> r[j].position <= t.position)
      && (forall j :: k < j < |r| ==> r[j].position > t.position)
  {
    var k := InsertionPoint(s, t.position);
    var r := Insert(s, t);
    forall j | 0 <= j < k ensures r[j].position <= t.position {
      assert r[j] == s[j];
    }
    forall j | k < j < |r| ensures r[j].position > t.position {
      assert r[j] == s[j - 1];
    }
  }

  /** A sorted list is left as it is by the stable sort. */
  lemma {:induction false} SortSortedIsIdentity(s: seq<Tick>)
    requires Sorted(s)
    ensures SortByPosition(s) == s
  {
    if s != [] {
      var init := s[..|s| - 1];
      SortSortedIsIdentity(init);
      assert InsertionPoint(init, s[|s| - 1].position) == |init|;
      assert init + [s[|s| - 1]] == s;
    }
  }

  /** The stable sort returns a sorted permutation of its input. */
  lemma {:induction false} SortByPositionSpec(s: seq<Tick>)
    ensures Sorted(SortByPosition(s))
    ensures multiset(SortByPosition(s)) == multiset(s)
  {
    if s != [] {
      var init, last := s[..|s| - 1], s[|s| - 1];
      var sorted := SortByPosition(init);
      assert SortByPosition(s) == Insert(sorted, last);
      SortByPositionSpec(init);
      InsertSorted(sorted, last);
      InsertPermutation(sorted, last);
      assert s == init + [last];
      assert multiset(s) == multiset(init) + multiset{last};
    }
  }

  /** A tick at or above the last position goes to the end. */
  lemma InsertAtEnd(s: seq<Tick>, t: Tick)
    requires |s| == 0 || s[|s| - 1].position <= t.position
    ensures Insert(s, t) == s + [t]
  {
    assert InsertionPoint(s, t.position) == |s|;
  }

  /** Pushing onto a sorted list and re-sorting is the same as one insertion. */
  lemma PushThenSortIsInsert(s: seq<Tick>, t: Tick)
    requires Sorted(s)
    ensures SortByPosition(s + [t]) == Insert(s, t)
  {
    assert (s + [t])[..|s|] == s;
    SortSortedIsIdentity(s);
  }

  // ---------------------------------------------------------------------------
  // Interpolation
  // ---------------------------------------------------------------------------

  /** The adjacent pair (i, i + 1) encloses `pos`, bounds included. */
  predicate Brackets(s: seq<Tick>, i: nat, pos: real)
    requires i + 1 < |s|
  {
    s[i].position <= pos <= s[i + 1].position
  }

  /** The first pair at or after `from` that brackets `pos`, if there is one. */
  function FirstBracket(s: seq<Tick>, pos: real, from: nat): (r: Option<nat>)
    decreases |s| - from
    ensures r.Some? ==> from <= r.value && r.value + 1 < |s| && Brackets(s, r.value, pos)
    ensures r.Some? ==> forall j :: from <= j < r.value ==> !Brackets(s, j, pos)
    ensures r.None? ==> forall j :: from <= j && j + 1 < |s| ==> !Brackets(s, j, pos)
  {
    if from + 1 >= |s| then None
    else if Brackets(s, from, pos) then Some(from)
    else FirstBracket(s, pos, from + 1)
  }

  /**
   * What interpolation yields: a finite colour, or a colour whose channels are
   * all NaN (the 0/0 factor of a zero-width bracket).
   */
  datatype Sample = Finite(color: Color) | NaN

  /**
   * The blend over a bracketing pair: NaN exactly when the pair has zero
   * width (0 / 0), otherwise a colour that is the first tick's at its
   * position and the second tick's at its own.
   */
  function Mix(t1: Tick, t2: Tick, pos: real): (r: Sample)
    requires t1.position <= pos <= t2.position
    ensures r.NaN? <==> t1.position == t2.position
    ensures r.Finite? && pos == t1.position ==> r.color == t1.color
    ensures r.Finite? && pos == t2.position ==> r.color == t2.color
  {
    if t2.position == t1.position then NaN
    else
      var f := (pos - t1.position) / (t2.position - t1.position);
      QuotientOf(t2.position - t1.position, t2.position - t1.position, 1.0);
      assert pos == t1.position ==> f == 0.0;
      assert pos == t2.position ==> f == 1.0;
      LerpEndpoints(t1.color, t2.color);
      Finite(Lerp(t1.color, t2.color, f))
  }

  /** `ColorRamp::interpolate` as a function of the ticks. */
  function InterpolateAt(s: seq<Tick>, pos: real): (r: Option<Sample>)
    requires |s| > 0
    ensures r.Some? ==> |s| >= 2
  {
    match FirstBracket(s, pos, 0)
    case None => None
    case Some(i) => Some(Mix(s[i], s[i + 1], pos))
  }

  /** Interpolation has a value exactly when some adjacent pair brackets `pos`. */
  lemma InterpolateSomeIff(s: seq<Tick>, pos: real)
    requires |s| > 0
    ensures InterpolateAt(s, pos).Some? <==> exists i :: 0 <= i && i + 1 < |s| && Brackets(s, i, pos)
  {
    if InterpolateAt(s, pos).Some? {
      assert Brackets(s, FirstBracket(s, pos, 0).value, pos);
    }
  }

  /** `ColorRamp::range`: first and last position, once there are two ticks. */
  function Range(s: seq<Tick>): (r: Option<(real, real)>)
    ensures r.Some? <==> |s| >= 2
    ensures r.Some? ==> r.value.0 == s[0].position && r.value.1 == s[|s| - 1].position
  {
    if |s| < 2 then None else Some((s[0].position, s[|s| - 1].position))
  }

  /** The range of a sorted ramp runs upwards. */
  lemma RangeOrdered(s: seq<Tick>)
    requires Sorted(s) && Range(s).Some?
    ensures Range(s).value.0 <= Range(s).value.1
  {
    assert s[0].position <= s[|s| - 1].position;
  }

  /** Between its first and last tick a sorted list has a bracketing pair. */
  lemma {:induction false} BracketExists(s: seq<Tick>, pos: real)
    requires Sorted(s) && |s| >= 2
    requires s[0].position <= pos <= s[|s| - 1].position
    ensures FirstBracket(s, pos, 0).Some?
  {
    if pos <= s[1].position {
      assert Brackets(s, 0, pos);
    } else {
      var t := s[1..];
      assert Sorted(t);
      BracketExists(t, pos);
      var j := FirstBracket(t, pos, 0).value;
      assert Brackets(s, j + 1, pos);
    }
  }

  /**
   * On a sorted ramp with at least one tick, interpolation has no value
   * exactly when no pair brackets `pos`: a single tick, or `pos` below the
   * first or above the last position.
   */
  lemma InterpolateNoneIff(s: seq<Tick>, pos: real)
    requires Sorted(s) && |s| > 0
    ensures InterpolateAt(s, pos).None?
        <==> |s| < 2 || pos < s[0].position || pos > s[|s| - 1].position
  {
    if |s| >= 2 && s[0].position <= pos <= s[|s| - 1].position {
      BracketExists(s, pos);
    }
  }

  /** Interpolation has a value exactly on the ramp's range. */
  lemma InterpolateDefinedOnRange(s: seq<Tick>, pos: real)
    requires Sorted(s) && Range(s).Some?
    ensures InterpolateAt(s, pos).Some?
        <==> Range(s).value.0 <= pos <= Range(s).value.1
  {
    InterpolateNoneIff(s, pos);
  }

  /** When `i` is the least bracketing pair, the scan settles on it. */
  lemma FirstBracketIs(s: seq<Tick>, pos: real, i: nat)
    requires i + 1 < |s| && Brackets(s, i, pos)
    requires forall j :: 0 <= j < i ==> !Brackets(s, j, pos)
    ensures FirstBracket(s, pos, 0) == Some(i)
  {
  }

  /**
   * With strictly increasing positions, interpolating at a tick's own
   * position gives that tick's colour exactly: factor 0 on the first tick,
   * factor 1 (of the pair ending there) on every other.
   */
  lemma InterpolateAtTick(s: seq<Tick>, i: nat)
    requires StrictlyIncreasing(s) && |s| >= 2 && i < |s|
    ensures InterpolateAt(s, s[i].position) == Some(Finite(s[i].color))
  {
    var pos := s[i].position;
    if i == 0 {
      FirstBracketIs(s, pos, 0);
      assert s[0].position < s[1].position;
      QuotientOf(pos - s[0].position, s[1].position - s[0].position, 0.0);
      assert Mix(s[0], s[1], pos) == Finite(Lerp(s[0].color, s[1].color, 0.0));
      LerpEndpoints(s[0].color, s[1].color);
    } else {
      forall j | 0 <= j < i - 1 ensures !Brackets(s, j, pos) {
        assert s[j + 1].position < pos;
      }
      FirstBracketIs(s, pos, i - 1);
      assert s[i - 1].position < s[i].position;
      QuotientOf(pos - s[i - 1].position, s[i].position - s[i - 1].position, 1.0);
      assert Mix(s[i - 1], s[i], pos) == Finite(Lerp(s[i - 1].color, s[i].color, 1.0));
      LerpEndpoints(s[i - 1].color, s[i].color);
    }
  }

  /**
   * With strictly increasing positions, interpolating a fraction `f` of the way
   * from tick i to tick i + 1 gives the linear blend of their colours.
   */
  lemma InterpolateWithinPair(s: seq<Tick>, i: nat, f: real, pos: real)
    requires StrictlyIncreasing(s) && i + 1 < |s| && InUnit(f)
    requires pos == s[i].position + f * (s[i + 1].position - s[i].position)
    ensures InterpolateAt(s, pos) == Some(Finite(Lerp(s[i].color, s[i + 1].color, f)))
  {
    if f == 0.0 {
      assert pos == s[i].position;
      InterpolateAtTick(s, i);
      LerpEndpoints(s[i].color, s[i + 1].color);
    } else {
      InterpolatePastStart(s, i, f, pos);
    }
  }

  /** The case f > 0 of InterpolateWithinPair: pair i brackets the point with factor f. */
  lemma InterpolatePastStart(s: seq<Tick>, i: nat, f: real, pos: real)
    requires StrictlyIncreasing(s) && i + 1 < |s| && 0.0 < f <= 1.0
    requires pos == s[i].position + f * (s[i + 1].position - s[i].position)
    ensures InterpolateAt(s, pos) == Some(Finite(Lerp(s[i].color, s[i + 1].color, f)))
  {
    var p1, p2 := s[i].position, s[i + 1].position;
    assert p1 < p2;
    FractionOfSpan(p1, p2, f, pos);
    InterpolateInsideBracket(s, i, pos);
  }

  /** Strictly inside (or at the top of) pair i, the scan picks pair i. */
  lemma InterpolateInsideBracket(s: seq<Tick>, i: nat, pos: real)
    requires StrictlyIncreasing(s) && i + 1 < |s|
    requires s[i].position < pos <= s[i + 1].position
    ensures InterpolateAt(s, pos) == Some(Finite(Lerp(s[i].color, s[i + 1].color,
      (pos - s[i].position) / (s[i + 1].position - s[i].position))))
  {
    forall j | 0 <= j < i ensures !Brackets(s, j, pos) {
      if j + 1 < i {
        assert s[j + 1].position < s[i].position;
      }
    }
    FirstBracketIs(s, pos, i);
  }

  /** A point a fraction `f` in (0, 1] along [p1, p2] lies in (p1, p2] and has factor `f`. */
  lemma FractionOfSpan(p1: real, p2: real, f: real, pos: real)
    requires p1 < p2 && 0.0 < f <= 1.0 && pos == p1 + f * (p2 - p1)
    ensures p1 < pos <= p2
    ensures (pos - p1) / (p2 - p1) == f
  {
    var d := p2 - p1;
    ProductBounds(f, d);
    var m := f * d;
    assert 0.0 < m <= d;
    assert pos == p1 + m;
    QuotientOf(pos - p1, p2 - p1, f);
  }

  /**
   * On a sorted ramp interpolation gives NaN exactly when the first two ticks
   * share a position and `pos` is that position. A later zero-width pair is
   * never reached with NaN: the pair before it already brackets its position,
   * with factor 1.
   */
  lemma InterpolateNaNIff(s: seq<Tick>, pos: real)
    requires Sorted(s) && |s| >= 2
    ensures InterpolateAt(s, pos) == Some(NaN) <==> s[0].position == pos == s[1].position
  {
    if s[0].position == pos == s[1].position {
      assert Brackets(s, 0, pos);
    }
    var b := FirstBracket(s, pos, 0);
    if b.Some? && b.value > 0 {
      var i := b.value;
      assert !Brackets(s, i - 1, pos);
      assert s[i - 1].position <= s[i].position;
    }
  }

  /**
   * When the first two ticks are apart (in particular with strictly
   * increasing positions) interpolation never produces NaN.
   */
  lemma InterpolateFiniteWhenStrict(s: seq<Tick>, pos: real)
    requires Sorted(s) && |s| > 0
    requires |s| >= 2 ==> s[0].position < s[1].position
    ensures InterpolateAt(s, pos) != Some(NaN)
  {
    if |s| >= 2 {
      InterpolateNaNIff(s, pos);
    }
  }

  /**
   * When the first two ticks are apart the blend factor lies in [0, 1], so a
   * ramp whose colours have channels in [0, 1] interpolates to such colours.
   */
  lemma InterpolateStaysInUnit(s: seq<Tick>, pos: real)
    requires Sorted(s) && |s| > 0
    requires |s| >= 2 ==> s[0].position < s[1].position
    requires forall i :: 0 <= i < |s| ==> ChannelsInUnit(s[i].color)
    requires InterpolateAt(s, pos).Some?
    ensures InterpolateAt(s, pos).value.Finite?
    ensures ChannelsInUnit(InterpolateAt(s, pos).value.color)
  {
    var i := FirstBracket(s, pos, 0).value;
    var p1, p2 := s[i].position, s[i + 1].position;
    InterpolateNaNIff(s, pos);
    assert p1 < p2;
    var f := (pos - p1) / (p2 - p1);
    QuotientInUnit(pos - p1, p2 - p1);
    LerpStaysInUnit(s[i].color, s[i + 1].color, f);
  }

  /**
   * A ramp whose first two ticks share position 0: interpolating at 0 stops
   * the scan on that zero-width pair and gives NaN (the case
   * `InterpolateNaNIff` singles out).
   */
  lemma CoincidentTicksGiveNaN()
    ensures InterpolateAt([Tick(0.0, Color(0.0, 0.0, 0.0, 1.0)),
                           Tick(0.0, Color(1.0, 1.0, 1.0, 1.0)),
                           Tick(1.0, Color(1.0, 1.0, 1.0, 1.0))], 0.0) == Some(NaN)
  {
    var s := [Tick(0.0, Color(0.0, 0.0, 0.0, 1.0)),
              Tick(0.0, Color(1.0, 1.0, 1.0, 1.0)),
              Tick(1.0, Color(1.0, 1.0, 1.0, 1.0))];
    FirstBracketIs(s, 0.0, 0);
  }

  // ---------------------------------------------------------------------------
  // Baking the lookup texture
  // ---------------------------------------------------------------------------

  type Byte = b: int | 0 <= b < 256

  /** Rust's `f32::round`: to the nearest integer, halves away from zero. */
  function RoundHalfAway(x: real): (n: int)
    ensures x >= 0.0 ==> (n as real) - 0.5 <= x < (n as real) + 0.5
    ensures x < 0.0 ==> (n as real) - 0.5 < x <= (n as real) + 0.5
  {
    if x >= 0.0 then (x + 0.5).Floor else -((0.5 - x).Floor)
  }

  /** Rust's `as u8` on a float: saturates into 0..255. */
  function SaturateToByte(n: int): (b: Byte)
    ensures b == n <==> 0 <= n <= 255
    ensures n < 0 ==> b == 0
    ensures n > 255 ==> b == 255
  {
    if n < 0 then 0 else if n > 255 then 255 else n
  }

  /** One channel quantised as `(x * 255.).round() as u8`. */
  function ChannelByte(x: real): (b: Byte)
    ensures 0.0 <= x * 255.0 <= 255.0 ==> (b as real) - 0.5 <= x * 255.0 < (b as real) + 0.5
    ensures x * 255.0 < 0.5 ==> b == 0
    ensures x * 255.0 >= 254.5 ==> b == 255
  {
    SaturateToByte(RoundHalfAway(x * 255.0))
  }

  /** The four bytes of a pixel; a NaN channel converts to 0 under `as u8`. */
  function PixelBytes(s: Sample): (px: seq<Byte>)
    ensures |px| == 4
  {
    match s
    case NaN => [0, 0, 0, 0]
    case Finite(c) => [ChannelByte(c.r), ChannelByte(c.g), ChannelByte(c.b), ChannelByte(c.a)]
  }

  /** The distance between two samples of a `width`-pixel row over [t0, t1]: `range / width as f32`. */
  function Step(t0: real, t1: real, width: nat): real
    requires width >= 1
  {
    (t1 - t0) / (width as real)
  }

  /**
   * Where pixel `p` of a `width`-pixel row samples the range [t0, t1]: at
   * `t0 + p * (t1 - t0) / width` for all but the last pixel, which is forced
   * to `t1`.
   */
  function SamplePos(t0: real, t1: real, width: nat, p: nat): (pos: real)
    requires t0 <= t1 && p < width
    ensures t0 <= pos <= t1
  {
    if p < width - 1 then
      SampleOffsetBound(t1 - t0, width, p);
      t0 + (p as real) * Step(t0, t1, width)
    else t1
  }

  /**
   * `interpolate(pos).unwrap()` at a position inside a sorted ramp's range;
   * `SampleAtUnwraps` states that the `unwrap` cannot fail there.
   */
  function SampleAt(s: seq<Tick>, pos: real): Sample
    requires Sorted(s) && |s| >= 2
    requires s[0].position <= pos <= s[|s| - 1].position
  {
    InterpolateNoneIff(s, pos);
    InterpolateAt(s, pos).value
  }

  /** Inside the range the `unwrap` succeeds: the sample is what interpolation yields. */
  lemma SampleAtUnwraps(s: seq<Tick>, pos: real)
    requires Sorted(s) && |s| >= 2
    requires s[0].position <= pos <= s[|s| - 1].position
    ensures InterpolateAt(s, pos) == Some(SampleAt(s, pos))
  {
    InterpolateNoneIff(s, pos);
  }

  /** The bytes of pixel `p` in the baked row. */
  function Pixel(s: seq<Tick>, width: nat, p: nat): (px: seq<Byte>)
    requires Sorted(s) && |s| >= 2 && p < width
    ensures |px| == 4
  {
    var t0, t1 := s[0].position, s[|s| - 1].position;
    assert t0 <= t1;
    PixelBytes(SampleAt(s, SamplePos(t0, t1, width, p)))
  }

  /**
   * Baking pixel `p` appends the bytes of the interpolated colour at its
   * sample position to the first `p` pixels.
   */
  lemma RowPrefixStep(s: seq<Tick>, width: nat, p: nat, step: real, pos: real)
    requires Sorted(s) && |s| >= 2 && p < width
    requires step == Step(s[0].position, s[|s| - 1].position, width)
    requires p < width - 1 ==> pos == s[0].position + (p as real) * step
    requires p == width - 1 ==> pos == s[|s| - 1].position
    ensures InterpolateAt(s, pos).Some?
    ensures RowPrefix(s, width, p + 1) == RowPrefix(s, width, p) + PixelBytes(InterpolateAt(s, pos).value)
  {
    RangeOrdered(s);
    assert pos == SamplePos(s[0].position, s[|s| - 1].position, width, p);
    InterpolateNoneIff(s, pos);
  }

  /** The first `n` pixels of the baked row. */
  function RowPrefix(s: seq<Tick>, width: nat, n: nat): (row: seq<Byte>)
    requires Sorted(s) && |s| >= 2 && n <= width
    ensures |row| == 4 * n
  {
    if n == 0 then [] else RowPrefix(s, width, n - 1) + Pixel(s, width, n - 1)
  }

  /** `h` copies of `row`, one after another. */
  function Repeat(row: seq<Byte>, h: nat): (r: seq<Byte>)
    ensures |r| == |row| * h
  {
    if h == 0 then [] else Repeat(row, h - 1) + row
  }

  /**
   * `ColorRamp::build_texture_data` as a function of the ticks: no value
   * without a range, otherwise `height` copies of the baked row.
   */
  function TextureData(s: seq<Tick>, width: nat, height: nat): (r: Option<seq<Byte>>)
    requires Sorted(s)
    requires |s| >= 2 ==> width >= 1 && height >= 1
    ensures r.None? <==> Range(s).None?
    ensures r.Some? ==> |r.value| == 4 * width * height
  {
    match Range(s)
    case None => None
    case Some(_) => Some(Repeat(RowPrefix(s, width, width), height))
  }

  /** Pixel `p` of the row sits at bytes 4p .. 4p + 4. */
  lemma {:induction false} RowPixel(s: seq<Tick>, width: nat, n: nat, p: nat)
    requires Sorted(s) && |s| >= 2 && p < n <= width
    ensures RowPrefix(s, width, n)[4 * p .. 4 * p + 4] == Pixel(s, width, p)
  {
    if p < n - 1 {
      RowPixel(s, width, n - 1, p);
      assert RowPrefix(s, width, n)[..4 * (n - 1)] == RowPrefix(s, width, n - 1);
    }
  }

  /** Copy `k` of a repeated row is the row itself. */
  lemma {:induction false} RepeatCopy(row: seq<Byte>, h: nat, k: nat)
    requires k < h
    ensures |row| * (k + 1) <= |Repeat(row, h)|
    ensures Repeat(row, h)[|row| * k .. |row| * (k + 1)] == row
  {
    var n := |row|;
    var prev := Repeat(row, h - 1);
    assert Repeat(row, h) == prev + row;
    if k < h - 1 {
      RepeatCopy(row, h - 1, k);
      assert (prev + row)[n * k .. n * (k + 1)] == prev[n * k .. n * (k + 1)];
    } else {
      assert n * k == |prev|;
      assert n * (k + 1) == |prev| + n;
    }
  }

  /**
   * The baked texture is `height` identical rows of `width` pixels, and pixel
   * `p` of each row is the quantised interpolation at its sample position.
   */
  lemma TextureDataLayout(s: seq<Tick>, width: nat, height: nat, k: nat, p: nat)
    requires Sorted(s) && |s| >= 2 && width >= 1 && height >= 1
    requires k < height && p < width
    ensures var data := TextureData(s, width, height).value;
      var rowLen := 4 * width;
      rowLen * (k + 1) <= |data|
      && data[rowLen * k .. rowLen * (k + 1)] == RowPrefix(s, width, width)
      && RowPrefix(s, width, width)[4 * p .. 4 * p + 4] == Pixel(s, width, p)
  {
    RepeatCopy(RowPrefix(s, width, width), height, k);
    RowPixel(s, width, width, p);
  }

  /**
   * On a strictly increasing ramp the last pixel is the last tick's colour
   * exactly, and (from width 2 up) the first pixel is the first tick's.
   */
  lemma TextureRowEnds(s: seq<Tick>, width: nat)
    requires StrictlyIncreasing(s) && |s| >= 2 && width >= 1
    ensures Sorted(s)
    ensures Pixel(s, width, width - 1) == PixelBytes(Finite(s[|s| - 1].color))
    ensures width >= 2 ==> Pixel(s, width, 0) == PixelBytes(Finite(s[0].color))
  {
    InterpolateAtTick(s, |s| - 1);
    InterpolateAtTick(s, 0);
  }

  /**
   * On a strictly increasing ramp baked at least 2 pixels wide, the texture
   * starts with the quantised first colour and ends with the quantised last
   * colour, exactly.
   */
  lemma TextureDataEnds(s: seq<Tick>, width: nat, height: nat)
    requires StrictlyIncreasing(s) && |s| >= 2 && width >= 2 && height >= 1
    ensures Sorted(s)
    ensures var data := TextureData(s, width, height).value;
      |data| >= 4
      && data[..4] == PixelBytes(Finite(s[0].color))
      && data[|data| - 4..] == PixelBytes(Finite(s[|s| - 1].color))
  {
    TextureRowEnds(s, width);
    var row := RowPrefix(s, width, width);
    RowPixel(s, width, width, 0);
    RowPixel(s, width, width, width - 1);
    RepeatEnds(row, height);
  }

  /** A repeated row starts with the row's first four bytes and ends with its last four. */
  lemma {:induction false} RepeatEnds(row: seq<Byte>, h: nat)
    requires |row| >= 4 && h >= 1
    ensures |Repeat(row, h)| >= 4
    ensures Repeat(row, h)[..4] == row[..4]
    ensures Repeat(row, h)[|Repeat(row, h)| - 4..] == row[|row| - 4..]
  {
    var prev := Repeat(row, h - 1);
    assert Repeat(row, h) == prev + row;
    if h > 1 {
      RepeatEnds(row, h - 1);
      assert (prev + row)[..4] == prev[..4];
    } else {
      assert prev == [];
    }
  }

  /** A two-tick ramp from opaque black at 0 to opaque white at 1. */
  function BlackToWhite(): seq<Tick> {
    [Tick(0.0, Color(0.0, 0.0, 0.0, 1.0)), Tick(1.0, Color(1.0, 1.0, 1.0, 1.0))]
  }

  /** On the black-to-white ramp the sample at `x` is the grey of level `x`. */
  lemma BlackToWhiteSample(x: real)
    requires InUnit(x)
    ensures Sorted(BlackToWhite())
    ensures SampleAt(BlackToWhite(), x) == Finite(Color(x, x, x, 1.0))
  {
    var s := BlackToWhite();
    InterpolateWithinPair(s, 0, x, x);
    assert Lerp(s[0].color, s[1].color, x) == Color(x, x, x, 1.0);
  }

  /** Grey levels 0, 0.25, 0.5 and 1 quantise to 0, 64, 128 and 255. */
  lemma GreyLevelBytes()
    ensures ChannelByte(0.0) == 0 && ChannelByte(0.25) == 64
    ensures ChannelByte(0.5) == 128 && ChannelByte(1.0) == 255
  {
    assert RoundHalfAway(63.75) == 64;
    assert RoundHalfAway(127.5) == 128;
  }

  /** Pixel `p` of the black-to-white ramp baked 4 wide is the grey of its sample position. */
  lemma BlackToWhitePixel(s: seq<Tick>, w: nat, p: nat, x: real, v: Byte)
    requires s == BlackToWhite() && w == 4
    requires (p < 3 && x == (p as real) / 4.0) || (p == 3 && x == 1.0)
    requires ChannelByte(x) == v
    ensures Sorted(s) && p < w
    ensures Pixel(s, w, p) == [v, v, v, 255]
  {
    assert SamplePos(0.0, 1.0, w, p) == x;
    BlackToWhiteSample(x);
    GreyLevelBytes();
  }

  /** A texture one row high is the baked row itself. */
  lemma SingleRowTexture(s: seq<Tick>, w: nat)
    requires Sorted(s) && |s| >= 2 && w >= 1
    ensures TextureData(s, w, 1) == Some(RowPrefix(s, w, w))
  {
    var row := RowPrefix(s, w, w);
    assert Repeat(row, 1) == Repeat(row, 0) + row == row;
  }

  /** The baked row of the black-to-white ramp, pixel by pixel. */
  lemma BlackToWhiteRow(s: seq<Tick>, w: nat)
    requires s == BlackToWhite() && w == 4
    ensures Sorted(s)
    ensures RowPrefix(s, w, w)
         == [0, 0, 0, 255] + [64, 64, 64, 255] + [128, 128, 128, 255] + [255, 255, 255, 255]
  {
    GreyLevelBytes();
    BlackToWhitePixel(s, w, 0, 0.0, 0);
    BlackToWhitePixel(s, w, 1, 0.25, 64);
    BlackToWhitePixel(s, w, 2, 0.5, 128);
    BlackToWhitePixel(s, w, 3, 1.0, 255);
    var a, b, c, d: seq<Byte> := [0, 0, 0, 255], [64, 64, 64, 255], [128, 128, 128, 255], [255, 255, 255, 255];
    assert RowPrefix(s, w, 1) == a;
    assert RowPrefix(s, w, 2) == a + b;
    assert RowPrefix(s, w, 3) == a + b + c;
    assert RowPrefix(s, w, 4) == a + b + c + d;
  }

  /**
   * The black-to-white ramp baked 4 pixels wide samples 0, 0.25, 0.5 and 1:
   * grey levels 0, 64, 128 and 255 (63.75 and 127.5 round up), alpha 255.
   */
  lemma BlackToWhiteWidth4()
    ensures TextureData(BlackToWhite(), 4, 1)
         == Some([0, 0, 0, 255] + [64, 64, 64, 255] + [128, 128, 128, 255] + [255, 255, 255, 255])
  {
    BlackToWhiteRow(BlackToWhite(), 4);
    SingleRowTexture(BlackToWhite(), 4);
  }

  // ---------------------------------------------------------------------------
  // The ramp object
  // ---------------------------------------------------------------------------

  class ColorRamp {
    var ticks: seq<Tick>

    /** Every `add` re-sorts, so the ticks are always in position order. */
    ghost predicate Valid()
      reads this
    {
      Sorted(ticks)
    }

    /** `ColorRamp::new`: no ticks. */
    constructor ()
      ensures Valid() && ticks == []
    {
      ticks := [];
    }

    /**
     * `ColorRamp::add`: push the tick, then stable-sort by position. On the
     * already sorted list the sort only moves the new tick left past the
     * ticks with a greater position.
     */
    method Add(position: real, r: real, g: real, b: real, a: real)
      requires Valid()
      modifies this
      ensures Valid()
      ensures ticks == Insert(old(ticks), Tick(position, Color(r, g, b, a)))
      ensures ticks == SortByPosition(old(ticks) + [Tick(position, Color(r, g, b, a))])
    {
      var t := Tick(position, Color(r, g, b, a));
      ghost var o := ticks;
      ticks := ticks + [t];
      var i := |ticks| - 1;
      assert ticks == o[..i] + [t] + o[i..];
      while 0 < i && ticks[i - 1].position > position
        invariant 0 <= i <= |o| && |ticks| == |o| + 1
        invariant ticks == o[..i] + [t] + o[i..]
        invariant forall j :: i <= j < |o| ==> o[j].position > position
      {
        SwapLeft(o, t, ticks, i);
        ticks := ticks[i - 1 := t][i := ticks[i - 1]];
        i := i - 1;
      }
      IsInsertionPoint(o, position, i);
      InsertSorted(o, t);
      PushThenSortIsInsert(o, t);
    }

    /**
     * `ColorRamp::interpolate`: scan the adjacent pairs for the first one that
     * brackets `pos` and blend over it. An empty ramp is excluded: the scan's
     * bound `len() - 1` underflows there.
     */
    method Interpolate(pos: real) returns (res: Option<Sample>)
      requires |ticks| > 0
      ensures res == InterpolateAt(ticks, pos)
    {
      var span: Option<(Tick, Tick)> := None;
      var i := 0;
      while i < |ticks| - 1
        invariant 0 <= i <= |ticks| - 1
        invariant span == None
        invariant forall j :: 0 <= j < i ==> !Brackets(ticks, j, pos)
      {
        if pos >= ticks[i].position && pos <= ticks[i + 1].position {
          span := Some((ticks[i], ticks[i + 1]));
          break;
        }
        i := i + 1;
      }
      if span == None {
        return None;
      }
      FirstBracketIs(ticks, pos, i);
      var (t1, t2) := span.value;
      res := Some(Mix(t1, t2, pos));
    }

    /**
     * The row-baking part of `ColorRamp::build_texture_data`: pixels 0 to
     * width - 2 sample `t0 + p * step`, the last one samples `t1`.
     */
    method BakeRow(width: nat) returns (row: seq<Byte>)
      requires Valid() && |ticks| >= 2 && width >= 1
      ensures row == RowPrefix(ticks, width, width)
    {
      var t0, t1 := ticks[0].position, ticks[|ticks| - 1].position;
      var step := Step(t0, t1, width);
      row := [];
      var p := 0;
      while p < width - 1
        invariant 0 <= p <= width - 1
        invariant row == RowPrefix(ticks, width, p)
      {
        var pos := t0 + p as real * step;
        var px := PixelBytesAt(width, p, step, pos);
        row := row + px;
        p := p + 1;
      }
      var px := PixelBytesAt(width, width - 1, step, t1);
      row := row + px;
    }

    /** The four bytes one iteration of the bake pushes for pixel `p`, sampled at `pos`. */
    method PixelBytesAt(width: nat, p: nat, step: real, pos: real) returns (px: seq<Byte>)
      requires Valid() && |ticks| >= 2 && p < width
      requires step == Step(ticks[0].position, ticks[|ticks| - 1].position, width)
      requires p < width - 1 ==> pos == ticks[0].position + (p as real) * step
      requires p == width - 1 ==> pos == ticks[|ticks| - 1].position
      ensures RowPrefix(ticks, width, p + 1) == RowPrefix(ticks, width, p) + px
    {
      RowPrefixStep(ticks, width, p, step, pos);
      var col := Interpolate(pos);
      px := PixelBytes(col.value);
    }

    /**
     * `ColorRamp::build_texture_data`: bake one `width`-pixel RGBA8 row and
     * repeat it `height` times. Width and height 0 are excluded once there is
     * a range: `width - 1` and `height - 1` underflow there.
     */
    method BuildTextureData(width: nat, height: nat) returns (res: Option<seq<Byte>>)
      requires Valid()
      requires |ticks| >= 2 ==> width >= 1 && height >= 1
      ensures res == TextureData(ticks, width, height)
    {
      var range := Range(ticks);
      if range == None {
        return None;
      }
      var result := BakeRow(width);
      var repeated := result;
      var k := 0;
      while k < height - 1
        invariant 0 <= k <= height - 1
        invariant repeated == Repeat(result, k + 1)
      {
        repeated := repeated + result;
        k := k + 1;
      }
      res := Some(repeated);
    }
  }

  /**
   * The start-up gradient: opaque black, black, dark red, orange, yellow and
   * white at 0, 0.04, 0.2, 0.5, 0.8 and 1.
   */
  function StartupTicks(): seq<Tick> {
    [Tick(0.0, Color(0.0, 0.0, 0.0, 1.0)), Tick(0.04, Color(0.0, 0.0, 0.0, 1.0)),
     Tick(0.2, Color(0.4, 0.0, 0.0, 1.0)), Tick(0.5, Color(1.0, 0.4, 0.0, 1.0)),
     Tick(0.8, Color(1.0, 1.0, 0.0, 1.0)), Tick(1.0, Color(1.0, 1.0, 1.0, 1.0))]
  }

  /** `add` calls in ascending order of position leave the ticks in call order. */
  method AddInOrder(ts: seq<Tick>) returns (ramp: ColorRamp)
    requires Sorted(ts)
    ensures fresh(ramp) && ramp.Valid() && ramp.ticks == ts
  {
    ramp := new ColorRamp();
    for i := 0 to |ts|
      invariant ramp.Valid() && ramp.ticks == ts[..i]
    {
      var c := ts[i].color;
      ramp.Add(ts[i].position, c.r, c.g, c.b, c.a);
      InsertAtEnd(ts[..i], ts[i]);
      assert ts[..i + 1] == ts[..i] + [ts[i]];
    }
    assert ts[..|ts|] == ts;
  }

  /** The six `add` calls of the start-up system, in their ascending order. */
  method StartupRamp() returns (ramp: ColorRamp)
    ensures fresh(ramp) && ramp.Valid() && ramp.ticks == StartupTicks()
  {
    ramp := AddInOrder(StartupTicks());
  }

  lemma StartupTicksStrict()
    ensures StrictlyIncreasing(StartupTicks())
  {
  }

  /** The ends of the start-up bake: opaque black first, opaque white last. */
  lemma StartupBakeEnds(s: seq<Tick>, width: nat)
    requires s == StartupTicks() && width == 1024
    ensures Sorted(s)
    ensures var data := TextureData(s, width, 1);
      data.Some? && |data.value| == 4 * 1024
      && data.value[..4] == [0, 0, 0, 255]
      && data.value[|data.value| - 4..] == [255, 255, 255, 255]
  {
    StartupTicksStrict();
    TextureDataEnds(s, width, 1);
    GreyLevelBytes();
  }

  /**
   * The start-up gradient baked 1024 pixels wide and 1 high: the bake has a
   * value, 4096 bytes, opaque black first and opaque white last.
   */
  method StartupGradient() returns (data: Option<seq<Byte>>)
    ensures data.Some? && |data.value| == 4 * 1024
    ensures data.value[..4] == [0, 0, 0, 255]
    ensures data.value[|data.value| - 4..] == [255, 255, 255, 255]
  {
    var ramp := StartupRamp();
    data := ramp.BuildTextureData(1024, 1);
    StartupBakeEnds(ramp.ticks, 1024);
  }
}
