/** The frame interpolator: the time schedule of the animation, the eased and jittered
    path of every particle, its colour blend, its placement, and the order in which the
    particles are drawn. Pixels are not modelled: a frame is the list of particles drawn,
    each with its top-left corner, in drawing order. */
module Animate {
  import opened Wrappers
  import opened Pixels
  import opened Permutations
  import opened Arith

  // ---------------------------------------------------------------- easing

  /** `ease_in_out`: the smoothstep curve t^2 (3 - 2t). */
  function Ease(t: real): (e: real)
    ensures t == 0.0 ==> e == 0.0
    ensures t == 1.0 ==> e == 1.0
  {
    t * t * (3.0 - 2.0 * t)
  }

  /** Ease maps [0, 1] into [0, 1]. */
  lemma EaseInUnit(t: real)
    requires 0.0 <= t <= 1.0
    ensures 0.0 <= Ease(t) <= 1.0
  {
    MulNonNeg(t, t);
    MulNonNeg(t * t, 3.0 - 2.0 * t);
    MulNonNeg(1.0 - t, 1.0 - t);
    MulNonNeg((1.0 - t) * (1.0 - t), 1.0 + 2.0 * t);
    EaseComplement(t);
  }

  /** 1 - Ease(t) == (1 - t)^2 (1 + 2t). */
  lemma EaseComplement(t: real)
    ensures 1.0 - Ease(t) == (1.0 - t) * (1.0 - t) * (1.0 + 2.0 * t)
  {
  }

  /** The curve is point-symmetric about (1/2, 1/2). */
  lemma EaseSymmetric(t: real)
    ensures Ease(1.0 - t) == 1.0 - Ease(t)
  {
    EaseComplement(t);
    assert Ease(1.0 - t) == (1.0 - t) * (1.0 - t) * (3.0 - 2.0 * (1.0 - t));
  }

  /** Ease is non-decreasing on [0, 1]. */
  lemma EaseMonotone(s: real, t: real)
    requires 0.0 <= s <= t <= 1.0
    ensures Ease(s) <= Ease(t)
  {
    var tt, ts, ss := t * t, t * s, s * s;
    ProductBelow(t, t, tt);
    ProductBelow(s, s, ss);
    ProductBelow(t, s, ts);
    var g := 3.0 * (t + s) - 2.0 * (tt + ts + ss);
    assert 0.0 <= g;
    var d := (t - s) * g;
    MulNonNeg(t - s, g);
    EaseDifference(s, t, g, d);
  }

  /** Ease(t) - Ease(s) == (t - s) (3 (t + s) - 2 (t^2 + t s + s^2)). */
  lemma EaseDifference(s: real, t: real, g: real, d: real)
    requires g == 3.0 * (t + s) - 2.0 * (t * t + t * s + s * s)
    requires d == (t - s) * g
    ensures Ease(t) - Ease(s) == d
  {
  }

  // ---------------------------------------------------------------- frame schedule

  /** Python's `int()` on a float: truncation toward zero. */
  function Trunc(x: real): (n: int)
    ensures 0.0 <= x ==> 0 <= n && n as real <= x < n as real + 1.0
    ensures x < 0.0 ==> n <= 0 && n as real - 1.0 < x <= n as real
  {
    if x >= 0.0 then x.Floor else -((-x).Floor)
  }

  /** How many frames `seconds` last at `fps`: `int(seconds * fps)`. */
  function FrameCount(seconds: real, fps: int): (n: int)
    ensures 0.0 <= seconds * fps as real ==> n as real <= seconds * fps as real < n as real + 1.0
    ensures seconds * fps as real < 1.0 ==> n <= 0
  {
    Trunc(seconds * fps as real)
  }

  /** The number of iterations of `range(n)`. */
  function Times(n: int): nat {
    if n > 0 then n else 0
  }

  /** The linear time of animated frame f of `frames`: f / (frames - 1), or 1.0 for a
      single frame. */
  function AnimTime(f: nat, frames: int): (t: real)
    requires f < frames
    ensures 0.0 <= t <= 1.0
    ensures frames > 1 ==> t * (frames - 1) as real == f as real
    ensures frames == 1 ==> t == 1.0
  {
    if frames > 1 then
      var n := (frames - 1) as real;
      var t := Quotient(f as real, n);
      ScaledBounds(t, f as real, n, 0.0, 1.0);
      t
    else 1.0
  }

  lemma AnimTimeMonotone(f: nat, g: nat, frames: int)
    requires f <= g < frames
    ensures AnimTime(f, frames) <= AnimTime(g, frames)
  {
    if frames > 1 {
      QuotientMono(AnimTime(f, frames), AnimTime(g, frames), f as real, g as real, (frames - 1) as real);
    }
  }

  /** The first animated frame is at time 0 (when there are several) and the last at 1. */
  lemma AnimTimeEnds(frames: int)
    requires frames >= 1
    ensures AnimTime(frames - 1, frames) == 1.0
    ensures frames > 1 ==> AnimTime(0, frames) == 0.0
  {
    if frames > 1 {
      var n := (frames - 1) as real;
      MulSign(AnimTime(0, frames), n);
      assert (AnimTime(frames - 1, frames) - 1.0) * n == 0.0;
      MulSign(AnimTime(frames - 1, frames) - 1.0, n);
      MulSign(1.0 - AnimTime(frames - 1, frames), n);
    }
  }

  /** The time of every emitted frame: the start hold at 0, the animated frames, the end
      hold at 1. */
  function Schedule(startHold: int, frames: int, endHold: int): (ts: seq<real>)
    ensures |ts| == Times(startHold) + Times(frames) + Times(endHold)
  {
    seq(Times(startHold), _ => 0.0)
      + seq(Times(frames), f requires 0 <= f < Times(frames) => AnimTime(f, frames))
      + seq(Times(endHold), _ => 1.0)
  }

  /** Where frame k of the schedule comes from. */
  lemma ScheduleParts(startHold: int, frames: int, endHold: int, k: int)
    requires 0 <= k < |Schedule(startHold, frames, endHold)|
    ensures var s, f := Times(startHold), Times(frames);
      var t := Schedule(startHold, frames, endHold)[k];
      (k < s ==> t == 0.0) &&
      (s <= k < s + f ==> t == AnimTime(k - s, frames)) &&
      (s + f <= k ==> t == 1.0)
  {
  }

  /** Every frame time lies in [0, 1]. */
  lemma ScheduleInUnit(startHold: int, frames: int, endHold: int, k: int)
    requires 0 <= k < |Schedule(startHold, frames, endHold)|
    ensures 0.0 <= Schedule(startHold, frames, endHold)[k] <= 1.0
  {
    ScheduleParts(startHold, frames, endHold, k);
  }

  /** Frame times never go backwards. */
  lemma ScheduleMonotone(startHold: int, frames: int, endHold: int, j: int, k: int)
    requires 0 <= j <= k < |Schedule(startHold, frames, endHold)|
    ensures Schedule(startHold, frames, endHold)[j] <= Schedule(startHold, frames, endHold)[k]
  {
    var s, f := Times(startHold), Times(frames);
    ScheduleParts(startHold, frames, endHold, j);
    ScheduleParts(startHold, frames, endHold, k);
    ScheduleInUnit(startHold, frames, endHold, j);
    ScheduleInUnit(startHold, frames, endHold, k);
    if s <= j && k < s + f {
      AnimTimeMonotone(j - s, k - s, frames);
    }
  }

  // ---------------------------------------------------------------- particles

  /** The rendered particle side: `max(1, int(cell * particle_scale))`. */
  function ParticleSide(cell: nat, scale: real): (side: int)
    ensures 1 <= side
    ensures Trunc(cell as real * scale) >= 1 ==> side == Trunc(cell as real * scale)
    ensures Trunc(cell as real * scale) < 1 ==> side == 1
  {
    var n := Trunc(cell as real * scale);
    if n > 1 then n else 1
  }

  /** At scale 1 a particle is exactly as large as its cell (at least one pixel). */
  lemma FullScaleSide(cell: nat)
    ensures ParticleSide(cell, 1.0) == if cell == 0 then 1 else cell
  {
  }

  /** A pre-rendered particle: cell `cell` of the source image, or of the target image
      when `fromTarget`, resampled to w x h, square or masked to a disc. The pixels
      themselves are not modelled. */
  datatype Particle = Particle(fromTarget: bool, cell: int, w: int, h: int, circle: bool)

  /** The source particle of every cell. */
  function SourceParticles(n: nat, w: int, h: int, circle: bool): (ps: seq<Particle>)
    ensures |ps| == n
    ensures forall i :: 0 <= i < n ==> ps[i] == Particle(false, i, w, h, circle)
  {
    seq(n, i => Particle(false, i, w, h, circle))
  }

  /** The particle of every cell's assigned target, made only when colours are mixed. */
  function TargetParticles(assignment: seq<int>, w: int, h: int, circle: bool, colorMix: real): (ps: seq<Particle>)
    ensures colorMix > 0.0 ==> |ps| == |assignment|
    ensures colorMix > 0.0 ==> forall i :: 0 <= i < |ps| ==> ps[i] == Particle(true, assignment[i], w, h, circle)
    ensures colorMix <= 0.0 ==> ps == []
  {
    if colorMix > 0.0 then seq(|assignment|, i requires 0 <= i < |assignment| => Particle(true, assignment[i], w, h, circle))
    else []
  }

  /** The pre-processing pass: one source particle per cell and, when colours are
      mixed, one particle of the assigned target cell per source cell. */
  method PrepareParticles(assignment: seq<int>, w: int, h: int, circle: bool, colorMix: real)
      returns (src: seq<Particle>, tgt: seq<Particle>)
    ensures src == SourceParticles(|assignment|, w, h, circle)
    ensures tgt == TargetParticles(assignment, w, h, circle, colorMix)
  {
    src, tgt := [], [];
    for i := 0 to |assignment|
      invariant |src| == i
      invariant forall k :: 0 <= k < i ==> src[k] == Particle(false, k, w, h, circle)
      invariant colorMix > 0.0 ==> |tgt| == i
      invariant colorMix > 0.0 ==> forall k :: 0 <= k < i ==> tgt[k] == Particle(true, assignment[k], w, h, circle)
      invariant colorMix <= 0.0 ==> tgt == []
    {
      src := src + [Particle(false, i, w, h, circle)];
      if colorMix > 0.0 {
        tgt := tgt + [Particle(true, assignment[i], w, h, circle)];
      }
    }
  }

  // ---------------------------------------------------------------- motion

  /** One jitter component from a uniform draw u in [0, 1): (u - 0.5) * 2 * amount. */
  function JitterOffset(u: real, amount: real): (o: real)
    ensures 0.0 <= u < 1.0 && 0.0 <= amount ==> -amount <= o <= amount
    ensures amount == 0.0 ==> o == 0.0
  {
    JitterBounds(u, amount);
    (u - 0.5) * 2.0 * amount
  }

  lemma JitterBounds(u: real, amount: real)
    ensures 0.0 <= u < 1.0 && 0.0 <= amount ==> -amount <= (u - 0.5) * 2.0 * amount <= amount
    ensures amount == 0.0 ==> (u - 0.5) * 2.0 * amount == 0.0
  {
    var c := (u - 0.5) * 2.0;
    if 0.0 <= u < 1.0 && 0.0 <= amount {
      UnitScale(c, amount);
    }
  }

  /** The fixed jitter offset of every cell, from two uniform draws per cell. */
  function JitterOffsets(draws: seq<Pos>, amount: real): (offsets: seq<Pos>)
    ensures |offsets| == |draws|
    ensures forall i :: 0 <= i < |draws| ==>
      offsets[i] == Pos(JitterOffset(draws[i].y, amount), JitterOffset(draws[i].x, amount))
  {
    seq(|draws|, i requires 0 <= i < |draws| => Pos(JitterOffset(draws[i].y, amount), JitterOffset(draws[i].x, amount)))
  }

  /** Where the cells start and end and how far each is jittered. */
  datatype Scene = Scene(srcPos: seq<Pos>, tgtPos: seq<Pos>, assignment: seq<int>, offsets: seq<Pos>)

  predicate ValidScene(sc: Scene) {
    |sc.srcPos| == |sc.assignment| == |sc.offsets| && InRange(sc.assignment, |sc.tgtPos|)
  }

  /** `tgt_pos[assignment]`: cell i ends at the position of its assigned target. */
  function EndPos(sc: Scene, i: int): (p: Pos)
    requires ValidScene(sc) && 0 <= i < |sc.assignment|
    ensures p in sc.tgtPos
  {
    sc.tgtPos[sc.assignment[i]]
  }

  /** (1 - e) a + e b. */
  function Lerp(a: real, b: real, e: real): (r: real)
    ensures e == 0.0 ==> r == a
    ensures e == 1.0 ==> r == b
    ensures 0.0 <= e <= 1.0 && a <= b ==> a <= r <= b
    ensures 0.0 <= e <= 1.0 && b <= a ==> b <= r <= a
  {
    var v := (1.0 - e) * a + e * b;
    LerpBounds(a, b, e, v);
    v
  }

  lemma LerpBounds(a: real, b: real, e: real, v: real)
    requires v == (1.0 - e) * a + e * b
    ensures 0.0 <= e <= 1.0 && a <= b ==> a <= v <= b
    ensures 0.0 <= e <= 1.0 && b <= a ==> b <= v <= a
  {
    LerpForm(a, b, e);
    if 0.0 <= e <= 1.0 {
      if a <= b {
        ProductBelow(e, b - a, e * (b - a));
      } else {
        LerpForm(b, a, 1.0 - e);
        ProductBelow(1.0 - e, a - b, (1.0 - e) * (a - b));
      }
    }
  }

  lemma LerpForm(a: real, b: real, e: real)
    ensures (1.0 - e) * a + e * b == a + e * (b - a)
  {
  }

  /** The normalised centre of cell i at linear time t: eased interpolation from its
      start to its end, plus its jitter offset scaled by sin(pi t). */
  function Centre(sc: Scene, sinPi: real -> real, i: int, t: real): Pos
    requires ValidScene(sc) && 0 <= i < |sc.assignment|
  {
    var e := Ease(t);
    var a, b, j := sc.srcPos[i], EndPos(sc, i), sc.offsets[i];
    Pos(Lerp(a.y, b.y, e) + j.y * sinPi(t), Lerp(a.x, b.x, e) + j.x * sinPi(t))
  }

  /** With sin(pi t) vanishing at 0 and 1, every cell starts exactly at its own position
      and ends exactly at its assigned target's position, jitter or not. */
  lemma CentreAtEnds(sc: Scene, sinPi: real -> real, i: int)
    requires ValidScene(sc) && 0 <= i < |sc.assignment|
    requires sinPi(0.0) == 0.0 && sinPi(1.0) == 0.0
    ensures Centre(sc, sinPi, i, 0.0) == sc.srcPos[i]
    ensures Centre(sc, sinPi, i, 1.0) == sc.tgtPos[sc.assignment[i]]
  {
  }

  /** Without jitter the centre stays within the box spanned by start and end. */
  lemma CentreBetween(sc: Scene, sinPi: real -> real, i: int, t: real)
    requires ValidScene(sc) && 0 <= i < |sc.assignment| && 0.0 <= t <= 1.0
    requires sc.offsets[i] == Pos(0.0, 0.0)
    ensures var a, b, c := sc.srcPos[i], EndPos(sc, i), Centre(sc, sinPi, i, t);
      (a.y <= b.y ==> a.y <= c.y <= b.y) && (b.y <= a.y ==> b.y <= c.y <= a.y) &&
      (a.x <= b.x ==> a.x <= c.x <= b.x) && (b.x <= a.x ==> b.x <= c.x <= a.x)
  {
    EaseInUnit(t);
  }

  // ---------------------------------------------------------------- colour mixing

  /** What is pasted for a cell: its source particle, or a blend of it towards its
      target particle by `mix`. */
  datatype Sprite = Plain(p: Particle) | Blend(a: Particle, b: Particle, mix: real)

  /** `t_smooth * color_mix`. */
  function MixFactor(t: real, colorMix: real): (m: real)
    ensures t == 0.0 ==> m == 0.0
    ensures t == 1.0 ==> m == colorMix
    ensures 0.0 <= t <= 1.0 && 0.0 <= colorMix ==> 0.0 <= m <= colorMix
  {
    var m := Ease(t) * colorMix;
    MixBounds(t, colorMix, m);
    m
  }

  lemma MixBounds(t: real, colorMix: real, m: real)
    requires m == Ease(t) * colorMix
    ensures 0.0 <= t <= 1.0 && 0.0 <= colorMix ==> 0.0 <= m <= colorMix
  {
    if 0.0 <= t <= 1.0 && 0.0 <= colorMix {
      EaseInUnit(t);
      ProductBelow(Ease(t), colorMix, m);
    }
  }

  /** The sprite of cell i at linear time t: a blend only when colour mixing is on and the
      current mix exceeds 0.01. */
  function SpriteAt(src: seq<Particle>, tgt: seq<Particle>, colorMix: real, i: int, t: real): (sp: Sprite)
    requires 0 <= i < |src| && (colorMix > 0.0 ==> i < |tgt|)
    ensures sp.Blend? <==> colorMix > 0.0 && MixFactor(t, colorMix) > 0.01
    ensures sp.Plain? ==> sp.p == src[i]
    ensures sp.Blend? ==> sp == Blend(src[i], tgt[i], MixFactor(t, colorMix))
  {
    if colorMix > 0.0 && MixFactor(t, colorMix) > 0.01 then Blend(src[i], tgt[i], MixFactor(t, colorMix))
    else Plain(src[i])
  }

  /** With colour mixing off every frame shows only source particles. */
  lemma NoMixMeansPlain(src: seq<Particle>, tgt: seq<Particle>, colorMix: real, i: int, t: real)
    requires 0 <= i < |src| && colorMix <= 0.0
    ensures SpriteAt(src, tgt, colorMix, i, t) == Plain(src[i])
  {
  }

  /** The first frame never blends; the last blends by exactly color_mix when that
      exceeds 0.01. */
  lemma MixAtEnds(src: seq<Particle>, tgt: seq<Particle>, colorMix: real, i: int)
    requires 0 <= i < |src| && (colorMix > 0.0 ==> i < |tgt|)
    ensures SpriteAt(src, tgt, colorMix, i, 0.0) == Plain(src[i])
    ensures colorMix > 0.01 ==> SpriteAt(src, tgt, colorMix, i, 1.0) == Blend(src[i], tgt[i], colorMix)
  {
  }

  /** Once a cell starts blending it keeps blending, ever more strongly. */
  lemma BlendPersists(src: seq<Particle>, tgt: seq<Particle>, colorMix: real, i: int, s: real, t: real)
    requires 0 <= i < |src| && (colorMix > 0.0 ==> i < |tgt|) && 0.0 <= s <= t <= 1.0
    requires SpriteAt(src, tgt, colorMix, i, s).Blend?
    ensures SpriteAt(src, tgt, colorMix, i, t).Blend?
    ensures SpriteAt(src, tgt, colorMix, i, s).mix <= SpriteAt(src, tgt, colorMix, i, t).mix
  {
    assert colorMix > 0.0;
    EaseMonotone(s, t);
    MulMonoReal(Ease(s), Ease(t), colorMix);
    assert MixFactor(s, colorMix) <= MixFactor(t, colorMix);
  }

  // ---------------------------------------------------------------- frames

  /** The look of the animation: particle size, output size and colour mixing. */
  datatype Style = Style(partH: int, partW: int, outputSize: int, colorMix: real)

  /** One paste: a sprite with its top-left corner (row `top`, column `left`). */
  datatype Draw = Draw(sprite: Sprite, top: int, left: int)

  /** A frame: the pastes onto a black canvas, in order. */
  type Frame = seq<Draw>

  predicate ValidParticles(sc: Scene, st: Style, src: seq<Particle>, tgt: seq<Particle>) {
    |src| == |sc.assignment| && (st.colorMix > 0.0 ==> |tgt| == |sc.assignment|)
  }

  /** The paste of cell i at time t: its centre in pixels minus half the particle size,
      truncated toward zero. */
  function DrawAt(sc: Scene, st: Style, src: seq<Particle>, tgt: seq<Particle>, sinPi: real -> real, i: int, t: real): (d: Draw)
    requires ValidScene(sc) && ValidParticles(sc, st, src, tgt) && 0 <= i < |sc.assignment|
    ensures var c := Centre(sc, sinPi, i, t);
      d.top == Trunc(c.y * st.outputSize as real - st.partH as real / 2.0) &&
      d.left == Trunc(c.x * st.outputSize as real - st.partW as real / 2.0)
    ensures d.sprite == SpriteAt(src, tgt, st.colorMix, i, t)
  {
    var c := Centre(sc, sinPi, i, t);
    Draw(SpriteAt(src, tgt, st.colorMix, i, t),
         Trunc(c.y * st.outputSize as real - st.partH as real / 2.0),
         Trunc(c.x * st.outputSize as real - st.partW as real / 2.0))
  }

  /** The frame at time t: every cell pasted in ascending index order. */
  function FrameAt(sc: Scene, st: Style, src: seq<Particle>, tgt: seq<Particle>, sinPi: real -> real, t: real): (fr: Frame)
    requires ValidScene(sc) && ValidParticles(sc, st, src, tgt)
    ensures |fr| == |sc.assignment|
    ensures forall i :: 0 <= i < |fr| ==> fr[i] == DrawAt(sc, st, src, tgt, sinPi, i, t)
  {
    seq(|sc.assignment|, i requires 0 <= i < |sc.assignment| => DrawAt(sc, st, src, tgt, sinPi, i, t))
  }

  /** `render_frame(t)`: pastes the particles one by one. */
  method RenderFrame(sc: Scene, st: Style, src: seq<Particle>, tgt: seq<Particle>, sinPi: real -> real, t: real)
      returns (fr: Frame)
    requires ValidScene(sc) && ValidParticles(sc, st, src, tgt)
    ensures fr == FrameAt(sc, st, src, tgt, sinPi, t)
  {
    fr := [];
    for i := 0 to |sc.assignment|
      invariant |fr| == i
      invariant forall k :: 0 <= k < i ==> fr[k] == DrawAt(sc, st, src, tgt, sinPi, k, t)
    {
      fr := fr + [DrawAt(sc, st, src, tgt, sinPi, i, t)];
    }
  }

  /** Whether a paste covers pixel (y, x): inside its particle's h x w box and mask in
      the particle's mask; `mask(circle, dy, dx, h, w)` stands for the disc mask. */
  predicate Covers(d: Draw, h: int, w: int, mask: (bool, int, int, int, int) -> bool, circle: bool, y: int, x: int) {
    d.top <= y < d.top + h && d.left <= x < d.left + w &&
    (!circle || mask(circle, y - d.top, x - d.left, h, w))
  }

  /** What ends up at pixel (y, x): the sprite of the last paste covering it (later
      pastes overwrite earlier ones), or the black background. */
  function Visible(fr: Frame, h: int, w: int, mask: (bool, int, int, int, int) -> bool, circle: bool, y: int, x: int): (v: Option<Sprite>)
    ensures v.None? <==> forall k :: 0 <= k < |fr| ==> !Covers(fr[k], h, w, mask, circle, y, x)
    decreases |fr|
  {
    if fr == [] then None
    else if Covers(fr[|fr| - 1], h, w, mask, circle, y, x) then Some(fr[|fr| - 1].sprite)
    else
      var v := Visible(fr[..|fr| - 1], h, w, mask, circle, y, x);
      assert forall k :: 0 <= k < |fr| - 1 ==> fr[..|fr| - 1][k] == fr[k];
      v
  }

  /** Last writer wins: the visible sprite is that of the last paste covering the pixel. */
  lemma {:induction false} LastWriterWins(fr: Frame, h: int, w: int, mask: (bool, int, int, int, int) -> bool, circle: bool, y: int, x: int, k: int)
    requires 0 <= k < |fr| && Covers(fr[k], h, w, mask, circle, y, x)
    requires forall j :: k < j < |fr| ==> !Covers(fr[j], h, w, mask, circle, y, x)
    ensures Visible(fr, h, w, mask, circle, y, x) == Some(fr[k].sprite)
    decreases |fr|
  {
    if k < |fr| - 1 {
      var pre := fr[..|fr| - 1];
      assert forall j :: k < j < |pre| ==> pre[j] == fr[j];
      LastWriterWins(pre, h, w, mask, circle, y, x, k);
    }
  }

  /** In a rendered frame, where cells i < j overlap and no later cell covers the
      pixel, cell j's sprite is the one seen. */
  lemma HigherIndexOnTop(sc: Scene, st: Style, src: seq<Particle>, tgt: seq<Particle>, sinPi: real -> real, t: real,
                         mask: (bool, int, int, int, int) -> bool, circle: bool, y: int, x: int, j: int)
    requires ValidScene(sc) && ValidParticles(sc, st, src, tgt) && 0 <= j < |sc.assignment|
    requires Covers(DrawAt(sc, st, src, tgt, sinPi, j, t), st.partH, st.partW, mask, circle, y, x)
    requires forall k :: j < k < |sc.assignment| ==> !Covers(DrawAt(sc, st, src, tgt, sinPi, k, t), st.partH, st.partW, mask, circle, y, x)
    ensures Visible(FrameAt(sc, st, src, tgt, sinPi, t), st.partH, st.partW, mask, circle, y, x)
      == Some(SpriteAt(src, tgt, st.colorMix, j, t))
  {
    var fr := FrameAt(sc, st, src, tgt, sinPi, t);
    LastWriterWins(fr, st.partH, st.partW, mask, circle, y, x, j);
  }

  // ---------------------------------------------------------------- generate_frames

  /** The frames of the whole animation, one per scheduled time. */
  predicate FramesFollowSchedule(frames: seq<Frame>, sc: Scene, st: Style, src: seq<Particle>, tgt: seq<Particle>,
                                 sinPi: real -> real, sched: seq<real>)
    requires ValidScene(sc) && ValidParticles(sc, st, src, tgt)
  {
    |frames| == |sched| && forall k :: 0 <= k < |sched| ==> frames[k] == FrameAt(sc, st, src, tgt, sinPi, sched[k])
  }

  /** `generate_frames`: start-hold copies of the t = 0 frame, the animated frames in time
      order, end-hold copies of the t = 1 frame. `draws` are the uniform draws behind the
      jitter offsets and `sinPi` is t |-> sin(pi t). */
  /** A hold: `for _ in range(n): yield frame`, n copies of one frame. */
  method Repeat(fr: Frame, n: int) returns (frames: seq<Frame>)
    ensures |frames| == Times(n)
    ensures forall k :: 0 <= k < |frames| ==> frames[k] == fr
  {
    frames := [];
    for k := 0 to Times(n)
      invariant |frames| == k
      invariant forall m :: 0 <= m < k ==> frames[m] == fr
    {
      frames := frames + [fr];
    }
  }

  /** The animation: frame f rendered at f / (frames - 1), or at 1.0 for a single frame. */
  method Animation(sc: Scene, st: Style, src: seq<Particle>, tgt: seq<Particle>, sinPi: real -> real, numFrames: int)
      returns (frames: seq<Frame>)
    requires ValidScene(sc) && ValidParticles(sc, st, src, tgt)
    ensures |frames| == Times(numFrames)
    ensures forall f :: 0 <= f < |frames| ==> frames[f] == FrameAt(sc, st, src, tgt, sinPi, AnimTime(f, numFrames))
  {
    frames := [];
    for f := 0 to Times(numFrames)
      invariant |frames| == f
      invariant forall m :: 0 <= m < f ==> frames[m] == FrameAt(sc, st, src, tgt, sinPi, AnimTime(m, numFrames))
    {
      var t := if numFrames > 1 then f as real / (numFrames - 1) as real else 1.0;
      if numFrames > 1 {
        QuotientIsDivision(f as real, (numFrames - 1) as real);
      }
      assert t == AnimTime(f, numFrames);
      var fr := RenderFrame(sc, st, src, tgt, sinPi, t);
      frames := frames + [fr];
    }
  }

  /** The three parts laid end to end follow the whole schedule. */
  lemma PartsFollowSchedule(start: seq<Frame>, anim: seq<Frame>, end: seq<Frame>, sc: Scene, st: Style,
                            src: seq<Particle>, tgt: seq<Particle>, sinPi: real -> real,
                            startHold: int, numFrames: int, endHold: int)
    requires ValidScene(sc) && ValidParticles(sc, st, src, tgt)
    requires |start| == Times(startHold) && |anim| == Times(numFrames) && |end| == Times(endHold)
    requires forall k :: 0 <= k < |start| ==> start[k] == FrameAt(sc, st, src, tgt, sinPi, 0.0)
    requires forall f :: 0 <= f < |anim| ==> anim[f] == FrameAt(sc, st, src, tgt, sinPi, AnimTime(f, numFrames))
    requires forall k :: 0 <= k < |end| ==> end[k] == FrameAt(sc, st, src, tgt, sinPi, 1.0)
    ensures FramesFollowSchedule(start + anim + end, sc, st, src, tgt, sinPi, Schedule(startHold, numFrames, endHold))
  {
    var frames, sched := start + anim + end, Schedule(startHold, numFrames, endHold);
    forall k | 0 <= k < |sched|
      ensures frames[k] == FrameAt(sc, st, src, tgt, sinPi, sched[k])
    {
      ScheduleParts(startHold, numFrames, endHold, k);
      if k < |start| {
        assert frames[k] == start[k];
      } else if k < |start| + |anim| {
        assert frames[k] == anim[k - |start|];
      } else {
        assert frames[k] == end[k - |start| - |anim|];
      }
    }
  }

  /** `generate_frames`: start-hold copies of the t = 0 frame, the animated frames in time
      order, end-hold copies of the t = 1 frame. `draws` are the uniform draws behind the
      jitter offsets and `sinPi` is t |-> sin(pi t). */
  /** Appending the frame of the next scheduled time extends a schedule-following prefix. */
  lemma FollowExtend(frames: seq<Frame>, fr: Frame, sc: Scene, st: Style, src: seq<Particle>, tgt: seq<Particle>,
                     sinPi: real -> real, sched: seq<real>, n: nat)
    requires ValidScene(sc) && ValidParticles(sc, st, src, tgt) && n < |sched|
    requires FramesFollowSchedule(frames, sc, st, src, tgt, sinPi, sched[..n])
    requires fr == FrameAt(sc, st, src, tgt, sinPi, sched[n])
    ensures FramesFollowSchedule(frames + [fr], sc, st, src, tgt, sinPi, sched[..n + 1])
  {
  }

  method GenerateFrames(srcPos: seq<Pos>, tgtPos: seq<Pos>, assignment: seq<int>, cellH: nat, cellW: nat,
                        duration: real, fps: int, outputSize: int, draws: seq<Pos>, jitter: real,
                        particleScale: real, circle: bool, colorMix: real, holdStart: real, holdEnd: real,
                        sinPi: real -> real)
      returns (frames: seq<Frame>)
    requires |srcPos| == |assignment| == |draws| && InRange(assignment, |tgtPos|)
    ensures var sc := Scene(srcPos, tgtPos, assignment, JitterOffsets(draws, jitter));
      var h, w := ParticleSide(cellH, particleScale), ParticleSide(cellW, particleScale);
      var st := Style(h, w, outputSize, colorMix);
      var src, tgt := SourceParticles(|assignment|, w, h, circle), TargetParticles(assignment, w, h, circle, colorMix);
      ValidScene(sc) && ValidParticles(sc, st, src, tgt) &&
      FramesFollowSchedule(frames, sc, st, src, tgt, sinPi,
        Schedule(FrameCount(holdStart, fps), FrameCount(duration, fps), FrameCount(holdEnd, fps)))
  {
    var numFrames := FrameCount(duration, fps);
    var startHold := FrameCount(holdStart, fps);
    var endHold := FrameCount(holdEnd, fps);
    var sc := Scene(srcPos, tgtPos, assignment, JitterOffsets(draws, jitter));
    var partH, partW := ParticleSide(cellH, particleScale), ParticleSide(cellW, particleScale);
    var st := Style(partH, partW, outputSize, colorMix);
    var src, tgt := PrepareParticles(assignment, partW, partH, circle, colorMix);
    var start: seq<Frame> := [];
    if startHold > 0 {
      var first := RenderFrame(sc, st, src, tgt, sinPi, 0.0);
      start := Repeat(first, startHold);
    }
    var anim := Animation(sc, st, src, tgt, sinPi, numFrames);
    var end: seq<Frame> := [];
    if endHold > 0 {
      var last := RenderFrame(sc, st, src, tgt, sinPi, 1.0);
      end := Repeat(last, endHold);
    }
    PartsFollowSchedule(start, anim, end, sc, st, src, tgt, sinPi, startHold, numFrames, endHold);
    frames := start + anim + end;
  }


}
