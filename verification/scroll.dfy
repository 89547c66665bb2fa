/** The scroll-speed coordinator `Background` of the legacy game: a wrapped
    horizontal offset, the current speed, and the speed remembered by the
    first `stopSpeed`. Image loading and drawing are not modelled. */
module Scroll {

  datatype Background = Background(x: real, speed: real, defaultSpeed: real, isStopped: bool)

  /** The constructor: offset 0, speed 0, nothing remembered, not stopped. */
  function New(): (b: Background)
    ensures b.x == 0.0 && b.speed == 0.0 && b.defaultSpeed == 0.0 && !b.isStopped
  {
    Background(0.0, 0.0, 0.0, false)
  }

  /** `stopSpeed`: the first call while moving remembers the current speed
      and halts; a call while stopped changes nothing. */
  function StopSpeed(b: Background): (r: Background)
    ensures b.isStopped ==> r == b
    ensures !b.isStopped ==> r == Background(b.x, 0.0, b.speed, true)
  {
    if !b.isStopped then b.(isStopped := true, defaultSpeed := b.speed, speed := 0.0) else b
  }

  /** `setSpeed`: sets both the remembered and the current speed at once,
      even while stopped; `isStopped` is left alone. */
  function SetSpeed(b: Background, v: real): (r: Background)
    ensures r.speed == v && r.defaultSpeed == v
    ensures r.x == b.x && r.isStopped == b.isStopped
  {
    b.(defaultSpeed := v, speed := v)
  }

  /** `returnSpeed`: clears the stopped flag and restores the remembered
      speed. */
  function ReturnSpeed(b: Background): (r: Background)
    ensures !r.isStopped && r.speed == b.defaultSpeed
    ensures r.defaultSpeed == b.defaultSpeed && r.x == b.x
  {
    b.(isStopped := false, speed := b.defaultSpeed)
  }

  /** The offset update in `draw`: move left by the speed and wrap to 0 on
      reaching one image width. */
  function ScrollStep(b: Background, fixedWidth: real): (r: Background)
    ensures r.speed == b.speed && r.defaultSpeed == b.defaultSpeed && r.isStopped == b.isStopped
    ensures r.x == (if b.x - b.speed <= -fixedWidth then 0.0 else b.x - b.speed)
  {
    var x := b.x - b.speed;
    b.(x := if x <= -fixedWidth then 0.0 else x)
  }

  /** The offset stays within one image width of the origin. */
  ghost predicate OffsetInRange(b: Background, fixedWidth: real) {
    -fixedWidth < b.x <= 0.0
  }

  /** `stopSpeed` is idempotent. */
  lemma StopSpeedIdempotent(b: Background)
    ensures StopSpeed(StopSpeed(b)) == StopSpeed(b)
  {
  }

  /** stop; stop; return restores the speed in force before the first stop,
      and the coordinator is moving again. */
  lemma StopStopReturnRestores(b: Background)
    requires !b.isStopped
    ensures ReturnSpeed(StopSpeed(StopSpeed(b))).speed == b.speed
    ensures !ReturnSpeed(StopSpeed(StopSpeed(b))).isStopped
  {
  }

  /** A speed set while stopped is what a later `returnSpeed` restores. */
  lemma SetWhileStoppedThenReturn(b: Background, v: real)
    ensures ReturnSpeed(SetSpeed(StopSpeed(b), v)).speed == v
    ensures SetSpeed(StopSpeed(b), v).isStopped
  {
  }

  /** With a non-negative speed and a positive width, a scroll step keeps the
      offset in (-fixedWidth, 0]. */
  lemma ScrollKeepsOffsetInRange(b: Background, fixedWidth: real)
    requires fixedWidth > 0.0 && b.speed >= 0.0
    requires OffsetInRange(b, fixedWidth)
    ensures OffsetInRange(ScrollStep(b, fixedWidth), fixedWidth)
  {
  }

  /** The coordinator's inputs: combat stops and resumes the scroll, a
      resize sets the speed, each frame scrolls. */
  datatype Command = Stop | Return | Set(v: real) | Scroll

  function Apply(b: Background, c: Command, fixedWidth: real): Background
  {
    match c
    case Stop => StopSpeed(b)
    case Return => ReturnSpeed(b)
    case Set(v) => SetSpeed(b, v)
    case Scroll => ScrollStep(b, fixedWidth)
  }

  function Run(b: Background, cs: seq<Command>, fixedWidth: real): Background
    decreases |cs|
  {
    if |cs| == 0 then b else Run(Apply(b, cs[0], fixedWidth), cs[1..], fixedWidth)
  }

  /** Non-negative speeds, current and remembered. */
  ghost predicate SpeedsNonNegative(b: Background) {
    b.speed >= 0.0 && b.defaultSpeed >= 0.0
  }

  /** From construction, any run of commands that only ever sets
      non-negative speeds keeps the offset in (-fixedWidth, 0]. */
  lemma {:induction false} RunKeepsOffsetInRange(b: Background, cs: seq<Command>, fixedWidth: real)
    requires fixedWidth > 0.0
    requires OffsetInRange(b, fixedWidth) && SpeedsNonNegative(b)
    requires forall i :: 0 <= i < |cs| && cs[i].Set? ==> cs[i].v >= 0.0
    ensures OffsetInRange(Run(b, cs, fixedWidth), fixedWidth)
    decreases |cs|
  {
    if |cs| > 0 {
      var b' := Apply(b, cs[0], fixedWidth);
      if cs[0].Scroll? {
        ScrollKeepsOffsetInRange(b, fixedWidth);
      }
      assert forall i :: 0 <= i < |cs[1..]| && cs[1..][i].Set? ==> cs[1..][i].v >= 0.0 by {
        forall i | 0 <= i < |cs[1..]| ensures cs[1..][i] == cs[i + 1] { }
      }
      RunKeepsOffsetInRange(b', cs[1..], fixedWidth);
    }
  }

  /** In particular from the constructor. */
  lemma FreshRunKeepsOffsetInRange(cs: seq<Command>, fixedWidth: real)
    requires fixedWidth > 0.0
    requires forall i :: 0 <= i < |cs| && cs[i].Set? ==> cs[i].v >= 0.0
    ensures OffsetInRange(Run(New(), cs, fixedWidth), fixedWidth)
  {
    RunKeepsOffsetInRange(New(), cs, fixedWidth);
  }
}
