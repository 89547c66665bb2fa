/** `AnimatedSprite` of the PixiJS client: a registry of named clips, the
    clip being played and its frame clock. Textures are represented by their
    count; the sprite's displayed texture, the PixiJS container and logging
    are not modelled. The `onStart` and `onComplete` callbacks are reported
    as flags in the results instead of being called. */
module Sprite {
  import opened Wrappers

  /** `AnimationConfig`; `textureCount` is `textures.length` (0 when the
      textures are missing). */
  datatype AnimationConfig = AnimationConfig(name: string, textureCount: nat, frameRate: real, loop: bool)

  /** `AnimationState`. */
  datatype AnimationState = AnimationState(currentFrame: nat, frameTimer: real, isPlaying: bool, isComplete: bool)

  datatype AnimatedSprite = AnimatedSprite(
    animations: map<string, AnimationConfig>,
    current: Option<AnimationConfig>,
    state: AnimationState)

  /** A freshly constructed sprite: no clips, nothing playing. */
  function New(): (sp: AnimatedSprite)
    ensures sp.animations == map[] && sp.current.None?
    ensures sp.state == AnimationState(0, 0.0, false, false)
  {
    AnimatedSprite(map[], None, AnimationState(0, 0.0, false, false))
  }

  /** Registered clips are stored under their own non-empty name and have
      at least one texture; the clip being played has one too, and the frame
      index stays inside it. */
  ghost predicate Valid(sp: AnimatedSprite)
    ensures Valid(sp) ==> "" !in sp.animations
    ensures Valid(sp) && sp.current.Some? ==> sp.state.currentFrame < sp.current.value.textureCount
  {
    && (forall k :: k in sp.animations ==> sp.animations[k].name == k && |k| > 0 && sp.animations[k].textureCount > 0)
    && (sp.current.Some? ==> sp.current.value.textureCount > 0 && sp.state.currentFrame < sp.current.value.textureCount)
  }

  /** `addAnimation(config)`: a config with an empty name or no textures is
      refused; otherwise it is stored under its name, replacing any clip of
      that name. The clip being played is not affected. */
  function AddAnimation(sp: AnimatedSprite, config: AnimationConfig): (r: AnimatedSprite)
    ensures |config.name| == 0 || config.textureCount == 0 ==> r == sp
    ensures |config.name| > 0 && config.textureCount > 0 ==>
              r == sp.(animations := sp.animations[config.name := config])
    ensures Valid(sp) ==> Valid(r)
  {
    if |config.name| == 0 || config.textureCount == 0 then sp
    else sp.(animations := sp.animations[config.name := config])
  }

  /** `stopAnimation()`: pauses the clip being played, if any. */
  function StopAnimation(sp: AnimatedSprite): (r: AnimatedSprite)
    ensures sp.current.None? ==> r == sp
    ensures sp.current.Some? ==> r == sp.(state := sp.state.(isPlaying := false))
    ensures Valid(sp) ==> Valid(r)
  {
    if sp.current.None? then sp else sp.(state := sp.state.(isPlaying := false))
  }

  /** A sprite and whether `onStart` ran. */
  datatype Played = Played(sprite: AnimatedSprite, started: bool)

  /** `playAnimation(name, forceRestart)`: an unknown name changes nothing;
      the clip already current (playing or not) is only restarted when
      forced; otherwise the clip becomes current from frame 0, playing. */
  function PlayAnimation(sp: AnimatedSprite, name: string, forceRestart: bool := false): (r: Played)
    ensures name !in sp.animations ==> r == Played(sp, false)
    ensures name in sp.animations && sp.current.Some? && sp.current.value.name == name && !forceRestart ==>
              r == Played(sp, false)
    ensures name in sp.animations && !(sp.current.Some? && sp.current.value.name == name && !forceRestart) ==>
              && r.started
              && r.sprite == sp.(current := Some(sp.animations[name]), state := AnimationState(0, 0.0, true, false))
    ensures Valid(sp) ==> Valid(r.sprite)
  {
    if name !in sp.animations then Played(sp, false)
    else if sp.current.Some? && sp.current.value.name == name && !forceRestart then Played(sp, false)
    else
      var stopped := StopAnimation(sp);
      Played(stopped.(current := Some(sp.animations[name]), state := AnimationState(0, 0.0, true, false)), true)
  }

  /** Whether the accumulated time reaches one frame time `1000 / frameRate`.
      A frame rate of 0 gives an infinite frame time, never reached. */
  predicate FrameDue(frameTimer: real, frameRate: real)
    ensures frameRate == 0.0 ==> !FrameDue(frameTimer, frameRate)
    ensures frameRate > 0.0 ==> (FrameDue(frameTimer, frameRate) <==> frameTimer * frameRate >= 1000.0)
    ensures frameRate < 0.0 && frameTimer >= 0.0 ==> FrameDue(frameTimer, frameRate)
  {
    frameRate != 0.0 && frameTimer >= 1000.0 / frameRate
  }

  /** A sprite and whether `onComplete` ran. */
  datatype Updated = Updated(sprite: AnimatedSprite, completed: bool)

  /** `nextFrame()`: one frame on; past the last frame a looping clip wraps
      to 0 and any other clip holds its last frame and completes. */
  function NextFrame(sp: AnimatedSprite): (r: Updated)
    requires Valid(sp) && sp.current.Some?
    ensures var n := sp.current.value.textureCount;
            && r.sprite.current == sp.current && r.sprite.animations == sp.animations
            && r.sprite.state.frameTimer == sp.state.frameTimer
            && (sp.state.currentFrame + 1 < n ==>
                  r == Updated(sp.(state := sp.state.(currentFrame := sp.state.currentFrame + 1)), false))
            && (sp.state.currentFrame + 1 >= n && sp.current.value.loop ==>
                  r == Updated(sp.(state := sp.state.(currentFrame := 0)), false))
            && (sp.state.currentFrame + 1 >= n && !sp.current.value.loop ==>
                  && r.completed && r.sprite.state.currentFrame == n - 1
                  && !r.sprite.state.isPlaying && r.sprite.state.isComplete)
    ensures Valid(r.sprite)
  {
    var cfg := sp.current.value;
    var f := sp.state.currentFrame + 1;
    if f >= cfg.textureCount then
      if cfg.loop then Updated(sp.(state := sp.state.(currentFrame := 0)), false)
      else Updated(sp.(state := sp.state.(currentFrame := cfg.textureCount - 1, isPlaying := false, isComplete := true)), true)
    else Updated(sp.(state := sp.state.(currentFrame := f)), false)
  }

  /** `updateAnimation(deltaTime)`: nothing unless a clip is playing; the
      time accumulates and, once a frame time is reached, the clip moves one
      frame and the accumulator restarts from 0. */
  function UpdateAnimation(sp: AnimatedSprite, dt: real): (r: Updated)
    requires Valid(sp)
    ensures sp.current.None? || !sp.state.isPlaying ==> r == Updated(sp, false)
    ensures sp.current.Some? && sp.state.isPlaying && !FrameDue(sp.state.frameTimer + dt, sp.current.value.frameRate) ==>
              r == Updated(sp.(state := sp.state.(frameTimer := sp.state.frameTimer + dt)), false)
    ensures sp.current.Some? && sp.state.isPlaying && FrameDue(sp.state.frameTimer + dt, sp.current.value.frameRate) ==>
              var u := NextFrame(sp);
              r == Updated(u.sprite.(state := u.sprite.state.(frameTimer := 0.0)), u.completed)
    ensures Valid(r.sprite) && r.sprite.current == sp.current && r.sprite.animations == sp.animations
  {
    if sp.current.None? || !sp.state.isPlaying then Updated(sp, false)
    else
      var t := sp.state.frameTimer + dt;
      if FrameDue(t, sp.current.value.frameRate) then
        var u := NextFrame(sp);
        Updated(u.sprite.(state := u.sprite.state.(frameTimer := 0.0)), u.completed)
      else Updated(sp.(state := sp.state.(frameTimer := t)), false)
  }

  /** `isAnimationPlaying(name)`. */
  function IsAnimationPlaying(sp: AnimatedSprite, name: string): (b: bool)
    ensures b <==> sp.current.Some? && sp.current.value.name == name && sp.state.isPlaying
  {
    sp.current.Some? && sp.current.value.name == name && sp.state.isPlaying
  }

  /** `getCurrentAnimationName()`: `name || null`, an empty name reading as
      none. */
  function GetCurrentAnimationName(sp: AnimatedSprite): (r: Option<string>)
    ensures r.Some? <==> sp.current.Some? && |sp.current.value.name| > 0
    ensures r.Some? ==> r.value == sp.current.value.name
  {
    if sp.current.Some? && |sp.current.value.name| > 0 then Some(sp.current.value.name) else None
  }

  /** `getAnimationProgress()`: the frame index over the frame count, 0
      without a clip; it never reaches 1. */
  function GetAnimationProgress(sp: AnimatedSprite): (p: real)
    requires Valid(sp)
    ensures 0.0 <= p < 1.0
    ensures sp.current.None? ==> p == 0.0
    ensures sp.current.Some? ==> p * sp.current.value.textureCount as real == sp.state.currentFrame as real
  {
    if sp.current.None? then 0.0
    else sp.state.currentFrame as real / sp.current.value.textureCount as real
  }

  /** `destroy()`: stop, then forget every clip. */
  function Destroy(sp: AnimatedSprite): (r: AnimatedSprite)
    ensures r.animations == map[]
    ensures sp.current.Some? ==> !r.state.isPlaying
    ensures r.current == sp.current
  {
    StopAnimation(sp).(animations := map[])
  }

  /** Repeated updates with the same time step. */
  function Updates(sp: AnimatedSprite, dt: real, k: nat): (r: Updated)
    requires Valid(sp)
    ensures Valid(r.sprite) && r.sprite.current == sp.current && r.sprite.animations == sp.animations
    decreases k
  {
    if k == 0 then Updated(sp, false)
    else
      var u := Updates(sp, dt, k - 1);
      var v := UpdateAnimation(u.sprite, dt);
      Updated(v.sprite, u.completed || v.completed)
  }

  /** Played with a step that reaches one frame time every time, a
      non-looping clip of `n` frames shows frame `k` after `k` updates and
      completes, once, at update `n`, holding its last frame. */
  lemma {:induction false} OneShotClipCompletesAtLastFrame(sp: AnimatedSprite, dt: real, k: nat)
    requires Valid(sp) && sp.current.Some? && !sp.current.value.loop
    requires sp.state == AnimationState(0, 0.0, true, false)
    requires FrameDue(dt, sp.current.value.frameRate)
    requires k <= sp.current.value.textureCount
    ensures var r := Updates(sp, dt, k);
            if k < sp.current.value.textureCount
            then r.sprite.state == AnimationState(k, 0.0, true, false) && !r.completed
            else r.sprite.state == AnimationState(k - 1, 0.0, false, true) && r.completed
  {
    if k > 0 {
      OneShotClipCompletesAtLastFrame(sp, dt, k - 1);
    }
  }

  /** After completion, no further update changes anything or reports a
      second completion. */
  lemma {:induction false} CompletedClipStaysPut(sp: AnimatedSprite, dt: real, k: nat)
    requires Valid(sp) && !sp.state.isPlaying
    ensures Updates(sp, dt, k) == Updated(sp, false)
  {
    if k > 0 {
      CompletedClipStaysPut(sp, dt, k - 1);
    }
  }

  /** A looping clip never completes, and it keeps playing. */
  lemma {:induction false} LoopingClipNeverCompletes(sp: AnimatedSprite, dt: real, k: nat)
    requires Valid(sp) && sp.current.Some? && sp.current.value.loop && sp.state.isPlaying && !sp.state.isComplete
    ensures !Updates(sp, dt, k).completed && Updates(sp, dt, k).sprite.state.isPlaying
    ensures !Updates(sp, dt, k).sprite.state.isComplete
  {
    if k > 0 {
      LoopingClipNeverCompletes(sp, dt, k - 1);
    }
  }

  /** A completed clip is not restarted by playing it again without
      forcing: the sprite stays on its last frame. */
  lemma CompletedClipNeedsForce(sp: AnimatedSprite, name: string)
    requires Valid(sp) && sp.current.Some? && sp.current.value.name == name && name in sp.animations
    requires sp.state.isComplete
    ensures PlayAnimation(sp, name).sprite.state.isComplete
    ensures PlayAnimation(sp, name, true).sprite.state == AnimationState(0, 0.0, true, false)
  {
  }
}
