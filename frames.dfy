/**
 * `get_frame_per_timestamp` and the `frame - 1` step that follows every use
 * of it: a timestamp in seconds becomes a frame index at 29.97 frames per
 * second.
 */
module Frames {
  import opened Wrappers

  /** The largest value of Rust's `u64`. */
  const U64_MAX: nat := 0xFFFF_FFFF_FFFF_FFFF

  /** The NTSC frame rate, exactly 2997/100 frames per second. */
  const FRAME_RATE: real := 29.97

  /** `f32::round`: to the nearest integer, half-way cases away from zero. */
  function Round(x: real): (r: int)
    ensures x >= 0.0 ==> r as real - 0.5 <= x < r as real + 0.5
    ensures x < 0.0 ==> r as real - 0.5 < x <= r as real + 0.5
  {
    if x >= 0.0 then (x + 0.5).Floor else -((0.5 - x).Floor)
  }

  /** A float-to-`u64` `as` cast: values below zero become 0, values above the range `U64_MAX`. */
  function SaturateU64(i: int): nat {
    if i < 0 then 0 else if i > U64_MAX then U64_MAX else i
  }

  /** `get_frame_per_timestamp`: the frame whose instant is nearest to `t`. */
  function FrameForTimestamp(t: real): (frame: nat)
    ensures frame <= U64_MAX
    ensures t * FRAME_RATE < 0.5 ==> frame == 0
    ensures 0.0 <= t * FRAME_RATE < U64_MAX as real + 0.5 ==>
      frame as real - 0.5 <= t * FRAME_RATE < frame as real + 0.5
    ensures t * FRAME_RATE >= U64_MAX as real + 0.5 ==> frame == U64_MAX
  {
    SaturateU64(Round(t * FRAME_RATE))
  }

  /** `frame - 1` on a `u64`, with the underflow at frame 0 reported instead of wrapping. */
  function PreviousFrame(frame: nat): (r: Option<nat>)
    ensures r.None? <==> frame == 0
    ensures r.Some? ==> r.value + 1 == frame
  {
    if frame == 0 then None else Some(frame - 1)
  }

  /** A timestamp at least half a frame in lands past frame 0. */
  lemma FrameAfterHalf(t: real)
    requires t * FRAME_RATE >= 0.5
    ensures FrameForTimestamp(t) >= 1
  {
    assert Round(t * FRAME_RATE) >= 1;
  }

  /** A later timestamp never falls on an earlier frame. */
  lemma FrameMonotone(t1: real, t2: real)
    requires t1 <= t2
    ensures FrameForTimestamp(t1) <= FrameForTimestamp(t2)
  {
    assert t1 * FRAME_RATE <= t2 * FRAME_RATE;
    assert Round(t1 * FRAME_RATE) <= Round(t2 * FRAME_RATE);
  }

  /** The instant of frame `f` maps back to frame `f`. */
  lemma FrameOfFrameInstant(f: nat)
    requires f <= U64_MAX
    ensures FrameForTimestamp(f as real / FRAME_RATE) == f
  {
    assert (f as real / FRAME_RATE) * FRAME_RATE == f as real;
  }

  /** The values `get_frame_per_timestamp` is pinned to. */
  lemma FrameTestVectors()
    ensures FrameForTimestamp(6.97363) == 209
    ensures FrameForTimestamp(7.007) == 210
    ensures FrameForTimestamp(22.0554) == 661
    ensures FrameForTimestamp(24.024000) == 720
    ensures FrameForTimestamp(37.037) == 1110
    ensures FrameForTimestamp(21.9553) == 658
    ensures FrameForTimestamp(6.94027) == 208
  {
  }
}
