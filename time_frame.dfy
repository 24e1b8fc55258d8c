/**
  The time window of the log parser: an inclusive interval of timestamps
  whose lower and upper bounds may each be absent.
  A timestamp is a whole number of seconds; any totally ordered type would do.
 */
module TimeFrames {
  import opened Wrappers

  type Timestamp = int

  /** The two bounds given to the window when it is built; neither is ever updated. */
  datatype TimeFrame = TimeFrame(start: Option<Timestamp>, end: Option<Timestamp>)

  /**
    Membership test. A set bound rejects the timestamps on its wrong side;
    nothing else rejects.
   */
  function Contains(frame: TimeFrame, t: Timestamp): (r: bool)
    ensures r <==> ((frame.start.None? || frame.start.value <= t)
                 && (frame.end.None? || t <= frame.end.value))
  {
    if frame.start.Some? && t < frame.start.value then false
    else if frame.end.Some? && t > frame.end.value then false
    else true
  }

  /** The interval is closed at the start. */
  lemma StartIsContained(frame: TimeFrame)
    requires frame.start.Some?
    requires frame.end.None? || frame.start.value <= frame.end.value
    ensures Contains(frame, frame.start.value)
  {
  }

  /** The interval is closed at the end. */
  lemma EndIsContained(frame: TimeFrame)
    requires frame.end.Some?
    requires frame.start.None? || frame.start.value <= frame.end.value
    ensures Contains(frame, frame.end.value)
  {
  }

  /** Timestamps strictly before a set start, or strictly after a set end, are outside. */
  lemma OutsideIsExcluded(frame: TimeFrame, t: Timestamp)
    requires (frame.start.Some? && t < frame.start.value) || (frame.end.Some? && t > frame.end.value)
    ensures !Contains(frame, t)
  {
  }

  /** Without bounds the window holds every timestamp. */
  lemma UnboundedContainsAll(t: Timestamp)
    ensures Contains(TimeFrame(None, None), t)
  {
  }

  /** The window is convex: whatever lies between two members is a member. */
  lemma Convex(frame: TimeFrame, a: Timestamp, t: Timestamp, b: Timestamp)
    requires Contains(frame, a) && Contains(frame, b)
    requires a <= t <= b
    ensures Contains(frame, t)
  {
  }

  /**
    The window does not check its own bounds: built with start after end
    it holds no timestamp at all.
   */
  lemma InvertedIsEmpty(frame: TimeFrame, t: Timestamp)
    requires frame.start.Some? && frame.end.Some? && frame.start.value > frame.end.value
    ensures !Contains(frame, t)
  {
  }
}
