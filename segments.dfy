/** The dive-segment descriptor the engine and the planner exchange
    (src/common/dive_segment.rs is not part of this model; only the fields the
    core reads are kept). */
module Segments {

  /** Segment kinds the core distinguishes; `BottomSegment` stands for every
      kind the core treats by its catch-all branch. */
  datatype SegmentType = NoDeco | DecoStop | BottomSegment | AscDesc

  /** A time interval between two depths. `time` is the duration in whole
      seconds (`Duration::as_secs`); the rates are in depth units per minute. */
  datatype DiveSegment = DiveSegment(
    kind: SegmentType,
    startDepth: nat,
    endDepth: nat,
    time: nat,
    ascentRate: int,
    descentRate: int)
}
