/** The two record shapes that flow between the extractor's stages: what the
    frame loop collects and what the grouping pass hands to the SRT writer.
    All times are whole milliseconds from the start of the video. */
module Cues {

  /** A sampled frame whose recognised text is non-empty: `(timestamp, text)`. */
  datatype Entry = Entry(timeMs: nat, text: string)

  /** A finished subtitle: `(start_time, end_time, text)`. */
  datatype Sub = Sub(startMs: nat, endMs: nat, text: string)
}
