/**
 * `parse_pipeline` of `src/pipes.rs`: a line is cut at every '|' and each
 * piece is split into whitespace-separated words. Running the stages
 * (`run_pipeline`) is left out.
 */
module Pipes {
  import opened Text

  /** `parse_pipeline`: `split('|')`, then `trim().split_whitespace()` on each piece. */
  function ParsePipeline(input: string): (stages: seq<seq<string>>)
    ensures |stages| == Count(input, '|') + 1
  {
    var segments := Split(input, '|');
    seq(|segments|, k requires 0 <= k < |segments| => SplitWhitespace(Trim(segments[k])))
  }

  /**
   * Stage k is the words of the k-th '|'-separated piece; the pieces rebuild the
   * line; every word is non-empty and free of whitespace and of '|'.
   */
  lemma PipelineStages(input: string)
    ensures var segments := Split(input, '|');
      Join(segments, '|') == input &&
      forall k :: 0 <= k < |segments| ==> ParsePipeline(input)[k] == SplitWhitespace(segments[k])
    ensures forall k, j :: 0 <= k < |ParsePipeline(input)| && 0 <= j < |ParsePipeline(input)[k]| ==>
      ParsePipeline(input)[k][j] != [] && NoWhitespace(ParsePipeline(input)[k][j]) && '|' !in ParsePipeline(input)[k][j]
  {
    var segments := Split(input, '|');
    var stages := ParsePipeline(input);
    JoinSplit(input, '|');
    forall k | 0 <= k < |segments| ensures stages[k] == SplitWhitespace(segments[k]) {
      SplitWhitespaceTrim(segments[k]);
    }
    forall k, j | 0 <= k < |stages| && 0 <= j < |stages[k]|
      ensures stages[k][j] != [] && NoWhitespace(stages[k][j]) && '|' !in stages[k][j]
    {
      if '|' in stages[k][j] {
        SplitWhitespaceChars(segments[k], j, '|');
      }
    }
  }

  /** A whitespace-only piece, such as the one between the bars of "a || b", is an empty stage. */
  lemma BlankSegmentEmptyStage(input: string, k: nat)
    requires k < |Split(input, '|')| && AllWhitespace(Split(input, '|')[k])
    ensures ParsePipeline(input)[k] == []
  {
    TrimEmptyIff(Split(input, '|')[k]);
    SplitWhitespaceEmptyIff([]);
  }

  /** Without a '|', the pipeline is the one stage of the line's words. */
  lemma NoBarOneStage(input: string)
    requires '|' !in input
    ensures ParsePipeline(input) == [SplitWhitespace(input)]
  {
    NoSeparatorOnePiece(input, '|');
    SplitWhitespaceTrim(input);
    var stages := ParsePipeline(input);
    assert |stages| == 1;
    assert stages[0] == SplitWhitespace(Trim(input));
  }
}
