/** Token-budget batching of subtitle segments: `groupSegmentsByTokenLength`
    of lib/srt.ts.

    The batcher walks the segments once, keeping an open group and a running
    token count. A segment whose estimate still fits (count + estimate is at
    most the budget) joins the open group and the count grows by the
    estimate plus one for a delimiter. Otherwise the open group is closed,
    even when it is still empty, and a new group is opened with the segment,
    the count restarting at its bare estimate. At the end the open group is
    closed if it is not empty.
 */
module Srt {
  import JsString

  /** One parsed subtitle block: index, raw timestamp line and text. */
  datatype Segment = Segment(id: int, timestamp: string, text: string)

  /** `numTokens`: the text's JavaScript length divided by four, rounded up. */
  function NumTokens(text: string): (r: nat)
    ensures JsString.Utf16Length(text) <= 4 * r < JsString.Utf16Length(text) + 4
  {
    (JsString.Utf16Length(text) + 3) / 4
  }

  function Estimate(s: Segment): nat {
    NumTokens(s.text)
  }

  /** Sum of the estimates of a group's members. */
  function TokenSum(g: seq<Segment>): nat {
    if |g| == 0 then 0 else TokenSum(g[..|g| - 1]) + Estimate(g[|g| - 1])
  }

  /** The running count the batcher holds for a group: its token sum plus one
      delimiter for every member admitted by the "fits" test. The first group
      opens through that test; every later group opens on overflow, and the
      member that opens it is counted without a delimiter. */
  function RunningCount(g: seq<Segment>, opensByFit: bool): int {
    TokenSum(g) + |g| - (if opensByFit then 0 else 1)
  }

  /** The groups, concatenated in order. */
  function Flatten(gs: seq<seq<Segment>>): seq<Segment> {
    if |gs| == 0 then [] else Flatten(gs[..|gs| - 1]) + gs[|gs| - 1]
  }

  // ---------------------------------------------------------------------------
  // What a batching is

  /** Every member of `g` admitted by the "fits" test passed it: the count
      before it plus its estimate was within the budget. In a group opened on
      overflow the first member is exempt. */
  ghost predicate Admitted(g: seq<Segment>, length: int, opensByFit: bool) {
    forall j :: (if opensByFit then 0 else 1) <= j < |g| ==>
      RunningCount(g[..j], opensByFit) + Estimate(g[j]) <= length
  }

  /** The shape every prefix of the batching has: only the first group may be
      empty, every group admitted its members, and every group after the
      first was opened because its first segment overflowed the group before. */
  ghost predicate Chained(gs: seq<seq<Segment>>, length: int) {
    && (forall i :: 0 < i < |gs| ==> |gs[i]| > 0)
    && (forall i :: 0 <= i < |gs| ==> Admitted(gs[i], length, i == 0))
    && (forall i :: 0 < i < |gs| ==> OpenedByOverflow(gs, i, length))
  }

  /** Group `i` was opened because its first segment did not fit after group
      `i - 1`. */
  ghost predicate OpenedByOverflow(gs: seq<seq<Segment>>, i: int, length: int) {
    && 0 < i < |gs|
    && |gs[i]| > 0
    && RunningCount(gs[i - 1], i == 1) + Estimate(gs[i][0]) > length
  }

  /** `gs` is a batching of `segments` under the budget `length`: the groups
      concatenate back to the input, the last one is not empty, and the
      groups are chained as above. */
  ghost predicate WellBatched(segments: seq<Segment>, length: int, gs: seq<seq<Segment>>) {
    && Flatten(gs) == segments
    && (|gs| > 0 ==> |gs[|gs| - 1]| > 0)
    && Chained(gs, length)
  }

  // ---------------------------------------------------------------------------
  // The fold

  /** The batcher's three local variables: `groups`, `currentGroup` and
      `currentGroupTokenCount`. */
  datatype Batch = Batch(groups: seq<seq<Segment>>, current: seq<Segment>, count: int)

  const Start: Batch := Batch([], [], 0)

  /** One iteration of the loop. */
  function Step(b: Batch, seg: Segment, length: int): Batch {
    var n := NumTokens(seg.text);
    if b.count + n <= length then Batch(b.groups, b.current + [seg], b.count + n + 1)
    else Batch(b.groups + [b.current], [seg], n)
  }

  function Fold(b: Batch, segments: seq<Segment>, length: int): Batch
    decreases |segments|
  {
    if |segments| == 0 then b else Fold(Step(b, segments[0], length), segments[1..], length)
  }

  /** The final flush: the open group is pushed only when it is not empty. */
  function Close(b: Batch): seq<seq<Segment>> {
    if |b.current| > 0 then b.groups + [b.current] else b.groups
  }

  /** The loop's invariant: the groups so far together with the open group
      are chained and hold exactly the segments processed, the open group is
      empty only before the first segment, and the count is the open group's
      running count. */
  ghost predicate Invariant(b: Batch, processed: seq<Segment>, length: int) {
    && Flatten(b.groups + [b.current]) == processed
    && (|processed| > 0 ==> |b.current| > 0)
    && Chained(b.groups + [b.current], length)
    && b.count == RunningCount(b.current, |b.groups| == 0)
  }

  lemma FlattenSnoc(gs: seq<seq<Segment>>, g: seq<Segment>)
    ensures Flatten(gs + [g]) == Flatten(gs) + g
  {
    assert (gs + [g])[..|gs|] == gs;
  }

  lemma TokenSumSnoc(g: seq<Segment>, s: Segment)
    ensures TokenSum(g + [s]) == TokenSum(g) + Estimate(s)
  {
    assert (g + [s])[..|g|] == g;
  }

  /** Appending a group to a chained sequence keeps it chained when the new
      group is admitted and, unless it is the first, non-empty and opened on
      overflow. */
  lemma ChainedSnoc(gs: seq<seq<Segment>>, g: seq<Segment>, length: int)
    requires Chained(gs, length)
    requires Admitted(g, length, |gs| == 0)
    requires |gs| > 0 ==> |g| > 0 && OpenedByOverflow(gs + [g], |gs|, length)
    ensures Chained(gs + [g], length)
  {
    var gs' := gs + [g];
    forall i | 0 <= i < |gs|
      ensures gs'[i] == gs[i]
    {
    }
    forall i | 0 < i < |gs'|
      ensures OpenedByOverflow(gs', i, length)
    {
      if i < |gs| {
        assert OpenedByOverflow(gs, i, length);
      }
    }
  }

  /** The converse: a prefix of a chained sequence is chained, and its last
      group was admitted and, unless it is the first, opened on overflow. */
  lemma ChainedInit(gs: seq<seq<Segment>>, g: seq<Segment>, length: int)
    requires Chained(gs + [g], length)
    ensures Chained(gs, length)
    ensures Admitted(g, length, |gs| == 0)
    ensures |gs| > 0 ==> |g| > 0 && OpenedByOverflow(gs + [g], |gs|, length)
  {
    var gs' := gs + [g];
    forall i | 0 <= i < |gs|
      ensures gs'[i] == gs[i]
    {
    }
    assert gs'[|gs|] == g;
    assert Admitted(gs'[|gs|], length, |gs| == 0);
    if |gs| > 0 {
      assert OpenedByOverflow(gs', |gs|, length);
    }
    forall i | 0 < i < |gs|
      ensures OpenedByOverflow(gs, i, length)
    {
      assert OpenedByOverflow(gs', i, length);
    }
  }

  /** Appending a member that passes the "fits" test keeps a group admitted. */
  lemma AdmittedSnoc(g: seq<Segment>, seg: Segment, length: int, opensByFit: bool)
    requires Admitted(g, length, opensByFit)
    requires opensByFit || |g| > 0
    requires RunningCount(g, opensByFit) + Estimate(seg) <= length
    ensures Admitted(g + [seg], length, opensByFit)
  {
    var c := g + [seg];
    forall j | (if opensByFit then 0 else 1) <= j < |c|
      ensures RunningCount(c[..j], opensByFit) + Estimate(c[j]) <= length
    {
      if j < |g| {
        assert c[..j] == g[..j];
      } else {
        assert c[..j] == g;
      }
    }
  }

  /** A segment that fits joins the open group. */
  lemma FitKeepsInvariant(b: Batch, processed: seq<Segment>, seg: Segment, length: int)
    requires Invariant(b, processed, length)
    requires b.count + Estimate(seg) <= length
    ensures Invariant(Batch(b.groups, b.current + [seg], b.count + Estimate(seg) + 1), processed + [seg], length)
  {
    var c := b.current + [seg];
    FlattenSnoc(b.groups, b.current);
    FlattenSnoc(b.groups, c);
    TokenSumSnoc(b.current, seg);
    ChainedInit(b.groups, b.current, length);
    AdmittedSnoc(b.current, seg, length, |b.groups| == 0);
    if |b.groups| > 0 {
      assert OpenedByOverflow(b.groups + [b.current], |b.groups|, length);
      assert (b.groups + [c])[|b.groups|][0] == (b.groups + [b.current])[|b.groups|][0];
      assert (b.groups + [c])[|b.groups| - 1] == (b.groups + [b.current])[|b.groups| - 1];
    }
    ChainedSnoc(b.groups, c, length);
  }

  /** A segment that overflows closes the open group and opens a new one. */
  lemma OverflowKeepsInvariant(b: Batch, processed: seq<Segment>, seg: Segment, length: int)
    requires Invariant(b, processed, length)
    requires b.count + Estimate(seg) > length
    ensures Invariant(Batch(b.groups + [b.current], [seg], Estimate(seg)), processed + [seg], length)
  {
    var gs := b.groups + [b.current];
    FlattenSnoc(gs, [seg]);
    TokenSumSnoc([], seg);
    assert [] + [seg] == [seg];
    assert (gs + [[seg]])[|gs| - 1] == b.current;
    assert OpenedByOverflow(gs + [[seg]], |gs|, length);
    ChainedSnoc(gs, [seg], length);
  }

  lemma StepKeepsInvariant(b: Batch, processed: seq<Segment>, seg: Segment, length: int)
    requires Invariant(b, processed, length)
    ensures Invariant(Step(b, seg, length), processed + [seg], length)
  {
    if b.count + Estimate(seg) <= length {
      FitKeepsInvariant(b, processed, seg, length);
    } else {
      OverflowKeepsInvariant(b, processed, seg, length);
    }
  }

  lemma {:induction false} FoldKeepsInvariant(b: Batch, processed: seq<Segment>, rest: seq<Segment>, length: int)
    requires Invariant(b, processed, length)
    ensures Invariant(Fold(b, rest, length), processed + rest, length)
    decreases |rest|
  {
    if |rest| > 0 {
      StepKeepsInvariant(b, processed, rest[0], length);
      FoldKeepsInvariant(Step(b, rest[0], length), processed + [rest[0]], rest[1..], length);
      assert processed + [rest[0]] + rest[1..] == processed + rest;
    }
  }

  lemma CloseIsWellBatched(b: Batch, segments: seq<Segment>, length: int)
    requires Invariant(b, segments, length)
    ensures WellBatched(segments, length, Close(b))
  {
    var gs := b.groups + [b.current];
    if |b.current| == 0 {
      assert |gs[|gs| - 1]| > 0 || |b.groups| == 0;
      assert gs == [[]];
      assert Flatten(gs) == Flatten([]) + [];
    }
  }

  /** The groups `groupSegmentsByTokenLength(segments, length)` returns: the
      loop run over all segments, then the final flush. */
  function Batches(segments: seq<Segment>, length: int): (gs: seq<seq<Segment>>)
    ensures WellBatched(segments, length, gs)
  {
    assert Flatten([[]]) == Flatten([]) + [];
    FoldKeepsInvariant(Start, [], segments, length);
    assert [] + segments == segments;
    CloseIsWellBatched(Fold(Start, segments, length), segments, length);
    Close(Fold(Start, segments, length))
  }

  /** `groupSegmentsByTokenLength` as the loop the source writes. */
  method GroupSegmentsByTokenLength(segments: seq<Segment>, length: int) returns (groups: seq<seq<Segment>>)
    ensures groups == Batches(segments, length)
    ensures WellBatched(segments, length, groups)
  {
    groups := [];
    var currentGroup: seq<Segment> := [];
    var currentGroupTokenCount := 0;
    for i := 0 to |segments|
      invariant Fold(Batch(groups, currentGroup, currentGroupTokenCount), segments[i..], length)
             == Fold(Start, segments, length)
    {
      var segmentTokenCount := NumTokens(segments[i].text);
      if currentGroupTokenCount + segmentTokenCount <= length {
        currentGroup := currentGroup + [segments[i]];
        currentGroupTokenCount := currentGroupTokenCount + segmentTokenCount + 1;
      } else {
        groups := groups + [currentGroup];
        currentGroup := [segments[i]];
        currentGroupTokenCount := segmentTokenCount;
      }
      assert segments[i..][1..] == segments[i + 1..];
    }
    if |currentGroup| > 0 {
      groups := groups + [currentGroup];
    }
  }
}
