/** The batcher of lib/srt.ts pushes the open group on overflow even when it
    is still empty, so a first segment whose estimate alone exceeds the
    budget yields an empty leading group. The final flush guards the same
    push with a non-emptiness test; this module applies that guard to the
    overflow branch too and proves that the result then has no empty group
    and is the as-written result without its empty leading group. */
module SrtCorrected {
  import opened Srt
  import SrtProperties

  /** As written: a single 12-character segment (3 tokens) under a budget of
      2 comes back behind an empty group. */
  lemma EmptyFirstGroupExample()
    ensures var seg := Segment(1, "", seq(12, _ => 'a'));
      Batches([seg], 2) == [[], [seg]]
  {
    var t := seq(12, _ => 'a');
    var seg := Segment(1, "", t);
    JsString.Utf16LengthOfBmpText(t);
    assert NumTokens(t) == 3;
    assert Step(Start, seg, 2) == Batch([[]], [seg], 3);
    assert Fold(Start, [seg], 2) == Batch([[]], [seg], 3) by {
      assert [seg][1..] == [];
    }
    assert [[]] + [[seg]] == [[], [seg]];
  }

  /** The groups without an empty leading group. */
  function DropLeadingEmpty(gs: seq<seq<Segment>>): seq<seq<Segment>> {
    if |gs| > 0 && |gs[0]| == 0 then gs[1..] else gs
  }

  /** One iteration with the overflow push guarded like the final flush. */
  function GuardedStep(b: Batch, seg: Segment, length: int): Batch {
    var n := NumTokens(seg.text);
    if b.count + n <= length then Batch(b.groups, b.current + [seg], b.count + n + 1)
    else Batch(if |b.current| > 0 then b.groups + [b.current] else b.groups, [seg], n)
  }

  function GuardedFold(b: Batch, segments: seq<Segment>, length: int): Batch
    decreases |segments|
  {
    if |segments| == 0 then b else GuardedFold(GuardedStep(b, segments[0], length), segments[1..], length)
  }

  function Strip(b: Batch): Batch {
    Batch(DropLeadingEmpty(b.groups), b.current, b.count)
  }

  /** Once a group has been closed the open group is never empty. */
  ghost predicate OpenAfterClose(b: Batch) {
    |b.groups| > 0 ==> |b.current| > 0
  }

  lemma DropLeadingEmptySnoc(gs: seq<seq<Segment>>, g: seq<Segment>)
    requires |g| > 0
    ensures DropLeadingEmpty(gs + [g]) == DropLeadingEmpty(gs) + [g]
  {
    if |gs| > 0 && |gs[0]| == 0 {
      assert (gs + [g])[1..] == gs[1..] + [g];
    }
  }

  lemma GuardedStepStrips(b: Batch, seg: Segment, length: int)
    requires OpenAfterClose(b)
    ensures OpenAfterClose(Step(b, seg, length))
    ensures GuardedStep(Strip(b), seg, length) == Strip(Step(b, seg, length))
  {
    if b.count + NumTokens(seg.text) > length && |b.current| > 0 {
      DropLeadingEmptySnoc(b.groups, b.current);
    }
  }

  lemma {:induction false} GuardedFoldStrips(b: Batch, rest: seq<Segment>, length: int)
    requires OpenAfterClose(b)
    ensures OpenAfterClose(Fold(b, rest, length))
    ensures GuardedFold(Strip(b), rest, length) == Strip(Fold(b, rest, length))
    decreases |rest|
  {
    if |rest| > 0 {
      GuardedStepStrips(b, rest[0], length);
      GuardedFoldStrips(Step(b, rest[0], length), rest[1..], length);
    }
  }

  lemma GuardedBatchesAgree(segments: seq<Segment>, length: int)
    ensures Close(GuardedFold(Start, segments, length)) == DropLeadingEmpty(Batches(segments, length))
  {
    var b := Fold(Start, segments, length);
    GuardedFoldStrips(Start, segments, length);
    assert Strip(Start) == Start;
    if |b.current| > 0 {
      DropLeadingEmptySnoc(b.groups, b.current);
    }
  }

  lemma DropLeadingEmptyOfBatches(segments: seq<Segment>, length: int)
    ensures var gs := DropLeadingEmpty(Batches(segments, length));
      && Flatten(gs) == segments
      && forall i :: 0 <= i < |gs| ==> |gs[i]| > 0
  {
    var gs := Batches(segments, length);
    SrtProperties.EmptyGroupOnlyFirst(segments, length);
    if |gs| > 0 && |gs[0]| == 0 {
      SrtProperties.FlattenHead(gs);
      assert Flatten(gs) == [] + Flatten(gs[1..]);
      assert forall i :: 0 <= i < |gs[1..]| ==> gs[1..][i] == gs[i + 1];
    }
  }

  /** The batcher as evidently intended: no group is empty, the groups still
      concatenate back to the input, and the result is the as-written one
      with its empty leading group, if any, removed. */
  function GuardedBatches(segments: seq<Segment>, length: int): (gs: seq<seq<Segment>>)
    ensures gs == DropLeadingEmpty(Batches(segments, length))
    ensures Flatten(gs) == segments
    ensures forall i :: 0 <= i < |gs| ==> |gs[i]| > 0
  {
    GuardedBatchesAgree(segments, length);
    DropLeadingEmptyOfBatches(segments, length);
    Close(GuardedFold(Start, segments, length))
  }
}
