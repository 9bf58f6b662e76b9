/** What `groupSegmentsByTokenLength` (lib/srt.ts) guarantees, stated over
    the model in module Srt: the batching characterisation is exact (the
    batcher's output is the only well-batched grouping), and the properties
    a caller relies on follow from it. */
module SrtProperties {
  import opened Srt

  lemma {:induction false} FlattenHead(gs: seq<seq<Segment>>)
    requires |gs| > 0
    ensures Flatten(gs) == gs[0] + Flatten(gs[1..])
    decreases |gs|
  {
    if |gs| > 1 {
      var init := gs[..|gs| - 1];
      FlattenHead(init);
      assert init[1..] == gs[1..][..|gs[1..]| - 1];
      assert init[0] == gs[0];
    } else {
      assert gs[1..] == [];
      assert gs[..0] == [];
    }
  }

  lemma FlattenOfNonEmptyLast(gs: seq<seq<Segment>>)
    requires |gs| > 0 && |gs[|gs| - 1]| > 0
    ensures |Flatten(gs)| > 0
  {
  }

  // ---------------------------------------------------------------------------
  // Uniqueness

  /** The batcher's state once it has consumed every segment of the chained
      groups `gs`: the last group is still open. */
  function StateOf(gs: seq<seq<Segment>>, length: int): Batch
    requires |gs| > 0
  {
    Batch(gs[..|gs| - 1], gs[|gs| - 1], RunningCount(gs[|gs| - 1], |gs| == 1))
  }

  lemma {:induction false} FoldSnoc(b: Batch, pre: seq<Segment>, s: Segment, length: int)
    ensures Fold(b, pre + [s], length) == Step(Fold(b, pre, length), s, length)
    decreases |pre|
  {
    if |pre| == 0 {
      assert pre + [s] == [s];
      assert [s][1..] == [];
    } else {
      FoldSnoc(Step(b, pre[0], length), pre[1..], s, length);
      assert (pre + [s])[1..] == pre[1..] + [s];
    }
  }

  lemma AdmittedPrefix(g: seq<Segment>, length: int, opensByFit: bool)
    requires Admitted(g, length, opensByFit) && |g| > 0
    ensures Admitted(g[..|g| - 1], length, opensByFit)
  {
    var g' := g[..|g| - 1];
    forall j | (if opensByFit then 0 else 1) <= j < |g'|
      ensures RunningCount(g'[..j], opensByFit) + Estimate(g'[j]) <= length
    {
      assert g'[..j] == g[..j];
    }
  }

  /** The grouping of all but the last segment: the last group loses its
      last member, or disappears when that member was all it held (unless it
      is group 0, which then stays as an empty group). */
  function DropLast(gs: seq<seq<Segment>>): seq<seq<Segment>>
    requires |gs| > 0 && |gs[|gs| - 1]| > 0
  {
    var g := gs[|gs| - 1];
    if |g| >= 2 || |gs| == 1 then gs[..|gs| - 1] + [g[..|g| - 1]] else gs[..|gs| - 1]
  }

  lemma FlattenLength(gs: seq<seq<Segment>>)
    requires |gs| > 0
    ensures |Flatten(gs)| >= |gs[|gs| - 1]|
  {
  }

  /** The last segment of the input is the last member of the last group,
      and the groups without it concatenate to the rest of the input. */
  lemma FlattenDropLast(gs: seq<seq<Segment>>, pre: seq<Segment>, s: Segment)
    requires |gs| > 0 && |gs[|gs| - 1]| > 0
    requires Flatten(gs) == pre + [s]
    ensures gs[|gs| - 1][|gs[|gs| - 1]| - 1] == s
    ensures Flatten(gs[..|gs| - 1]) + gs[|gs| - 1][..|gs[|gs| - 1]| - 1] == pre
  {
    var g := gs[|gs| - 1];
    var f := Flatten(gs[..|gs| - 1]);
    var whole := f + g;
    assert Flatten(gs) == whole;
    assert |whole| == |pre| + 1;
    assert whole[|whole| - 1] == g[|g| - 1];
    assert (pre + [s])[|pre|] == s;
    var w := whole[..|whole| - 1];
    assert w == f + g[..|g| - 1];
    assert w == pre;
  }

  /** Dropping the last segment of a group that keeps other members, or of
      the only group, keeps the grouping chained. */
  lemma DropLastMemberChained(gs: seq<seq<Segment>>, length: int)
    requires |gs| > 0 && |gs[|gs| - 1]| > 0 && Chained(gs, length)
    requires |gs[|gs| - 1]| >= 2 || |gs| == 1
    ensures Chained(gs[..|gs| - 1] + [gs[|gs| - 1][..|gs[|gs| - 1]| - 1]], length)
  {
    var k := |gs|;
    var g := gs[k - 1];
    var init := gs[..k - 1];
    var g' := g[..|g| - 1];
    var gs' := init + [g'];
    assert gs == init + [g];
    ChainedInit(init, g, length);
    AdmittedPrefix(g, length, k == 1);
    if k > 1 {
      assert gs'[k - 1][0] == g[0];
      assert gs'[k - 2] == gs[k - 2];
      assert OpenedByOverflow(gs', k - 1, length);
    }
    ChainedSnoc(init, g', length);
  }

  /** Dropping a later group that held only the last segment keeps the
      grouping chained. */
  lemma DropLastGroupChained(gs: seq<seq<Segment>>, length: int)
    requires |gs| > 1 && Chained(gs, length)
    ensures Chained(gs[..|gs| - 1], length)
    ensures |gs[|gs| - 2]| > 0 || |gs| == 2
  {
    assert gs == gs[..|gs| - 1] + [gs[|gs| - 1]];
    ChainedInit(gs[..|gs| - 1], gs[|gs| - 1], length);
  }

  /** Dropping the last segment of a chained grouping leaves a chained
      grouping of the shorter input. */
  lemma DropLastChained(gs: seq<seq<Segment>>, pre: seq<Segment>, s: Segment, length: int)
    requires |gs| > 0 && |gs[|gs| - 1]| > 0 && Chained(gs, length)
    requires Flatten(gs) == pre + [s]
    ensures var gs' := DropLast(gs);
      && |gs'| > 0 && Chained(gs', length) && Flatten(gs') == pre
      && (|pre| > 0 ==> |gs'[|gs'| - 1]| > 0)
  {
    var k := |gs|;
    var g := gs[k - 1];
    var init := gs[..k - 1];
    FlattenDropLast(gs, pre, s);
    if |g| >= 2 || k == 1 {
      DropLastMemberChained(gs, length);
      FlattenSnoc(init, g[..|g| - 1]);
    } else {
      DropLastGroupChained(gs, length);
      assert init == init[..k - 2] + [init[k - 2]];
      FlattenSnoc(init[..k - 2], init[k - 2]);
      assert init[..k - 2] == [] || k - 2 > 0;
    }
  }

  /** The last segment passes the "fits" test and joins the open group. */
  lemma StepReachesByFit(gs: seq<seq<Segment>>, s: Segment, length: int)
    requires |gs| > 0 && |gs[|gs| - 1]| > 0
    requires |gs[|gs| - 1]| >= 2 || |gs| == 1
    requires Admitted(gs[|gs| - 1], length, |gs| == 1)
    requires gs[|gs| - 1][|gs[|gs| - 1]| - 1] == s
    ensures Step(StateOf(DropLast(gs), length), s, length) == StateOf(gs, length)
  {
    var k := |gs|;
    var g := gs[k - 1];
    var init := gs[..k - 1];
    var g' := g[..|g| - 1];
    assert DropLast(gs) == init + [g'];
    assert (init + [g'])[..k - 1] == init;
    assert g == g' + [s];
    TokenSumSnoc(g', s);
    assert RunningCount(g[..|g| - 1], k == 1) + Estimate(g[|g| - 1]) <= length;
  }

  /** The last segment overflows and opens its own group. */
  lemma StepReachesByOverflow(gs: seq<seq<Segment>>, s: Segment, length: int)
    requires |gs| > 1 && gs[|gs| - 1] == [s]
    requires OpenedByOverflow(gs, |gs| - 1, length)
    ensures Step(StateOf(DropLast(gs), length), s, length) == StateOf(gs, length)
  {
    var k := |gs|;
    var init := gs[..k - 1];
    assert DropLast(gs) == init;
    assert init[..k - 2] + [init[k - 2]] == init;
    TokenSumSnoc([], s);
    assert [] + [s] == [s];
    assert [s][..0] == [];
  }

  /** The batcher's last iteration turns the state after the shorter input
      into the state after the whole input. */
  lemma StepReaches(gs: seq<seq<Segment>>, pre: seq<Segment>, s: Segment, length: int)
    requires |gs| > 0 && |gs[|gs| - 1]| > 0 && Chained(gs, length)
    requires Flatten(gs) == pre + [s]
    ensures |DropLast(gs)| > 0
    ensures Step(StateOf(DropLast(gs), length), s, length) == StateOf(gs, length)
  {
    var k := |gs|;
    var g := gs[k - 1];
    FlattenDropLast(gs, pre, s);
    if |g| >= 2 || k == 1 {
      assert Admitted(gs[k - 1], length, k - 1 == 0);
      StepReachesByFit(gs, s, length);
    } else {
      assert OpenedByOverflow(gs, k - 1, length);
      assert g == [g[0]];
      StepReachesByOverflow(gs, s, length);
    }
  }

  lemma {:induction false} FoldReachesChained(gs: seq<seq<Segment>>, segments: seq<Segment>, length: int)
    requires |gs| > 0 && Chained(gs, length)
    requires Flatten(gs) == segments
    requires |segments| > 0 ==> |gs[|gs| - 1]| > 0
    ensures Fold(Start, segments, length) == StateOf(gs, length)
    decreases |segments|
  {
    if |segments| == 0 {
      FlattenLength(gs);
      assert |gs[|gs| - 1]| > 0 || |gs| == 1;
      assert gs == [gs[0]];
      FlattenSnoc([], gs[0]);
      assert [] + [gs[0]] == [gs[0]];
    } else {
      var pre := segments[..|segments| - 1];
      var s := segments[|segments| - 1];
      assert segments == pre + [s];
      DropLastChained(gs, pre, s, length);
      FoldReachesChained(DropLast(gs), pre, length);
      FoldSnoc(Start, pre, s, length);
      StepReaches(gs, pre, s, length);
    }
  }

  /** The characterisation is exact: the batcher's output is the only
      well-batched grouping of the segments. So every property below, stated
      through `WellBatched`, describes the batcher and nothing looser. */
  lemma WellBatchedIsUnique(segments: seq<Segment>, length: int, gs: seq<seq<Segment>>)
    requires WellBatched(segments, length, gs)
    ensures gs == Batches(segments, length)
  {
    if |gs| == 0 {
      assert segments == [];
    } else {
      FoldReachesChained(gs, segments, length);
      assert gs[..|gs| - 1] + [gs[|gs| - 1]] == gs;
    }
  }

  // ---------------------------------------------------------------------------
  // Properties of the output

  /** No segment is lost, duplicated or moved: the groups concatenate back to
      the input. */
  lemma BatchesPartitionInput(segments: seq<Segment>, length: int)
    ensures Flatten(Batches(segments, length)) == segments
  {
  }

  /** There are no groups exactly when there are no segments. */
  lemma {:induction false} NoGroupsIffNoSegments(segments: seq<Segment>, length: int)
    ensures |Batches(segments, length)| == 0 <==> |segments| == 0
  {
    var gs := Batches(segments, length);
    if |gs| > 0 {
      FlattenOfNonEmptyLast(gs);
    }
  }

  /** Only group 0 can be empty, and it is empty exactly when the first
      segment alone overflows the budget: that segment then closes the still
      empty initial group before opening its own. */
  lemma {:induction false} EmptyGroupOnlyFirst(segments: seq<Segment>, length: int)
    ensures var gs := Batches(segments, length);
      forall i :: 0 <= i < |gs| && |gs[i]| == 0 ==> i == 0
    ensures var gs := Batches(segments, length);
      (|gs| > 0 && |gs[0]| == 0) <==> (|segments| > 0 && Estimate(segments[0]) > length)
  {
    var gs := Batches(segments, length);
    NoGroupsIffNoSegments(segments, length);
    if |gs| > 0 {
      FlattenHead(gs);
      assert Admitted(gs[0], length, true);
      if |gs[0]| == 0 {
        assert |gs| > 1;
        FlattenHead(gs[1..]);
        assert OpenedByOverflow(gs, 1, length);
        assert segments[0] == gs[1][0];
        assert gs[0][..0] == [];
      } else {
        assert segments[0] == gs[0][0];
        assert gs[0][..0] == [];
        assert RunningCount(gs[0][..0], true) == 0;
      }
    }
  }

  /** A segment whose estimate alone exceeds the budget is the sole member of
      its group, and that group is never group 0. */
  lemma OversizedStandsAlone(segments: seq<Segment>, length: int)
    ensures var gs := Batches(segments, length);
      forall i, j :: 0 <= i < |gs| && 0 <= j < |gs[i]| && Estimate(gs[i][j]) > length ==>
        i > 0 && gs[i] == [gs[i][j]]
  {
    var gs := Batches(segments, length);
    forall i, j | 0 <= i < |gs| && 0 <= j < |gs[i]| && Estimate(gs[i][j]) > length
      ensures i > 0 && gs[i] == [gs[i][j]]
    {
      var g := gs[i];
      assert Admitted(g, length, i == 0);
      assert RunningCount(g[..j], i == 0) >= 0 || j == 0;
      assert j == 0 && i > 0;
      SecondMemberFits(g, length);
    }
  }

  /** In a group opened on overflow, a second member fits beside the first. */
  lemma SecondMemberFits(g: seq<Segment>, length: int)
    requires Admitted(g, length, false)
    ensures |g| > 1 ==> Estimate(g[0]) + Estimate(g[1]) <= length
  {
    if |g| > 1 {
      assert g[..1] == [g[0]];
      assert [g[0]][..0] == [];
      assert RunningCount(g[..1], false) + Estimate(g[1]) <= length;
    }
  }

  lemma GroupWithinBudget(g: seq<Segment>, length: int, opensByFit: bool)
    requires Admitted(g, length, opensByFit)
    requires |g| >= 2 || (opensByFit && |g| >= 1)
    ensures TokenSum(g) + |g| - (if opensByFit then 1 else 2) <= length
  {
    assert RunningCount(g[..|g| - 1], opensByFit) + Estimate(g[|g| - 1]) <= length;
  }

  /** Token bounds of a group of k members whose estimates sum to S: a group
      opened on overflow keeps S + (k - 2) within the budget, group 0 (opened
      by the "fits" test) keeps S + (k - 1) within it. So S itself stays
      within the budget unless the group is one oversized segment. */
  lemma GroupTokenBounds(segments: seq<Segment>, length: int)
    ensures var gs := Batches(segments, length);
      forall i :: 0 <= i < |gs| && |gs[i]| >= 2 ==> TokenSum(gs[i]) + |gs[i]| - 2 <= length
    ensures var gs := Batches(segments, length);
      |gs| > 0 && |gs[0]| >= 1 ==> TokenSum(gs[0]) + |gs[0]| - 1 <= length
    ensures var gs := Batches(segments, length);
      forall i :: 0 <= i < |gs| && |gs[i]| > 0 ==>
        TokenSum(gs[i]) <= length || (|gs[i]| == 1 && Estimate(gs[i][0]) > length)
  {
    var gs := Batches(segments, length);
    forall i | 0 <= i < |gs| && (|gs[i]| >= 2 || (i == 0 && |gs[i]| >= 1))
      ensures TokenSum(gs[i]) + |gs[i]| - (if i == 0 then 1 else 2) <= length
    {
      assert Admitted(gs[i], length, i == 0);
      GroupWithinBudget(gs[i], length, i == 0);
    }
    forall i | 0 <= i < |gs| && |gs[i]| == 1
      ensures TokenSum(gs[i]) == Estimate(gs[i][0])
    {
      assert gs[i][..0] == [];
    }
  }

  /** A new group starts only on overflow: the running count of the group
      before it (its token sum plus one per member admitted by the "fits"
      test) plus the estimate of the new group's first segment exceeds the
      budget. */
  lemma NewGroupOnlyOnOverflow(segments: seq<Segment>, length: int)
    ensures var gs := Batches(segments, length);
      forall i :: 0 < i < |gs| ==>
        |gs[i]| > 0 && RunningCount(gs[i - 1], i == 1) + Estimate(gs[i][0]) > length
  {
    var gs := Batches(segments, length);
    forall i | 0 < i < |gs|
      ensures |gs[i]| > 0 && RunningCount(gs[i - 1], i == 1) + Estimate(gs[i][0]) > length
    {
      assert OpenedByOverflow(gs, i, length);
    }
  }

  /** A group opened on overflow is charged one delimiter less than its
      members: with a budget of 20 and three segments of 40 characters (10
      tokens each), the second and third share a group whose estimates plus
      one delimiter come to 21. */
  lemma DelimiterSlackExample()
    ensures var t := seq(40, _ => 'a');
      var a := Segment(1, "", t);
      var b := Segment(2, "", t);
      var c := Segment(3, "", t);
      && Batches([a, b, c], 20) == [[a], [b, c]]
      && TokenSum([b, c]) + 1 == 21
  {
    var t := seq(40, _ => 'a');
    var a := Segment(1, "", t);
    var b := Segment(2, "", t);
    var c := Segment(3, "", t);
    JsString.Utf16LengthOfBmpText(t);
    assert NumTokens(t) == 10;
    var s1 := Step(Start, a, 20);
    var s2 := Step(s1, b, 20);
    var s3 := Step(s2, c, 20);
    assert s1 == Batch([], [a], 11);
    assert s2 == Batch([[a]], [b], 10);
    assert s3 == Batch([[a]], [b, c], 21);
    FoldSnoc(Start, [], a, 20);
    FoldSnoc(Start, [a], b, 20);
    FoldSnoc(Start, [a, b], c, 20);
    assert [] + [a] == [a];
    assert [a] + [b] == [a, b];
    assert [a, b] + [c] == [a, b, c];
    assert [b, c][..1] == [b];
    assert [b][..0] == [];
  }
}
