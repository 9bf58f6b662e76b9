/** The re-segmentation loop of `handleStream` (app/translate/page.client.tsx).

    Each decoded read is split on blank lines, empty pieces are filtered out,
    and every piece that is not only white space is appended, followed by a
    blank line, to the returned `content` and to the page's translated SRT
    text, and is added as one entry to the list of translated chunks. Reads
    are split independently: a block that straddles two reads becomes two
    pieces. The page's state setters become fields of an accumulator.
 */
module StreamReader {
  import opened JsString

  datatype Option<T> = None | Some(value: T)

  /** What the loop has built: the local `content`, and the page state it
      appends to through `setTranslatedSrt` and `setTranslatedChunks`. A
      translated chunk is kept as the piece of text it is parsed from. */
  datatype Progress = Progress(content: string, translatedSrt: string, translatedChunks: seq<string>)

  const BlankLine: string := "\n\n"

  // ---------------------------------------------------------------------------
  // Reference definitions

  /** The pieces that hold a character other than white space, in order. */
  ghost function Visible(pieces: seq<string>): (r: seq<string>)
    ensures |r| <= |pieces|
    ensures forall p :: p in r ==> p in pieces && HasVisible(p)
    ensures forall p :: p in pieces && HasVisible(p) ==> p in r
  {
    if |pieces| == 0 then []
    else (if HasVisible(pieces[0]) then [pieces[0]] else []) + Visible(pieces[1..])
  }

  /** The blocks a read contributes. */
  ghost function Kept(read: string): seq<string> {
    Visible(Split(read))
  }

  /** `f` applied to each element, the results concatenated in order. */
  ghost function FlatMap(f: string -> seq<string>, xs: seq<string>): seq<string> {
    if |xs| == 0 then [] else f(xs[0]) + FlatMap(f, xs[1..])
  }

  /** The blocks of all reads, read by read. */
  ghost function AllKept(received: seq<string>): seq<string> {
    FlatMap(Kept, received)
  }

  /** Each block followed by a blank line, concatenated. */
  function Terminated(blocks: seq<string>): string {
    if |blocks| == 0 then "" else blocks[0] + BlankLine + Terminated(blocks[1..])
  }

  lemma {:induction false} VisibleAppend(a: seq<string>, b: seq<string>)
    ensures Visible(a + b) == Visible(a) + Visible(b)
    decreases |a|
  {
    if |a| > 0 {
      VisibleAppend(a[1..], b);
      assert (a + b)[1..] == a[1..] + b;
    } else {
      assert a + b == b;
    }
  }

  lemma {:induction false} TerminatedAppend(a: seq<string>, b: seq<string>)
    ensures Terminated(a + b) == Terminated(a) + Terminated(b)
    decreases |a|
  {
    if |a| > 0 {
      TerminatedAppend(a[1..], b);
      assert (a + b)[1..] == a[1..] + b;
    } else {
      assert a + b == b;
    }
  }

  lemma {:induction false} FlatMapAppend(f: string -> seq<string>, a: seq<string>, b: seq<string>)
    ensures FlatMap(f, a + b) == FlatMap(f, a) + FlatMap(f, b)
    decreases |a|
  {
    if |a| > 0 {
      FlatMapAppend(f, a[1..], b);
      assert (a + b)[1..] == a[1..] + b;
    } else {
      assert a + b == b;
    }
  }

  lemma AllKeptAppend(a: seq<string>, b: seq<string>)
    ensures AllKept(a + b) == AllKept(a) + AllKept(b)
  {
    FlatMapAppend(Kept, a, b);
  }

  // ---------------------------------------------------------------------------
  // The loop as a fold

  /** `.filter(Boolean)`: drops the empty strings. */
  function NonEmpty(pieces: seq<string>): (r: seq<string>)
    ensures Visible(r) == Visible(pieces)
    ensures forall p :: p in r ==> p != ""
  {
    if |pieces| == 0 then []
    else
      var head := if pieces[0] != "" then [pieces[0]] else [];
      VisibleAppend(head, NonEmpty(pieces[1..]));
      assert Visible(head) == (if HasVisible(pieces[0]) then [pieces[0]] else []) by {
        assert head == [] || head[1..] == [];
      }
      head + NonEmpty(pieces[1..])
  }

  /** `p` extended by `blocks`: each block followed by a blank line is
      appended to the content and to the translated SRT, and each block is
      one more translated chunk. */
  function Extend(p: Progress, blocks: seq<string>): Progress {
    Progress(p.content + Terminated(blocks), p.translatedSrt + Terminated(blocks), p.translatedChunks + blocks)
  }

  lemma ExtendAppend(p: Progress, a: seq<string>, b: seq<string>)
    ensures Extend(Extend(p, a), b) == Extend(p, a + b)
  {
    TerminatedAppend(a, b);
    var ta, tb := Terminated(a), Terminated(b);
    assert p.content + ta + tb == p.content + (ta + tb);
    assert p.translatedSrt + ta + tb == p.translatedSrt + (ta + tb);
    assert p.translatedChunks + a + b == p.translatedChunks + (a + b);
  }

  /** One kept piece: appended with a blank line to `content` and to the
      translated SRT, and added as a translated chunk. */
  function Append(p: Progress, piece: string): (r: Progress)
    ensures r == Extend(p, [piece])
  {
    assert Terminated([piece]) == piece + BlankLine by {
      assert [piece][1..] == [];
    }
    Progress(p.content + piece + BlankLine, p.translatedSrt + piece + BlankLine, p.translatedChunks + [piece])
  }

  /** The inner `for` loop: a piece is kept when `piece.trim().length` is not
      zero. The progress is extended by exactly the pieces that hold a
      visible character, in order. */
  function ProcessSegments(p: Progress, segments: seq<string>): (r: Progress)
    ensures r == Extend(p, Visible(segments))
    decreases |segments|
  {
    if |segments| == 0 then
      assert Extend(p, []) == p;
      p
    else
      var head := if HasVisible(segments[0]) then [segments[0]] else [];
      var p' := if |Trim(segments[0])| > 0 then Append(p, segments[0]) else p;
      assert p' == Extend(p, head) by {
        assert Extend(p, []) == p;
      }
      ExtendAppend(p, head, Visible(segments[1..]));
      ProcessSegments(p', segments[1..])
  }

  /** One pass of the outer `while` loop over one decoded read. */
  function ProcessRead(p: Progress, chunk: string): (r: Progress)
    ensures r == Extend(p, Kept(chunk))
  {
    ProcessSegments(p, NonEmpty(Split(chunk)))
  }

  /** The outer loop over every read, in arrival order. */
  function ProcessReads(p: Progress, received: seq<string>): (r: Progress)
    ensures r == Extend(p, AllKept(received))
    decreases |received|
  {
    if |received| == 0 then
      assert Extend(p, []) == p;
      p
    else
      ExtendAppend(p, Kept(received[0]), AllKept(received[1..]));
      assert AllKept(received) == Kept(received[0]) + AllKept(received[1..]);
      ProcessReads(ProcessRead(p, received[0]), received[1..])
  }

  /** `handleStream` on a response whose body yields the decoded `received`
      strings (`None` when there is no body), starting from the page's
      current translated SRT and chunk list. The final read, the one that
      reports `done`, carries no value and decodes to the empty string; it is
      the trailing `""`. With no body nothing happens and nothing is
      returned. Otherwise `content` is every kept block followed by a blank
      line, and the page state grows by exactly the same text and the same
      blocks. */
  function HandleStream(body: Option<seq<string>>, translatedSrt: string, translatedChunks: seq<string>)
    : (r: Option<Progress>)
    ensures body.None? <==> r.None?
    ensures body.Some? ==>
      && r.value.content == Terminated(AllKept(body.value))
      && r.value.translatedSrt == translatedSrt + r.value.content
      && r.value.translatedChunks == translatedChunks + AllKept(body.value)
  {
    match body
    case None => None
    case Some(received) =>
      EmptyReadKeepsNothing();
      AllKeptSnoc(received, "");
      assert AllKept(received) + [] == AllKept(received);
      Some(ProcessReads(Progress("", translatedSrt, translatedChunks), received + [""]))
  }

  // ---------------------------------------------------------------------------
  // The loop as the source writes it

  /** The value of the `i`-th read: the reads in order, then the final `done`
      read whose value decodes to the empty string. */
  function ReadValue(received: seq<string>, i: nat): string {
    if i < |received| then received[i] else ""
  }

  lemma AllKeptSnoc(received: seq<string>, r: string)
    ensures AllKept(received + [r]) == AllKept(received) + Kept(r)
  {
    AllKeptAppend(received, [r]);
    assert [r][1..] == [];
    assert AllKept([r]) == Kept(r) + AllKept([]);
  }

  lemma VisibleSnoc(pieces: seq<string>, piece: string)
    ensures Visible(pieces + [piece]) == Visible(pieces) + (if HasVisible(piece) then [piece] else [])
  {
    VisibleAppend(pieces, [piece]);
    assert [piece][1..] == [];
  }

  /** The inner `for (const segment of segments)` loop. */
  method AppendSegments(content0: string, translatedSrt0: string, translatedChunks0: seq<string>, segments: seq<string>)
    returns (content: string, translatedSrt: string, translatedChunks: seq<string>)
    ensures Progress(content, translatedSrt, translatedChunks)
         == Extend(Progress(content0, translatedSrt0, translatedChunks0), Visible(segments))
  {
    var start := Progress(content0, translatedSrt0, translatedChunks0);
    content, translatedSrt, translatedChunks := content0, translatedSrt0, translatedChunks0;
    assert segments[..0] == [];
    assert Extend(start, []) == start;
    for j := 0 to |segments|
      invariant Progress(content, translatedSrt, translatedChunks) == Extend(start, Visible(segments[..j]))
    {
      var segment := segments[j];
      VisibleSnoc(segments[..j], segment);
      assert segments[..j + 1] == segments[..j] + [segment];
      ghost var head := if HasVisible(segment) then [segment] else [];
      ExtendAppend(start, Visible(segments[..j]), head);
      if |Trim(segment)| > 0 {
        ghost var p := Append(Progress(content, translatedSrt, translatedChunks), segment);
        content := content + segment + BlankLine;
        translatedSrt := translatedSrt + segment + BlankLine;
        translatedChunks := translatedChunks + [segment];
        assert Progress(content, translatedSrt, translatedChunks) == p;
      } else {
        assert Extend(Progress(content, translatedSrt, translatedChunks), []) == Progress(content, translatedSrt, translatedChunks);
      }
    }
    assert segments[..|segments|] == segments;
  }

  lemma ReadStep(start: Progress, all: seq<string>, i: nat)
    requires i < |all|
    ensures Extend(Extend(start, AllKept(all[..i])), Kept(all[i])) == Extend(start, AllKept(all[..i + 1]))
  {
    ExtendAppend(start, AllKept(all[..i]), Kept(all[i]));
    assert all[..i + 1] == all[..i] + [all[i]];
    AllKeptSnoc(all[..i], all[i]);
  }

  /** The `while (!doneReading)` loop, returning `content` and the final
      page state. */
  method HandleStreamLoop(received: seq<string>, translatedSrt0: string, translatedChunks0: seq<string>)
    returns (content: string, translatedSrt: string, translatedChunks: seq<string>)
    ensures content == Terminated(AllKept(received))
    ensures translatedSrt == translatedSrt0 + content
    ensures translatedChunks == translatedChunks0 + AllKept(received)
  {
    var start := Progress("", translatedSrt0, translatedChunks0);
    ghost var all := received + [""];
    content := "";
    translatedSrt := translatedSrt0;
    translatedChunks := translatedChunks0;
    var doneReading := false;
    var i := 0;
    assert all[..0] == [];
    assert Extend(start, []) == start;
    while !doneReading
      invariant 0 <= i <= |all|
      invariant doneReading <==> i == |all|
      invariant Progress(content, translatedSrt, translatedChunks) == Extend(start, AllKept(all[..i]))
      decreases |all| - i
    {
      var chunk := ReadValue(received, i);
      doneReading := i == |received|;
      assert chunk == all[i];
      var segments := NonEmpty(Split(chunk));
      content, translatedSrt, translatedChunks := AppendSegments(content, translatedSrt, translatedChunks, segments);
      ReadStep(start, all, i);
      i := i + 1;
    }
    assert all[..i] == all;
    EmptyReadKeepsNothing();
    AllKeptSnoc(received, "");
    assert AllKept(received) + [] == AllKept(received);
  }

  // ---------------------------------------------------------------------------
  // Properties

  lemma EmptyReadKeepsNothing()
    ensures Kept("") == []
  {
    assert Split("") == [""];
    assert Visible([""]) == [] by {
      assert [""][1..] == [];
    }
  }

  /** A read that decodes to the empty string, such as the final `done`
      read, leaves every accumulator as it was. */
  lemma EmptyReadChangesNothing(p: Progress)
    ensures ProcessRead(p, "") == p
  {
    assert Split("") == [""];
    assert Visible([""]) == [];
  }

  /** A piece that is empty or only white space contributes nothing. */
  lemma BlankPieceContributesNothing(p: Progress, piece: string)
    requires !HasVisible(piece)
    ensures ProcessSegments(p, [piece]) == p
  {
    assert Visible([piece]) == [] by {
      assert [piece][1..] == [];
    }
  }

  /** Every block the loop keeps holds a character other than white space
      and contains neither `"\n\n"` nor `"\r\n\r\n"`: the split consumed
      every blank line. */
  lemma KeptBlocksAreClean(received: seq<string>)
    ensures forall b :: b in AllKept(received) ==>
      HasVisible(b) && !Contains(b, LfBlank) && !Contains(b, CrLfBlank)
  {
    if |received| > 0 {
      SplitPiecesHaveNoDelimiter(received[0]);
      KeptBlocksAreClean(received[1..]);
    }
  }

  lemma {:induction false} TerminatedEndsWithBlankLine(blocks: seq<string>)
    ensures |Terminated(blocks)| == 0 <==> |blocks| == 0
    ensures |blocks| > 0 ==>
      |Terminated(blocks)| >= 2 && Terminated(blocks)[|Terminated(blocks)| - 2..] == BlankLine
  {
    if |blocks| > 0 {
      TerminatedEndsWithBlankLine(blocks[1..]);
      var rest := Terminated(blocks[1..]);
      var t := blocks[0] + BlankLine + rest;
      if |blocks| > 1 {
        assert t[|t| - 2..] == rest[|rest| - 2..];
      } else {
        assert t == blocks[0] + BlankLine;
      }
    }
  }

  /** The returned content is empty exactly when no read kept a block, and a
      non-empty content always ends with a blank line. */
  lemma ContentEndsWithBlankLine(received: seq<string>, translatedSrt: string, translatedChunks: seq<string>)
    ensures var c := HandleStream(Some(received), translatedSrt, translatedChunks).value.content;
      && (|c| == 0 <==> |AllKept(received)| == 0)
      && (|c| > 0 ==> |c| >= 2 && c[|c| - 2..] == BlankLine)
  {
    TerminatedEndsWithBlankLine(AllKept(received));
  }

  /** Reads are split independently: a block whose text arrives in two reads
      becomes two blocks. */
  lemma StraddlingBlockSplits()
    ensures HandleStream(Some(["Hel", "lo\n\n"]), "", []).value.translatedChunks == ["Hel", "lo"]
  {
    SplitOfHel();
    SplitOfLo();
    assert !IsWhiteSpace("Hel"[0]) && !IsWhiteSpace("lo"[0]);
    assert Kept("Hel") == ["Hel"] by {
      assert ["Hel"][1..] == [];
    }
    assert Kept("lo\n\n") == ["lo"] by {
      assert ["lo", ""][1..] == [""];
      assert [""][1..] == [];
    }
    var rs := ["Hel", "lo\n\n"];
    assert rs[1..] == ["lo\n\n"] && rs[1..][1..] == [];
    assert AllKept(rs) == ["Hel", "lo"];
  }

  lemma SplitOfHel()
    ensures Split("Hel") == ["Hel"]
  {
    NoMatchAtOrdinaryChar("Hel");
    NoMatchAtOrdinaryChar("el");
    NoMatchAtOrdinaryChar("l");
    assert "Hel"[1..] == "el" && "el"[1..] == "l" && "l"[1..] == "";
    assert "" + ["Hel"[0]] == "H" && "H" + ["el"[0]] == "He" && "He" + ["l"[0]] == "Hel";
    assert SplitFrom("", "Hel") == ["Hel"];
    assert SplitFrom("l", "He") == SplitFrom("", "Hel");
    assert SplitFrom("el", "H") == SplitFrom("l", "He");
    assert SplitFrom("Hel", "") == SplitFrom("el", "H");
  }

  lemma SplitOfLo()
    ensures Split("lo\n\n") == ["lo", ""]
  {
    NoMatchAtOrdinaryChar("lo\n\n");
    NoMatchAtOrdinaryChar("o\n\n");
    assert "lo\n\n"[1..] == "o\n\n" && "o\n\n"[1..] == "\n\n";
    assert MatchLength("\n\n") == 2;
    assert "\n\n"[2..] == "";
    assert "" + ["lo\n\n"[0]] == "l" && "l" + ["o\n\n"[0]] == "lo";
    assert SplitFrom("\n\n", "lo") == ["lo", ""];
    assert SplitFrom("o\n\n", "l") == SplitFrom("\n\n", "lo");
    assert SplitFrom("lo\n\n", "") == SplitFrom("o\n\n", "l");
  }
}
