# Subtitle batching and stream re-segmentation

This project models two pieces of the subtitle translator's logic in Dafny and proves properties of them.

- **The token-budget batcher** `groupSegmentsByTokenLength` (lib/srt.ts). It makes one greedy pass over the parsed subtitle `Segment`s and cuts them into consecutive groups.
  - A segment's cost is estimated as its JavaScript length divided by four, rounded up.
  - A segment joins the open group when the running count plus its estimate stays within the budget. The count then grows by the estimate plus one for a delimiter.
  - Otherwise the open group is closed and a new group is opened with the segment. The new count is the bare estimate, with no delimiter.
  - At the end, the open group is closed if it is not empty.
- **The re-segmentation loop of `handleStream`** (app/translate/page.client.tsx). Each decoded read of the translation stream is split on blank lines (`\r\n\r\n` or `\n\n`), and empty pieces are filtered out. Every piece that holds a character other than white space is handled in three ways:
  - it is appended, followed by a blank line, to the returned `content`;
  - it is appended the same way to the page's translated SRT;
  - it is added to the list of translated chunks.

The project has five modules:

| module | file | contents |
|---|---|---|
| `JsString` | `js_string.dfy` | The JavaScript string operations the code relies on: `.length` in UTF-16 code units, `split(/\r\n\r\n\|\n\n/)` as a left-to-right scanner, and `trim()` over the ECMAScript white-space and line-terminator set. |
| `Srt` | `srt.dfy` | The batcher as a fold (`Batches`) and as the source's loop (`GroupSegmentsByTokenLength`). It also has the predicate `WellBatched`, which describes the output independently of the loop. |
| `SrtProperties` | `srt_properties.dfy` | The proof that `WellBatched` has exactly one solution. Also the properties of the output: it partitions the input, where empty groups can occur, token bounds, overflow cuts, and the delimiter slack. |
| `SrtCorrected` | `srt_corrected.dfy` | The empty-leading-group finding, with the guarded batcher that fixes it. |
| `StreamReader` | `stream_reader.dfy` | `handleStream` as a pure fold over the decoded reads (`HandleStream`) and as the source's nested loops (`HandleStreamLoop`). Both are specified against the same reference definitions (`Visible`, `AllKept`, `Terminated`). |

How the model follows the code:

- **Overflow-opened groups get one delimiter less.** The doc comment at lib/srt.ts:7-9 promises groups "of length `length` or less", and the comment at lib/srt.ts:27 says the `+1` pays for a delimiter. Read together, they suggest that a group's estimates plus one per delimiter between its members stay within the budget. The code counts differently. A group opened on overflow starts at its first member's bare estimate (lib/srt.ts:31). A member admitted by the fits test is charged its delimiter after it joins (lib/srt.ts:27). So a group of k ≥ 2 members opened on overflow satisfies only S + k − 2 ≤ budget, where S is the sum of its estimates. Its delimited cost S + k − 1 can exceed the budget by one (`SrtProperties.DelimiterSlackExample`). The model follows the code.
- **The first group can be empty.** When the first segment alone overflows, the still-empty open group is pushed (lib/srt.ts:29). The final flush guards the same push with a non-emptiness test (lib/srt.ts:35-37). The model reproduces the unguarded push; the Findings section below gives the correction.
- **The final read carries no value.** `handleStream` reads until `done`. The last read has no value, and `decoder.decode(undefined)` is `""`. The model therefore runs the loop over the received strings followed by `""`.

## Model

| member | source | states |
|---|---|---|
| JsString.Utf16Length | lib/srt.ts:19 | `text.length` lies between the number of characters and twice that number. |
| JsString.Utf16LengthOfChar | lib/srt.ts:19 | One character counts one UTF-16 code unit, or two (a surrogate pair) when it lies at or above U+10000. |
| JsString.Utf16LengthAppend | lib/srt.ts:19 | `(a + b).length` is `a.length + b.length`; with the single-character case this makes `text.length` the sum of its characters' code units. |
| JsString.Utf16LengthOfBmpText | lib/srt.ts:19 | For text made only of Basic Multilingual Plane characters, `text.length` equals the number of characters. |
| JsString.MatchLength | app/translate/page.client.tsx:139 | The regex matches at the head of a string exactly when one of `\r\n\r\n` or `\n\n` is there. The match then consumes exactly that delimiter. |
| JsString.NoMatchAtOrdinaryChar | app/translate/page.client.tsx:139 | No delimiter match starts at a character other than CR or LF. |
| JsString.Split | app/translate/page.client.tsx:139 | `chunk.split(/\r\n\r\n\|\n\n/)` returns one more piece than the delimiters it consumes, and the pieces interleaved with those delimiters rebuild the chunk. |
| JsString.SplitJoin | app/translate/page.client.tsx:139 | `split` loses nothing. Each consumed delimiter is one of the two blank-line forms, there is one more piece than delimiters, and interleaving them rebuilds the input. |
| JsString.SplitPiecesHaveNoDelimiter | app/translate/page.client.tsx:139 | No piece `split` returns contains `\n\n` or `\r\n\r\n`. |
| JsString.SplitFirstPiece | app/translate/page.client.tsx:139 | The first piece is the longest prefix with no match in it. The split either continues right after the leftmost match or, with no match, returns the whole input as its only piece. |
| JsString.TrimStart | app/translate/page.client.tsx:142 | The result is a suffix of the input. Everything dropped is white space, and the result is empty or starts with a visible character. |
| JsString.TrimEnd | app/translate/page.client.tsx:142 | The result is a prefix of the input. Everything dropped is white space, and the result is empty or ends with a visible character. |
| JsString.Trim | app/translate/page.client.tsx:142 | `segment.trim()` is a slice of the segment with only white space outside it. It starts and ends with a visible character when it is not empty, and it is empty exactly when the segment holds no character other than white space, which is the test `segment.trim().length` makes. |
| Srt.NumTokens | lib/srt.ts:18-20 | The estimate is the least n with 4·n ≥ `text.length`, i.e. the length divided by four rounded up. |
| Srt.FitKeepsInvariant | lib/srt.ts:25-27 | Admitting a segment through the fits test keeps the loop invariant. The groups still concatenate to the processed prefix, stay chained, and the count is the open group's running count. |
| Srt.OverflowKeepsInvariant | lib/srt.ts:28-31 | Closing the open group and opening one with the overflowing segment keeps the loop invariant. |
| Srt.StepKeepsInvariant | lib/srt.ts:22-32 | One loop iteration keeps the invariant, for a processed prefix one segment longer. |
| Srt.FoldKeepsInvariant | lib/srt.ts:22-33 | The whole loop keeps the invariant from the initial state. |
| Srt.CloseIsWellBatched | lib/srt.ts:35-39 | The final flush turns a state satisfying the invariant into a well-formed batching of all segments. |
| Srt.Batches | lib/srt.ts:10-40 | The result concatenates back to the input and its last group is non-empty. Only group 0 may be empty. Every member admitted by the fits test fitted. Every later group was opened because its first segment overflowed the group before it. |
| Srt.GroupSegmentsByTokenLength | lib/srt.ts:10-40 | The loop as written returns exactly `Batches`, so the same characterisation holds of it. |
| SrtProperties.FoldSnoc | lib/srt.ts:22-33 | Running the loop over one more segment is one more iteration after the loop over the prefix. |
| SrtProperties.WellBatchedIsUnique | lib/srt.ts:10-40 | The characterisation is exact: any grouping that is well-batched for the segments and budget is the batcher's output. |
| SrtProperties.BatchesPartitionInput | lib/srt.ts:22-39 | Concatenating the groups in order gives back the input, with no loss, duplication or reordering. |
| SrtProperties.NoGroupsIffNoSegments | lib/srt.ts:14-39 | There are no groups exactly when there are no segments. |
| SrtProperties.EmptyGroupOnlyFirst | lib/srt.ts:25-37 | Only group 0 can be empty. It is empty exactly when there is a first segment and its estimate alone exceeds the budget. |
| SrtProperties.OversizedStandsAlone | lib/srt.ts:25-31 | A segment whose estimate exceeds the budget is the only member of its group, and that group is not group 0. |
| SrtProperties.SecondMemberFits | lib/srt.ts:25-31 | In a group opened on overflow, the first two members' estimates together fit in the budget. |
| SrtProperties.GroupWithinBudget | lib/srt.ts:25-31 | Within a group of k members with estimate sum S, S + k − 2 ≤ budget when k ≥ 2. For a group opened at count 0 with k ≥ 1, S + k − 1 ≤ budget. |
| SrtProperties.GroupTokenBounds | lib/srt.ts:25-31 | Across the output, the bounds above hold for every group. No group's estimate sum exceeds the budget except a single oversized segment. |
| SrtProperties.NewGroupOnlyOnOverflow | lib/srt.ts:25-31 | Each group after the first starts with a segment whose estimate overflowed the previous group's running count. That count is the estimate sum plus one per member admitted by the fits test. |
| SrtProperties.DelimiterSlackExample | lib/srt.ts:27-31 | Three 40-character segments under a budget of 20 give `[[a], [b, c]]`. The second group's estimates plus its one delimiter come to 21. |
| SrtCorrected.EmptyFirstGroupExample | lib/srt.ts:28-31 | As written, a single 12-character segment under a budget of 2 yields `[[], [seg]]`. |
| SrtCorrected.GuardedStepStrips | lib/srt.ts:28-31 | Guarding the overflow push commutes with one iteration, once the empty leading group is removed. |
| SrtCorrected.GuardedFoldStrips | lib/srt.ts:22-33 | The guarded loop equals the as-written loop with the empty leading group removed. |
| SrtCorrected.GuardedBatchesAgree | lib/srt.ts:28-37 | The guarded batcher's result is the as-written result with its empty leading group, if any, removed. |
| SrtCorrected.DropLeadingEmptyOfBatches | lib/srt.ts:28-37 | Removing the empty leading group leaves a partition of the input into non-empty groups. |
| SrtCorrected.GuardedBatches | lib/srt.ts:28-37 | The corrected batcher returns non-empty groups that concatenate back to the input. It agrees with the as-written batcher except for the empty leading group. |
| StreamReader.Visible | app/translate/page.client.tsx:141-147 | The kept pieces are pieces of the input that hold a visible character, and every input piece that holds one is kept. |
| StreamReader.VisibleAppend | app/translate/page.client.tsx:141-147 | Keeping distributes over concatenation: the pieces kept from `a + b` are those kept from `a` followed by those kept from `b`, so the kept pieces are in input order. |
| StreamReader.VisibleSnoc | app/translate/page.client.tsx:141-147 | One more piece adds itself at the end of the kept pieces when it holds a visible character, and adds nothing otherwise. |
| StreamReader.NonEmpty | app/translate/page.client.tsx:139 | After `filter(Boolean)` no piece is empty, and the loop keeps the same pieces, in the same order, as it would without the filter. |
| StreamReader.ProcessSegments | app/translate/page.client.tsx:141-147 | The inner loop extends the state by exactly the pieces that hold a visible character, in order. |
| StreamReader.AppendSegments | app/translate/page.client.tsx:141-147 | The inner loop as written computes the same extension. |
| StreamReader.ProcessRead | app/translate/page.client.tsx:136-147 | One read extends the state by the blocks it keeps after splitting and filtering. |
| StreamReader.ProcessReads | app/translate/page.client.tsx:133-148 | The outer loop extends the state by the kept blocks of every read, in arrival order and split order. |
| StreamReader.HandleStream | app/translate/page.client.tsx:118-151 | With no body, nothing is returned. Otherwise `content` is every kept block followed by a blank line. The translated SRT grows by exactly `content`, and the chunk list grows by exactly the kept blocks, in order. |
| StreamReader.HandleStreamLoop | app/translate/page.client.tsx:133-150 | The `while (!doneReading)` loop as written, including the final empty read, computes the same three results. |
| StreamReader.EmptyReadKeepsNothing | app/translate/page.client.tsx:136-139 | A read that decodes to `""` yields no block. |
| StreamReader.EmptyReadChangesNothing | app/translate/page.client.tsx:134-147 | A read that decodes to `""`, such as the final `done` read, leaves all three accumulators unchanged. |
| StreamReader.BlankPieceContributesNothing | app/translate/page.client.tsx:142 | A piece that is empty or only white space changes nothing. |
| StreamReader.KeptBlocksAreClean | app/translate/page.client.tsx:139-142 | Every kept block holds a visible character and contains neither `\n\n` nor `\r\n\r\n`. |
| StreamReader.TerminatedEndsWithBlankLine | app/translate/page.client.tsx:143 | The blank-line-terminated concatenation of blocks is empty exactly when there are no blocks, and otherwise ends with `\n\n`. |
| StreamReader.ContentEndsWithBlankLine | app/translate/page.client.tsx:142-150 | The returned `content` is empty exactly when no read kept a block. A non-empty `content` ends with `\n\n`. |
| StreamReader.StraddlingBlockSplits | app/translate/page.client.tsx:133-148 | Reads are split independently. A block arriving as `"Hel"` then `"lo\n\n"` becomes the two chunks `"Hel"` and `"lo"`. |

## Left out

- `parseStreamedResponse` (lib/srt.ts:43-97): server-sent-event framing and streaming JSON re-assembly are done by foreign libraries whose behaviour is not visible here.
- The unused `google` import (lib/srt.ts:4): it has no behaviour.
- `parseChunk` (app/translate/page.client.tsx:127-131): it calls `parseSegment` and `parseTimestamp` from lib/client, which is not part of this model. A translated chunk is modelled as the kept piece of text it would be parsed from.
- UTF-8 decoding by `TextDecoder` (app/translate/page.client.tsx:125, 136): reads are modelled as already-decoded strings. A multi-byte character split across two reads is not modelled.
- A `reader.read()` that rejects, for example when the stream errors mid-response (app/translate/page.client.tsx:134), is not modelled. `handleStream` then throws, its `content` is lost, and the page state keeps what was already appended. `HandleStream` models only streams whose every read succeeds.
- Asynchrony of `reader.read()`: the reads are a given sequence of strings. The response body is an `Option` of that sequence.
- React state: `setTranslatedSrt` and `setTranslatedChunks` become fields of the accumulator, applied in order.
- Network, DOM and UI code (`fetchContent`, `submit`, download, scroll handling, effects, JSX), `ProgressBar`/`formatPercent` (floating point), and `classNames` (untyped truthiness): these are plumbing, not logic.
- JsString.Split and JsString.Trim work on Unicode scalar values, whereas JavaScript works on UTF-16 code units. This gives the same pieces, because both delimiters and every white-space character lie in the Basic Multilingual Plane and never inside a surrogate pair. Only `text.length` needs code units, and `Utf16Length` counts them.
- Srt.Batches takes the budget `length` as an unbounded integer, whereas JavaScript numbers are doubles. A fractional budget behaves as its floor, since every count it is compared with is an integer. A NaN budget fails every test at lib/srt.ts:25, which gives `[[], [s1], [s2], …]` and is not modelled. Overflow of the running count is not modelled either.

## Findings

| source | as written | input that shows it | evidently intended | confidence | as-written member | corrected member |
|---|---|---|---|---|---|---|
| lib/srt.ts:28-31 | On overflow, the open group is pushed even when it is still empty. | One segment with a 12-character text (3 tokens) under a budget of 2 gives `[[], [seg]]`. | Guard the push with the same non-emptiness test as the final flush (lib/srt.ts:35-37), so that every group is non-empty. | medium, not executed | SrtCorrected.EmptyFirstGroupExample | SrtCorrected.GuardedBatches |
