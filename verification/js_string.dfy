/** The three JavaScript string operations the core relies on, stated over
    Dafny strings (sequences of Unicode scalar values):
    - `String.prototype.length`, which counts UTF-16 code units;
    - `String.prototype.split(/\r\n\r\n|\n\n/)`, the blank-line splitter;
    - `String.prototype.trim`, which strips white space and line terminators.
 */
module JsString {

  /** Code point of a character. */
  function CodePoint(c: char): nat {
    c as int
  }

  // ---------------------------------------------------------------------------
  // length

  /** Number of UTF-16 code units that encode `c`: characters outside the
      Basic Multilingual Plane take a surrogate pair. */
  function CodeUnits(c: char): nat {
    if CodePoint(c) >= 0x1_0000 then 2 else 1
  }

  /** JavaScript's `s.length`. */
  function Utf16Length(s: string): (n: nat)
    ensures |s| <= n <= 2 * |s|
  {
    if |s| == 0 then 0 else CodeUnits(s[0]) + Utf16Length(s[1..])
  }

  /** A single character is one code unit, or a surrogate pair of two when
      it lies outside the Basic Multilingual Plane. */
  lemma Utf16LengthOfChar(c: char)
    ensures Utf16Length([c]) == (if CodePoint(c) < 0x1_0000 then 1 else 2)
  {
    assert [c][1..] == [];
  }

  /** The length of a concatenation is the sum of the lengths; with
      `Utf16LengthOfChar` this fixes `s.length` as the per-character sum. */
  lemma {:induction false} Utf16LengthAppend(a: string, b: string)
    ensures Utf16Length(a + b) == Utf16Length(a) + Utf16Length(b)
    decreases |a|
  {
    if |a| > 0 {
      Utf16LengthAppend(a[1..], b);
      assert (a + b)[1..] == a[1..] + b;
    } else {
      assert a + b == b;
    }
  }

  /** Text made only of Basic Multilingual Plane characters has one code unit
      per character. */
  lemma {:induction false} Utf16LengthOfBmpText(s: string)
    requires forall i :: 0 <= i < |s| ==> CodePoint(s[i]) < 0x1_0000
    ensures Utf16Length(s) == |s|
  {
    if |s| > 0 {
      assert forall i :: 0 <= i < |s[1..]| ==> s[1..][i] == s[i + 1];
      Utf16LengthOfBmpText(s[1..]);
    }
  }

  // ---------------------------------------------------------------------------
  // split(/\r\n\r\n|\n\n/)

  const CrLfBlank: string := "\r\n\r\n"
  const LfBlank: string := "\n\n"

  /** `pat` occurs in `s` starting at index `i`. */
  predicate OccursAt(s: string, pat: string, i: int) {
    0 <= i && i + |pat| <= |s| && s[i..i + |pat|] == pat
  }

  ghost predicate Contains(s: string, pat: string) {
    exists i :: OccursAt(s, pat, i)
  }

  /** One of the two alternatives of the regular expression matches at `i`. */
  predicate DelimiterAt(s: string, i: int) {
    OccursAt(s, CrLfBlank, i) || OccursAt(s, LfBlank, i)
  }

  /** Length of the match the regular expression makes at the head of `s`:
      the alternatives are tried left to right, 0 when neither matches. The
      two cannot both match, since one starts with CR and the other with LF. */
  function MatchLength(s: string): (n: nat)
    ensures n == 0 <==> !DelimiterAt(s, 0)
    ensures n > 0 ==> n <= |s| && s[..n] in {CrLfBlank, LfBlank}
  {
    if OccursAt(s, CrLfBlank, 0) then 4
    else if OccursAt(s, LfBlank, 0) then 2
    else 0
  }

  /** No match can start at a character other than CR or LF. */
  lemma NoMatchAtOrdinaryChar(s: string)
    requires |s| > 0 && s[0] != '\r' && s[0] != '\n'
    ensures MatchLength(s) == 0
  {
    if |s| >= 2 {
      assert s[..2][0] == s[0];
    }
    if |s| >= 4 {
      assert s[..4][0] == s[0];
    }
  }

  /** The scanner of `split`: `piece` is the text gathered since the last
      match; each position of `s` is tried in turn, a match closes the piece,
      and the end of input closes the last one. */
  function SplitFrom(s: string, piece: string): (r: seq<string>)
    ensures |r| >= 1
    decreases |s|
  {
    if |s| == 0 then [piece]
    else if MatchLength(s) > 0 then [piece] + SplitFrom(s[MatchLength(s)..], "")
    else SplitFrom(s[1..], piece + [s[0]])
  }

  /** The delimiters `split` consumes, in order; `split` itself drops them. */
  function DelimitersFrom(s: string): seq<string>
    decreases |s|
  {
    if |s| == 0 then []
    else if MatchLength(s) > 0 then [s[..MatchLength(s)]] + DelimitersFrom(s[MatchLength(s)..])
    else DelimitersFrom(s[1..])
  }

  /** `s.split(/\r\n\r\n|\n\n/)`. On the empty string it gives `[""]`, as
      JavaScript does for a pattern that cannot match the empty string. The
      pieces, interleaved with the delimiters consumed between them, rebuild
      `s`. */
  function Split(s: string): (r: seq<string>)
    ensures |r| == |Delimiters(s)| + 1
    ensures Join(r, Delimiters(s)) == s
  {
    SplitFromJoin(s, "");
    SplitFrom(s, "")
  }

  function Delimiters(s: string): seq<string> {
    DelimitersFrom(s)
  }

  /** Interleaves pieces with the delimiters between them. */
  function Join(pieces: seq<string>, delimiters: seq<string>): string
    requires |pieces| == |delimiters| + 1
  {
    if |delimiters| == 0 then pieces[0]
    else pieces[0] + delimiters[0] + Join(pieces[1..], delimiters[1..])
  }

  /** Every delimiter consumed is one of the two blank-line forms. */
  lemma {:induction false} DelimitersAreBlankLines(s: string)
    ensures forall k :: 0 <= k < |DelimitersFrom(s)| ==> DelimitersFrom(s)[k] in {CrLfBlank, LfBlank}
    decreases |s|
  {
    if |s| == 0 {
    } else if MatchLength(s) > 0 {
      var n := MatchLength(s);
      DelimitersAreBlankLines(s[n..]);
      assert DelimitersFrom(s) == [s[..n]] + DelimitersFrom(s[n..]);
    } else {
      DelimitersAreBlankLines(s[1..]);
    }
  }

  /** Joining a piece and the first `n` characters of `s` in front of a
      join that rebuilds the rest of `s`. */
  lemma JoinCons(s: string, piece: string, n: int, rest: seq<string>, drest: seq<string>)
    requires 0 <= n <= |s|
    requires |rest| == |drest| + 1
    requires Join(rest, drest) == s[n..]
    ensures Join([piece] + rest, [s[..n]] + drest) == piece + s
  {
    assert ([piece] + rest)[1..] == rest && ([s[..n]] + drest)[1..] == drest;
    assert s[..n] + s[n..] == s;
  }

  /** At a match the scanner closes the piece and consumes the delimiter. */
  lemma UnfoldAtMatch(s: string, piece: string)
    requires MatchLength(s) > 0
    ensures SplitFrom(s, piece) == [piece] + SplitFrom(s[MatchLength(s)..], "")
    ensures DelimitersFrom(s) == [s[..MatchLength(s)]] + DelimitersFrom(s[MatchLength(s)..])
  {
  }

  /** The step of `SplitFromJoin` at a match: the piece closes, the
      delimiter is consumed, and the rest is split afresh. */
  lemma JoinAtMatch(s: string, piece: string)
    requires MatchLength(s) > 0
    requires |SplitFrom(s[MatchLength(s)..], "")| == |DelimitersFrom(s[MatchLength(s)..])| + 1
    requires Join(SplitFrom(s[MatchLength(s)..], ""), DelimitersFrom(s[MatchLength(s)..])) == s[MatchLength(s)..]
    ensures |SplitFrom(s, piece)| == |DelimitersFrom(s)| + 1
    ensures Join(SplitFrom(s, piece), DelimitersFrom(s)) == piece + s
  {
    var n := MatchLength(s);
    var rest, drest := SplitFrom(s[n..], ""), DelimitersFrom(s[n..]);
    UnfoldAtMatch(s, piece);
    JoinCons(s, piece, n, rest, drest);
  }

  lemma {:induction false} SplitFromJoin(s: string, piece: string)
    ensures |SplitFrom(s, piece)| == |DelimitersFrom(s)| + 1
    ensures Join(SplitFrom(s, piece), DelimitersFrom(s)) == piece + s
    decreases |s|
  {
    if |s| == 0 {
    } else if MatchLength(s) > 0 {
      SplitFromJoin(s[MatchLength(s)..], "");
      JoinAtMatch(s, piece);
    } else {
      SplitFromJoin(s[1..], piece + [s[0]]);
      assert piece + [s[0]] + s[1..] == piece + s;
    }
  }

  /** Splitting loses nothing: joining the pieces back with the delimiters
      that were consumed, each one of the two blank-line forms, rebuilds the
      input exactly. */
  lemma SplitJoin(s: string)
    ensures |Split(s)| == |Delimiters(s)| + 1
    ensures forall k :: 0 <= k < |Delimiters(s)| ==> Delimiters(s)[k] in {CrLfBlank, LfBlank}
    ensures Join(Split(s), Delimiters(s)) == s
  {
    DelimitersAreBlankLines(s);
  }

  /** No match starts at a position before `n` of `t`. */
  ghost predicate NoMatchBefore(t: string, n: int) {
    forall i :: 0 <= i < n ==> !DelimiterAt(t, i)
  }

  lemma OccursInPrefix(t: string, u: string, pat: string, i: int)
    requires OccursAt(t, pat, i)
    ensures OccursAt(t + u, pat, i)
  {
    assert (t + u)[i..i + |pat|] == t[i..i + |pat|];
  }

  lemma OccursAfterPrefix(t: string, u: string, pat: string)
    ensures OccursAt(t + u, pat, |t|) <==> OccursAt(u, pat, 0)
  {
    if |pat| <= |u| {
      assert (t + u)[|t|..|t| + |pat|] == u[..|pat|];
    }
  }

  lemma {:induction false} SplitFromPiecesHaveNoDelimiter(s: string, piece: string)
    requires NoMatchBefore(piece + s, |piece|)
    ensures forall p :: p in SplitFrom(s, piece) ==> !Contains(p, LfBlank) && !Contains(p, CrLfBlank)
    decreases |s|
  {
    // The current piece has no match: any match inside it would be one in
    // `piece + s` starting before `|piece|`.
    forall i | OccursAt(piece, LfBlank, i) || OccursAt(piece, CrLfBlank, i)
      ensures false
    {
      if OccursAt(piece, LfBlank, i) {
        OccursInPrefix(piece, s, LfBlank, i);
      } else {
        OccursInPrefix(piece, s, CrLfBlank, i);
      }
      assert DelimiterAt(piece + s, i);
    }
    if |s| == 0 {
    } else if MatchLength(s) > 0 {
      SplitFromPiecesHaveNoDelimiter(s[MatchLength(s)..], "");
    } else {
      var t := piece + [s[0]];
      assert t + s[1..] == piece + s;
      forall i | 0 <= i < |t|
        ensures !DelimiterAt(t + s[1..], i)
      {
        if i == |piece| {
          OccursAfterPrefix(piece, s, LfBlank);
          OccursAfterPrefix(piece, s, CrLfBlank);
        }
      }
      SplitFromPiecesHaveNoDelimiter(s[1..], t);
    }
  }

  /** The split consumes every blank line: no piece it returns contains
      `"\n\n"` or `"\r\n\r\n"`. */
  lemma SplitPiecesHaveNoDelimiter(s: string)
    ensures forall p :: p in Split(s) ==> !Contains(p, LfBlank) && !Contains(p, CrLfBlank)
  {
    SplitFromPiecesHaveNoDelimiter(s, "");
  }

  lemma {:induction false} SplitFromFirstPiece(s: string, piece: string)
    requires NoMatchBefore(piece + s, |piece|)
    ensures var first := SplitFrom(s, piece)[0];
      && |piece| <= |first| <= |piece| + |s|
      && first == (piece + s)[..|first|]
      && NoMatchBefore(piece + s, |first|)
      && (|first| < |piece| + |s| ==> DelimiterAt(piece + s, |first|))
      && (|first| < |piece| + |s| ==>
            var rest := (piece + s)[|first|..];
            SplitFrom(s, piece)[1..] == Split(rest[MatchLength(rest)..]))
      && (|first| == |piece| + |s| ==> |SplitFrom(s, piece)| == 1)
    decreases |s|
  {
    if |s| == 0 {
    } else if MatchLength(s) > 0 {
      assert (piece + s)[|piece|..] == s;
      assert (piece + s)[..|piece|] == piece;
    } else {
      var t := piece + [s[0]];
      assert t + s[1..] == piece + s;
      forall i | 0 <= i < |t|
        ensures !DelimiterAt(t + s[1..], i)
      {
        if i == |piece| {
          OccursAfterPrefix(piece, s, LfBlank);
          OccursAfterPrefix(piece, s, CrLfBlank);
        }
      }
      SplitFromFirstPiece(s[1..], t);
    }
  }

  /** The split is the leftmost-first scan: the first piece runs up to the
      first position where a blank line begins (or to the end), and the
      remaining pieces are the split of what follows that blank line. */
  lemma SplitFirstPiece(s: string)
    ensures var first := Split(s)[0];
      && |first| <= |s|
      && first == s[..|first|]
      && NoMatchBefore(s, |first|)
      && (|first| < |s| ==> DelimiterAt(s, |first|))
      && (|first| < |s| ==> Split(s)[1..] == Split(s[|first| + MatchLength(s[|first|..])..]))
      && (|first| == |s| ==> Split(s) == [s])
  {
    SplitFromFirstPiece(s, "");
    assert "" + s == s;
    if |Split(s)[0]| == |s| {
      assert Split(s)[0] == s;
    }
  }

  // ---------------------------------------------------------------------------
  // trim()

  /** The characters `trim` removes: ECMAScript WhiteSpace (tab, vertical
      tab, form feed, byte order mark and the space separators) and
      LineTerminator (LF, CR, line and paragraph separators). */
  predicate IsWhiteSpace(c: char) {
    var n := CodePoint(c);
    || n == 0x09 || n == 0x0B || n == 0x0C || n == 0x20 || n == 0xA0
    || n == 0x1680 || (0x2000 <= n <= 0x200A) || n == 0x202F || n == 0x205F
    || n == 0x3000 || n == 0xFEFF
    || n == 0x0A || n == 0x0D || n == 0x2028 || n == 0x2029
  }

  /** `s` holds some character `trim` keeps. */
  ghost predicate HasVisible(s: string) {
    exists i :: 0 <= i < |s| && !IsWhiteSpace(s[i])
  }

  /** The first index at or after `i` whose character is not white space,
      or `|s|` when there is none. */
  function VisibleFrom(s: string, i: nat): (r: nat)
    requires i <= |s|
    ensures i <= r <= |s|
    ensures forall k :: i <= k < r ==> IsWhiteSpace(s[k])
    ensures r == |s| || !IsWhiteSpace(s[r])
    decreases |s| - i
  {
    if i < |s| && IsWhiteSpace(s[i]) then VisibleFrom(s, i + 1) else i
  }

  /** The end of `s[..j]` once its trailing white space is dropped. */
  function VisibleUntil(s: string, j: nat): (r: nat)
    requires j <= |s|
    ensures r <= j
    ensures forall k :: r <= k < j ==> IsWhiteSpace(s[k])
    ensures r == 0 || !IsWhiteSpace(s[r - 1])
  {
    if j > 0 && IsWhiteSpace(s[j - 1]) then VisibleUntil(s, j - 1) else j
  }

  /** `s.trimStart()`: drops leading white space. */
  function TrimStart(s: string): (r: string)
    ensures |r| <= |s| && r == s[|s| - |r|..]
    ensures forall i :: 0 <= i < |s| - |r| ==> IsWhiteSpace(s[i])
    ensures |r| == 0 || !IsWhiteSpace(r[0])
  {
    s[VisibleFrom(s, 0)..]
  }

  /** `s.trimEnd()`: drops trailing white space. */
  function TrimEnd(s: string): (r: string)
    ensures |r| <= |s| && r == s[..|r|]
    ensures forall i :: |r| <= i < |s| ==> IsWhiteSpace(s[i])
    ensures |r| == 0 || !IsWhiteSpace(r[|r| - 1])
  {
    s[..VisibleUntil(s, |s|)]
  }

  /** Every character of `s` outside `s[lo..hi]` is white space. */
  ghost predicate BlankOutside(s: string, lo: int, hi: int) {
    && (forall k :: 0 <= k < lo && k < |s| ==> IsWhiteSpace(s[k]))
    && (forall k :: hi <= k < |s| && 0 <= k ==> IsWhiteSpace(s[k]))
  }

  /** `r` is the slice of `s` starting at `i`, with only white space
      around it. */
  ghost predicate TrimmedAt(s: string, r: string, i: int) {
    && 0 <= i && i + |r| <= |s|
    && r == s[i..i + |r|]
    && BlankOutside(s, i, i + |r|)
  }

  /** A slice with only white space around it that starts with a visible
      character, if it is not empty, is empty exactly when the whole string
      has no visible character. */
  lemma SliceVisible(s: string, r: string, i: int)
    requires TrimmedAt(s, r, i)
    requires |r| == 0 || !IsWhiteSpace(r[0])
    ensures |r| > 0 <==> HasVisible(s)
  {
    if |r| > 0 {
      assert s[i] == r[0];
    }
  }

  /** `s.trim()`: the slice of `s` left after dropping white space at both
      ends. It is empty exactly when `s` has no visible character, and
      otherwise starts and ends with one. */
  function Trim(s: string): (r: string)
    ensures |r| > 0 <==> HasVisible(s)
    ensures |r| == 0 || (!IsWhiteSpace(r[0]) && !IsWhiteSpace(r[|r| - 1]))
    ensures exists i :: TrimmedAt(s, r, i)
  {
    var a := TrimStart(s);
    var i := |s| - |a|;
    var n := VisibleUntil(a, |a|);
    assert a[..n] == s[i..i + n];
    assert forall k :: i + n <= k < |s| ==> s[k] == a[k - i];
    assert TrimmedAt(s, a[..n], i);
    SliceVisible(s, a[..n], i);
    TrimEnd(a)
  }
}
