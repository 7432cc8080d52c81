/** Mapping instruction offsets back to source positions.

    The tables are appended to while code is emitted and searched by halving; both are
    compared with the plain reading of the emission history. */
module Positions {

  datatype LineInfo = LineInfo(instructionOffset: nat, lineNumber: int)

  const MAX_OFFSET := 0x7F           // (1 << 7) - 1
  const MAX_DIVOT := 0x1FF_FFFF      // (1 << 25) - 1
  const TWO_TO_THE_32 := 0x1_0000_0000

  /** Bit fields of 25, 25, 7 and 7 bits. */
  datatype ExpressionRangeInfo = ExpressionRangeInfo(instructionOffset: nat, divotPoint: nat, startOffset: nat, endOffset: nat)

  // ------------------------------------------------------------------ lines

  predicate LinesSorted(s: seq<LineInfo>) {
    forall i, j | 0 <= i < j < |s| :: s[i].instructionOffset <= s[j].instructionOffset
  }

  /** The line in force at `offset`: that of the last record at or before it. */
  function LineAt(s: seq<LineInfo>, firstLine: int, offset: nat): int {
    if s == [] then firstLine
    else if s[|s| - 1].instructionOffset <= offset then s[|s| - 1].lineNumber
    else LineAt(s[..|s| - 1], firstLine, offset)
  }

  /** A record is only kept when the line changes. */
  function RecordLine(s: seq<LineInfo>, info: LineInfo): seq<LineInfo> {
    if s == [] || s[|s| - 1].lineNumber != info.lineNumber then s + [info] else s
  }

  function RecordLines(visits: seq<LineInfo>): seq<LineInfo> {
    if visits == [] then [] else RecordLine(RecordLines(visits[..|visits| - 1]), visits[|visits| - 1])
  }

  lemma {:induction false} RecordLinesShape(visits: seq<LineInfo>)
    requires LinesSorted(visits)
    ensures var s := RecordLines(visits);
      && LinesSorted(s)
      && (visits == [] <==> s == [])
      && (s != [] ==> s[|s| - 1].lineNumber == visits[|visits| - 1].lineNumber)
      && (forall k | 0 <= k < |s| :: s[k].instructionOffset <= visits[|visits| - 1].instructionOffset)
  {
    if visits != [] {
      var before := visits[..|visits| - 1];
      RecordLinesShape(before);
      assert RecordLines(visits) == RecordLine(RecordLines(before), visits[|visits| - 1]);
    }
  }

  lemma RecordLineKeepsLine(s: seq<LineInfo>, last: LineInfo, firstLine: int, offset: nat)
    requires forall k | 0 <= k < |s| :: s[k].instructionOffset <= last.instructionOffset
    ensures LineAt(RecordLine(s, last), firstLine, offset) ==
            if last.instructionOffset <= offset then last.lineNumber else LineAt(s, firstLine, offset)
  {
    assert (s + [last])[..|s|] == s;
  }

  /** Dropping records that repeat the line loses nothing. */
  lemma {:induction false} RecordLinesKeepsLines(visits: seq<LineInfo>, firstLine: int, offset: nat)
    requires LinesSorted(visits)
    ensures LineAt(RecordLines(visits), firstLine, offset) == LineAt(visits, firstLine, offset)
  {
    if visits != [] {
      var before, last := visits[..|visits| - 1], visits[|visits| - 1];
      RecordLinesKeepsLines(before, firstLine, offset);
      RecordLinesShape(before);
      assert RecordLines(visits) == RecordLine(RecordLines(before), last);
      hide RecordLine, RecordLines;
      RecordLineKeepsLine(RecordLines(before), last, firstLine, offset);
    }
  }

  lemma {:induction false} LineAtIsLast(s: seq<LineInfo>, firstLine: int, offset: nat, low: nat)
    requires low <= |s|
    requires forall k | 0 <= k < low :: s[k].instructionOffset <= offset
    requires forall k | low <= k < |s| :: s[k].instructionOffset > offset
    ensures LineAt(s, firstLine, offset) == if low == 0 then firstLine else s[low - 1].lineNumber
    decreases |s|
  {
    if low < |s| {
      LineAtIsLast(s[..|s| - 1], firstLine, offset, low);
    }
  }

  /** The first `n` records, and no others, are at or before `offset`. */
  ghost predicate BegunBy(s: seq<LineInfo>, offset: nat, n: nat) {
    && n <= |s| && (forall k | 0 <= k < n :: s[k].instructionOffset <= offset)
    && (forall k | n <= k < |s| :: s[k].instructionOffset > offset)
  }

  lemma BegunIsLast(s: seq<LineInfo>, firstLine: int, offset: nat)
    ensures forall n | BegunBy(s, offset, n) :: LineAt(s, firstLine, offset) == if n == 0 then firstLine else s[n - 1].lineNumber
  {
    hide LineAt;
    forall n | BegunBy(s, offset, n) ensures LineAt(s, firstLine, offset) == if n == 0 then firstLine else s[n - 1].lineNumber {
      LineAtIsLast(s, firstLine, offset, n);
    }
  }

  method LineNumberForOffset(lineInfo: seq<LineInfo>, firstLine: int, instructionOffset: nat) returns (line: int)
    requires LinesSorted(lineInfo)
    ensures line == LineAt(lineInfo, firstLine, instructionOffset)
  {
    if |lineInfo| == 0 {
      return firstLine;
    }
    var low, high := 0, |lineInfo|;
    while low < high
      invariant 0 <= low <= high <= |lineInfo|
      invariant forall k | 0 <= k < low :: lineInfo[k].instructionOffset <= instructionOffset
      invariant forall k | high <= k < |lineInfo| :: lineInfo[k].instructionOffset > instructionOffset
    {
      var mid := low + (high - low) / 2;
      if lineInfo[mid].instructionOffset <= instructionOffset {
        low := mid + 1;
      } else {
        high := mid;
      }
    }
    LineAtIsLast(lineInfo, firstLine, instructionOffset, low);
    if low == 0 {
      return firstLine;
    }
    return lineInfo[low - 1].lineNumber;
  }

  // ------------------------------------------------------------ expressions

  type uint32 = n: nat | n < TWO_TO_THE_32

  /** An expression as the parser sees it: absolute divot, extents to both sides. */
  datatype Expression = Expression(offset: nat, divot: uint32, start: nat, end: nat)

  datatype Range = Range(divot: nat, start: nat, end: nat)

  /** The divot lies less than 2^25 characters into the source. */
  predicate Near(e: Expression, sourceOffset: uint32) {
    (e.divot - sourceOffset) % TWO_TO_THE_32 <= MAX_DIVOT
  }

  /** What can be recovered of an expression: an extent that does not fit is lost, and so
      is what is stored after it; a far divot loses everything. */
  function Recovered(e: Expression, sourceOffset: uint32): Range {
    Range(if Near(e, sourceOffset) then e.divot else sourceOffset,
          if Near(e, sourceOffset) && e.start <= MAX_OFFSET then e.start else 0,
          if Near(e, sourceOffset) && e.start <= MAX_OFFSET && e.end <= MAX_OFFSET then e.end else 0)
  }

  predicate IsExtentOf(range: Range, e: Expression) {
    range.divot == e.divot && range.start == e.start && range.end == e.end
  }

  /** An expression is recovered whole exactly when all of it fits; otherwise the end goes
      first, then the start, then the divot. */
  lemma RecoveredWholeIff(e: Expression, sourceOffset: uint32)
    ensures var range := Recovered(e, sourceOffset);
      && (IsExtentOf(range, e) <==> Near(e, sourceOffset) && e.start < 0x80 && e.end < 0x80)
      && (Near(e, sourceOffset) ==> range.divot == e.divot)
      && (Near(e, sourceOffset) && e.start < 0x80 ==> range.start == e.start)
  {
  }

  /** What a record says. */
  function Shown(info: ExpressionRangeInfo, sourceOffset: uint32): Range {
    Range((info.divotPoint + sourceOffset) % TWO_TO_THE_32, info.startOffset, info.endOffset)
  }

  /** The fields fit their bits. */
  predicate Fits(info: ExpressionRangeInfo) {
    info.instructionOffset <= MAX_DIVOT && info.divotPoint <= MAX_DIVOT && info.startOffset <= MAX_OFFSET && info.endOffset <= MAX_OFFSET
  }

  /** The record kept for an expression; values that do not fit are dropped. */
  function Clamp(e: Expression, sourceOffset: uint32): ExpressionRangeInfo {
    var divot := (e.divot - sourceOffset) % TWO_TO_THE_32;
    var offset := e.offset % (MAX_DIVOT + 1);
    if divot > MAX_DIVOT then ExpressionRangeInfo(offset, 0, 0, 0)
    else if e.start > MAX_OFFSET then ExpressionRangeInfo(offset, divot, 0, 0)
    else if e.end > MAX_OFFSET then ExpressionRangeInfo(offset, divot, e.start, 0)
    else ExpressionRangeInfo(offset, divot, e.start, e.end)
  }

  /** The record fits its bits, says all that can be recovered of the expression, and has
      the expression's offset exactly if that fits too. */
  method RangeInfo(instructionOffset: nat, divotPoint: uint32, startOffset: nat, endOffset: nat, sourceOffset: uint32) returns (info: ExpressionRangeInfo)
    ensures Fits(info)
    ensures Shown(info, sourceOffset) == Recovered(Expression(instructionOffset, divotPoint, startOffset, endOffset), sourceOffset)
    ensures info.instructionOffset == instructionOffset <==> instructionOffset <= MAX_DIVOT
    ensures (instructionOffset - info.instructionOffset) % (MAX_DIVOT + 1) == 0
  {
    var divot, start, end := (divotPoint - sourceOffset) % TWO_TO_THE_32, startOffset, endOffset;
    if divot > MAX_DIVOT {
      divot, start, end := 0, 0, 0;
    } else if start > MAX_OFFSET {
      start, end := 0, 0;
    } else if end > MAX_OFFSET {
      end := 0;
    }
    info := ExpressionRangeInfo(instructionOffset % (MAX_DIVOT + 1), divot, start, end);
    AddBack(divotPoint, sourceOffset);
  }

  lemma AddBack(divot: uint32, sourceOffset: uint32)
    ensures ((divot - sourceOffset) % TWO_TO_THE_32 + sourceOffset) % TWO_TO_THE_32 == divot
  {
    if divot < sourceOffset {
      assert (divot - sourceOffset) % TWO_TO_THE_32 == divot - sourceOffset + TWO_TO_THE_32;
    } else {
      assert (divot - sourceOffset) % TWO_TO_THE_32 == divot - sourceOffset;
    }
  }

  lemma ClampRecovered(e: Expression, sourceOffset: uint32)
    ensures var info := Clamp(e, sourceOffset);
      Fits(info) && Shown(info, sourceOffset) == Recovered(e, sourceOffset)
  {
    AddBack(e.divot, sourceOffset);
  }

  /** There is only one such record. */
  lemma ClampIs(e: Expression, sourceOffset: uint32, info: ExpressionRangeInfo)
    requires Fits(info) && Shown(info, sourceOffset) == Recovered(e, sourceOffset)
    requires (e.offset - info.instructionOffset) % (MAX_DIVOT + 1) == 0
    ensures info == Clamp(e, sourceOffset)
  {
    ClampRecovered(e, sourceOffset);
    var record := Clamp(e, sourceOffset);
    SameSum(info.divotPoint, record.divotPoint, sourceOffset);
  }

  lemma SameSum(a: nat, b: nat, c: uint32)
    requires a <= MAX_DIVOT && b <= MAX_DIVOT && (a + c) % TWO_TO_THE_32 == (b + c) % TWO_TO_THE_32
    ensures a == b
  {
  }

  predicate RangesSorted(s: seq<ExpressionRangeInfo>) {
    forall i, j | 0 <= i < j < |s| :: s[i].instructionOffset <= s[j].instructionOffset
  }

  predicate ExpressionsSorted(s: seq<Expression>) {
    forall i, j | 0 <= i < j < |s| :: s[i].offset <= s[j].offset
  }

  function ClampAll(s: seq<Expression>, sourceOffset: uint32): (r: seq<ExpressionRangeInfo>)
    ensures |r| == |s| && forall k :: 0 <= k < |s| ==> r[k] == Clamp(s[k], sourceOffset)
  {
    seq(|s|, k requires 0 <= k < |s| => Clamp(s[k], sourceOffset))
  }

  /** The expression in force at `offset`, if any: the last one at or before it. */
  function ExpressionAt(s: seq<Expression>, offset: nat): (k: int)
    ensures -1 <= k < |s|
    ensures k >= 0 ==> s[k].offset <= offset
    ensures forall j | k < j < |s| :: s[j].offset > offset
  {
    if s == [] then -1
    else if s[|s| - 1].offset <= offset then |s| - 1
    else ExpressionAt(s[..|s| - 1], offset)
  }

  lemma ExpressionAtIs(s: seq<Expression>, offset: nat, low: nat)
    requires low <= |s|
    requires forall k | 0 <= k < low :: s[k].offset <= offset
    requires forall k | low <= k < |s| :: s[k].offset > offset
    ensures ExpressionAt(s, offset) == low - 1
  {
    var k := ExpressionAt(s, offset);
    if k >= 0 { assert s[k].offset <= offset; }
    if low > 0 { assert s[low - 1].offset <= offset; }
  }

  /** Where halving ends, in a table that need not be sorted. */
  function Halve(s: seq<ExpressionRangeInfo>, offset: nat, low: nat, high: nat): (k: nat)
    requires low <= high <= |s|
    ensures low <= k <= high
    decreases high - low
  {
    if low == high then low
    else
      var mid := low + (high - low) / 2;
      if s[mid].instructionOffset <= offset then Halve(s, offset, mid + 1, high) else Halve(s, offset, low, mid)
  }

  /** The record answered with, if any. */
  function RecordAt(s: seq<ExpressionRangeInfo>, offset: nat): (k: int)
    ensures -1 <= k < |s|
  {
    Halve(s, offset, 0, |s|) - 1
  }

  method ExpressionRangeForOffset(expressionInfo: seq<ExpressionRangeInfo>, sourceOffset: uint32, instructionOffset: nat) returns (range: Range)
    ensures var k := RecordAt(expressionInfo, instructionOffset);
      range == if k < 0 then Range(0, 0, 0) else Shown(expressionInfo[k], sourceOffset)
  {
    if |expressionInfo| == 0 {
      return Range(0, 0, 0);
    }
    var low, high := 0, |expressionInfo|;
    while low < high
      invariant 0 <= low <= high <= |expressionInfo|
      invariant Halve(expressionInfo, instructionOffset, low, high) == Halve(expressionInfo, instructionOffset, 0, |expressionInfo|)
    {
      var mid := low + (high - low) / 2;
      if expressionInfo[mid].instructionOffset <= instructionOffset {
        low := mid + 1;
      } else {
        high := mid;
      }
    }
    if low == 0 {
      return Range(0, 0, 0);
    }
    var info := expressionInfo[low - 1];
    return Range((info.divotPoint + sourceOffset) % TWO_TO_THE_32, info.startOffset, info.endOffset);
  }

  lemma HalveStep(s: seq<ExpressionRangeInfo>, offset: nat, low: nat, high: nat)
    requires low <= high <= |s|
    ensures low == high ==> Halve(s, offset, low, high) == low
    ensures low < high ==>
      var mid := low + (high - low) / 2;
      && low <= mid < high
      && Halve(s, offset, low, high) == if s[mid].instructionOffset <= offset then Halve(s, offset, mid + 1, high) else Halve(s, offset, low, mid)
  {
  }

  lemma {:induction false} HalveFinds(s: seq<ExpressionRangeInfo>, offset: nat, low: nat, high: nat)
    requires low <= high <= |s| && RangesSorted(s)
    requires forall k | 0 <= k < low :: s[k].instructionOffset <= offset
    requires forall k | high <= k < |s| :: s[k].instructionOffset > offset
    ensures var k := Halve(s, offset, low, high);
      (forall j | 0 <= j < k :: s[j].instructionOffset <= offset) && (forall j | k <= j < |s| :: s[j].instructionOffset > offset)
    decreases high - low
  {
    hide Halve;
    HalveStep(s, offset, low, high);
    if low < high {
      var mid := low + (high - low) / 2;
      if s[mid].instructionOffset <= offset {
        forall k | 0 <= k < mid + 1 ensures s[k].instructionOffset <= offset {
          assert k < mid ==> s[k].instructionOffset <= s[mid].instructionOffset;
        }
        HalveFinds(s, offset, mid + 1, high);
      } else {
        forall k | mid <= k < |s| ensures s[k].instructionOffset > offset {
          assert mid < k ==> s[mid].instructionOffset <= s[k].instructionOffset;
        }
        HalveFinds(s, offset, low, mid);
      }
    }
  }

  predicate OffsetsUpTo(s: seq<Expression>, n: nat) {
    forall k | 0 <= k < |s| :: s[k].offset <= n
  }

  /** The truncated table answers with the expression in force. */
  predicate LookupRight(s: seq<Expression>, sourceOffset: uint32, offset: nat) {
    RecordAt(ClampAll(s, sourceOffset), offset) == ExpressionAt(s, offset)
  }

  lemma ShortStream(s: seq<Expression>, sourceOffset: uint32, offset: nat)
    requires ExpressionsSorted(s) && OffsetsUpTo(s, MAX_DIVOT)
    ensures RangesSorted(ClampAll(s, sourceOffset)) && LookupRight(s, sourceOffset, offset)
  {
    var r := ClampAll(s, sourceOffset);
    assert forall k | 0 <= k < |s| :: r[k].instructionOffset == s[k].offset;
    hide Clamp;
    HalveFinds(r, offset, 0, |r|);
    ExpressionAtIs(s, offset, Halve(r, offset, 0, |r|));
  }

  /** One record past 2^25 words is answered with where nothing has been noted yet. */
  lemma LongStreamMisread(sourceOffset: uint32)
    ensures var s := [Expression(MAX_DIVOT + 1, 5, 0, 0)];
      ExpressionAt(s, 0) == -1 && RecordAt(ClampAll(s, sourceOffset), 0) == 0
  {
    var s := [Expression(MAX_DIVOT + 1, 5, 0, 0)];
    ExpressionAtIs(s, 0, 0);
    assert ClampAll(s, sourceOffset)[0].instructionOffset == 0;
  }

  /** Two records there come out unsorted. */
  lemma LongStreamUnsorted(sourceOffset: uint32)
    ensures var s := [Expression(1, 0, 0, 0), Expression(MAX_DIVOT + 1, 0, 0, 0)];
      ExpressionsSorted(s) && !RangesSorted(ClampAll(s, sourceOffset))
  {
    var s := [Expression(1, 0, 0, 0), Expression(MAX_DIVOT + 1, 0, 0, 0)];
    assert ClampAll(s, sourceOffset)[0].instructionOffset > ClampAll(s, sourceOffset)[1].instructionOffset;
  }

  /** Streams of up to `n` words are looked up rightly, at every offset and whatever was
      noted, exactly if `n` is below 2^25; only then do their tables stay sorted. */
  lemma LookupRightIff(n: nat)
    ensures (forall s, sourceOffset, offset | ExpressionsSorted(s) && OffsetsUpTo(s, n) :: LookupRight(s, sourceOffset, offset)) <==> n <= MAX_DIVOT
    ensures (forall s, sourceOffset | ExpressionsSorted(s) && OffsetsUpTo(s, n) :: RangesSorted(ClampAll(s, sourceOffset))) <==> n <= MAX_DIVOT
  {
    hide Clamp, Halve, LookupRight;
    if n <= MAX_DIVOT {
      forall s, sourceOffset, offset | ExpressionsSorted(s) && OffsetsUpTo(s, n)
        ensures LookupRight(s, sourceOffset, offset) && RangesSorted(ClampAll(s, sourceOffset))
      {
        assert OffsetsUpTo(s, MAX_DIVOT);
        ShortStream(s, sourceOffset, offset);
      }
      forall s, sourceOffset | ExpressionsSorted(s) && OffsetsUpTo(s, n) ensures RangesSorted(ClampAll(s, sourceOffset)) {
        assert LookupRight(s, sourceOffset, 0);
      }
    } else {
      var s, t := [Expression(MAX_DIVOT + 1, 5, 0, 0)], [Expression(1, 0, 0, 0), Expression(MAX_DIVOT + 1, 0, 0, 0)];
      LongStreamMisread(0);
      LongStreamUnsorted(0);
      Misread(s);
      assert ExpressionsSorted(s) && OffsetsUpTo(s, n) && OffsetsUpTo(t, n);
    }
  }

  lemma Misread(s: seq<Expression>)
    requires RecordAt(ClampAll(s, 0), 0) != ExpressionAt(s, 0)
    ensures !LookupRight(s, 0, 0)
  {
  }
}
