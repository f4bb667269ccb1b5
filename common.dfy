/** Shared pieces of `src/models/common.rs`: the default keyboard layout and
    `buf_trim`, which picks where to cut a terminal output buffer so that only its
    last `max_lines` visual lines are kept. */
module Common {
  import opened Wrappers
  import opened Bytes

  /** `default_layout`: the layout a configuration gets when it names none; the menu
      starts from the same value. */
  const DefaultLayout: string := "qwerty"

  const NEWLINE: Byte := 0x0a
  const ESC: Byte := 0x1b
  const LETTER_M: Byte := 0x6d

  /** The number of columns `UnicodeWidthChar::width` gives a character (with
      `unwrap_or(1)`): 0, 1 or 2. */
  type Width = w: nat | w <= 2

  /** `(b & 0b1100_0000) == 0b1000_0000`: a UTF-8 continuation byte. */
  predicate IsContinuation(b: Byte)
  {
    b / 64 == 2
  }

  /** The inner backtracking loop: from `i`, the nearest index at or before it that is
      0 or holds a byte that is not a continuation byte. */
  function CharStart(buf: seq<Byte>, i: nat): (s: nat)
    requires i < |buf|
    ensures s <= i
    ensures s == 0 || !IsContinuation(buf[s])
    ensures forall j :: s < j <= i ==> IsContinuation(buf[j])
    decreases i
  {
    if i > 0 && IsContinuation(buf[i]) then CharStart(buf, i - 1) else i
  }

  /** `memrchr(b'm', &buf[..=i])`: the last `m` at or before `i`. */
  function LastM(buf: seq<Byte>, i: nat): (r: Option<nat>)
    requires i < |buf|
    ensures r.Some? ==> r.value <= i && buf[r.value] == LETTER_M
    ensures r.Some? ==> forall q :: r.value < q <= i ==> buf[q] != LETTER_M
    ensures r.None? ==> forall q :: 0 <= q <= i ==> buf[q] != LETTER_M
    decreases i
  {
    if buf[i] == LETTER_M then Some(i)
    else if i == 0 then None
    else LastM(buf, i - 1)
  }

  /** The variables of the scan: `i` bytes remain to be scanned (the scan reads
      `buf[i - 1]` next); `lines` visual lines and `col` columns of the current one
      have been counted. `col` is a Rust `u16`; its additions wrap modulo 2^16. */
  datatype Scan = Scan(i: nat, lines: nat, col: nat)

  const U16_MODULUS: nat := 0x1_0000

  /** The `0x20..=0x7e` arm of the match: a printable ASCII byte, one column wide. */
  predicate IsPrintable(b: Byte)
  {
    0x20 <= b <= 0x7e
  }

  /** One iteration of the outer loop of `buf_trim`. A printable byte that fills or
      overfills the line starts a new one (`col >= cols`, keeping the overflow, as
      the wide-character branch does); the source tests `col == cols` there, which
      `StepAsWritten` keeps. The two agree whenever the column is below `cols`. */
  function Step(buf: seq<Byte>, cols: U16, width: seq<Byte> -> Width, st: Scan): (r: Scan)
    requires 0 < st.i <= |buf| && st.col < U16_MODULUS
    ensures r.i < st.i
    ensures r.col < U16_MODULUS
    ensures r.lines == st.lines || r.lines == st.lines + 1
  {
    var i := st.i - 1;
    var b := buf[i];
    if b == NEWLINE then
      Scan(i, st.lines + 1, 0)
    else if IsPrintable(b) then
      var c := (st.col + 1) % U16_MODULUS;
      if c >= cols then Scan(i, st.lines + 1, c - cols) else Scan(i, st.lines, c)
    else if b >= 0x80 then
      var s := CharStart(buf, i);
      var c := (st.col + width(buf[s..i + 1])) % U16_MODULUS;
      if c >= cols then Scan(s, st.lines + 1, if c == cols then 0 else c - cols)
      else Scan(s, st.lines, c)
    else if b == ESC then
      match LastM(buf, i)
      case Some(p) => Scan(if p == 0 then 0 else p - 1, st.lines, st.col)
      case None => Scan(i, st.lines, st.col)
    else
      Scan(i, st.lines, st.col)
  }

  /** The outer loop from state `st` until the buffer is exhausted or `maxLines`
      lines have been counted. */
  function Run(buf: seq<Byte>, cols: U16, maxLines: U32, width: seq<Byte> -> Width, st: Scan): (r: Scan)
    requires st.i <= |buf| && st.col < U16_MODULUS
    ensures r.i <= st.i && r.col < U16_MODULUS
    ensures r.lines >= st.lines
    ensures st.lines <= maxLines ==> r.lines <= maxLines
    ensures r.i == 0 || r.lines >= maxLines
    ensures (st.i == 0 || st.lines >= maxLines) ==> r == st
    decreases st.i
  {
    if st.i > 0 && st.lines < maxLines then Run(buf, cols, maxLines, width, Step(buf, cols, width, st))
    else st
  }

  /** The final state of `buf_trim`: the returned index is at most `buf.len()`, and is
      `buf.len()` for an empty buffer or `max_lines == 0`; at most `max_lines` lines
      are counted, and exactly `max_lines` whenever the cut is not at index 0. */
  function TrimScan(buf: seq<Byte>, cols: U16, maxLines: U32, width: seq<Byte> -> Width): (r: Scan)
    ensures r.i <= |buf|
    ensures (|buf| == 0 || maxLines == 0) ==> r.i == |buf|
    ensures r.lines <= maxLines
    ensures r.i > 0 ==> r.lines == maxLines
  {
    Run(buf, cols, maxLines, width, Scan(|buf|, 0, 0))
  }

  /** The inner loop of `buf_trim`: from the last byte of a multi-byte character back
      to its lead byte (or to index 0). */
  method Backtrack(buf: seq<Byte>, i: nat) returns (start: nat)
    requires i < |buf|
    ensures start == CharStart(buf, i)
    ensures start <= i && (start == 0 || !IsContinuation(buf[start]))
  {
    start := i;
    while start > 0 && IsContinuation(buf[start])
      invariant start <= i
      invariant CharStart(buf, start) == CharStart(buf, i)
      decreases start
    {
      start := start - 1;
    }
  }

  /** The body of the outer loop of `buf_trim`: consume `buf[i - 1]`, the UTF-8
      character ending there, or the stretch back to an earlier `m`. */
  method ScanByte(buf: seq<Byte>, cols: U16, width: seq<Byte> -> Width, i0: nat, lines0: nat, col0: nat)
    returns (i: nat, lines: nat, col: nat)
    requires 0 < i0 <= |buf| && col0 < U16_MODULUS
    ensures Scan(i, lines, col) == Step(buf, cols, width, Scan(i0, lines0, col0))
    ensures i < i0
  {
    i, lines, col := i0 - 1, lines0, col0;
    var b := buf[i];
    if b == NEWLINE {
      lines := lines + 1;
      col := 0;
    } else if IsPrintable(b) {
      col := (col + 1) % U16_MODULUS;
      if col >= cols {
        lines := lines + 1;
        col := col - cols;
      }
    } else if b >= 0x80 {
      var start := Backtrack(buf, i);
      col := (col + width(buf[start..i + 1])) % U16_MODULUS;
      if col >= cols {
        lines := lines + 1;
        col := if col == cols then 0 else col - cols;
      }
      i := start;
    } else if b == ESC {
      var pos := LastM(buf, i);
      if pos.Some? {
        i := if pos.value == 0 then 0 else pos.value - 1;
      }
    }
  }

  /** `buf_trim`: the start index of the retained tail of `buf`. */
  method BufTrim(buf: seq<Byte>, cols: U16, maxLines: U32, width: seq<Byte> -> Width) returns (idx: nat)
    ensures idx == TrimScan(buf, cols, maxLines, width).i
    ensures idx <= |buf|
    ensures (|buf| == 0 || maxLines == 0) ==> idx == |buf|
  {
    var lines: nat, col: nat, i: nat := 0, 0, |buf|;
    while i > 0 && lines < maxLines
      invariant i <= |buf| && col < U16_MODULUS
      invariant Run(buf, cols, maxLines, width, Scan(i, lines, col)) == TrimScan(buf, cols, maxLines, width)
      decreases i
    {
      i, lines, col := ScanByte(buf, cols, width, i, lines, col);
    }
    idx := i;
  }

  /** With at least two columns, the column count stays below the width: every wrap
      leaves an overflow of at most one column. */
  lemma StepKeepsColBelowCols(buf: seq<Byte>, cols: U16, width: seq<Byte> -> Width, st: Scan)
    requires 0 < st.i <= |buf| && 2 <= cols && st.col < cols
    ensures Step(buf, cols, width, st).col < cols
  {
  }

  lemma {:induction false} RunKeepsColBelowCols(buf: seq<Byte>, cols: U16, maxLines: U32,
                                                width: seq<Byte> -> Width, st: Scan)
    requires st.i <= |buf| && 2 <= cols && st.col < cols
    ensures Run(buf, cols, maxLines, width, st).col < cols
    decreases st.i
  {
    if st.i > 0 && st.lines < maxLines {
      StepKeepsColBelowCols(buf, cols, width, st);
      RunKeepsColBelowCols(buf, cols, maxLines, width, Step(buf, cols, width, st));
    }
  }

  /** On text made only of printable ASCII, each byte takes one column and a line
      holds `cols` of them: from state `st`, the scan stops after `R` more bytes, `R`
      being the columns left before `maxLines` lines are full, or at index 0. */
  lemma {:induction false} RunOnPrintable(buf: seq<Byte>, cols: U16, maxLines: U32,
                                          width: seq<Byte> -> Width, st: Scan)
    requires st.i <= |buf| && 1 <= cols && st.col < cols
    requires st.lines < maxLines || (st.lines == maxLines && st.col == 0)
    requires forall k :: 0 <= k < st.i ==> IsPrintable(buf[k])
    ensures var left := (maxLines - st.lines) * cols - st.col;
            Run(buf, cols, maxLines, width, st).i == if st.i >= left then st.i - left else 0
    decreases st.i
  {
    var k: nat := maxLines - st.lines;
    var left := k * cols - st.col;
    MulMonotone(k, cols);
    if st.i > 0 && st.lines < maxLines {
      var next := Step(buf, cols, width, st);
      StepOnPrintable(buf, cols, width, st);
      if st.col + 1 == cols {
        MulPred(k, cols);
        assert (maxLines - next.lines) * cols == (k - 1) * cols;
      } else {
        assert maxLines - next.lines == k;
      }
      assert (maxLines - next.lines) * cols - next.col == left - 1;
      RunOnPrintable(buf, cols, maxLines, width, next);
    }
  }

  lemma MulPred(k: nat, c: nat)
    requires k >= 1
    ensures (k - 1) * c == k * c - c
  {
  }

  lemma MulMonotone(k: nat, c: nat)
    ensures k >= 1 ==> k * c >= c
    ensures k == 0 ==> k * c == 0
  {
  }

  lemma StepOnPrintable(buf: seq<Byte>, cols: U16, width: seq<Byte> -> Width, st: Scan)
    requires 0 < st.i <= |buf| && IsPrintable(buf[st.i - 1]) && st.col < cols
    ensures Step(buf, cols, width, st)
         == if st.col + 1 == cols then Scan(st.i - 1, st.lines + 1, 0)
            else Scan(st.i - 1, st.lines, st.col + 1)
  {
    assert (st.col + 1) % U16_MODULUS == st.col + 1;
  }

  /** A buffer of printable ASCII keeps its last `maxLines * cols` bytes. */
  lemma TrimPrintable(buf: seq<Byte>, cols: U16, maxLines: U32, width: seq<Byte> -> Width)
    requires 1 <= cols
    requires forall k :: 0 <= k < |buf| ==> IsPrintable(buf[k])
    ensures TrimScan(buf, cols, maxLines, width).i
         == if |buf| >= maxLines * cols then |buf| - maxLines * cols else 0
  {
    RunOnPrintable(buf, cols, maxLines, width, Scan(|buf|, 0, 0));
  }

  /** The printable branch as the source writes it: a new line only when the column
      reaches `cols` exactly. Every other byte is handled as in `Step`. */
  function StepAsWritten(buf: seq<Byte>, cols: U16, width: seq<Byte> -> Width, st: Scan): (r: Scan)
    requires 0 < st.i <= |buf| && st.col < U16_MODULUS
    ensures r.i < st.i && r.col < U16_MODULUS
    ensures r.lines == st.lines || r.lines == st.lines + 1
  {
    if IsPrintable(buf[st.i - 1]) then
      var c := (st.col + 1) % U16_MODULUS;
      if c == cols then Scan(st.i - 1, st.lines + 1, 0) else Scan(st.i - 1, st.lines, c)
    else
      Step(buf, cols, width, st)
  }

  /** The source's outer loop: like `Run`, it never moves forward, never passes
      `maxLines`, and stops only at index 0 or on reaching `maxLines`, for every `cols`. */
  function RunAsWritten(buf: seq<Byte>, cols: U16, maxLines: U32, width: seq<Byte> -> Width, st: Scan): (r: Scan)
    requires st.i <= |buf| && st.col < U16_MODULUS
    ensures r.i <= st.i && r.col < U16_MODULUS
    ensures r.lines >= st.lines
    ensures st.lines <= maxLines ==> r.lines <= maxLines
    ensures r.i == 0 || r.lines >= maxLines
    ensures (st.i == 0 || st.lines >= maxLines) ==> r == st
    decreases st.i
  {
    if st.i > 0 && st.lines < maxLines then RunAsWritten(buf, cols, maxLines, width, StepAsWritten(buf, cols, width, st))
    else st
  }

  /** `buf_trim` exactly as the source writes it: the same bounds as `TrimScan`, for
      every `cols`, one column included. */
  function TrimScanAsWritten(buf: seq<Byte>, cols: U16, maxLines: U32, width: seq<Byte> -> Width): (r: Scan)
    ensures r.i <= |buf|
    ensures (|buf| == 0 || maxLines == 0) ==> r.i == |buf|
    ensures r.lines <= maxLines
    ensures r.i > 0 ==> r.lines == maxLines
  {
    RunAsWritten(buf, cols, maxLines, width, Scan(|buf|, 0, 0))
  }

  /** While the column is below `cols`, `col == cols` and `col >= cols` are the same
      test after one more column, so the two steps agree. */
  lemma StepAsWrittenAgrees(buf: seq<Byte>, cols: U16, width: seq<Byte> -> Width, st: Scan)
    requires 0 < st.i <= |buf| && st.col < cols
    ensures StepAsWritten(buf, cols, width, st) == Step(buf, cols, width, st)
  {
    assert (st.col + 1) % U16_MODULUS == st.col + 1;
  }

  lemma {:induction false} RunAsWrittenAgrees(buf: seq<Byte>, cols: U16, maxLines: U32,
                                               width: seq<Byte> -> Width, st: Scan)
    requires st.i <= |buf| && 2 <= cols && st.col < cols
    ensures RunAsWritten(buf, cols, maxLines, width, st) == Run(buf, cols, maxLines, width, st)
    decreases st.i
  {
    if st.i > 0 && st.lines < maxLines {
      StepAsWrittenAgrees(buf, cols, width, st);
      StepKeepsColBelowCols(buf, cols, width, st);
      RunAsWrittenAgrees(buf, cols, maxLines, width, Step(buf, cols, width, st));
    }
  }

  /** With at least two columns the correction changes nothing: the source's
      `buf_trim` returns the cut `TrimScan` specifies. */
  lemma TrimAgreesForTwoOrMoreColumns(buf: seq<Byte>, cols: U16, maxLines: U32, width: seq<Byte> -> Width)
    requires 2 <= cols
    ensures TrimScanAsWritten(buf, cols, maxLines, width) == TrimScan(buf, cols, maxLines, width)
  {
    RunAsWrittenAgrees(buf, cols, maxLines, width, Scan(|buf|, 0, 0));
  }

  /** In the source, once the column has reached or passed `cols` (a wide character
      on a one-column line leaves it there), no printable byte starts a new line:
      each one only advances the column, until a newline resets it to 0. */
  lemma AsWrittenOverfullLineNeverBreaks(buf: seq<Byte>, cols: U16, width: seq<Byte> -> Width, st: Scan)
    requires 0 < st.i <= |buf| && IsPrintable(buf[st.i - 1])
    requires 1 <= cols <= st.col && st.col + 1 < U16_MODULUS
    ensures StepAsWritten(buf, cols, width, st) == Scan(st.i - 1, st.lines, st.col + 1)
  {
    assert (st.col + 1) % U16_MODULUS == st.col + 1;
  }

  /** In the corrected scan a line always ends within `k` printable bytes once `k`
      more columns fill it: the scan limited to one more line stops, having added
      that line, at most `k` bytes back. */
  lemma {:induction false} PrintableStretchBreaksLine(buf: seq<Byte>, cols: U16, width: seq<Byte> -> Width,
                                                      st: Scan, k: nat)
    requires 1 <= k <= st.i <= |buf| && st.col + k < U16_MODULUS && cols <= st.col + k
    requires st.lines + 1 < U32_LIMIT
    requires forall j :: st.i - k <= j < st.i ==> IsPrintable(buf[j])
    ensures var r := Run(buf, cols, st.lines + 1, width, st);
            r.lines == st.lines + 1 && r.i >= st.i - k
    decreases k
  {
    var next := Step(buf, cols, width, st);
    assert (st.col + 1) % U16_MODULUS == st.col + 1;
    if st.col + 1 < cols {
      assert next == Scan(st.i - 1, st.lines, st.col + 1);
      PrintableStretchBreaksLine(buf, cols, width, next, k - 1);
    } else {
      assert next.lines == st.lines + 1;
    }
  }

  /** A width function that gives every multi-byte character two columns. */
  function WideWidth(s: seq<Byte>): Width
  {
    if |s| >= 2 then 2 else 1
  }

  /** "aaa" followed by a three-byte character, on a one-column terminal keeping two
      lines: the source keeps all six bytes with one line counted, although each `a`
      takes a line of its own; the corrected scan keeps the character and the last `a`. */
  lemma OneColumnCounterexample()
    ensures var buf: seq<Byte> := [0x61, 0x61, 0x61, 0xe4, 0xb8, 0x80];
            && TrimScanAsWritten(buf, 1, 2, WideWidth) == Scan(0, 1, 4)
            && TrimScan(buf, 1, 2, WideWidth) == Scan(2, 2, 1)
  {
    var buf: seq<Byte> := [0x61, 0x61, 0x61, 0xe4, 0xb8, 0x80];
    assert CharStart(buf, 5) == 3;
    assert WideWidth(buf[3..6]) == 2;
    var s1 := Scan(3, 1, 1);
    assert StepAsWritten(buf, 1, WideWidth, Scan(6, 0, 0)) == s1;
    assert StepAsWritten(buf, 1, WideWidth, s1) == Scan(2, 1, 2);
    assert StepAsWritten(buf, 1, WideWidth, Scan(2, 1, 2)) == Scan(1, 1, 3);
    assert StepAsWritten(buf, 1, WideWidth, Scan(1, 1, 3)) == Scan(0, 1, 4);
    assert RunAsWritten(buf, 1, 2, WideWidth, Scan(1, 1, 3)) == Scan(0, 1, 4);
    assert RunAsWritten(buf, 1, 2, WideWidth, Scan(2, 1, 2)) == Scan(0, 1, 4);
    assert RunAsWritten(buf, 1, 2, WideWidth, s1) == Scan(0, 1, 4);
    assert Step(buf, 1, WideWidth, Scan(6, 0, 0)) == s1;
    assert Step(buf, 1, WideWidth, s1) == Scan(2, 2, 1);
    assert Run(buf, 1, 2, WideWidth, s1) == Scan(2, 2, 1);
  }
}
