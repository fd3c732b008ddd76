/** scanLine: where one line of a batch ends, with newlines inside quoted strings passed over. */
module Lines {
  import opened Bytes

  datatype LineState = LineState(quoted: bool, fields: bool, equals: nat, commas: nat)

  const FRESH: LineState := LineState(false, false, 0, 0)

  /** scanLine from position i on in a given state: the position of the newline that ends the line, or the end. */
  function LineFrom(buf: bytes, i: nat, st: LineState): (e: nat)
    requires i <= |buf|
    ensures i <= e <= |buf|
    ensures e < |buf| ==> buf[e] == NEWLINE
    decreases |buf| - i
  {
    if i == |buf| then i
    else if buf[i] == BACKSLASH && i + 2 < |buf| then LineFrom(buf, i + 2, st)
    else
      var st' := st.(fields := st.fields || buf[i] == SPACE);
      if st'.fields && !st'.quoted && buf[i] == EQUALS then LineFrom(buf, i + 1, st'.(equals := st'.equals + 1))
      else if st'.fields && !st'.quoted && buf[i] == COMMA then LineFrom(buf, i + 1, st'.(commas := st'.commas + 1))
      else if st'.fields && buf[i] == QUOTE && st'.equals > st'.commas then
        LineFrom(buf, i + 1, st'.(quoted := !st'.quoted))
      else if buf[i] == NEWLINE && !st'.quoted then i
      else LineFrom(buf, i + 1, st')
  }

  method ScanLine(buf: bytes, start: nat) returns (i: nat)
    requires start <= |buf|
    ensures i == LineFrom(buf, start, FRESH)
  {
    i := start;
    var quoted, fields := false, false;
    var equals, commas := 0, 0;
    while i < |buf|
      invariant start <= i <= |buf|
      invariant LineFrom(buf, start, FRESH) == LineFrom(buf, i, LineState(quoted, fields, equals, commas))
    {
      if buf[i] == BACKSLASH && i + 2 < |buf| {
        i := i + 2;
        continue;
      }
      if buf[i] == SPACE {
        fields := true;
      }
      if fields {
        if !quoted && buf[i] == EQUALS {
          i := i + 1;
          equals := equals + 1;
          continue;
        } else if !quoted && buf[i] == COMMA {
          i := i + 1;
          commas := commas + 1;
          continue;
        } else if buf[i] == QUOTE && equals > commas {
          i := i + 1;
          quoted := !quoted;
          continue;
        }
      }
      if buf[i] == NEWLINE && !quoted {
        break;
      }
      i := i + 1;
    }
  }

  /** The blocks a batch is cut into, from position pos on. */
  function Blocks(buf: bytes, pos: nat): seq<bytes>
    decreases |buf| - pos
  {
    if pos >= |buf| then []
    else
      var e := LineFrom(buf, pos, FRESH);
      [buf[pos..e]] + Blocks(buf, e + 1)
  }

  /** The last line from position pos on is ended by a newline, which is then the last byte. */
  predicate EndsLine(buf: bytes, pos: nat)
    requires pos < |buf|
    decreases |buf| - pos
  {
    var e := LineFrom(buf, pos, FRESH);
    if e + 1 < |buf| then EndsLine(buf, e + 1) else e < |buf|
  }

  /**
   On arbitrary bytes cutting loses nothing: the blocks joined by newlines are the batch, but for the
   newline that ends its last line, if one does.
   */
  lemma {:induction false} BlocksRejoin(buf: bytes, pos: nat)
    requires pos < |buf|
    ensures Blocks(buf, pos) != []
    ensures JoinBy(Blocks(buf, pos), NEWLINE) + (if EndsLine(buf, pos) then [NEWLINE] else []) == buf[pos..]
    decreases |buf| - pos
  {
    hide LineFrom, JoinBy, Blocks, EndsLine;
    var e := LineFrom(buf, pos, FRESH);
    var block, tail := buf[pos..e], Blocks(buf, e + 1);
    FirstBlock(buf, pos);
    JoinByCons(block, tail, NEWLINE);
    EndsLineStep(buf, pos);
    if e + 1 < |buf| {
      BlocksRejoin(buf, e + 1);
      SplitAtNewline(buf, pos, e);
      Rejoined(block, JoinBy(tail, NEWLINE), if EndsLine(buf, pos) then [NEWLINE] else []);
    } else {
      NoBlocks(buf, e + 1);
      LastBlock(buf, pos, e);
    }
  }

  lemma EndsLineStep(buf: bytes, pos: nat)
    requires pos < |buf|
    ensures var e := LineFrom(buf, pos, FRESH);
      EndsLine(buf, pos) == if e + 1 < |buf| then EndsLine(buf, e + 1) else e < |buf|
  {
    hide LineFrom;
  }

  lemma Rejoined(block: bytes, tail: bytes, end: bytes)
    ensures block + ([NEWLINE] + tail) + end == block + ([NEWLINE] + (tail + end))
  {
    Associate(block, [NEWLINE] + tail, end);
    Associate([NEWLINE], tail, end);
  }

  lemma LastBlock(buf: bytes, pos: nat, e: nat)
    requires pos <= e <= |buf| <= e + 1 && (e < |buf| ==> buf[e] == NEWLINE)
    ensures buf[pos..e] + (if e < |buf| then [NEWLINE] else []) == buf[pos..]
  {
  }

  lemma FirstBlock(buf: bytes, pos: nat)
    requires pos < |buf|
    ensures var e := LineFrom(buf, pos, FRESH); Blocks(buf, pos) == [buf[pos..e]] + Blocks(buf, e + 1)
  {
  }

  lemma SplitAtNewline(buf: bytes, pos: nat, e: nat)
    requires pos <= e < |buf| && buf[e] == NEWLINE
    ensures buf[pos..] == buf[pos..e] + ([NEWLINE] + buf[e + 1..])
  {
  }

  /** The scanner reads the line to its end where it stands between these bytes. */
  ghost predicate ReadsTo(before: bytes, line: bytes, after: bytes) {
    LineFrom(before + (line + after), |before|, FRESH) == |before| + |line|
  }

  /** The scanner reads the line to its end wherever it stands in a batch. */
  ghost predicate ReadsWhole(line: bytes) {
    forall before: bytes, after: bytes :: (after == [] || after[0] == NEWLINE) ==> ReadsTo(before, line, after)
  }

  lemma BlockStep(before: bytes, line: bytes, after: bytes)
    requires ReadsTo(before, line, after) && line != []
    ensures var buf := before + (line + after);
      Blocks(buf, |before|) == [line] + Blocks(buf, |before| + |line| + 1)
  {
    hide LineFrom, Blocks, ReadsTo;
    var buf := before + (line + after);
    Middle(before, line, after);
    ReadsToEnd(before, line, after);
    BlockAt(buf, |before|, line);
  }

  lemma ReadsToEnd(before: bytes, line: bytes, after: bytes)
    requires ReadsTo(before, line, after)
    ensures LineFrom(before + (line + after), |before|, FRESH) == |before| + |line|
  {
    hide LineFrom;
  }

  lemma BlockAt(buf: bytes, p: nat, line: bytes)
    requires line != [] && p + |line| <= |buf| && buf[p..p + |line|] == line
    requires LineFrom(buf, p, FRESH) == p + |line|
    ensures Blocks(buf, p) == [line] + Blocks(buf, p + |line| + 1)
  {
    hide LineFrom, Blocks;
    FirstBlock(buf, p);
  }

  lemma Middle(before: bytes, line: bytes, after: bytes)
    ensures |before| + |line| <= |before + (line + after)|
    ensures (before + (line + after))[|before|..|before| + |line|] == line
  {
  }

  /** A line that is read whole is the first block, and the lines after it are read as they stand. */
  lemma FirstLine(before: bytes, line: bytes, lines: seq<bytes>) returns (next: bytes)
    requires line != [] && ReadsWhole(line)
    ensures Blocks(before + JoinBy([line] + lines, NEWLINE), |before|) ==
            [line] + Blocks(next + JoinBy(lines, NEWLINE), |next|)
  {
    hide ReadsTo, Blocks, JoinBy;
    JoinByCons(line, lines, NEWLINE);
    JoinByNone(NEWLINE);
    if lines == [] {
      next := before + line;
      assert line + [] == line;
      assert ReadsTo(before, line, []);
      BlockStep(before, line, []);
      NoBlocks(before + line, |before| + |line| + 1);
      NoBlocks(next + [], |next|);
    } else {
      var rest := [NEWLINE] + JoinBy(lines, NEWLINE);
      next := before + (line + [NEWLINE]);
      assert ReadsTo(before, line, rest);
      BlockStep(before, line, rest);
      assert next + JoinBy(lines, NEWLINE) == before + (line + rest);
    }
  }

  lemma JoinByNone(sep: byte)
    ensures JoinBy([], sep) == []
  {
  }

  /** Lines that are read whole are cut exactly at the newlines that join them. */
  lemma {:induction false} CutAtJoins(before: bytes, lines: seq<bytes>)
    requires forall i :: 0 <= i < |lines| ==> lines[i] != [] && ReadsWhole(lines[i])
    ensures Blocks(before + JoinBy(lines, NEWLINE), |before|) == lines
    decreases |lines|
  {
    hide ReadsWhole, Blocks, JoinBy;
    if lines == [] {
      JoinByNone(NEWLINE);
      NoBlocks(before + [], |before|);
    } else {
      var next := FirstLine(before, lines[0], lines[1..]);
      CutAtJoins(next, lines[1..]);
      assert [lines[0]] + lines[1..] == lines;
    }
  }

  lemma NoBlocks(buf: bytes, pos: nat)
    requires pos >= |buf|
    ensures Blocks(buf, pos) == []
  {
  }
}
