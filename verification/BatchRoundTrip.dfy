/** A batch of printed points: when reading it gives the points back. */
module BatchRoundTrip {
  import opened Bytes
  import opened Times
  import opened Escape
  import opened Scan
  import opened TagKeys
  import opened PrintedKey
  import opened Fields
  import opened Points
  import opened PointRoundTrip
  import opened Lines
  import opened Batch
  import opened PrintedLines

  ghost function LinesFor(sources: seq<Source>): (r: seq<bytes>)
    ensures |r| == |sources| && forall i :: 0 <= i < |r| ==> r[i] == LineFor(sources[i])
  {
    seq(|sources|, i requires 0 <= i < |sources| => LineFor(sources[i]))
  }

  /** The point that is read: the fallback time stands in for a missing one. */
  function ReadBack(s: Source, fallback: Time): Point {
    PointFor(s).(time := if s.time.Zero? then fallback else s.time)
  }

  ghost function AllReadBack(sources: seq<Source>, fallback: Time): (r: seq<Point>)
    ensures |r| == |sources| && forall i :: 0 <= i < |r| ==> r[i] == ReadBack(sources[i], fallback)
  {
    seq(|sources|, i requires 0 <= i < |sources| => ReadBack(sources[i], fallback))
  }

  ghost predicate InOrder(s: Source) {
    EscapedKeysRise(WithValues(s.tags)) && !FillsTable(WithValues(s.tags))
  }

  /** No newline outside string values, no '#' in front, tags in order and not filling the table. */
  ghost predicate Survives(s: Source) {
    OneLineSource(s) && !Commented(s) && InOrder(s)
  }

  lemma LineRead(s: Source, fallback: Time, o: Options)
    requires GoodSource(s, o)
    ensures PointOf(LineFor(s), fallback, "n", o) == Parsed(ReadBack(s, fallback)) <==> InOrder(s)
  {
    hide PointOf, Print, EscapedKeysRise, FillsTable, Printable, PairSafe, SafeTags;
    OrderedPoint(s.name, s.tags, s.fields, s.time, fallback, o);
  }

  lemma LineTaken(done: Parse, s: Source, fallback: Time, o: Options)
    requires done.Parse? && GoodSource(s, o) && Survives(s)
    ensures Take(done, LineFor(s), fallback, "n", o) == done.(points := done.points + [ReadBack(s, fallback)])
  {
    hide PointOf, Skipped, LineOf, LineFor, InOrder, GoodSource, OneLineSource, ReadBack;
    WholeLine(s, o);
    LineRead(s, fallback, o);
  }

  // ---- what is lost ----

  /** After a block that does not give the point that is due, no batch that goes on gives it. */
  lemma WrongBlock(done: seq<bytes>, read: seq<Point>, block: bytes, rest: seq<bytes>, due: seq<Point>,
                   fallback: Time, o: Options)
    requires ParseBlocks(done, fallback, "n", o) == Parse(read, []) && !Skipped(block) && due != []
    requires PointOf(LineOf(block), fallback, "n", o) != Parsed(due[0])
    ensures ParseBlocks(done + ([block] + rest), fallback, "n", o) != Parse(read + due, [])
  {
    hide ParseBlocks, Skipped, LineOf, PointOf;
    Associate(done, [block], rest);
    ParseBlocksSnoc(done, block, fallback, "n", o);
    ParseGrows(done + [block], rest, fallback, "n", o);
    var taken := ParseBlocks(done + [block], fallback, "n", o);
    if taken.Parse? && taken.failed == [] {
      assert taken.points[|read|] != (read + due)[|read|];
    }
  }

  /** A point whose key no line can give is not read. */
  lemma UnreadableLost(done: seq<bytes>, read: seq<Point>, blocks: seq<bytes>, due: seq<Point>, fallback: Time, o: Options)
    requires ParseBlocks(done, fallback, "n", o) == Parse(read, []) && due != [] && Unreadable(due[0].key)
    requires forall i :: 0 <= i < |blocks| ==> Shown(blocks[i])
    ensures ParseBlocks(done + blocks, fallback, "n", o) != Parse(read + due, [])
  {
    hide ParseBlocks, Unreadable, Shown;
    ReadableKeys(done, blocks, fallback, "n", o);
    assert (read + due)[|read|] == due[0];
  }

  lemma NotAtStart(buf: bytes, p: nat)
    requires p < |buf| && buf[p] != NEWLINE
    ensures LineFrom(buf, p, FRESH) > p
  {
  }

  lemma ShortLine(line: bytes, s: Source, fallback: Time, o: Options)
    requires |line| < |KeyFor(s)| + 1 + |FieldsText(s.fields)|
    ensures PointOf(line, fallback, "n", o) != Parsed(ReadBack(s, fallback))
  {
    hide PointOf, FieldsText, Escaped, HashKey, MakeKey, WithValues, Unescaped;
    MakeKeyIs(s.name, s.tags);
    if PointOf(line, fallback, "n", o).Parsed? {
      ParsedShape(line, fallback, "n", o);
    }
  }

  lemma UnescapedStart(block: bytes)
    requires block != [] && !IsBlank(block[0]) && block[0] != HASH
    ensures !Skipped(block) && |LineOf(block)| <= |block|
  {
  }

  /** The first block at a line that does not survive: it starts like the line and does not give its point. */
  lemma FirstBlockWrong(before: bytes, s: Source, after: bytes, fallback: Time, o: Options) returns (block: bytes)
    requires GoodSource(s, o) && !Survives(s) && (after == [] || after[0] == NEWLINE)
    requires !Unreadable(KeyFor(s))
    ensures var buf := before + (LineFor(s) + after);
      |before| < |buf| && block == buf[|before|..LineFrom(buf, |before|, FRESH)]
    ensures !Skipped(block) && PointOf(LineOf(block), fallback, "n", o) != Parsed(ReadBack(s, fallback))
  {
    hide LineFrom, LineFor, OneLineSource, InOrder, GoodSource, KeyFor, Skipped, LineOf, PointOf, ReadBack, FieldsText;
    var buf := before + (LineFor(s) + after);
    WholeLine(s, o);
    GoodKeyStarts(s, o);
    assert buf[|before|] == LineFor(s)[0];
    NotAtStart(buf, |before|);
    block := buf[|before|..LineFrom(buf, |before|, FRESH)];
    assert block[0] == LineFor(s)[0];
    UnescapedStart(block);
    PrintedLineAt(s, before, after, o);
    if OneLineSource(s) {
      Middle(before, LineFor(s), after);
      LineRead(s, fallback, o);
    } else {
      ShortLine(LineOf(block), s, fallback, o);
    }
  }

  lemma GoodKeyStarts(s: Source, o: Options)
    requires GoodSource(s, o)
    ensures KeyFor(s) != [] && NameOf(s) != []
    ensures KeyFor(s)[0] == if NameOf(s)[0] in NAME then BACKSLASH else NameOf(s)[0]
  {
    hide KeyFor, GoodTags, GoodFields, GoodSizes, PairSafe, SafeTags, Unescaped, MakeKey, WithValues;
    KeyForStarts(s);
  }

  lemma ReadBackKey(s: Source, fallback: Time)
    ensures ReadBack(s, fallback).key == KeyFor(s)
  {
    hide FieldsText, Escaped, HashKey, Unescaped, WithValues;
    MakeKeyIs(s.name, s.tags);
  }

  /** A line that does not survive spoils the batch, whatever follows it. */
  lemma Spoiled(before: bytes, s: Source, after: bytes, done: seq<bytes>, read: seq<Point>, due: seq<Point>,
                fallback: Time, o: Options)
    requires GoodSource(s, o) && !Survives(s) && (after == [] || after[0] == NEWLINE)
    requires ParseBlocks(done, fallback, "n", o) == Parse(read, []) && due != [] && due[0] == ReadBack(s, fallback)
    ensures ParseBlocks(done + Blocks(before + (LineFor(s) + after), |before|), fallback, "n", o) != Parse(read + due, [])
  {
    hide LineFrom, Blocks, ParseBlocks, Skipped, LineOf, PointOf, GoodSource, LineFor, KeyFor, ReadBack, Survives, Shown;
    var buf := before + (LineFor(s) + after);
    ReadBackKey(s, fallback);
    if Unreadable(KeyFor(s)) {
      BlocksShown(buf, |before|);
      UnreadableLost(done, read, Blocks(buf, |before|), due, fallback, o);
    } else {
      var block := FirstBlockWrong(before, s, after, fallback, o);
      FirstBlock(buf, |before|);
      WrongBlock(done, read, block, Blocks(buf, LineFrom(buf, |before|, FRESH) + 1), due, fallback, o);
    }
  }

  // ---- the whole batch ----

  /** Reading on from position |before|, where everything before has been read back. */
  lemma {:induction false} BatchFrom(before: bytes, done: seq<bytes>, read: seq<Point>, sources: seq<Source>,
                                     fallback: Time, o: Options)
    requires forall i :: 0 <= i < |sources| ==> GoodSource(sources[i], o)
    requires ParseBlocks(done, fallback, "n", o) == Parse(read, [])
    ensures ParseBlocks(done + Blocks(before + JoinBy(LinesFor(sources), NEWLINE), |before|), fallback, "n", o)
            == Parse(read + AllReadBack(sources, fallback), [])
       <==> forall i :: 0 <= i < |sources| ==> Survives(sources[i])
    decreases |sources|
  {
    hide Blocks, ParseBlocks, GoodSource, LineFor, ReadBack, Survives, JoinBy;
    var lines := LinesFor(sources);
    if sources == [] {
      assert lines == [];
      JoinByNone(NEWLINE);
      NoBlocks(before + [], |before|);
      assert done + [] == done && read + AllReadBack([], fallback) == read;
    } else {
      var s, rest := sources[0], sources[1..];
      assert lines == [LineFor(s)] + LinesFor(rest);
      assert AllReadBack(sources, fallback) == [ReadBack(s, fallback)] + AllReadBack(rest, fallback);
      if Survives(s) {
        var next := ReadOn(before, s, LinesFor(rest), done, read, fallback, o);
        BatchFrom(next, done + [LineFor(s)], read + [ReadBack(s, fallback)], rest, fallback, o);
        Associate(read, [ReadBack(s, fallback)], AllReadBack(rest, fallback));
        assert forall i :: 1 <= i < |sources| ==> sources[i] == rest[i - 1];
      } else {
        JoinByCons(LineFor(s), LinesFor(rest), NEWLINE);
        var after := if rest == [] then [] else [NEWLINE] + JoinBy(LinesFor(rest), NEWLINE);
        assert rest == [] ==> LineFor(s) + [] == LineFor(s);
        Spoiled(before, s, after, done, read, AllReadBack(sources, fallback), fallback, o);
      }
    }
  }

  /** A line that survives is one block and gives its point. */
  lemma ReadOn(before: bytes, s: Source, lines: seq<bytes>, done: seq<bytes>, read: seq<Point>, fallback: Time, o: Options)
    returns (next: bytes)
    requires GoodSource(s, o) && Survives(s) && ParseBlocks(done, fallback, "n", o) == Parse(read, [])
    ensures done + Blocks(before + JoinBy([LineFor(s)] + lines, NEWLINE), |before|) ==
            (done + [LineFor(s)]) + Blocks(next + JoinBy(lines, NEWLINE), |next|)
    ensures ParseBlocks(done + [LineFor(s)], fallback, "n", o) == Parse(read + [ReadBack(s, fallback)], [])
  {
    hide Blocks, ParseBlocks, GoodSource, LineFor, KeyFor, ReadBack, OneLineSource, JoinBy, Take, ReadsWhole, Skipped, LineOf;
    WholeLine(s, o);
    PrintedLine(s, o);
    next := FirstLine(before, LineFor(s), lines);
    Associate(done, [LineFor(s)], Blocks(next + JoinBy(lines, NEWLINE), |next|));
    ParseBlocksSnoc(done, LineFor(s), fallback, "n", o);
    LineTaken(Parse(read, []), s, fallback, o);
  }

  /**
   A batch of printed points, one on each line, is read back point by point with nothing refused, although
   string values may hold newlines, quotes and backslashes, if and only if every point survives: no newline
   in its name, tags and field keys, no '#' at the start of its name, its tags in order and not filling the table.
   */
  lemma BatchRoundTrip(sources: seq<Source>, fallback: Time, o: Options)
    requires forall i :: 0 <= i < |sources| ==> GoodSource(sources[i], o)
    ensures ParseBlocks(Blocks(JoinBy(LinesFor(sources), NEWLINE), 0), fallback, "n", o)
            == Parse(AllReadBack(sources, fallback), [])
       <==> forall i :: 0 <= i < |sources| ==> Survives(sources[i])
  {
    hide Blocks, ParseBlocks, GoodSource, LineFor, ReadBack, Survives, JoinBy;
    NoneParsed(fallback, "n", o);
    BatchFrom([], [], [], sources, fallback, o);
    var buf := JoinBy(LinesFor(sources), NEWLINE);
    NothingBefore(buf);
    NothingBefore(Blocks(buf, 0));
    NothingBefore(AllReadBack(sources, fallback));
  }

  // ---- inputs on which it fails ----

  /** A point of one field f=true without tags and time. */
  function Sample(name: bytes): Source {
    Source(name, [], [Field([102], Boolean(true))], Zero)
  }

  lemma SampleGood(name: bytes, o: Options)
    requires |name| == 3 && BACKSLASH !in name && SPACE !in name && COMMA !in name && name[0] != TAB && name[0] != NUL
    ensures GoodSource(Sample(name), o) && NameOf(Sample(name)) == name
  {
    hide Unescaped, Escaped, PairSafe;
    UnescapedNothing(name, NAME);
    EscapedAbsent(name, NAME);
    EscapedAbsent([102], KEY_CODES);
    PlainIsSafe(name, NAME);
    PlainIsSafe([102], KEY_CODES);
  }

  lemma OneSource(s: Source, fallback: Time)
    ensures JoinBy(LinesFor([s]), NEWLINE) == LineFor(s) && AllReadBack([s], fallback) == [ReadBack(s, fallback)]
  {
    hide LineFor, ReadBack;
    assert LinesFor([s]) == [LineFor(s)];
  }

  /** The name "a", newline, "b": the batch of this one point is not read back. */
  lemma NewlineInName(fallback: Time, o: Options)
    ensures var s := Sample([97, NEWLINE, 98]);
      GoodSource(s, o) && ParseBlocks(Blocks(LineFor(s), 0), fallback, "n", o) != Parse([ReadBack(s, fallback)], [])
  {
    hide ParseBlocks, Blocks, LineFor, GoodSource, ReadBack, InOrder, Commented, JoinBy;
    var s := Sample([97, NEWLINE, 98]);
    SampleGood(s.name, o);
    OneLinePlain(s.name);
    OneSource(s, fallback);
    BatchRoundTrip([s], fallback, o);
    assert !Survives([s][0]);
  }

  /** The name "#ab": the line is taken for a comment, and the point is gone without an error. */
  lemma HashBeforeName(fallback: Time, o: Options)
    ensures var s := Sample([HASH, 97, 98]);
      GoodSource(s, o) && ParseBlocks(Blocks(LineFor(s), 0), fallback, "n", o) == Parse([], [])
  {
    hide ParseBlocks, Blocks, LineFor, KeyFor, GoodSource, Skipped, LineOf, ReadsWhole, LineFrom;
    var s := Sample([HASH, 97, 98]);
    SampleGood(s.name, o);
    OneLinePlain(s.name);
    WholeLine(s, o);
    assert OneLineSource(s) by {
      OneLinePlain([102]);
    }
    PrintedLine(s, o);
    CutAtJoins([], [LineFor(s)]);
    NothingBefore(LineFor(s));
    assert JoinBy([LineFor(s)], NEWLINE) == LineFor(s);
    ParseBlocksSnoc([], LineFor(s), fallback, "n", o);
    NoneParsed(fallback, "n", o);
    NothingBefore([LineFor(s)]);
  }

  const FREED: bytes := [BACKSLASH, BACKSLASH, SPACE, EQUALS, QUOTE]
  const FREED_LINE: bytes :=
    [BACKSLASH, BACKSLASH, SPACE, EQUALS, QUOTE, SPACE, 102, EQUALS, 116, 114, 117, 101]

  lemma FreedTokens()
    ensures Unescaped(FREED, NAME) == FREED[1..] && Escaped(FREED[1..], NAME) == FREED
    ensures Escaped([102], KEY_CODES) == [102] && OneLine(FREED[1..]) && OneLine([102])
  {
    hide Escaped, Unescaped;
    var u: bytes := [SPACE, EQUALS, QUOTE];
    assert u[1..] == [EQUALS, QUOTE] && FREED == [BACKSLASH] + ([BACKSLASH] + u) && FREED[1..] == [BACKSLASH] + u;
    EscapedAbsent([102], KEY_CODES);
    OneLinePlain([102]);
    FreedEscaped(u);
    OneLinePlain(u[1..]);
    assert FREED[1..][2..] == u[1..];
  }

  lemma FreedEscaped(u: bytes)
    requires u == [SPACE, EQUALS, QUOTE]
    ensures Escaped([BACKSLASH] + u, NAME) == [BACKSLASH] + ([BACKSLASH] + u)
    ensures Unescaped([BACKSLASH] + ([BACKSLASH] + u), NAME) == [BACKSLASH] + u
  {
    assert u[1..] == [EQUALS, QUOTE] && ([BACKSLASH] + u)[1..] == u;
    EscapedAbsent(u[1..], NAME);
    UnescapedNothing(u[1..], NAME);
    UnescapedCons(BACKSLASH, u, NAME);
    UnescapedCons(BACKSLASH, [BACKSLASH] + u, NAME);
    assert u == [SPACE] + u[1..];
  }

  /**
   The name backslash, space, '=', quote: the printed backslash of the name takes the one of the space along,
   the scanner of lines sees fields and an open string, and passes over the newline that ends the line.
   */
  lemma FreedSpace()
    ensures OneLineSource(Sample(FREED)) && !PairSafe(NameOf(Sample(FREED)), NAME)
    ensures LineFor(Sample(FREED)) == FREED_LINE && !ReadsWhole(FREED_LINE)
  {
    hide LineFrom, Escaped, Unescaped, ReadsTo;
    FreedTokens();
    assert !ReadsTo([], FREED_LINE, [NEWLINE]) by { FreedRun(); }
  }

  lemma FreedRun()
    ensures !ReadsTo([], FREED_LINE, [NEWLINE])
  {
    var buf := [] + (FREED_LINE + [NEWLINE]);
    QuotedEnd(buf, 5, LineState(true, true, 1, 0));
    assert LineFrom(buf, 3, LineState(false, true, 0, 0)) == |buf|;
    assert LineFrom(buf, 0, FRESH) == |buf|;
  }

  lemma {:induction false} QuotedEnd(buf: bytes, i: nat, st: LineState)
    requires i <= |buf| && st.quoted && forall j :: i <= j < |buf| ==> buf[j] != QUOTE && buf[j] != BACKSLASH
    ensures LineFrom(buf, i, st) == |buf|
    decreases |buf| - i
  {
    if i < |buf| {
      QuotedEnd(buf, i + 1, st.(fields := st.fields || buf[i] == SPACE));
    }
  }
}
