/** ParsePoints: a batch of lines, cut into lines and parsed one by one. */
module Batch {
  import opened Bytes
  import opened Times
  import opened Scan
  import opened Fields
  import opened Points
  import opened Lines

  // ---- parsing a batch ----

  /** What a batch gives: the points that were read and the lines that were refused, both in order. */
  datatype Parse = Parse(points: seq<Point>, failed: seq<bytes>) | Panic

  /** The part of a block that is handed to the point parser; empty for blank lines and comments. */
  function LineOf(block: bytes): bytes {
    var start := SkipBlanks(block, 0);
    if start >= |block| || block[start] == HASH then []
    else if block[|block| - 1] == NEWLINE then block[start..|block| - 1]
    else block[start..]
  }

  /** Whether a block is passed over. */
  predicate Skipped(block: bytes) {
    var start := SkipBlanks(block, 0);
    start >= |block| || block[start] == HASH
  }

  /** One more block: its point is added, or its line to the failures. */
  ghost function Take(done: Parse, block: bytes, fallback: Time, precision: string, o: Options): Parse {
    if done.Panic? then Panic
    else if Skipped(block) then done
    else
      match PointOf(LineOf(block), fallback, precision, o)
      case Parsed(p) => Parse(done.points + [p], done.failed)
      case Refused(_) => Parse(done.points, done.failed + [LineOf(block)])
      case Panicked => Panic
  }

  ghost function ParseBlocks(blocks: seq<bytes>, fallback: Time, precision: string, o: Options): Parse {
    if blocks == [] then Parse([], [])
    else Take(ParseBlocks(blocks[..|blocks| - 1], fallback, precision, o), blocks[|blocks| - 1], fallback, precision, o)
  }

  lemma ParseBlocksSnoc(blocks: seq<bytes>, block: bytes, fallback: Time, precision: string, o: Options)
    ensures ParseBlocks(blocks + [block], fallback, precision, o) ==
            Take(ParseBlocks(blocks, fallback, precision, o), block, fallback, precision, o)
  {
    hide Take;
    assert (blocks + [block])[..|blocks|] == blocks;
  }

  method ParseBlock(done: Parse, block: bytes, fallback: Time, precision: string, o: Options) returns (r: Parse)
    requires done.Parse?
    ensures r == Take(done, block, fallback, precision, o)
  {
    hide PointOf, SkipBlanks;
    var start := SkipWhitespace(block, 0);
    if start >= |block| || block[start] == HASH {
      return done;
    }
    var end := |block|;
    if block[end - 1] == NEWLINE {
      end := end - 1;
    }
    var line := block[start..end];
    assert line == LineOf(block);
    var pt := ParsePoint(line, fallback, precision, o);
    match pt {
      case Parsed(p) => r := done.(points := done.points + [p]);
      case Refused(_) => r := done.(failed := done.failed + [line]);
      case Panicked => r := Panic;
    }
  }

  /** ParsePointsWithPrecision. */
  method ParsePoints(buf: bytes, fallback: Time, precision: string, o: Options) returns (r: Parse)
    ensures r == ParseBlocks(Blocks(buf, 0), fallback, precision, o)
  {
    hide LineFrom, Take, Blocks, ParseBlocks;
    NoneParsed(fallback, precision, o);
    r := Parse([], []);
    var pos := 0;
    ghost var done: seq<bytes> := [];
    while pos < |buf|
      invariant Blocks(buf, 0) == done + Blocks(buf, pos)
      invariant r.Parse? && ParseBlocks(done, fallback, precision, o) == r
      decreases |buf| - pos
    {
      var end := ScanLine(buf, pos);
      FirstBlock(buf, pos);
      ghost var rest := Blocks(buf, end + 1);
      Associate(done, [buf[pos..end]], rest);
      ParseBlocksSnoc(done, buf[pos..end], fallback, precision, o);
      done := done + [buf[pos..end]];
      r := ParseBlock(r, buf[pos..end], fallback, precision, o);
      pos := end + 1;
      if r.Panic? {
        ParseGrows(done, rest, fallback, precision, o);
        return;
      }
    }
    NoBlocks(buf, pos);
    assert done + [] == done;
  }

  lemma NoneParsed(fallback: Time, precision: string, o: Options)
    ensures ParseBlocks([], fallback, precision, o) == Parse([], [])
  {
  }

  lemma TakeGrows(done: Parse, block: bytes, fallback: Time, precision: string, o: Options)
    ensures var r := Take(done, block, fallback, precision, o);
      r.Parse? ==> done.Parse? && done.points <= r.points && done.failed <= r.failed
  {
    hide LineOf, PointOf, Skipped;
  }

  /** More blocks only add to what has been read, and a panic stays. */
  lemma {:induction false} ParseGrows(a: seq<bytes>, b: seq<bytes>, fallback: Time, precision: string, o: Options)
    ensures var x, y := ParseBlocks(a, fallback, precision, o), ParseBlocks(a + b, fallback, precision, o);
      y.Parse? ==> x.Parse? && x.points <= y.points && x.failed <= y.failed
    decreases |b|
  {
    hide Take, ParseBlocks;
    if b == [] {
      assert a + b == a;
    } else {
      var n := |b| - 1;
      ParseGrows(a, b[..n], fallback, precision, o);
      ParseBlocksSnoc(a + b[..n], b[n], fallback, precision, o);
      assert a + b == (a + b[..n]) + [b[n]];
      TakeGrows(ParseBlocks(a + b[..n], fallback, precision, o), b[n], fallback, precision, o);
    }
  }

  // ---- the first byte of a key ----

  /** After its blanks a block does not go on with a newline. */
  predicate Shown(block: bytes) {
    var start := SkipBlanks(block, 0);
    start < |block| ==> block[start] != NEWLINE
  }

  lemma {:induction false} BlanksBeforeNewline(buf: bytes, i: nat, st: LineState, s: nat)
    requires i <= s < |buf| && !st.quoted && buf[s] == NEWLINE && forall j :: i <= j < s ==> IsBlank(buf[j])
    ensures LineFrom(buf, i, st) == s
    decreases s - i
  {
    if i < s {
      BlanksBeforeNewline(buf, i + 1, st.(fields := st.fields || buf[i] == SPACE), s);
    }
  }

  lemma BlockShown(buf: bytes, pos: nat)
    requires pos < |buf|
    ensures Shown(buf[pos..LineFrom(buf, pos, FRESH)])
  {
    hide LineFrom, SkipBlanks;
    var block := buf[pos..LineFrom(buf, pos, FRESH)];
    var start := SkipBlanks(block, 0);
    if start < |block| && block[start] == NEWLINE {
      forall j | pos <= j < pos + start ensures IsBlank(buf[j]) {
        assert buf[j] == block[j - pos];
      }
      BlanksBeforeNewline(buf, pos, FRESH, pos + start);
    }
  }

  lemma {:induction false} BlocksShown(buf: bytes, pos: nat)
    ensures forall i :: 0 <= i < |Blocks(buf, pos)| ==> Shown(Blocks(buf, pos)[i])
    decreases |buf| - pos
  {
    hide LineFrom, Shown;
    if pos < |buf| {
      BlockShown(buf, pos);
      BlocksShown(buf, LineFrom(buf, pos, FRESH) + 1);
    }
  }

  /** A key that no line can give: a comment starts with '#', and no line starts with a newline. */
  predicate Unreadable(key: bytes) {
    key == [] || key[0] == HASH || key[0] == NEWLINE
  }

  lemma ReadableKey(block: bytes, fallback: Time, precision: string, o: Options)
    requires Shown(block) && !Skipped(block) && PointOf(LineOf(block), fallback, precision, o).Parsed?
    ensures !Unreadable(PointOf(LineOf(block), fallback, precision, o).point.key)
  {
    hide PointOf, SkipBlanks;
    var line := LineOf(block);
    assert line != [] && line[0] == block[SkipBlanks(block, 0)];
    assert SkipBlanks(line, 0) == 0;
    ParsedShape(line, fallback, precision, o);
  }

  ghost predicate ReadableFrom(points: seq<Point>, n: nat) {
    forall i :: n <= i < |points| ==> !Unreadable(points[i].key)
  }

  lemma {:induction false} ReadableKeys(a: seq<bytes>, b: seq<bytes>, fallback: Time, precision: string, o: Options)
    requires ParseBlocks(a, fallback, precision, o).Parse? && forall i :: 0 <= i < |b| ==> Shown(b[i])
    ensures var x, y := ParseBlocks(a, fallback, precision, o), ParseBlocks(a + b, fallback, precision, o);
      y.Parse? ==> ReadableFrom(y.points, |x.points|)
    decreases |b|
  {
    hide ParseBlocks, Shown, LineOf, PointOf, Skipped, Unreadable;
    if b == [] {
      assert a + b == a;
    } else {
      var n := |b| - 1;
      var done := ParseBlocks(a + b[..n], fallback, precision, o);
      ReadableKeys(a, b[..n], fallback, precision, o);
      ParseBlocksSnoc(a + b[..n], b[n], fallback, precision, o);
      assert a + b == (a + b[..n]) + [b[n]];
      if done.Parse? && !Skipped(b[n]) && PointOf(LineOf(b[n]), fallback, precision, o).Parsed? {
        ReadableKey(b[n], fallback, precision, o);
      }
    }
  }
}
