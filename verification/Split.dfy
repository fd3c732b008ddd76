/** Split: one point cut into several that share its key and time. */
module Split {
  import opened Bytes
  import opened Decimal
  import opened Times
  import opened Escape
  import opened Scan
  import opened TagKeys
  import opened Fields
  import opened FieldRoundTrip
  import opened FieldWalk
  import opened Points

  /** Every field from position cur on has its '='. */
  predicate Scannable(text: bytes, cur: nat)
    decreases |text| + 1 - cur
  {
    cur >= |text| || (NextBare(text, cur, {EQUALS}) < |text| && Scannable(text, FieldEnd(text, cur) + 1))
  }

  /** The end of the field at position cur. */
  function FieldEnd(text: bytes, cur: nat): (e: nat)
    requires cur < |text| && NextBare(text, cur, {EQUALS}) < |text|
    ensures cur < e <= |text|
    ensures e < |text| ==> text[e] == COMMA
  {
    FieldValueEnd(text, NextBare(text, cur, {EQUALS}) + 1, false)
  }

  /** The loop of Split: a piece is closed before the field that makes it longer than size. */
  function Cut(text: bytes, start: nat, cur: nat, size: int): seq<bytes>
    requires start <= |text| && start <= cur && Scannable(text, cur)
    decreases |text| + 1 - cur
  {
    if cur >= |text| then [text[start..]]
    else
      var end := FieldEnd(text, cur);
      if cur > start && end - start > size then [text[start..cur - 1]] + Cut(text, cur, end + 1, size)
      else Cut(text, start, end + 1, size)
  }

  function WithFields(p: Point, pieces: seq<bytes>): seq<Point> {
    seq(|pieces|, i requires 0 <= i < |pieces| => p.(fields := pieces[i]))
  }

  /** The room for fields in a line of the given size, beside the key, the time and two spaces. */
  function Room(p: Point, size: int): int
    requires p.time.Nanos?
  {
    size - (|p.key| + |FormatInt(p.time.ns)| + 2)
  }

  /** The points that Split returns. */
  function SplitPoints(p: Point, size: int): seq<Point>
    requires Scannable(p.fields, 0) && (p.time.Nanos? ==> Times.InRange(p.time.ns))
  {
    if p.time.Zero? || |Print(p)| <= size then [p] else WithFields(p, Cut(p.fields, 0, 0, Room(p, size)))
  }

  method SplitPoint(p: Point, size: int) returns (points: seq<Point>)
    requires Scannable(p.fields, 0) && (p.time.Nanos? ==> Times.InRange(p.time.ns))
    ensures points == SplitPoints(p, size)
  {
    hide Print, FieldEnd, Scannable, FormatInt, Cut, WithFields;
    if p.time.Zero? {
      return [p];
    }
    var n := StringSize(p);
    if n <= size {
      return [p];
    }
    var room := Room(p, size);
    points := [];
    var start, cur := 0, 0;
    ghost var pieces: seq<bytes> := [];
    NoPieces(p);
    while cur < |p.fields|
      invariant 0 <= start <= |p.fields| && start <= cur && Scannable(p.fields, cur)
      invariant points == WithFields(p, pieces)
      invariant Cut(p.fields, 0, 0, room) == pieces + Cut(p.fields, start, cur, room)
      decreases |p.fields| + 1 - cur
    {
      CutStep(p.fields, start, cur, room);
      var end := ScanTo(p.fields, cur, EQUALS);
      end := ScanFieldValue(p.fields, end + 1);
      if cur > start && end - start > room {
        var piece := p.fields[start..cur - 1];
        points := points + [p.(fields := piece)];
        Associate(pieces, [piece], Cut(p.fields, cur, end + 1, room));
        MorePieces(p, pieces, piece);
        pieces := pieces + [piece];
        start := cur;
      }
      cur := end + 1;
    }
    CutStep(p.fields, start, cur, room);
    MorePieces(p, pieces, p.fields[start..]);
    points := points + [p.(fields := p.fields[start..])];
  }

  lemma NoPieces(p: Point)
    ensures WithFields(p, []) == []
  {
  }

  lemma MorePieces(p: Point, pieces: seq<bytes>, piece: bytes)
    ensures WithFields(p, pieces + [piece]) == WithFields(p, pieces) + [p.(fields := piece)]
  {
  }

  lemma CutStep(text: bytes, start: nat, cur: nat, size: int)
    requires start <= |text| && start <= cur && Scannable(text, cur)
    ensures cur >= |text| ==> Cut(text, start, cur, size) == [text[start..]]
    ensures cur < |text| ==>
      && NextBare(text, cur, {EQUALS}) < |text|
      && var end := FieldValueEnd(text, NextBare(text, cur, {EQUALS}) + 1, false);
        && end == FieldEnd(text, cur) && Scannable(text, end + 1)
        && Cut(text, start, cur, size) ==
           if cur > start && end - start > size then [text[start..cur - 1]] + Cut(text, cur, end + 1, size)
           else Cut(text, start, end + 1, size)
  {
  }

  lemma ScannableStep(text: bytes, cur: nat)
    requires cur < |text| && Scannable(text, cur)
    ensures NextBare(text, cur, {EQUALS}) < |text| && Scannable(text, FieldEnd(text, cur) + 1)
  {
  }

  // ---- on arbitrary fields ----

  lemma {:induction false} ValueEndSuffix(buf: bytes, i: nat, t: bytes, j: nat, quoted: bool)
    requires j <= |t| && |buf| == i + |t| && forall n :: 0 <= n < |t| ==> t[n] == buf[i + n]
    ensures FieldValueEnd(buf, i + j, quoted) == i + FieldValueEnd(t, j, quoted)
    decreases |t| - j
  {
    hide FieldValueEnd;
    if j < |t| {
      ValueEndStep(t, j, quoted);
      ValueEndStep(buf, i + j, quoted);
      if t[j] == BACKSLASH && j + 1 < |t| && (t[j + 1] == QUOTE || t[j + 1] == BACKSLASH) {
        ValueEndSuffix(buf, i, t, j + 2, quoted);
      } else if t[j] == QUOTE {
        ValueEndSuffix(buf, i, t, j + 1, !quoted);
      } else {
        ValueEndSuffix(buf, i, t, j + 1, quoted);
      }
    }
  }

  lemma ValueEndTail(buf: bytes, i: nat, j: nat)
    requires i <= j <= |buf|
    ensures FieldValueEnd(buf, j, false) == i + FieldValueEnd(buf[i..], j - i, false)
  {
    hide FieldValueEnd;
    ValueEndSuffix(buf, i, buf[i..], j - i, false);
  }

  /** The field at cur ends at e. */
  predicate EndsAt(text: bytes, cur: nat, e: nat) {
    cur < |text| && NextBare(text, cur, {EQUALS}) < |text| && FieldEnd(text, cur) == e
  }

  lemma EndsAtSuffix(text: bytes, cur: nat, buf: bytes, e: nat)
    requires cur <= |text| && buf == text[cur..] && (cur == 0 || text[cur - 1] != BACKSLASH) && EndsAt(buf, 0, e)
    ensures EndsAt(text, cur, cur + e)
  {
    hide NextBare, FieldValueEnd;
    NextBareSuffix(text, cur, cur, {EQUALS});
    ValueEndTail(text, cur, cur + NextBare(buf, 0, {EQUALS}) + 1);
  }

  lemma ScannableAt(text: bytes, cur: nat, e: nat)
    requires EndsAt(text, cur, e) && Scannable(text, e + 1)
    ensures Scannable(text, cur)
  {
  }

  lemma KeySizesStep(buf: bytes, limit: int)
    requires buf != [] && KeySizes(buf, limit) == AllFit
    ensures var i := NextBare(buf, 0, {EQUALS});
      && i + 1 < |buf|
      && var rest := buf[i + 1..]; var j := FieldValueEnd(rest, 0, false);
         j < |rest| ==> KeySizes(rest[j + 1..], limit) == AllFit
  {
    hide NextBare, FieldValueEnd;
  }

  lemma WalkedStep(buf: bytes, limit: int) returns (e: nat)
    requires buf != [] && KeySizes(buf, limit) == AllFit
    ensures EndsAt(buf, 0, e) && e <= |buf|
    ensures e < |buf| ==> buf[e] == COMMA && KeySizes(buf[e + 1..], limit) == AllFit
  {
    hide NextBare, FieldValueEnd, KeySizes, EndsAt;
    KeySizesStep(buf, limit);
    var i := NextBare(buf, 0, {EQUALS});
    ValueEndTail(buf, i + 1, i + 1);
    EndsAtIs(buf, 0, i);
    e := FieldValueEnd(buf, i + 1, false);
    if e < |buf| {
      Suffix(buf, i + 1, e + 1, |buf|);
    }
  }

  lemma {:induction false} WalkedFrom(text: bytes, cur: nat, limit: int)
    requires cur <= |text| && (cur == 0 || text[cur - 1] == COMMA) && KeySizes(text[cur..], limit) == AllFit
    ensures Scannable(text, cur)
    decreases |text| - cur
  {
    hide KeySizes, EndsAt, Scannable;
    if cur < |text| {
      var buf := text[cur..];
      var e := WalkedStep(buf, limit);
      EndsAtSuffix(text, cur, buf, e);
      if e < |buf| {
        assert buf[e + 1..] == text[cur + e + 1..];
        WalkedFrom(text, cur + e + 1, limit);
      } else {
        PastEnd(text, cur + e + 1);
      }
      ScannableAt(text, cur, cur + e);
    } else {
      PastEnd(text, cur);
    }
  }

  lemma PastEnd(text: bytes, cur: nat)
    requires cur >= |text|
    ensures Scannable(text, cur)
  {
  }

  /** The fields of every point that the parser accepts can be split. */
  lemma ParsedFieldsScannable(buf: bytes, fallback: Time, precision: string, o: Options)
    requires PointOf(buf, fallback, precision, o).Parsed?
    ensures Scannable(PointOf(buf, fallback, precision, o).point.fields, 0)
  {
    hide ScanKey.KeyOfLine, FieldsFrom, TimeOf, KeySizes, Scannable, SkipBlanks;
    var p := PointOf(buf, fallback, precision, o).point;
    assert p.fields[0..] == p.fields;
    assert KeySizes(p.fields, MAX_KEY_LENGTH - 4 - |p.key|) == AllFit;
    WalkedFrom(p.fields, 0, MAX_KEY_LENGTH - 4 - |p.key|);
  }

  /** No byte of the fields is lost: the pieces joined by commas are the fields. */
  lemma {:induction false} CutJoins(text: bytes, start: nat, cur: nat, size: int)
    requires start <= |text| && start <= cur && Scannable(text, cur)
    requires start < cur <= |text| ==> text[cur - 1] == COMMA
    ensures Cut(text, start, cur, size) != []
    ensures JoinBy(Cut(text, start, cur, size), COMMA) == text[start..]
    decreases |text| + 1 - cur
  {
    hide FieldEnd, Scannable;
    if cur < |text| {
      ScannableStep(text, cur);
      var end := FieldEnd(text, cur);
      if cur > start && end - start > size {
        CutJoins(text, cur, end + 1, size);
        var tail := Cut(text, cur, end + 1, size);
        assert ([text[start..cur - 1]] + tail)[1..] == tail;
        assert text[start..] == text[start..cur - 1] + ([COMMA] + text[cur..]);
      } else {
        CutJoins(text, start, end + 1, size);
      }
    }
  }

  // ---- how large the pieces are ----

  lemma {:induction false} ValueEndWithin(buf: bytes, i: nat, e: nat, quoted: bool)
    requires i <= e <= |buf| && FieldValueEnd(buf, i, quoted) == e && (e < |buf| ==> buf[e] == COMMA)
    ensures FieldValueEnd(buf[..e], i, quoted) == e
    decreases e - i
  {
    hide FieldValueEnd;
    if i < e {
      ValueEndStep(buf, i, quoted);
      ValueEndStep(buf[..e], i, quoted);
      if buf[i] == BACKSLASH && i + 1 < |buf| && (buf[i + 1] == QUOTE || buf[i + 1] == BACKSLASH) {
        ValueEndWithin(buf, i + 2, e, quoted);
      } else if buf[i] == QUOTE {
        ValueEndWithin(buf, i + 1, e, !quoted);
      } else {
        ValueEndWithin(buf, i + 1, e, quoted);
      }
    } else {
      ValueEndStop(buf[..e], quoted);
    }
  }

  lemma ValueEndStop(buf: bytes, quoted: bool)
    ensures FieldValueEnd(buf, |buf|, quoted) == |buf|
  {
  }

  /** A piece that is one field from its first byte to its last. */
  predicate OneField(piece: bytes) {
    EndsAt(piece, 0, |piece|)
  }

  /** A field keeps its end when the text is cut there. */
  lemma FieldAlone(text: bytes, cur: nat)
    requires cur < |text| && NextBare(text, cur, {EQUALS}) < |text| && (cur == 0 || text[cur - 1] != BACKSLASH)
    ensures OneField(text[cur..FieldEnd(text, cur)])
  {
    hide NextBare, FieldValueEnd;
    var e := FieldEnd(text, cur);
    var upto := text[..e];
    var eq := NextBare(text, cur, {EQUALS});
    NoneBefore(text, cur, {EQUALS});
    forall j | cur <= j < eq ensures !IsBare(upto, j, {EQUALS}) {
      assert !IsBare(text, j, {EQUALS});
    }
    NextBareIs(upto, cur, {EQUALS}, eq);
    ValueEndWithin(text, eq + 1, e, false);
    NextBareSuffix(upto, cur, cur, {EQUALS});
    ValueEndTail(upto, cur, eq + 1);
    assert upto[cur..] == text[cur..e];
  }

  /** Where the walk over the fields from position cur on leaves the text. */
  function WalkEnd(text: bytes, cur: nat): (e: nat)
    requires Scannable(text, cur)
    ensures e >= |text|
    decreases |text| + 1 - cur
  {
    if cur >= |text| then cur else WalkEnd(text, FieldEnd(text, cur) + 1)
  }

  /** A comma after the last field: the walk ends on the end of the text and not one past it. */
  predicate Dangling(text: bytes)
    requires Scannable(text, 0)
  {
    WalkEnd(text, 0) == |text|
  }

  lemma WalkEndStep(text: bytes, cur: nat)
    requires Scannable(text, cur)
    ensures cur >= |text| ==> WalkEnd(text, cur) == cur
    ensures cur < |text| ==>
      && NextBare(text, cur, {EQUALS}) < |text|
      && var e := FieldEnd(text, cur); Scannable(text, e + 1) && WalkEnd(text, cur) == WalkEnd(text, e + 1)
  {
  }

  ghost predicate SmallPieces(pieces: seq<bytes>, size: int) {
    forall i :: 0 <= i < |pieces| ==> |pieces[i]| <= size || OneField(pieces[i])
  }

  lemma SmallPiece(piece: bytes, rest: seq<bytes>, size: int)
    requires (|piece| <= size || OneField(piece)) && SmallPieces(rest, size)
    ensures SmallPieces([piece] + rest, size)
  {
    hide OneField;
  }

  /** Every piece is within the size or a single field, if no comma is left over at the end. */
  lemma {:induction false} CutSizes(text: bytes, start: nat, cur: nat, size: int)
    requires start <= |text| && start <= cur <= |text| + 1 && Scannable(text, cur) && WalkEnd(text, cur) > |text|
    requires start == 0 || text[start - 1] == COMMA
    requires 0 < cur <= |text| ==> text[cur - 1] == COMMA
    requires start < cur ==> cur - 1 - start <= size || OneField(text[start..cur - 1])
    ensures SmallPieces(Cut(text, start, cur, size), size)
    decreases |text| + 1 - cur
  {
    hide FieldEnd, Scannable, WalkEnd, OneField, Cut;
    CutStep(text, start, cur, size);
    WalkEndStep(text, cur);
    if cur < |text| {
      var end := FieldEnd(text, cur);
      FieldAlone(text, cur);
      if cur > start && end - start > size {
        CutSizes(text, cur, end + 1, size);
        SmallPiece(text[start..cur - 1], Cut(text, cur, end + 1, size), size);
      } else {
        CutSizes(text, start, end + 1, size);
      }
    } else {
      assert text[start..] == text[start..cur - 1];
    }
  }

  /** A comma left over at the end belongs to no field, so it makes no piece close. */
  lemma {:induction false} DanglingWhole(text: bytes, cur: nat)
    requires Scannable(text, cur) && WalkEnd(text, cur) == |text|
    ensures Cut(text, 0, cur, |text| - 1) == [text]
    ensures cur < |text| ==> FieldEnd(text, cur) < |text| && text[|text| - 1] == COMMA
    decreases |text| + 1 - cur
  {
    hide FieldEnd, Scannable, WalkEnd, Cut;
    CutStep(text, 0, cur, |text| - 1);
    WalkEndStep(text, cur);
    if cur < |text| {
      WalkEndStep(text, FieldEnd(text, cur) + 1);
      DanglingWhole(text, FieldEnd(text, cur) + 1);
    } else {
      assert text[0..] == text;
    }
  }

  lemma DanglingCut(text: bytes)
    requires Scannable(text, 0) && Dangling(text)
    ensures !SmallPieces(Cut(text, 0, 0, |text| - 1), |text| - 1)
    ensures text != [] ==> text[|text| - 1] == COMMA
  {
    hide FieldEnd, Scannable, WalkEnd, Cut;
    DanglingWhole(text, 0);
    assert Cut(text, 0, 0, |text| - 1)[0] == text;
  }

  /** For every size each piece is within the size or a single field, exactly if no comma dangles. */
  lemma PieceSizes(text: bytes)
    requires Scannable(text, 0)
    ensures (forall size :: SmallPieces(Cut(text, 0, 0, size), size)) <==> !Dangling(text)
  {
    hide FieldEnd, Scannable, Cut, SmallPieces;
    if Dangling(text) {
      DanglingCut(text);
    } else {
      forall size ensures SmallPieces(Cut(text, 0, 0, size), size) {
        CutSizes(text, 0, 0, size);
      }
    }
  }

  ghost predicate SmallPoints(points: seq<Point>, size: int) {
    forall i :: 0 <= i < |points| ==> |Print(points[i])| <= size || OneField(points[i].fields)
  }

  lemma PiecesOfPoints(p: Point, pieces: seq<bytes>, size: int)
    requires p.time.Nanos?
    ensures SmallPoints(WithFields(p, pieces), size) <==> SmallPieces(pieces, Room(p, size))
  {
    hide OneField, FormatInt;
    var points := WithFields(p, pieces);
    if SmallPoints(points, size) {
      forall i | 0 <= i < |pieces| ensures |pieces[i]| <= Room(p, size) || OneField(pieces[i]) {
        assert |Print(points[i])| <= size || OneField(points[i].fields);
      }
    }
  }

  /**
   Split at every size: each returned point prints within the size or has a single field, exactly if
   the fields text of the point has no comma after its last field.
   */
  lemma SplitSizes(p: Point)
    requires Scannable(p.fields, 0) && p.time.Nanos? && Times.InRange(p.time.ns)
    ensures (forall size :: SmallPoints(SplitPoints(p, size), size)) <==> !Dangling(p.fields)
    ensures Dangling(p.fields) && p.fields != [] ==> p.fields[|p.fields| - 1] == COMMA
  {
    hide Scannable, Dangling, Cut, SmallPieces, OneField, Print, Room, WithFields;
    PieceSizes(p.fields);
    if !Dangling(p.fields) {
      forall size ensures SmallPoints(SplitPoints(p, size), size) {
        var room := Room(p, size);
        assert SmallPieces(Cut(p.fields, 0, 0, room), room);
        PiecesOfPoints(p, Cut(p.fields, 0, 0, room), size);
      }
    }
    if Dangling(p.fields) {
      var size := |Print(p)| - 1;
      WholeRoom(p);
      DanglingCut(p.fields);
      PiecesOfPoints(p, Cut(p.fields, 0, 0, Room(p, size)), size);
      assert !SmallPoints(SplitPoints(p, size), size);
    }
  }

  lemma WholeRoom(p: Point)
    requires p.time.Nanos?
    ensures Room(p, |Print(p)| - 1) == |p.fields| - 1
  {
    hide FormatInt;
  }

  /** The line m a=t,b="x"\, 1 and its fields. */
  const COMMA_LINE: bytes := [109, SPACE] + COMMA_FIELDS + [SPACE, 49]
  const COMMA_FIELDS: bytes := [97, EQUALS, LOWER_T, COMMA, 98, EQUALS, QUOTE, 120, QUOTE, BACKSLASH, COMMA]

  lemma CommaKey()
    ensures ScanKey.KeyOfLine(COMMA_LINE, 0) == ScanKey.Key(1, [109])
  {
    hide ScanKey.TagsFrom, ScanKey.OrderedKey;
    assert SkipBlanks(COMMA_LINE, 0) == 0;
    NextBareIs(COMMA_LINE, 1, {COMMA, SPACE}, 1);
    assert COMMA_LINE[0..1] == [109];
  }

  lemma CommaScan(o: Options)
    ensures FieldsFrom(COMMA_LINE, 2, State(false, 0, 0), o) == FieldsEnd(13)
  {
    hide NumberEnd;
    var b := COMMA_LINE;
    assert FieldsFrom(b, 13, State(false, 2, 1), o) == FieldsEnd(13);
    assert FieldsFrom(b, 10, State(true, 2, 1), o) == FieldsEnd(13);
    assert FieldsFrom(b, 8, State(false, 2, 1), o) == FieldsEnd(13);
    assert FieldsFrom(b, 6, State(false, 1, 1), o) == FieldsEnd(13);
    assert NextDelimiter(b, 5) == 5;
    assert b[4..5] == [LOWER_T];
    assert PlainValueEnd(b, 4, o) == At(5);
    assert FieldsFrom(b, 3, State(false, 0, 0), o) == FieldsEnd(13);
  }

  lemma CommaValues()
    ensures NextBare(COMMA_FIELDS, 0, {EQUALS}) == 1 && FieldValueEnd(COMMA_FIELDS, 2, false) == 3
    ensures NextBare(COMMA_FIELDS, 4, {EQUALS}) == 5 && FieldValueEnd(COMMA_FIELDS, 6, false) == 10
  {
    var t := COMMA_FIELDS;
    NextBareIs(t, 0, {EQUALS}, 1);
    NextBareIs(t, 4, {EQUALS}, 5);
    assert FieldValueEnd(t, 9, false) == 10;
    assert FieldValueEnd(t, 6, false) == FieldValueEnd(t, 8, true);
  }

  lemma CommaSizes(limit: int)
    requires limit >= 1
    ensures KeySizes(COMMA_FIELDS, limit) == AllFit
  {
    hide NextBare, FieldValueEnd, KeySizes;
    var t := COMMA_FIELDS;
    CommaValues();
    ValueEndTail(t, 2, 2);
    ValueEndTail(t, 6, 6);
    NextBareSuffix(t, 4, 4, {EQUALS});
    assert t[2..][2..] == t[4..] && t[4..][2..] == t[6..] && t[6..][5..] == [];
    NoFields(limit);
    KeySizesUnfold(t[4..], limit);
    KeySizesUnfold(t, limit);
  }

  lemma CommaTime(fallback: Time)
    ensures TimeOf(COMMA_LINE, 13, fallback, "n") == TimeIs(Nanos(1))
  {
    var b := COMMA_LINE;
    assert SkipBlanks(b, 13) == 14;
    assert StampFrom(b, 14, 14) == StampEnd(15);
    assert b[14..15] == [49] && [49][..0] == [];
    assert Decimal.Value([49]) == 1;
  }

  /** A line the parser accepts whose point Split returns whole, one byte longer than the requested size. */
  lemma CommaAfterLastField(fallback: Time, o: Options)
    ensures var p := Point([109], COMMA_FIELDS, Nanos(1));
      && PointOf(COMMA_LINE, fallback, "n", o) == Parsed(p)
      && Scannable(p.fields, 0) && Dangling(p.fields)
      && SplitPoints(p, |Print(p)| - 1) == [p] && !OneField(p.fields)
  {
    hide ScanKey.KeyOfLine, FieldsFrom, KeySizes, TimeOf, NextBare, FieldValueEnd, Cut, Print, Room;
    var p := Point([109], COMMA_FIELDS, Nanos(1));
    CommaKey();
    CommaScan(o);
    CommaSizes(MAX_KEY_LENGTH - 5);
    CommaTime(fallback);
    assert SkipBlanks(COMMA_LINE, 1) == 2;
    assert COMMA_LINE[2..13] == COMMA_FIELDS;
    CommaValues();
    assert Scannable(p.fields, 11);
    assert Scannable(p.fields, 4) && WalkEnd(p.fields, 4) == 11;
    DanglingWhole(p.fields, 0);
    WholeRoom(p);
  }

  // ---- on printed fields ----

  /** The fields of the pieces: g is the open piece, and a field that does not fit closes it. */
  function Greedy(g: seq<Field>, rest: seq<Field>, size: int): seq<seq<Field>>
    decreases |rest|
  {
    if rest == [] then [g]
    else if g != [] && |FieldsText(g + [rest[0]])| > size then [g] + Greedy([rest[0]], rest[1..], size)
    else Greedy(g + [rest[0]], rest[1..], size)
  }

  predicate Fits(g: seq<Field>, size: int) {
    |g| == 1 || (g != [] && |FieldsText(g)| <= size)
  }

  ghost predicate AllFits(groups: seq<seq<Field>>, size: int) {
    forall i :: 0 <= i < |groups| ==> Fits(groups[i], size)
  }

  /** The first field of the next piece would not have fitted. */
  ghost predicate CutLate(groups: seq<seq<Field>>, i: nat, size: int)
    requires i + 1 < |groups|
  {
    groups[i + 1] != [] && |FieldsText(groups[i] + [groups[i + 1][0]])| > size
  }

  lemma {:induction false} GreedyGroups(g: seq<Field>, rest: seq<Field>, size: int)
    requires if g == [] then rest != [] else Fits(g, size)
    ensures var groups := Greedy(g, rest, size);
      Flat(groups) == g + rest && AllFits(groups, size) && groups != [] && groups[0] != []
      && (g != [] ==> groups[0][0] == g[0])
    ensures forall i: nat :: i + 1 < |Greedy(g, rest, size)| ==> CutLate(Greedy(g, rest, size), i, size)
    decreases |rest|
  {
    hide FieldsText;
    if rest == [] {
      assert g + rest == g && Flat([g]) == g;
    } else if g != [] && |FieldsText(g + [rest[0]])| > size {
      GreedyGroups([rest[0]], rest[1..], size);
      var tail := Greedy([rest[0]], rest[1..], size);
      assert ([g] + tail)[1..] == tail;
      assert [rest[0]] + rest[1..] == rest;
      GreedyLate(g, tail, size);
    } else {
      GreedyGroups(g + [rest[0]], rest[1..], size);
      assert (g + [rest[0]]) + rest[1..] == g + rest;
    }
  }

  lemma GreedyLate(g: seq<Field>, tail: seq<seq<Field>>, size: int)
    requires tail != [] && tail[0] != [] && |FieldsText(g + [tail[0][0]])| > size
    requires forall i: nat :: i + 1 < |tail| ==> CutLate(tail, i, size)
    ensures forall i: nat :: i + 1 < |[g] + tail| ==> CutLate([g] + tail, i, size)
  {
    hide FieldsText;
    forall i: nat | i + 1 < |[g] + tail| ensures CutLate([g] + tail, i, size) {
      if i > 0 {
        assert CutLate(tail, i - 1, size);
      }
    }
  }

  function Texts(groups: seq<seq<Field>>): seq<bytes> {
    if groups == [] then [] else [FieldsText(groups[0])] + Texts(groups[1..])
  }

  /** The fields text of the open piece with the comma after it. */
  function Head(g: seq<Field>): bytes {
    if g == [] then [] else FieldsText(g) + [COMMA]
  }

  lemma {:induction false} FieldsTextAppend(g: seq<Field>, rest: seq<Field>)
    requires rest != []
    ensures FieldsText(g + rest) == Head(g) + FieldsText(rest)
  {
    hide FieldText, FieldsText;
    FieldsTextCons(g + rest);
    if g == [] {
      assert g + rest == rest;
    } else {
      FieldsTextCons(g);
      FieldsTextAppend(g[1..], rest);
      assert (g + rest)[1..] == g[1..] + rest;
      HeadCons(g, FieldsText(rest));
    }
  }

  lemma HeadCons(g: seq<Field>, t: bytes)
    requires g != []
    ensures Head(g) + t == FieldText(g[0]) + ([COMMA] + (Head(g[1..]) + t))
  {
    hide FieldText, FieldsText;
    FieldsTextCons(g);
    if |g| > 1 {
      var f, r := FieldText(g[0]), FieldsText(g[1..]);
      assert f + ([COMMA] + r) + [COMMA] + t == f + ([COMMA] + (r + [COMMA] + t));
    }
  }

  /** A field of printed text ends where the printer put its end. */
  lemma PrintedFieldEnd(f: Field, rest: bytes, o: Options)
    requires FieldOk(f, o) && (rest == [] || rest[0] == COMMA)
    ensures EndsAt(FieldText(f) + rest, 0, |FieldText(f)|)
  {
    hide NextBare, Escaped, ValueText, FieldText, FieldValueEnd, ValueOk, EndsAt;
    var k, v := Escaped(f.key, KEY_CODES), ValueText(f.value);
    FieldRest(f, rest);
    FieldTextSize(f);
    KeyEnd(f, v + rest);
    ValueThen(f.value, rest, o);
    EndsAfterKey(k, v + rest, |v|);
  }

  lemma EndsAfterKey(k: bytes, w: bytes, n: nat)
    requires var text := k + ([EQUALS] + w); NextBare(text, 0, {EQUALS}) == |k| && FieldValueEnd(w, 0, false) == n
    ensures EndsAt(k + ([EQUALS] + w), 0, |k| + 1 + n)
  {
    hide NextBare, FieldValueEnd, EndsAt;
    var text := k + ([EQUALS] + w);
    KeyRoundTrip.AfterEquals(k, w);
    ValueEndTail(text, |k| + 1, |k| + 1);
    EndsAtIs(text, 0, |k|);
  }

  lemma FieldTextSize(f: Field)
    ensures |FieldText(f)| == |Escaped(f.key, KEY_CODES)| + 1 + |ValueText(f.value)|
  {
    hide Escaped, ValueText;
  }

  lemma EndsAtIs(text: bytes, cur: nat, i: nat)
    requires cur < |text| && NextBare(text, cur, {EQUALS}) == i < |text|
    ensures EndsAt(text, cur, FieldValueEnd(text, i + 1, false))
  {
    hide NextBare, FieldValueEnd;
  }

  /** The field after pre in a text that goes on with the printed fields rest. */
  lemma NextField(text: bytes, pre: bytes, rest: seq<Field>, o: Options)
    requires rest != [] && FieldOk(rest[0], o) && (pre == [] || pre[|pre| - 1] == COMMA)
    requires text == pre + FieldsText(rest)
    ensures EndsAt(text, |pre|, |pre| + |FieldText(rest[0])|)
  {
    hide FieldsText, FieldText, EndsAt, FieldOk;
    var f := FieldText(rest[0]);
    var tail := if |rest| == 1 then [] else [COMMA] + FieldsText(rest[1..]);
    FieldsTextCons(rest);
    assert f + [] == f;
    PrintedFieldEnd(rest[0], tail, o);
    assert text[|pre|..] == FieldsText(rest);
    EndsAtSuffix(text, |pre|, FieldsText(rest), |f|);
  }

  /** Cut from position cur, as a relation, for a text that can be scanned. */
  ghost predicate CutsInto(text: bytes, start: nat, cur: nat, size: int, pieces: seq<bytes>) {
    start <= |text| && start <= cur && Scannable(text, cur) && Cut(text, start, cur, size) == pieces
  }

  lemma CutEnd(text: bytes, start: nat, cur: nat, size: int)
    requires start <= |text| <= cur
    ensures CutsInto(text, start, cur, size, [text[start..]])
  {
    PastEnd(text, cur);
  }

  lemma CutClose(text: bytes, start: nat, cur: nat, e: nat, size: int, pieces: seq<bytes>)
    requires start < cur && EndsAt(text, cur, e) && e - start > size && CutsInto(text, cur, e + 1, size, pieces)
    ensures CutsInto(text, start, cur, size, [text[start..cur - 1]] + pieces)
  {
    hide FieldEnd;
    ScannableAt(text, cur, e);
  }

  lemma CutGoOn(text: bytes, start: nat, cur: nat, e: nat, size: int, pieces: seq<bytes>)
    requires start <= cur && EndsAt(text, cur, e) && (start == cur || e - start <= size)
    requires CutsInto(text, start, e + 1, size, pieces)
    ensures CutsInto(text, start, cur, size, pieces)
  {
    hide FieldEnd;
    ScannableAt(text, cur, e);
  }

  /** On printed fields the pieces are the texts of the greedy groups. */
  lemma {:induction false} CutPrinted(text: bytes, before: bytes, g: seq<Field>, rest: seq<Field>, size: int, o: Options)
    requires before == [] || before[|before| - 1] == COMMA
    requires g + rest != [] && forall i :: 0 <= i < |rest| ==> FieldOk(rest[i], o)
    requires text == before + FieldsText(g + rest)
    ensures CutsInto(text, |before|, |before| + |Head(g)|, size, Texts(Greedy(g, rest, size)))
    decreases |rest|
  {
    hide FieldsText, FieldOk, CutsInto, EndsAt, FieldText, Head, Texts;
    var start, cur := |before|, |before| + |Head(g)|;
    HeadSize(g);
    if rest == [] {
      assert g + rest == g;
      assert text[start..] == FieldsText(g);
      CutEnd(text, start, cur, size);
      OneText(g);
    } else {
      var f, g' := rest[0], g + [rest[0]];
      var pre := before + Head(g);
      TextSplit(text, before, g, rest);
      NextField(text, pre, rest, o);
      Grown(g, f);
      HeadSize(g');
      var e := cur + |FieldText(f)|;
      if g != [] && |FieldsText(g')| > size {
        assert [f] + rest[1..] == rest;
        CutPrinted(text, pre, [f], rest[1..], size, o);
        HeadSize([f]);
        FieldsTextCons([f]);
        var tail := Greedy([f], rest[1..], size);
        CutClose(text, start, cur, e, size, Texts(tail));
        TextsCons(g, tail);
      } else {
        assert g' + rest[1..] == g + rest;
        CutPrinted(text, before, g', rest[1..], size, o);
        CutGoOn(text, start, cur, e, size, Texts(Greedy(g', rest[1..], size)));
      }
    }
  }

  lemma HeadSize(g: seq<Field>)
    ensures |Head(g)| == if g == [] then 0 else |FieldsText(g)| + 1
  {
    hide FieldsText;
  }

  lemma Grown(g: seq<Field>, f: Field)
    ensures |FieldsText(g + [f])| == |Head(g)| + |FieldText(f)|
  {
    hide FieldsText, Head, FieldText;
    FieldsTextAppend(g, [f]);
    FieldsTextCons([f]);
  }

  lemma TextSplit(text: bytes, before: bytes, g: seq<Field>, rest: seq<Field>)
    requires rest != [] && text == before + FieldsText(g + rest)
    requires before == [] || before[|before| - 1] == COMMA
    ensures text == (before + Head(g)) + FieldsText(rest)
    ensures var pre := before + Head(g); pre == [] || pre[|pre| - 1] == COMMA
    ensures g != [] ==> text[|before|..|before| + |Head(g)| - 1] == FieldsText(g)
  {
    hide FieldsText;
    FieldsTextAppend(g, rest);
    Associate(before, Head(g), FieldsText(rest));
  }

  lemma OneText(g: seq<Field>)
    ensures Texts([g]) == [FieldsText(g)]
  {
    hide FieldsText;
    assert [g][1..] == [];
  }

  lemma TextsCons(g: seq<Field>, tail: seq<seq<Field>>)
    ensures Texts([g] + tail) == [FieldsText(g)] + Texts(tail)
  {
    hide FieldsText;
    assert ([g] + tail)[1..] == tail;
  }

  /**
   Splitting a point with printed fields: each returned point has the key and time of the point and
   the text of one group of fields; the groups are the fields in order, none is empty, and each
   point's text is within the requested size unless it has a single field.
   */
  lemma SplitPrinted(key: bytes, fields: seq<Field>, ns: int64, size: int, o: Options) returns (groups: seq<seq<Field>>)
    requires fields != [] && Times.InRange(ns) && forall i :: 0 <= i < |fields| ==> FieldOk(fields[i], o)
    ensures var p := Point(key, FieldsText(fields), Nanos(ns));
      Scannable(p.fields, 0) && SplitPoints(p, size) == WithFields(p, Texts(groups))
    ensures Flat(groups) == fields
    ensures forall i :: 0 <= i < |groups| ==> groups[i] != []
    ensures forall i :: 0 <= i < |groups| ==>
      |groups[i]| == 1 || |Print(Point(key, FieldsText(groups[i]), Nanos(ns)))| <= size
  {
    hide FieldsText, FieldOk, Scannable, FormatInt, Cut;
    var p := Point(key, FieldsText(fields), Nanos(ns));
    var room := Room(p, size);
    assert [] + fields == fields;
    assert [] + FieldsText(fields) == FieldsText(fields);
    CutPrinted(p.fields, [], [], fields, room, o);
    HeadSize([]);
    if |Print(p)| <= size {
      groups := [fields];
      OneText(fields);
      assert Flat([fields]) == fields by { assert [fields][1..] == []; }
      assert WithFields(p, [p.fields]) == [p];
    } else {
      groups := Greedy([], fields, room);
      GreedyGroups([], fields, room);
      forall i | 0 <= i < |groups| ensures groups[i] != []
        && (|groups[i]| == 1 || |Print(Point(key, FieldsText(groups[i]), Nanos(ns)))| <= size)
      {
        assert Fits(groups[i], room);
      }
    }
  }
}
