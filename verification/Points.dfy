/** A point as text and back: String, StringSize, and parsePoint. */
module Points {
  import opened Bytes
  import opened Decimal
  import opened Times
  import opened Escape
  import opened Scan
  import opened TagOrder
  import opened ScanKey
  import opened Fields
  import opened FieldWalk

  const MAX_KEY_LENGTH: int := 65535

  datatype Point = Point(key: bytes, fields: bytes, time: Time)

  /** String and AppendString: a point without a time has no third part. */
  function Print(p: Point): bytes {
    p.key + ([SPACE] + (p.fields + (if p.time.Zero? then [] else [SPACE] + FormatInt(p.time.ns))))
  }

  // ---- the timestamp ----

  datatype Stamp = StampEnd(end: nat) | BadStamp

  /** scanTime from position i on, where the text of the time starts at start. */
  function StampFrom(buf: bytes, start: nat, i: nat): (r: Stamp)
    requires start <= i <= |buf|
    ensures r.StampEnd? ==> i <= r.end <= |buf|
    decreases |buf| - i
  {
    if i == |buf| || buf[i] == NEWLINE || buf[i] == SPACE then StampEnd(i)
    else if i == start && buf[i] == MINUS then StampFrom(buf, start, i + 1)
    else if !IsDigit(buf[i]) then BadStamp
    else StampFrom(buf, start, i + 1)
  }

  method ScanTime(buf: bytes, pos: nat) returns (start: nat, r: Stamp)
    requires pos <= |buf|
    ensures start == SkipBlanks(buf, pos) && r == StampFrom(buf, start, start)
  {
    start := SkipWhitespace(buf, pos);
    var i := start;
    while i < |buf|
      invariant start <= i <= |buf|
      invariant StampFrom(buf, start, start) == StampFrom(buf, start, i)
    {
      if buf[i] == NEWLINE || buf[i] == SPACE {
        break;
      }
      if i == start && buf[i] == MINUS {
        i := i + 1;
        continue;
      }
      if buf[i] < ZERO || buf[i] > NINE {
        return start, BadStamp;
      }
      i := i + 1;
    }
    return start, StampEnd(i);
  }

  // ---- the whole line ----

  datatype ParseError =
    | BadKey(error: ScanError)
    | MissingKey
    | KeyTooLong
    | BadFields
    | BadTime
    | InvalidPoint

  datatype ParseResult = Parsed(point: Point) | Refused(error: ParseError) | Panicked

  predicate OnlySpaces(buf: bytes, pos: nat)
    requires pos <= |buf|
  {
    forall j :: pos <= j < |buf| ==> buf[j] == SPACE
  }

  datatype TimeScan = TimeIs(time: Time) | TimeError(error: ParseError)

  /** The time of a line: the fallback if it has none. */
  function TimeOf(buf: bytes, pos: nat, fallback: Time, precision: string): TimeScan
    requires pos <= |buf|
  {
    var start := SkipBlanks(buf, pos);
    match StampFrom(buf, start, start)
    case BadStamp => TimeError(BadTime)
    case StampEnd(e) =>
      if e == start then TimeIs(fallback)
      else
        var n := ParseInt(buf[start..e]);
        if !n.Number? then TimeError(BadTime)
        else
          var t := SafeCalcTime(n.n, precision);
          if t.OutOfRange? then TimeError(BadTime)
          else if !OnlySpaces(buf, e) then TimeError(InvalidPoint)
          else TimeIs(t.time)
  }

  /** Fields and time of a line whose key has been read. */
  function RestOf(buf: bytes, pos: nat, key: bytes, fallback: Time, precision: string, o: Options): ParseResult
    requires pos <= |buf|
  {
    var start := SkipBlanks(buf, pos);
    if start < 2 then Refused(BadFields)
    else
      match FieldsFrom(buf, start, State(false, 0, 0), o)
      case FieldError => Refused(BadFields)
      case FieldsEnd(end) =>
        var fields := buf[start..end];
        match KeySizes(fields, MAX_KEY_LENGTH - 4 - |key|)
        case Malformed => Refused(BadFields)
        case TooLong => Refused(KeyTooLong)
        case AllFit =>
          var t := TimeOf(buf, end, fallback, precision);
          if t.TimeIs? then Parsed(Point(key, fields, t.time)) else Refused(t.error)
  }

  /** parsePoint: the key, the fields, the time. */
  ghost function PointOf(buf: bytes, fallback: Time, precision: string, o: Options): ParseResult {
    match KeyOfLine(buf, 0)
    case KeyPanic => Panicked
    case KeyError(error) => Refused(BadKey(error))
    case Key(pos, key) =>
      if key == [] then Refused(MissingKey)
      else if |key| > MAX_KEY_LENGTH then Refused(KeyTooLong)
      else if pos > |buf| then Panicked
      else RestOf(buf, pos, key, fallback, precision, o)
  }

  /** A key has the length and the first byte of its text in the line, which ends at a bare space. */
  lemma KeyShape(buf: bytes)
    requires KeyOfLine(buf, 0).Key?
    ensures var k, start := KeyOfLine(buf, 0), SkipBlanks(buf, 0);
      && start < k.pos < |buf| && IsBare(buf, k.pos, {SPACE})
      && |k.key| == k.pos - start && k.key[0] == buf[start]
    ensures SkipBlanks(buf, KeyOfLine(buf, 0).pos) >= KeyOfLine(buf, 0).pos + 1
  {
    hide OrderedKey, TagsFrom, SkipBlanks, IsTableSize, NextBare, Texts;
    var start := SkipBlanks(buf, 0);
    var m := MeasurementStep(buf, start);
    if m.ToTagKey? && TagsFrom(buf, m.next).Tags? {
      var t := TagsFrom(buf, m.next);
      TagsChained(buf, m.next);
      ChainedEnd(buf, t.starts, t.end);
      KeyText(buf, start, t.starts, t.end);
      OrderedEnd(t.end, buf[start..m.next - 1], Texts(buf, t.starts));
    }
    PastSpace(buf, KeyOfLine(buf, 0).pos);
  }

  lemma ChainedEnd(buf: bytes, starts: seq<nat>, end: nat)
    requires Chained(buf, starts, end)
    ensures end < |buf| && IsBare(buf, end, {SPACE})
  {
    hide NextBare, Adjacent;
  }

  /** What is read stands in the line: the key, a space, the fields. */
  lemma ParsedShape(buf: bytes, fallback: Time, precision: string, o: Options)
    requires PointOf(buf, fallback, precision, o).Parsed?
    ensures var p := PointOf(buf, fallback, precision, o).point;
      && |p.key| + 1 + |p.fields| <= |buf|
      && SkipBlanks(buf, 0) < |buf| && p.key != [] && p.key[0] == buf[SkipBlanks(buf, 0)]
  {
    hide KeyOfLine, FieldsFrom, KeySizes, TimeOf, SkipBlanks;
    KeyShape(buf);
  }

  lemma OrderedEnd(end: nat, m: bytes, tags: seq<bytes>)
    ensures var k := OrderedKey(end, m, tags);
      k.Key? ==> k.pos == end && |k.key| == |KeyBytes(m, tags)| && (m != [] ==> k.key[0] == m[0])
    ensures !OrderedKey(end, m, tags).KeyPanic?
  {
    hide DistinctKeys, Joined, SortTags;
    SortedSize(tags);
  }

  lemma PastSpace(buf: bytes, pos: nat)
    requires pos < |buf| && buf[pos] == SPACE
    ensures SkipBlanks(buf, pos) >= pos + 1
  {
  }

  method ParseTime(buf: bytes, pos: nat, fallback: Time, precision: string) returns (r: TimeScan)
    requires pos <= |buf|
    ensures r == TimeOf(buf, pos, fallback, precision)
  {
    hide StampFrom, ParseInt, SafeCalcTime;
    var start, s := ScanTime(buf, pos);
    if s.BadStamp? {
      return TimeError(BadTime);
    }
    if s.end == start {
      return TimeIs(fallback);
    }
    var n := ParseInt(buf[start..s.end]);
    if !n.Number? {
      return TimeError(BadTime);
    }
    var t := SafeCalcTime(n.n, precision);
    if t.OutOfRange? {
      return TimeError(BadTime);
    }
    var i := s.end;
    while i < |buf|
      invariant s.end <= i <= |buf|
      invariant forall j :: s.end <= j < i ==> buf[j] == SPACE
    {
      if buf[i] != SPACE {
        return TimeError(InvalidPoint);
      }
      i := i + 1;
    }
    return TimeIs(t.time);
  }

  method ParsePoint(buf: bytes, fallback: Time, precision: string, o: Options) returns (r: ParseResult)
    ensures r == PointOf(buf, fallback, precision, o)
  {
    hide KeyOfLine, FieldsFrom, KeySizes, TimeOf;
    var k := ScanKey.ScanKey(buf, 0);
    match k {
      case KeyPanic => return Panicked;
      case KeyError(error) => return Refused(BadKey(error));
      case Key(pos, key) =>
        KeyShape(buf);
        if |key| == 0 {
          return Refused(MissingKey);
        }
        if |key| > MAX_KEY_LENGTH {
          return Refused(KeyTooLong);
        }
        var start, f := ScanFields(buf, pos, o);
        if f.FieldError? {
          return Refused(BadFields);
        }
        var fields := buf[start..f.end];
        var w := WalkFields(fields, MAX_KEY_LENGTH - 4 - |key|);
        if w.Malformed? {
          return Refused(BadFields);
        }
        if w.TooLong? {
          return Refused(KeyTooLong);
        }
        var t := ParseTime(buf, f.end, fallback, precision);
        r := if t.TimeIs? then Parsed(Point(key, fields, t.time)) else Refused(t.error);
    }
  }

  // ---- the size of the text ----

  /** -t in 64 bits: the smallest integer is its own negative. */
  function Negated(t: int64): int64 {
    if t == MIN_INT64 then t else -(t as int)
  }

  /** StringSize counts the digits by division; the count is right for every time but the smallest integer. */
  method StringSize(p: Point) returns (size: nat)
    requires p.time.Nanos? ==> MIN_INT64 <= p.time.ns <= MAX_INT64
    ensures size == |Print(p)| <==> p.time.Zero? || p.time.ns != MIN_INT64
  {
    size := |p.key| + |p.fields| + 1;
    if p.time.Nanos? {
      var digits := 1;
      var t: int := p.time.ns;
      if t < 0 {
        digits := digits + 1;
        t := Negated(t);
      }
      ghost var count := digits + (if t < 0 then 0 else |Numeral(t)| - 1);
      while t > 9
        invariant p.time.ns != MIN_INT64 ==> t >= 0
        invariant p.time.ns == MIN_INT64 ==> t < 0
        invariant count == digits + (if t < 0 then 0 else |Numeral(t)| - 1)
      {
        digits := digits + 1;
        t := t / 10;
      }
      size := size + digits + 1;
      if p.time.ns == MIN_INT64 {
        LongNumeral(-MIN_INT64);
      }
    }
  }

  lemma LongNumeral(n: nat)
    requires n >= 1000
    ensures |Numeral(n)| >= 3
  {
    assert Numeral(n) == Numeral(n / 10) + [ZERO + n % 10];
    assert Numeral(n / 10) == Numeral(n / 10 / 10) + [ZERO + n / 10 % 10];
  }
}
