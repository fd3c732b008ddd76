/** scanKey: find the measurement and the tags of a line, and bring the tags into the order of their raw keys. */
module ScanKey {
  import opened Bytes
  import opened Escape
  import opened Scan
  import opened TagOrder

  datatype TagScan =
    | Tags(end: nat, starts: seq<nat>)
    | TagError(at: nat, error: ScanError)

  /** The end of the tag that starts at s: the first bare ',' or ' '. */
  function TagEnd(buf: bytes, s: nat): (e: nat)
    requires s < |buf|
    ensures s < e <= |buf|
  {
    NextBare(buf, s + 1, {COMMA, SPACE})
  }

  function TagText(buf: bytes, s: nat): bytes {
    if s < |buf| then buf[s..TagEnd(buf, s)] else []
  }

  /** A tag key=value, neither part empty, closed by a delimiter. */
  predicate IsTag(buf: bytes, s: nat) {
    s < |buf| && buf[s] !in {SPACE, COMMA, EQUALS} && TagEnd(buf, s) < |buf| &&
    NextBare(buf, s, {EQUALS}) < TagEnd(buf, s)
  }

  predicate AllTags(buf: bytes, starts: seq<nat>) {
    forall j :: 0 <= j < |starts| ==> starts[j] < |buf| && IsTag(buf, starts[j])
  }

  /** One tag: its key, then its value. */
  function TagStep(buf: bytes, i: nat): (s: Step)
    requires i <= |buf|
    ensures s.ToTagKey? ==> i < s.next <= |buf|
    ensures s.ToFields? ==> i < s.next < |buf|
    ensures s.Bad? ==> i <= s.at <= |buf|
    ensures !s.ToTagValue?
  {
    var k := TagKeyStep(buf, i);
    if k.Bad? then k else TagValueStep(buf, k.next)
  }

  /** The tags found from position i on, each by the start of its key. */
  function TagsFrom(buf: bytes, i: nat): (r: TagScan)
    requires i <= |buf|
    ensures r.Tags? ==> |r.starts| >= 1 && r.starts[0] == i && i < r.end < |buf|
    ensures r.TagError? ==> i <= r.at <= |buf|
    decreases |buf| - i
  {
    match TagStep(buf, i)
    case Bad(at, error) => TagError(at, error)
    case ToFields(e) => Tags(e, [i])
    case ToTagKey(next) => Prepend([i], TagsFrom(buf, next))
  }

  function Prepend(found: seq<nat>, t: TagScan): TagScan {
    match t
    case Tags(end, starts) => Tags(end, found + starts)
    case TagError(_, _) => t
  }

  /** Entry j is a tag, and the next entry is one past its end. */
  predicate LinkAt(buf: bytes, table: seq<nat>, j: nat)
    requires j + 1 < |table|
  {
    IsTag(buf, table[j]) && TagEnd(buf, table[j]) + 1 == table[j + 1]
  }

  predicate Linked(buf: bytes, table: seq<nat>) {
    forall j :: 0 <= j < |table| - 1 ==> LinkAt(buf, table, j)
  }

  predicate CommaAfter(buf: bytes, starts: seq<nat>, j: nat)
    requires j < |starts|
  {
    IsTag(buf, starts[j]) && buf[TagEnd(buf, starts[j])] == COMMA
  }

  predicate Adjacent(buf: bytes, starts: seq<nat>) {
    && AllTags(buf, starts)
    && Linked(buf, starts)
    && forall j :: 0 <= j < |starts| - 1 ==> CommaAfter(buf, starts, j)
  }

  /** The shape of a successful scan: adjacent tags, a ',' between them and a ' ' after the last. */
  predicate Chained(buf: bytes, starts: seq<nat>, end: nat) {
    && |starts| >= 1
    && Adjacent(buf, starts)
    && TagEnd(buf, starts[|starts| - 1]) == end && end < |buf| && buf[end] == SPACE
  }

  lemma OneTag(buf: bytes, i: nat)
    requires i <= |buf| && !TagStep(buf, i).Bad?
    ensures IsTag(buf, i)
    ensures TagEnd(buf, i) == if TagStep(buf, i).ToFields? then TagStep(buf, i).next else TagStep(buf, i).next - 1
    ensures buf[TagEnd(buf, i)] == if TagStep(buf, i).ToFields? then SPACE else COMMA
  {
    var k := TagKeyStep(buf, i).next;
    var v := TagValueStep(buf, k);
    var e := if v.ToFields? then v.next else v.next - 1;
    NoneBefore(buf, i + 1, {SPACE, COMMA, EQUALS});
    NoneBefore(buf, k + 1, {EQUALS, COMMA, SPACE});
    forall j | i + 1 <= j < e ensures !IsBare(buf, j, {COMMA, SPACE}) {
      if j < k - 1 {
        assert !IsBare(buf, j, {SPACE, COMMA, EQUALS});
      } else if j > k {
        assert !IsBare(buf, j, {EQUALS, COMMA, SPACE});
      }
    }
    NextBareIs(buf, i + 1, {COMMA, SPACE}, e);
    forall j | i <= j < k - 1 ensures !IsBare(buf, j, {EQUALS}) {
      if j > i {
        assert !IsBare(buf, j, {SPACE, COMMA, EQUALS});
      }
    }
    NextBareIs(buf, i, {EQUALS}, k - 1);
  }

  lemma {:induction false} TagsChained(buf: bytes, i: nat)
    requires i <= |buf| && TagsFrom(buf, i).Tags?
    ensures Chained(buf, TagsFrom(buf, i).starts, TagsFrom(buf, i).end)
    decreases |buf| - i
  {
    OneTag(buf, i);
    hide TagStep, IsTag, TagEnd, NextBare;
    var v := TagStep(buf, i);
    if v.ToTagKey? {
      TagsChained(buf, v.next);
      ChainedCons(buf, i, TagsFrom(buf, v.next).starts, TagsFrom(buf, v.next).end);
    }
  }

  lemma ChainedCons(buf: bytes, i: nat, starts: seq<nat>, end: nat)
    requires Chained(buf, starts, end) && IsTag(buf, i)
    requires TagEnd(buf, i) + 1 == starts[0] && buf[TagEnd(buf, i)] == COMMA
    ensures Chained(buf, [i] + starts, end)
  {
    hide IsTag, TagEnd;
    var all := [i] + starts;
    forall j | 0 <= j < |all| - 1
      ensures LinkAt(buf, all, j) && CommaAfter(buf, all, j)
    {
      if j > 0 {
        assert LinkAt(buf, starts, j - 1) && CommaAfter(buf, starts, j - 1);
      }
    }
  }

  // ---- the table of tag positions ----

  /** 100, 200, 400, ...: the lengths the table can have. */
  predicate IsTableSize(n: nat) {
    n == 100 || (n > 100 && n % 2 == 0 && IsTableSize(n / 2))
  }

  lemma {:induction false} TableSizesApart(m: nat, n: nat)
    requires IsTableSize(m) && IsTableSize(n) && m <= n < 2 * m
    ensures m == n
  {
    if m > 100 && n > 100 {
      TableSizesApart(m / 2, n / 2);
    }
  }

  lemma {:induction false} TableSizeMinimum(n: nat)
    requires IsTableSize(n)
    ensures n >= 100
  {
  }

  /** The length of the table after commas tags have been entered. */
  predicate Fits(length: nat, commas: nat) {
    IsTableSize(length) && commas <= length && (length == 100 || length < 2 * commas)
  }

  lemma FullTable(length: nat, commas: nat)
    requires Fits(length, commas)
    ensures IsTableSize(commas) <==> commas == length
  {
    if IsTableSize(commas) {
      TableSizeMinimum(commas);
      TableSizesApart(commas, length);
    }
  }

  datatype TagsOutcome = Found(end: nat, commas: nat) | Failed(at: nat, error: ScanError) | Panic

  /** Enters position i as entry number commas, after doubling the table if it is full. */
  method Enter(indices: array<nat>, commas: nat, i: nat) returns (grown: array<nat>)
    requires Fits(indices.Length, commas)
    modifies indices
    ensures grown == indices || fresh(grown)
    ensures Fits(grown.Length, commas + 1)
    ensures grown[..commas + 1] == old(indices[..commas]) + [i]
  {
    TableSizeMinimum(indices.Length);
    grown := indices;
    if commas >= indices.Length {
      grown := new nat[indices.Length * 2](_ => 0);
      forall j | 0 <= j < indices.Length { grown[j] := indices[j]; }
    }
    grown[commas] := i;
  }

  method ScanTag(buf: bytes, i: nat) returns (s: Step)
    requires i <= |buf|
    ensures s == TagStep(buf, i)
  {
    s := ScanTagsKey(buf, i);
    if s.ToTagValue? {
      s := ScanTagsValue(buf, s.next);
    }
  }

  /**
   scanTags. The table grows only before a tag is entered, so the end marker written after the last
   tag has no room, and the index panics, exactly when the tags fill the table.
   */
  method ScanTags(buf: bytes, start: nat) returns (r: TagsOutcome, indices: array<nat>)
    requires start <= |buf|
    ensures fresh(indices)
    ensures r == TagsResult(TagsFrom(buf, start))
    ensures r.Found? ==> TableHolds(indices, TagsFrom(buf, start))
  {
    assert Fits(100, 0);
    hide TagStep, IsTableSize, TagsResult, TableHolds;
    var i, commas := start, 0;
    indices := new nat[100](_ => 0);
    while true
      invariant start <= i <= |buf|
      invariant fresh(indices) && Fits(indices.Length, commas)
      invariant TagsFrom(buf, start) == Prepend(indices[..commas], TagsFrom(buf, i))
      decreases |buf| - i
    {
      ghost var before := indices[..commas];
      indices := Enter(indices, commas, i);
      commas := commas + 1;
      var v := ScanTag(buf, i);
      if v.Bad? {
        ErrorResult(v.at, v.error);
        return Failed(v.at, v.error), indices;
      }
      if v.ToFields? {
        r := Close(indices, commas, v.next);
        return;
      }
      PrependOne(before, i, TagsFrom(buf, v.next));
      i := v.next;
    }
  }

  function TagsResult(t: TagScan): TagsOutcome {
    match t
    case TagError(at, error) => Failed(at, error)
    case Tags(end, starts) => if IsTableSize(|starts|) then Panic else Found(end, |starts|)
  }

  ghost predicate TableHolds(indices: array<nat>, t: TagScan)
    reads indices
  {
    t.Tags? && |t.starts| < indices.Length && indices[..|t.starts|] == t.starts && indices[|t.starts|] == t.end + 1
  }

  /** The last step of scanTags: the marker one past the end of the last tag. */
  method Close(indices: array<nat>, commas: nat, end: nat) returns (r: TagsOutcome)
    requires Fits(indices.Length, commas)
    modifies indices
    ensures r == TagsResult(Tags(end, old(indices[..commas])))
    ensures r.Found? ==> TableHolds(indices, Tags(end, old(indices[..commas])))
  {
    FullTable(indices.Length, commas);
    if commas == indices.Length {
      return Panic;
    }
    indices[commas] := end + 1;
    return Found(end, commas);
  }

  lemma ErrorResult(at: nat, error: ScanError)
    ensures TagsResult(TagError(at, error)) == Failed(at, error)
  {
  }

  lemma PrependOne(found: seq<nat>, i: nat, t: TagScan)
    ensures Prepend(found + [i], t) == Prepend(found, Prepend([i], t))
  {
    if t.Tags? {
      assert found + [i] + t.starts == found + ([i] + t.starts);
    }
  }

  // ---- the sort ----

  function RawKey(buf: bytes, s: nat): bytes
    requires s <= |buf|
  {
    buf[s..NextBare(buf, s, {EQUALS})]
  }

  predicate Within(buf: bytes, a: seq<nat>) {
    forall i :: 0 <= i < |a| ==> a[i] <= |buf|
  }

  function InsertAt(buf: bytes, a: seq<nat>, x: nat): (r: seq<nat>)
    requires Within(buf, a) && x <= |buf|
    ensures Within(buf, r) && |r| == |a| + 1
  {
    if a == [] || !Less(RawKey(buf, x), RawKey(buf, a[|a| - 1])) then a + [x]
    else InsertAt(buf, a[..|a| - 1], x) + [a[|a| - 1]]
  }

  function SortPositions(buf: bytes, a: seq<nat>): (r: seq<nat>)
    requires Within(buf, a)
    ensures Within(buf, r) && |r| == |a|
  {
    if a == [] then [] else InsertAt(buf, SortPositions(buf, a[..|a| - 1]), a[|a| - 1])
  }

  /** The inner loop of insertionSort: entry i moves left past the entries with greater keys. */
  method MoveLeft(i: nat, buf: bytes, indices: array<nat>)
    requires i < indices.Length && Within(buf, indices[..i + 1])
    modifies indices
    ensures indices[..i + 1] == InsertAt(buf, old(indices[..i]), old(indices[i]))
    ensures indices[i + 1..] == old(indices[i + 1..])
  {
    ghost var done, x := indices[..i], indices[i];
    var j := i;
    assert Moved(buf, indices[..i + 1], done, x, j) by {
      assert done[..i] == done && done[i..] == [];
    }
    while j > 0
      invariant 0 <= j <= i
      invariant Moved(buf, indices[..i + 1], done, x, j)
      invariant indices[i + 1..] == old(indices[i + 1..])
    {
      assert indices[j] == indices[..i + 1][j] && indices[j - 1] == indices[..i + 1][j - 1];
      if !Less(RawKey(buf, indices[j]), RawKey(buf, indices[j - 1])) {
        break;
      }
      MoveOne(buf, indices[..i + 1], done, x, j);
      ghost var next := indices[..i + 1][j := indices[j - 1]][j - 1 := indices[j]];
      indices[j], indices[j - 1] := indices[j - 1], indices[j];
      assert indices[..i + 1] == next;
      j := j - 1;
    }
    MoveDone(buf, indices[..i + 1], done, x, j);
  }

  /** x has moved to position j among the entries of done. */
  ghost predicate Moved(buf: bytes, a: seq<nat>, done: seq<nat>, x: nat, j: nat) {
    && j <= |done| && Within(buf, done) && x <= |buf|
    && a == done[..j] + [x] + done[j..]
    && InsertAt(buf, done, x) == InsertAt(buf, done[..j], x) + done[j..]
  }

  lemma MoveOne(buf: bytes, a: seq<nat>, done: seq<nat>, x: nat, j: nat)
    requires Moved(buf, a, done, x, j) && j > 0
    requires Less(RawKey(buf, a[j]), RawKey(buf, a[j - 1]))
    ensures Moved(buf, a[j := a[j - 1]][j - 1 := a[j]], done, x, j - 1)
  {
    assert done[..j][..j - 1] == done[..j - 1];
    assert done[j - 1..] == [done[j - 1]] + done[j..];
  }

  lemma MoveDone(buf: bytes, a: seq<nat>, done: seq<nat>, x: nat, j: nat)
    requires Moved(buf, a, done, x, j)
    requires j > 0 ==> !Less(RawKey(buf, a[j]), RawKey(buf, a[j - 1]))
    ensures a == InsertAt(buf, done, x)
  {
    assert InsertAt(buf, done[..j], x) == done[..j] + [x];
  }

  /** insertionSort with less, on the first r entries of the table. */
  method InsertionSort(r: nat, buf: bytes, indices: array<nat>)
    requires r <= indices.Length && Within(buf, indices[..r])
    modifies indices
    ensures indices[..r] == SortPositions(buf, old(indices[..r]))
    ensures indices[r..] == old(indices[r..])
  {
    ghost var was := indices[..];
    if r == 0 {
      return;
    }
    var i := 1;
    assert was[..1][..0] == [];
    while i < r
      invariant 1 <= i <= r
      invariant Within(buf, was[..i])
      invariant indices[..i] == SortPositions(buf, was[..i])
      invariant indices[i..] == was[i..]
    {
      assert indices[i] == indices[i..][0] == was[i] == was[..r][i];
      assert indices[..i + 1] == indices[..i] + [was[i]];
      MoveLeft(i, buf, indices);
      assert was[..i + 1][..i] == was[..i];
      assert was[i + 1..] == was[i..][1..];
      i := i + 1;
    }
  }

  function Texts(buf: bytes, starts: seq<nat>): (t: seq<bytes>)
    ensures |t| == |starts|
  {
    if starts == [] then [] else Texts(buf, starts[..|starts| - 1]) + [TagText(buf, starts[|starts| - 1])]
  }

  lemma {:induction false} TextsAt(buf: bytes, starts: seq<nat>, j: nat)
    requires j < |starts|
    ensures Texts(buf, starts)[j] == TagText(buf, starts[j])
  {
    if j < |starts| - 1 {
      TextsAt(buf, starts[..|starts| - 1], j);
    }
  }

  lemma TagKey(buf: bytes, s: nat)
    requires IsTag(buf, s)
    ensures KeyOf(TagText(buf, s)) == RawKey(buf, s)
    ensures KeyOf(buf[s..]) == RawKey(buf, s)
  {
    SliceKey(buf, s, TagEnd(buf, s));
    assert buf[s..] == buf[s..|buf|];
    SliceKey(buf, s, |buf|);
  }

  lemma SliceKey(buf: bytes, s: nat, e: nat)
    requires IsTag(buf, s) && TagEnd(buf, s) <= e <= |buf|
    ensures KeyOf(buf[s..e]) == RawKey(buf, s)
  {
    var k := NextBare(buf, s, {EQUALS});
    NoneBefore(buf, s, {EQUALS});
    var t := buf[s..e];
    forall j | 0 <= j < k - s ensures !IsBare(t, j, {EQUALS}) {
      assert !IsBare(buf, s + j, {EQUALS});
    }
    NextBareIs(t, 0, {EQUALS}, k - s);
    assert t[..k - s] == buf[s..k];
  }

  lemma {:induction false} InsertAllTags(buf: bytes, a: seq<nat>, x: nat)
    requires IsTag(buf, x) && AllTags(buf, a)
    ensures AllTags(buf, InsertAt(buf, a, x))
  {
    if a != [] && Less(RawKey(buf, x), RawKey(buf, a[|a| - 1])) {
      hide Less, RawKey, NextBare;
      InsertAllTags(buf, a[..|a| - 1], x);
    }
  }

  lemma {:induction false} InsertTexts(buf: bytes, a: seq<nat>, x: nat)
    requires IsTag(buf, x) && AllTags(buf, a)
    ensures Texts(buf, InsertAt(buf, a, x)) == Insert(Texts(buf, a), TagText(buf, x))
  {
    if a != [] {
      var n := |a| - 1;
      assert x < |buf| && a[n] < |buf|;
      hide IsTag, NextBare, KeyOf, RawKey, TagText, Less;
      TagKey(buf, x);
      TagKey(buf, a[n]);
      TextsSnoc(buf, a[..n], a[n]);
      Snoc(a);
      if Less(RawKey(buf, x), RawKey(buf, a[n])) {
        InsertTexts(buf, a[..n], x);
        TextsSnoc(buf, InsertAt(buf, a[..n], x), a[n]);
      } else {
        TextsSnoc(buf, a, x);
      }
    }
  }

  lemma TextsSnoc(buf: bytes, a: seq<nat>, x: nat)
    ensures Texts(buf, a + [x]) == Texts(buf, a) + [TagText(buf, x)]
    ensures Texts(buf, a + [x])[..|a|] == Texts(buf, a)
  {
    assert (a + [x])[..|a|] == a;
  }

  lemma AllTagsFront(buf: bytes, a: seq<nat>)
    requires AllTags(buf, a) && a != []
    ensures AllTags(buf, a[..|a| - 1]) && IsTag(buf, a[|a| - 1]) && Within(buf, a)
  {
  }

  /** Sorting the positions sorts the tag texts. */
  lemma {:induction false} SortTexts(buf: bytes, a: seq<nat>)
    requires AllTags(buf, a)
    ensures AllTags(buf, SortPositions(buf, a))
    ensures Texts(buf, SortPositions(buf, a)) == SortTags(Texts(buf, a))
  {
    if a != [] {
      var n := |a| - 1;
      AllTagsFront(buf, a);
      hide AllTags, Texts, TagText, Insert, InsertAt;
      SortTexts(buf, a[..n]);
      InsertAllTags(buf, SortPositions(buf, a[..n]), a[n]);
      InsertTexts(buf, SortPositions(buf, a[..n]), a[n]);
      TextsSnoc(buf, a[..n], a[n]);
      Snoc(a);
    }
  }

  // ---- the key ----

  /** ",tag" for each tag. */
  function Joined(tags: seq<bytes>): bytes {
    if tags == [] then [] else Joined(tags[..|tags| - 1]) + ([COMMA] + tags[|tags| - 1])
  }

  lemma {:induction false} JoinedPrefix(tags: seq<bytes>, j: nat)
    requires j <= |tags|
    ensures |Joined(tags[..j])| <= |Joined(tags)|
  {
    if j < |tags| {
      JoinedPrefix(tags[..|tags| - 1], j);
      assert tags[..|tags| - 1][..j] == tags[..j];
    } else {
      assert tags[..j] == tags;
    }
  }

  /** The tags joined in the order of the line are the tag section of the line. */
  lemma {:induction false} JoinedIsText(buf: bytes, starts: seq<nat>)
    requires Adjacent(buf, starts) && starts != [] && 1 <= starts[0] && buf[starts[0] - 1] == COMMA
    ensures starts[0] <= TagEnd(buf, starts[|starts| - 1])
    ensures Joined(Texts(buf, starts)) == buf[starts[0] - 1..TagEnd(buf, starts[|starts| - 1])]
  {
    hide NextBare, IsTag, TagEnd, Texts, Joined;
    var n := |starts| - 1;
    var last := starts[n];
    assert last < |buf|;
    TextsLast(buf, starts);
    if n == 0 {
      NoTags(buf);
      assert starts[..0] == [];
      CommaBefore(buf, last);
    } else {
      AdjacentPrefix(buf, starts);
      JoinedIsText(buf, starts[..n]);
      AdjacentAt(buf, starts, n - 1);
      CommaBefore(buf, last);
      Consecutive(buf, starts[0] - 1, last - 1, TagEnd(buf, last));
    }
  }

  lemma AdjacentPrefix(buf: bytes, starts: seq<nat>)
    requires Adjacent(buf, starts) && |starts| > 1
    ensures Adjacent(buf, starts[..|starts| - 1])
  {
    hide IsTag, TagEnd;
    var front := starts[..|starts| - 1];
    forall j | 0 <= j < |front| - 1 ensures LinkAt(buf, front, j) && CommaAfter(buf, front, j) {
      assert LinkAt(buf, starts, j) && CommaAfter(buf, starts, j);
    }
  }

  lemma TextsLast(buf: bytes, starts: seq<nat>)
    requires starts != []
    ensures Joined(Texts(buf, starts)) ==
            Joined(Texts(buf, starts[..|starts| - 1])) + ([COMMA] + TagText(buf, starts[|starts| - 1]))
  {
    var n := |starts| - 1;
    TextsSnoc(buf, starts[..n], starts[n]);
    Snoc(starts);
  }

  lemma AdjacentAt(buf: bytes, starts: seq<nat>, j: nat)
    requires Adjacent(buf, starts) && j + 1 < |starts|
    ensures IsTag(buf, starts[j]) && TagEnd(buf, starts[j]) + 1 == starts[j + 1]
    ensures buf[TagEnd(buf, starts[j])] == COMMA
  {
    assert LinkAt(buf, starts, j) && CommaAfter(buf, starts, j);
  }

  lemma CommaBefore(buf: bytes, s: nat)
    requires 1 <= s < |buf| && buf[s - 1] == COMMA
    ensures [COMMA] + TagText(buf, s) == buf[s - 1..TagEnd(buf, s)]
  {
  }

  lemma Consecutive(buf: bytes, a: nat, b: nat, c: nat)
    requires a <= b <= c <= |buf|
    ensures buf[a..b] + buf[b..c] == buf[a..c]
  {
  }

  datatype KeyScan = Key(pos: nat, key: bytes) | KeyError(error: ScanError) | KeyPanic

  /** What scanKey must return for a line, without reference to positions, table or sort. */
  ghost function KeyOfLine(buf: bytes, i: nat): KeyScan
    requires i <= |buf|
  {
    var start := SkipBlanks(buf, i);
    match MeasurementStep(buf, start)
    case Bad(_, error) => KeyError(error)
    case ToTagValue(_) => KeyPanic
    case ToFields(e) => Key(e, buf[start..e])
    case ToTagKey(next) =>
      match TagsFrom(buf, next)
      case TagError(_, error) => KeyError(error)
      case Tags(end, starts) =>
        if IsTableSize(|starts|) then KeyPanic
        else OrderedKey(end, buf[start..next - 1], Texts(buf, starts))
  }

  /** The comparison of neighbours before any sorting: in order, out of order, or equal. */
  datatype Neighbours = Ascending | OutOfOrder | Equal

  /** The raw key between two entries of the table. */
  method KeyBetween(buf: bytes, from: nat, to: nat) returns (key: bytes)
    requires IsTag(buf, from) && TagEnd(buf, from) + 1 == to
    ensures key == KeyOf(TagText(buf, from))
  {
    var tag := buf[from..to - 1];
    var e := ScanTo(tag, 0, EQUALS);
    key := tag[..e];
  }

  method CompareNeighbours(buf: bytes, table: seq<nat>, commas: nat) returns (r: Neighbours)
    requires commas + 1 == |table| && Linked(buf, table)
    ensures r.Ascending? ==> StrictlySorted(Texts(buf, table[..commas]))
    ensures r.Equal? ==> !DistinctKeys(Texts(buf, table[..commas]))
    ensures r.OutOfOrder? ==> !Sorted(Texts(buf, table[..commas]))
  {
    hide IsTag, TagEnd, Texts, TagText, KeyOf, Less;
    ghost var tags := Texts(buf, table[..commas]);
    var j := 0;
    while j + 1 < commas
      invariant j == 0 || 0 < j < commas
      invariant forall n :: 0 <= n < j ==> Rising(tags, n)
    {
      TextsAt(buf, table[..commas], j);
      TextsAt(buf, table[..commas], j + 1);
      assert LinkAt(buf, table, j) && LinkAt(buf, table, j + 1);
      var leftKey := KeyBetween(buf, table[j], table[j + 1]);
      var rightKey := KeyBetween(buf, table[j + 1], table[j + 2]);
      if Less(rightKey, leftKey) {
        return OutOfOrder;
      } else if leftKey == rightKey {
        return Equal;
      }
      LessTotal(leftKey, rightKey);
      j := j + 1;
    }
    AllAscending(tags);
    return Ascending;
  }

  lemma AllAscending(tags: seq<bytes>)
    requires forall n :: 0 <= n < |tags| - 1 ==> Rising(tags, n)
    ensures StrictlySorted(tags)
  {
    forall a, b | 0 <= a < b < |tags| ensures Less(KeyOf(tags[a]), KeyOf(tags[b])) {
      AscendingNeighbours(tags, a, b);
    }
  }

  /** The raw key of the tag at one entry, read to the end of the line. */
  method KeyAt(buf: bytes, from: nat) returns (key: bytes)
    requires IsTag(buf, from)
    ensures key == KeyOf(TagText(buf, from))
  {
    TagKey(buf, from);
    var e := ScanTo(buf[from..], 0, EQUALS);
    key := buf[from..][..e];
  }

  /** The second pass over the sorted positions: does any tag equal its neighbour? */
  method AnyEqualNeighbours(buf: bytes, table: seq<nat>) returns (found: bool)
    requires AllTags(buf, table)
    requires Sorted(Texts(buf, table))
    ensures found <==> !DistinctKeys(Texts(buf, table))
  {
    hide IsTag, TagEnd, Texts, TagText, KeyOf, Less;
    ghost var tags := Texts(buf, table);
    var j := 0;
    while j + 1 < |table|
      invariant j == 0 || 0 < j < |table|
      invariant forall n :: 0 <= n < j ==> Apart(tags, n)
    {
      TextsAt(buf, table, j);
      TextsAt(buf, table, j + 1);
      var leftKey := KeyAt(buf, table[j]);
      var rightKey := KeyAt(buf, table[j + 1]);
      if leftKey == rightKey {
        return true;
      }
      j := j + 1;
    }
    DistinctNeighbours(tags);
    return false;
  }

  lemma DistinctNeighbours(tags: seq<bytes>)
    requires Sorted(tags)
    requires forall n :: 0 <= n < |tags| - 1 ==> Apart(tags, n)
    ensures DistinctKeys(tags)
  {
    forall a, b | 0 <= a < b < |tags| ensures KeyOf(tags[a]) != KeyOf(tags[b]) {
      NeighboursDecide(tags, a, b);
      LessAsymmetric(KeyOf(tags[a]), KeyOf(tags[b]));
    }
  }

  /** Appends ",tag" at pos; the tag is read from the line up to its delimiter. */
  method AppendTag(buf: bytes, s: nat, b: array<byte>, pos: nat) returns (next: nat)
    requires IsTag(buf, s)
    requires pos + 1 + |TagText(buf, s)| <= b.Length
    modifies b
    ensures next == pos + 1 + |TagText(buf, s)|
    ensures b[..next] == old(b[..pos]) + ([COMMA] + TagText(buf, s))
  {
    b[pos] := COMMA;
    assert b[..pos + 1] == old(b[..pos]) + [COMMA];
    var e := ScanToSpaceOr(buf, s, COMMA);
    var n := CopyInto(b, pos + 1, buf[s..e]);
    next := pos + 1 + n;
    Associate(old(b[..pos]), [COMMA], TagText(buf, s));
  }

  function KeyBytes(measurement: bytes, tags: seq<bytes>): bytes {
    measurement + Joined(tags)
  }

  /** Writes the measurement and the tags, in the order of the table, into a buffer of the key's size. */
  method Rebuild(buf: bytes, measurement: bytes, table: seq<nat>, size: nat) returns (b: array<byte>)
    requires AllTags(buf, table)
    requires size == |KeyBytes(measurement, Texts(buf, table))|
    ensures fresh(b)
    ensures b[..] == KeyBytes(measurement, Texts(buf, table))
  {
    hide KeyBytes, Texts, TagText, IsTag;
    KeyNoTags(buf, measurement);
    KeyGrows(buf, measurement, table, 0);
    b := new byte[size](_ => 0);
    var pos := CopyInto(b, 0, measurement);
    for j := 0 to |table|
      invariant 0 <= pos <= b.Length
      invariant b[..pos] == KeyBytes(measurement, Texts(buf, table[..j]))
    {
      KeyGrows(buf, measurement, table, j + 1);
      KeyNext(buf, measurement, table, j);
      pos := AppendTag(buf, table[j], b, pos);
    }
    assert table[..|table|] == table;
    assert b[..pos] == b[..];
  }

  lemma NoTags(buf: bytes)
    ensures Joined(Texts(buf, [])) == []
  {
  }

  lemma KeyNoTags(buf: bytes, measurement: bytes)
    ensures KeyBytes(measurement, Texts(buf, [])) == measurement
  {
  }

  lemma KeyGrows(buf: bytes, measurement: bytes, table: seq<nat>, j: nat)
    requires j <= |table|
    ensures |KeyBytes(measurement, Texts(buf, table[..j]))| <= |KeyBytes(measurement, Texts(buf, table))|
  {
    TextsPrefix(buf, table, j);
    JoinedPrefix(Texts(buf, table), j);
  }

  lemma KeyNext(buf: bytes, measurement: bytes, table: seq<nat>, j: nat)
    requires j < |table|
    ensures KeyBytes(measurement, Texts(buf, table[..j + 1])) ==
            KeyBytes(measurement, Texts(buf, table[..j])) + ([COMMA] + TagText(buf, table[j]))
  {
    assert table[..j + 1][..j] == table[..j];
    TextsLast(buf, table[..j + 1]);
    hide Joined, Texts, TagText;
    Associate(measurement, Joined(Texts(buf, table[..j])), [COMMA] + TagText(buf, table[j]));
  }

  lemma {:induction false} TextsPrefix(buf: bytes, table: seq<nat>, j: nat)
    requires j <= |table|
    ensures Texts(buf, table[..j]) == Texts(buf, table)[..j]
  {
    if j < |table| {
      TextsPrefix(buf, table[..|table| - 1], j);
      assert table[..|table| - 1][..j] == table[..j];
    } else {
      assert table[..j] == table;
    }
  }

  /** The part of scanKey after the tags have been found: detect order and duplicates, sort, rebuild. */
  method OrderTags(buf: bytes, start: nat, end: nat, indices: array<nat>, commas: nat, ghost starts: seq<nat>)
    returns (r: KeyScan)
    requires start < end <= |buf| && 0 < commas < indices.Length
    requires indices[..commas] == starts && indices[commas] == end + 1
    requires Chained(buf, starts, end) && start < starts[0] && buf[starts[0] - 1] == COMMA
    modifies indices
    ensures r == OrderedKey(end, buf[start..starts[0] - 1], Texts(buf, starts))
  {
    hide OrderedKey, KeyBytes, Texts, SortTags, DistinctKeys, Sorted, StrictlySorted, Chained, Linked, AllTags, Within,
         SortPositions;
    var table := indices[..commas + 1];
    assert table == starts + [end + 1] && table[..commas] == starts && starts[0] == indices[0];
    ChainedLinks(buf, starts, end, table);
    ChainedTags(buf, starts, end);
    KeyText(buf, start, starts, end);
    var order := CompareNeighbours(buf, table, commas);
    if order.Equal? {
      DuplicateKey(end, buf[start..starts[0] - 1], Texts(buf, starts));
      return KeyError(DuplicateTags);
    }
    if order.Ascending? {
      AscendingKey(end, buf[start..starts[0] - 1], Texts(buf, starts));
      return Key(end, buf[start..end]);
    }
    var measurement := buf[start..indices[0] - 1];
    InsertionSort(commas, buf, indices);
    r := SortedKey(buf, measurement, end, indices[..commas], end - start, starts);
  }

  /** The key from the sorted positions, unless two neighbours are equal. */
  method SortedKey(buf: bytes, measurement: bytes, end: nat, table: seq<nat>, size: nat, ghost starts: seq<nat>)
    returns (r: KeyScan)
    requires AllTags(buf, starts) && table == SortPositions(buf, starts)
    requires size == |KeyBytes(measurement, Texts(buf, starts))|
    ensures r == OrderedKey(end, measurement, Texts(buf, starts))
  {
    SortTexts(buf, starts);
    SortedSize(Texts(buf, starts));
    var b := Rebuild(buf, measurement, table, size);
    var equal := AnyEqualNeighbours(buf, table);
    r := if equal then KeyError(DuplicateTags) else Key(end, b[..]);
  }

  /** The key made of a measurement and tags, in any order. */
  ghost function OrderedKey(end: nat, measurement: bytes, tags: seq<bytes>): KeyScan {
    if DistinctKeys(tags) then Key(end, KeyBytes(measurement, SortTags(tags))) else KeyError(DuplicateTags)
  }

  lemma AscendingKey(end: nat, measurement: bytes, tags: seq<bytes>)
    requires StrictlySorted(tags)
    ensures OrderedKey(end, measurement, tags) == Key(end, KeyBytes(measurement, tags))
  {
    SortedAlready(tags);
  }

  lemma DuplicateKey(end: nat, measurement: bytes, tags: seq<bytes>)
    requires !DistinctKeys(tags)
    ensures OrderedKey(end, measurement, tags) == KeyError(DuplicateTags)
  {
  }

  lemma ChainedLinks(buf: bytes, starts: seq<nat>, end: nat, table: seq<nat>)
    requires Chained(buf, starts, end) && table == starts + [end + 1]
    ensures Linked(buf, table)
  {
    hide IsTag, TagEnd;
    forall j | 0 <= j < |table| - 1 ensures LinkAt(buf, table, j) {
      if j + 1 < |starts| {
        assert LinkAt(buf, starts, j);
      }
    }
  }

  lemma ChainedTags(buf: bytes, starts: seq<nat>, end: nat)
    requires Chained(buf, starts, end)
    ensures AllTags(buf, starts) && Within(buf, starts)
  {
    hide IsTag, TagEnd;
  }

  lemma KeyText(buf: bytes, start: nat, starts: seq<nat>, end: nat)
    requires Chained(buf, starts, end) && start < starts[0] && buf[starts[0] - 1] == COMMA
    ensures starts[0] - 1 <= end
    ensures buf[start..end] == KeyBytes(buf[start..starts[0] - 1], Texts(buf, starts))
  {
    JoinedIsText(buf, starts);
    hide Adjacent, Texts, Joined;
    Consecutive(buf, start, starts[0] - 1, end);
  }

  lemma SortedSize(tags: seq<bytes>)
    ensures |Joined(SortTags(tags))| == |Joined(tags)|
    ensures Sorted(SortTags(tags))
    ensures DistinctKeys(SortTags(tags)) <==> DistinctKeys(tags)
  {
    SortTagsSorts(tags);
    SameLength(SortTags(tags), tags);
    DistinctAfterSort(tags);
  }

  method ScanKey(buf: bytes, i: nat) returns (r: KeyScan)
    requires i <= |buf|
    ensures r == KeyOfLine(buf, i)
  {
    hide OrderedKey, IsTableSize, TagsFrom, SkipBlanks, Texts, NextBare;
    var start := SkipWhitespace(buf, i);
    var m := ScanMeasurement(buf, start);
    if m.Bad? {
      return KeyError(m.error);
    }
    if m.ToFields? {
      return Key(m.next, buf[start..m.next]);
    }
    var t, indices := ScanTags(buf, m.next);
    if t.Panic? {
      return KeyPanic;
    } else if t.Failed? {
      return KeyError(t.error);
    }
    TagsChained(buf, m.next);
    r := OrderTags(buf, start, t.end, indices, t.commas, TagsFrom(buf, m.next).starts);
  }

  lemma DistinctAfterSort(tags: seq<bytes>)
    ensures DistinctKeys(SortTags(tags)) <==> DistinctKeys(tags)
  {
    SortTagsSorts(tags);
    if DistinctKeys(tags) {
      DistinctKeysPermute(tags, SortTags(tags));
    }
    if DistinctKeys(SortTags(tags)) {
      DistinctKeysPermute(SortTags(tags), tags);
    }
  }

  lemma {:induction false} SameLength(a: seq<bytes>, b: seq<bytes>)
    requires multiset(a) == multiset(b)
    ensures |Joined(a)| == |Joined(b)|
  {
    if a == [] {
      assert |multiset(b)| == |b|;
    } else {
      var n := |a| - 1;
      var x := a[n];
      assert a == a[..n] + [x];
      assert x in multiset(b);
      var i :| 0 <= i < |b| && b[i] == x;
      var b' := b[..i] + b[i + 1..];
      assert b == b[..i] + [x] + b[i + 1..];
      assert multiset(b') == multiset(b) - multiset{x};
      SameLength(a[..n], b');
      JoinedWithout(b, i);
    }
  }

  lemma {:induction false} JoinedWithout(b: seq<bytes>, i: nat)
    requires i < |b|
    ensures |Joined(b)| == |Joined(b[..i] + b[i + 1..])| + 1 + |b[i]|
  {
    var n := |b| - 1;
    if i == n {
      assert b[..i] + b[i + 1..] == b[..n];
    } else {
      JoinedWithout(b[..n], i);
      var without := b[..i] + b[i + 1..];
      assert without[..n - 1] == b[..n][..i] + b[..n][i + 1..];
      assert without[n - 1] == b[n];
    }
  }

  // ---- what the key is ----

  /** The measurement and the tag texts of a line whose key scans without error. */
  ghost predicate HasTags(buf: bytes, measurement: bytes, tags: seq<bytes>) {
    var start := SkipBlanks(buf, 0);
    var m := MeasurementStep(buf, start);
    m.ToTagKey? && measurement == buf[start..m.next - 1] && TagsFrom(buf, m.next).Tags? &&
    tags == Texts(buf, TagsFrom(buf, m.next).starts)
  }

  lemma KeyOfTagged(buf: bytes, measurement: bytes, tags: seq<bytes>) returns (end: nat)
    requires HasTags(buf, measurement, tags)
    ensures KeyOfLine(buf, 0) == if IsTableSize(|tags|) then KeyPanic else OrderedKey(end, measurement, tags)
  {
    hide OrderedKey, IsTableSize, TagsFrom, SkipBlanks, Texts, NextBare;
    end := TagsFrom(buf, MeasurementStep(buf, SkipBlanks(buf, 0)).next).end;
  }

  /**
   scanKey computes a canonical form: two lines with the same measurement and the same tags in any
   order get the same bytes as their key, or both are refused; the refusal is for equal raw keys only.
   */
  lemma CanonicalKey(a: bytes, b: bytes, measurement: bytes, tagsA: seq<bytes>, tagsB: seq<bytes>)
    requires HasTags(a, measurement, tagsA) && HasTags(b, measurement, tagsB)
    requires multiset(tagsA) == multiset(tagsB)
    ensures KeyOfLine(a, 0).KeyPanic? <==> IsTableSize(|tagsA|)
    ensures KeyOfLine(a, 0).KeyPanic? <==> KeyOfLine(b, 0).KeyPanic?
    ensures !IsTableSize(|tagsA|) ==> (KeyOfLine(a, 0) == KeyError(DuplicateTags) <==> !DistinctKeys(tagsA))
    ensures KeyOfLine(a, 0).KeyError? ==> KeyOfLine(b, 0) == KeyOfLine(a, 0)
    ensures KeyOfLine(a, 0).Key? ==>
              && KeyOfLine(b, 0).Key?
              && KeyOfLine(a, 0).key == KeyOfLine(b, 0).key == KeyBytes(measurement, SortTags(tagsA))
              && StrictlySorted(SortTags(tagsA))
              && multiset(SortTags(tagsA)) == multiset(tagsA)
  {
    var endA := KeyOfTagged(a, measurement, tagsA);
    var endB := KeyOfTagged(b, measurement, tagsB);
    hide KeyOfLine, HasTags;
    assert |multiset(tagsA)| == |tagsA| && |multiset(tagsB)| == |tagsB|;
    if DistinctKeys(tagsA) {
      CanonicalOrder(tagsA, tagsB);
      DistinctKeysPermute(tagsA, tagsB);
      SortTagsSorts(tagsA);
    } else if DistinctKeys(tagsB) {
      DistinctKeysPermute(tagsB, tagsA);
    }
  }
}
