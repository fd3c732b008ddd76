/** The delimiter scanners of the line protocol: all look for the first delimiter that has no backslash before it. */
module Scan {
  import opened Bytes
  import opened Escape

  /** The first position from i on that holds a bare byte of stops, or the end of buf. */
  function NextBare(buf: bytes, i: nat, stops: set<byte>): (e: nat)
    requires i <= |buf|
    ensures i <= e <= |buf|
    ensures e < |buf| ==> IsBare(buf, e, stops)
    decreases |buf| - i
  {
    if i == |buf| || IsBare(buf, i, stops) then i else NextBare(buf, i + 1, stops)
  }

  lemma {:induction false} NoneBefore(buf: bytes, i: nat, stops: set<byte>)
    requires i <= |buf|
    ensures forall j :: i <= j < NextBare(buf, i, stops) ==> !IsBare(buf, j, stops)
    decreases |buf| - i
  {
    if i < |buf| && !IsBare(buf, i, stops) {
      NoneBefore(buf, i + 1, stops);
    }
  }

  /** Being the first bare stop determines the position. */
  lemma NextBareIs(buf: bytes, i: nat, stops: set<byte>, e: nat)
    requires i <= e <= |buf|
    requires e < |buf| ==> IsBare(buf, e, stops)
    requires forall j :: i <= j < e ==> !IsBare(buf, j, stops)
    ensures NextBare(buf, i, stops) == e
  {
    NoneBefore(buf, i, stops);
    var f := NextBare(buf, i, stops);
    assert f <= e && e <= f;
  }

  datatype ScanError =
    | MissingMeasurement
    | MissingFields
    | MissingTagKey
    | MissingTagValue
    | InvalidTagFormat
    | DuplicateTags

  /** Where a scanner went next: to a tag key, to a tag value, to the fields, or to an error. */
  datatype Step =
    | ToTagKey(next: nat)
    | ToTagValue(next: nat)
    | ToFields(next: nat)
    | Bad(at: nat, error: ScanError)

  function MeasurementStep(buf: bytes, i: nat): (s: Step)
    requires i <= |buf|
    ensures s.ToTagKey? ==> i + 1 < s.next <= |buf| && buf[s.next - 1] == COMMA
    ensures s.ToFields? ==> i < s.next < |buf| && buf[s.next] == SPACE
    ensures s.Bad? ==> i <= s.at <= |buf|
    ensures !s.ToTagValue?
  {
    if i == |buf| || buf[i] == COMMA then Bad(i, MissingMeasurement)
    else
      var e := NextBare(buf, i + 1, {COMMA, SPACE});
      if e == |buf| then Bad(e, MissingFields)
      else if buf[e] == COMMA then ToTagKey(e + 1)
      else ToFields(e)
  }

  function TagKeyStep(buf: bytes, i: nat): (s: Step)
    requires i <= |buf|
    ensures s.ToTagValue? || s.Bad?
    ensures s.ToTagValue? ==> i + 1 < s.next <= |buf| && buf[s.next - 1] == EQUALS
    ensures s.Bad? ==> i <= s.at <= |buf|
  {
    if i == |buf| || buf[i] in {SPACE, COMMA, EQUALS} then Bad(i, MissingTagKey)
    else
      var e := NextBare(buf, i + 1, {SPACE, COMMA, EQUALS});
      if e == |buf| || buf[e] != EQUALS then Bad(e, MissingTagValue)
      else ToTagValue(e + 1)
  }

  function TagValueStep(buf: bytes, i: nat): (s: Step)
    requires i <= |buf|
    ensures !s.ToTagValue?
    ensures s.ToTagKey? ==> i + 1 < s.next <= |buf| && buf[s.next - 1] == COMMA
    ensures s.ToFields? ==> i < s.next < |buf| && buf[s.next] == SPACE
    ensures s.Bad? ==> i <= s.at <= |buf|
  {
    if i == |buf| || buf[i] in {COMMA, SPACE} then Bad(i, MissingTagValue)
    else
      var e := NextBare(buf, i + 1, {EQUALS, COMMA, SPACE});
      if e == |buf| then Bad(e, MissingFields)
      else if buf[e] == EQUALS then Bad(e, InvalidTagFormat)
      else if buf[e] == COMMA then ToTagKey(e + 1)
      else ToFields(e)
  }

  method ScanMeasurement(buf: bytes, start: nat) returns (s: Step)
    requires start <= |buf|
    ensures s == MeasurementStep(buf, start)
  {
    if start >= |buf| || buf[start] == COMMA {
      return Bad(start, MissingMeasurement);
    }
    var i := start;
    while true
      invariant start <= i < |buf|
      invariant forall j :: start + 1 <= j <= i ==> !IsBare(buf, j, {COMMA, SPACE})
      decreases |buf| - i
    {
      i := i + 1;
      if i >= |buf| {
        NextBareIs(buf, start + 1, {COMMA, SPACE}, i);
        return Bad(i, MissingFields);
      }
      if buf[i - 1] == BACKSLASH {
        continue;
      }
      if buf[i] == COMMA {
        NextBareIs(buf, start + 1, {COMMA, SPACE}, i);
        return ToTagKey(i + 1);
      }
      if buf[i] == SPACE {
        NextBareIs(buf, start + 1, {COMMA, SPACE}, i);
        return ToFields(i);
      }
    }
  }

  method ScanTagsKey(buf: bytes, start: nat) returns (s: Step)
    requires start <= |buf|
    ensures s == TagKeyStep(buf, start)
  {
    if start >= |buf| || buf[start] == SPACE || buf[start] == COMMA || buf[start] == EQUALS {
      return Bad(start, MissingTagKey);
    }
    var i := start;
    while true
      invariant start <= i < |buf|
      invariant forall j :: start + 1 <= j <= i ==> !IsBare(buf, j, {SPACE, COMMA, EQUALS})
      decreases |buf| - i
    {
      i := i + 1;
      if i >= |buf| || ((buf[i] == SPACE || buf[i] == COMMA) && buf[i - 1] != BACKSLASH) {
        NextBareIs(buf, start + 1, {SPACE, COMMA, EQUALS}, i);
        return Bad(i, MissingTagValue);
      }
      if buf[i] == EQUALS && buf[i - 1] != BACKSLASH {
        NextBareIs(buf, start + 1, {SPACE, COMMA, EQUALS}, i);
        return ToTagValue(i + 1);
      }
    }
  }

  method ScanTagsValue(buf: bytes, start: nat) returns (s: Step)
    requires start <= |buf|
    ensures s == TagValueStep(buf, start)
  {
    if start >= |buf| || buf[start] == COMMA || buf[start] == SPACE {
      return Bad(start, MissingTagValue);
    }
    var i := start;
    while true
      invariant start <= i < |buf|
      invariant forall j :: start + 1 <= j <= i ==> !IsBare(buf, j, {EQUALS, COMMA, SPACE})
      decreases |buf| - i
    {
      i := i + 1;
      if i >= |buf| {
        NextBareIs(buf, start + 1, {EQUALS, COMMA, SPACE}, i);
        return Bad(i, MissingFields);
      }
      if buf[i] == EQUALS && buf[i - 1] != BACKSLASH {
        NextBareIs(buf, start + 1, {EQUALS, COMMA, SPACE}, i);
        return Bad(i, InvalidTagFormat);
      }
      if buf[i] == COMMA && buf[i - 1] != BACKSLASH {
        NextBareIs(buf, start + 1, {EQUALS, COMMA, SPACE}, i);
        return ToTagKey(i + 1);
      }
      if buf[i] == SPACE && buf[i - 1] != BACKSLASH {
        NextBareIs(buf, start + 1, {EQUALS, COMMA, SPACE}, i);
        return ToFields(i);
      }
    }
  }

  /** scanTo; the text it returns is buf[start..e]. */
  method ScanTo(buf: bytes, start: nat, stop: byte) returns (e: nat)
    requires start <= |buf|
    ensures e == NextBare(buf, start, {stop})
  {
    e := start;
    while e < |buf|
      invariant start <= e <= |buf|
      invariant forall j :: start <= j < e ==> !IsBare(buf, j, {stop})
    {
      if buf[e] == stop && (e == 0 || buf[e - 1] != BACKSLASH) {
        NextBareIs(buf, start, {stop}, e);
        return;
      }
      e := e + 1;
    }
    NextBareIs(buf, start, {stop}, e);
  }

  /**
   scanToSpaceOr. It tests for the end of buf only after a byte that is not a backslash, so a caller
   must know that a delimiter follows, or that buf does not end with a backslash.
   */
  method ScanToSpaceOr(buf: bytes, start: nat, stop: byte) returns (e: nat)
    requires start < |buf|
    requires NextBare(buf, start + 1, {stop, SPACE}) < |buf| || buf[|buf| - 1] != BACKSLASH
    ensures e == if buf[start] == stop || buf[start] == SPACE then start else NextBare(buf, start + 1, {stop, SPACE})
  {
    if buf[start] == stop || buf[start] == SPACE {
      return start;
    }
    e := start;
    while true
      invariant start <= e < |buf|
      invariant forall j :: start + 1 <= j <= e ==> !IsBare(buf, j, {stop, SPACE})
      decreases |buf| - e
    {
      e := e + 1;
      if buf[e - 1] == BACKSLASH {
        assert e < |buf|;
        continue;
      }
      if e >= |buf| {
        NextBareIs(buf, start + 1, {stop, SPACE}, e);
        return;
      }
      if buf[e] == stop || buf[e] == SPACE {
        NextBareIs(buf, start + 1, {stop, SPACE}, e);
        return;
      }
    }
  }

  /** scanTagValue; a start past the end yields no value. */
  method ScanTagValue(buf: bytes, start: nat) returns (e: nat)
    requires start >= 1
    ensures e == if start > |buf| then start else NextBare(buf, start, {COMMA})
  {
    e := start;
    while e < |buf|
      invariant start <= e && (start <= |buf| ==> e <= |buf|) && (start > |buf| ==> e == start)
      invariant forall j :: start <= j < e ==> !IsBare(buf, j, {COMMA})
    {
      if buf[e] == COMMA && buf[e - 1] != BACKSLASH {
        NextBareIs(buf, start, {COMMA}, e);
        return;
      }
      e := e + 1;
    }
    if start <= |buf| {
      NextBareIs(buf, start, {COMMA}, e);
    }
  }

  predicate IsBlank(b: byte) {
    b == SPACE || b == TAB || b == NUL
  }

  /** The first position from i on that is not blank, or the end. */
  function SkipBlanks(buf: bytes, i: nat): (e: nat)
    requires i <= |buf|
    ensures i <= e <= |buf|
    ensures e < |buf| ==> !IsBlank(buf[e])
    ensures forall j :: i <= j < e ==> IsBlank(buf[j])
    decreases |buf| - i
  {
    if i < |buf| && IsBlank(buf[i]) then SkipBlanks(buf, i + 1) else i
  }

  method SkipWhitespace(buf: bytes, start: nat) returns (e: nat)
    requires start <= |buf|
    ensures e == SkipBlanks(buf, start)
  {
    e := start;
    while e < |buf|
      invariant start <= e <= |buf|
      invariant SkipBlanks(buf, start) == SkipBlanks(buf, e)
    {
      if buf[e] != SPACE && buf[e] != TAB && buf[e] != NUL {
        return;
      }
      e := e + 1;
    }
  }
}
