/** Bytes, the ASCII codes the scanners look for, and the order of bytes.Compare. */
module Bytes {

  type byte = b: int | 0 <= b < 256
  type bytes = seq<byte>

  const NUL: byte := 0
  const TAB: byte := 9
  const NEWLINE: byte := 10
  const RETURN: byte := 13
  const SPACE: byte := 32
  const QUOTE: byte := 34
  const HASH: byte := 35
  const PLUS: byte := 43
  const COMMA: byte := 44
  const MINUS: byte := 45
  const DOT: byte := 46
  const SLASH: byte := 47
  const ZERO: byte := 48
  const NINE: byte := 57
  const COLON: byte := 58
  const EQUALS: byte := 61
  const LBRACKET: byte := 91
  const BACKSLASH: byte := 92
  const RBRACKET: byte := 93
  const UPPER_E: byte := 69
  const UPPER_F: byte := 70
  const UPPER_N: byte := 78
  const UPPER_T: byte := 84
  const LOWER_B: byte := 98
  const LOWER_E: byte := 101
  const LOWER_F: byte := 102
  const LOWER_I: byte := 105
  const LOWER_N: byte := 110
  const LOWER_R: byte := 114
  const LOWER_T: byte := 116
  const LOWER_U: byte := 117
  const LBRACE: byte := 123
  const RBRACE: byte := 125

  predicate IsDigit(b: byte) {
    ZERO <= b <= NINE
  }

  /** The number of occurrences of one byte. */
  function Count(s: bytes, b: byte): nat {
    if s == [] then 0 else Count(s[..|s| - 1], b) + (if s[|s| - 1] == b then 1 else 0)
  }

  lemma {:induction false} CountPrefix(s: bytes, b: byte, i: nat, j: nat)
    requires i <= j <= |s|
    ensures Count(s[..i], b) <= Count(s[..j], b)
  {
    if i < j {
      CountPrefix(s, b, i, j - 1);
      assert s[..j][..j - 1] == s[..j - 1];
    }
  }

  /** bytes.Compare(a, b) < 0: the lexicographic order, a proper prefix first. */
  predicate Less(a: bytes, b: bytes) {
    if a == [] then b != []
    else if b == [] then false
    else a[0] < b[0] || (a[0] == b[0] && Less(a[1..], b[1..]))
  }

  lemma {:induction false} LessIrreflexive(a: bytes)
    ensures !Less(a, a)
  {
    if a != [] {
      LessIrreflexive(a[1..]);
    }
  }

  lemma {:induction false} LessTotal(a: bytes, b: bytes)
    ensures Less(a, b) || a == b || Less(b, a)
  {
    if a != [] && b != [] && a[0] == b[0] {
      LessTotal(a[1..], b[1..]);
      if a[1..] == b[1..] {
        assert a == [a[0]] + a[1..] && b == [b[0]] + b[1..];
      }
    }
  }

  lemma {:induction false} LessTransitive(a: bytes, b: bytes, c: bytes)
    requires Less(a, b) && Less(b, c)
    ensures Less(a, c)
  {
    if a != [] && a[0] == b[0] && b[0] == c[0] {
      LessTransitive(a[1..], b[1..], c[1..]);
    }
  }

  lemma LessAsymmetric(a: bytes, b: bytes)
    requires Less(a, b)
    ensures !Less(b, a) && a != b
  {
    LessIrreflexive(a);
    if Less(b, a) {
      LessTransitive(a, b, a);
    }
  }

  lemma Snoc<T>(s: seq<T>)
    requires s != []
    ensures s == s[..|s| - 1] + [s[|s| - 1]]
  {
  }

  lemma Associate<T>(x: seq<T>, y: seq<T>, z: seq<T>)
    ensures x + (y + z) == x + y + z
  {
  }

  lemma NothingBefore<T>(x: seq<T>)
    ensures [] + x == x
  {
  }

  /** Go's copy(b[pos:], v). */
  method CopyInto(b: array<byte>, pos: nat, v: bytes) returns (n: nat)
    requires pos <= b.Length
    modifies b
    ensures n == if |v| <= b.Length - pos then |v| else b.Length - pos
    ensures b[..pos + n] == old(b[..pos]) + v[..n]
    ensures n == |v| ==> v[..n] == v
  {
    n := if |v| <= b.Length - pos then |v| else b.Length - pos;
    forall j | 0 <= j < n { b[pos + j] := v[j]; }
  }

  /** The parts of a sequence of sequences, one after the other. */
  function Flat<T>(parts: seq<seq<T>>): seq<T> {
    if parts == [] then [] else parts[0] + Flat(parts[1..])
  }

  lemma {:induction false} FlatSnoc<T>(parts: seq<seq<T>>, last: seq<T>)
    ensures Flat(parts + [last]) == Flat(parts) + last
  {
    if parts == [] {
      assert parts + [last] == [last] && Flat([last]) == last + Flat([]);
    } else {
      FlatSnoc(parts[1..], last);
      assert (parts + [last])[1..] == parts[1..] + [last];
      Associate(parts[0], Flat(parts[1..]), last);
    }
  }

  /** strings.Join with a separator of one byte. */
  function JoinBy(parts: seq<bytes>, sep: byte): bytes {
    if parts == [] then [] else if |parts| == 1 then parts[0] else parts[0] + ([sep] + JoinBy(parts[1..], sep))
  }

  lemma JoinByCons(p: bytes, rest: seq<bytes>, sep: byte)
    ensures JoinBy([p] + rest, sep) == if rest == [] then p else p + ([sep] + JoinBy(rest, sep))
  {
    assert ([p] + rest)[1..] == rest;
  }
}
