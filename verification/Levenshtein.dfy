/** The edit distance of cobra's suggestions: ld fills a table in which equal bytes take only the diagonal. */
module Levenshtein {
  import opened Bytes

  datatype Edit = Keep | Insert | Delete | Substitute

  /** The edits, in order, turn s into t; an inserted or substituted byte is the one that t has. */
  predicate Transforms(s: bytes, edits: seq<Edit>, t: bytes)
    decreases |edits|
  {
    if edits == [] then s == [] && t == []
    else
      var rest, e := edits[..|edits| - 1], edits[|edits| - 1];
      match e
      case Keep => s != [] && t != [] && Last(s) == Last(t) && Transforms(Init(s), rest, Init(t))
      case Substitute => s != [] && t != [] && Transforms(Init(s), rest, Init(t))
      case Insert => t != [] && Transforms(s, rest, Init(t))
      case Delete => s != [] && Transforms(Init(s), rest, t)
  }

  function Init(s: bytes): bytes
    requires s != []
  {
    s[..|s| - 1]
  }

  function Last(s: bytes): byte
    requires s != []
  {
    s[|s| - 1]
  }

  function Price(e: Edit): nat {
    if e.Keep? then 0 else 1
  }

  /** The length of a script: its edits that change something. */
  function Cost(edits: seq<Edit>): nat {
    if edits == [] then 0 else Cost(edits[..|edits| - 1]) + Price(edits[|edits| - 1])
  }

  function Min(a: nat, b: nat, c: nat): nat {
    var m := if b < a then b else a;
    if c < m then c else m
  }

  /** The recurrence of the table. */
  function Cell(s: bytes, t: bytes): nat
    decreases |s| + |t|
  {
    if s == [] then |t|
    else if t == [] then |s|
    else if Last(s) == Last(t) then Cell(Init(s), Init(t))
    else Min(Cell(Init(s), t), Cell(s, Init(t)), Cell(Init(s), Init(t))) + 1
  }

  // ---- neighbouring cells differ by at most one ----

  lemma {:induction false} CellSymmetric(s: bytes, t: bytes)
    ensures Cell(s, t) == Cell(t, s)
    decreases |s| + |t|
  {
    if s != [] && t != [] {
      CellSymmetric(Init(s), t);
      CellSymmetric(s, Init(t));
      CellSymmetric(Init(s), Init(t));
    }
  }

  /** One byte more on the left costs at most one more. */
  lemma {:induction false} LeftUp(s: bytes, t: bytes)
    requires s != []
    ensures Cell(s, t) <= Cell(Init(s), t) + 1
    decreases |s| + |t|, 0
  {
    if t != [] && Last(s) == Last(t) {
      RightDown(Init(s), t);
    }
  }

  /** One byte less on the right costs at most one more. */
  lemma {:induction false} RightDown(s: bytes, t: bytes)
    requires t != []
    ensures Cell(s, Init(t)) <= Cell(s, t) + 1
    decreases |s| + |t|, 1
  {
    if s != [] {
      LeftUp(s, Init(t));
      if Last(s) != Last(t) {
        RightDown(Init(s), t);
      }
    }
  }

  lemma LeftDown(s: bytes, t: bytes)
    requires s != []
    ensures Cell(Init(s), t) <= Cell(s, t) + 1
  {
    CellSymmetric(Init(s), t);
    CellSymmetric(s, t);
    RightDown(t, s);
  }

  // ---- the cell is the distance ----

  /** No script is shorter than the cell, although equal bytes look only at the diagonal. */
  lemma {:induction false} NoShorter(s: bytes, edits: seq<Edit>, t: bytes)
    requires Transforms(s, edits, t)
    ensures Cost(edits) >= Cell(s, t)
    decreases |edits|
  {
    if edits != [] {
      var rest, e := edits[..|edits| - 1], edits[|edits| - 1];
      match e {
        case Keep => NoShorter(Init(s), rest, Init(t));
        case Substitute =>
          NoShorter(Init(s), rest, Init(t));
        case Insert =>
          NoShorter(s, rest, Init(t));
          if s != [] && Last(s) == Last(t) {
            LeftDown(s, Init(t));
          }
        case Delete =>
          NoShorter(Init(s), rest, t);
          if t != [] && Last(s) == Last(t) {
            RightDown(Init(s), t);
          }
      }
    }
  }

  lemma Extended(s: bytes, edits: seq<Edit>, t: bytes, e: Edit)
    ensures (edits + [e])[..|edits|] == edits && Cost(edits + [e]) == Cost(edits) + Price(e)
  {
    assert (edits + [e])[..|edits + [e]| - 1] == edits;
  }

  /** There is a script as short as the cell. */
  lemma {:induction false} Script(s: bytes, t: bytes) returns (edits: seq<Edit>)
    ensures Transforms(s, edits, t) && Cost(edits) == Cell(s, t)
    decreases |s| + |t|
  {
    if s == [] && t == [] {
      edits := [];
    } else if s == [] {
      var r := Script(s, Init(t));
      Extended(s, r, t, Insert);
      edits := r + [Insert];
    } else if t == [] {
      var r := Script(Init(s), t);
      Extended(s, r, t, Delete);
      edits := r + [Delete];
    } else if Last(s) == Last(t) {
      var r := Script(Init(s), Init(t));
      Extended(s, r, t, Keep);
      edits := r + [Keep];
    } else {
      var a, b, c := Cell(Init(s), t), Cell(s, Init(t)), Cell(Init(s), Init(t));
      if Min(a, b, c) == a {
        var r := Script(Init(s), t);
        Extended(s, r, t, Delete);
        edits := r + [Delete];
      } else if Min(a, b, c) == b {
        var r := Script(s, Init(t));
        Extended(s, r, t, Insert);
        edits := r + [Insert];
      } else {
        var r := Script(Init(s), Init(t));
        Extended(s, r, t, Substitute);
        edits := r + [Substitute];
      }
    }
  }

  /** d is the length of the shortest script. */
  ghost predicate IsDistance(s: bytes, t: bytes, d: nat) {
    && (exists edits :: Transforms(s, edits, t) && Cost(edits) == d)
    && (forall edits :: Transforms(s, edits, t) ==> Cost(edits) >= d)
  }

  lemma CellIsDistance(s: bytes, t: bytes)
    ensures IsDistance(s, t, Cell(s, t))
  {
    var shortest := Script(s, t);
    forall edits | Transforms(s, edits, t) ensures Cost(edits) >= Cell(s, t) {
      NoShorter(s, edits, t);
    }
  }

  /** A distance of zero means equal strings. */
  lemma {:induction false} ZeroIsEqual(s: bytes, t: bytes)
    ensures Cell(s, t) == 0 <==> s == t
    decreases |s| + |t|
  {
    if s != [] && t != [] {
      assert s == Init(s) + [Last(s)] && t == Init(t) + [Last(t)];
      ZeroIsEqual(Init(s), Init(t));
    }
  }

  /** A script from s to t and one from t to u make one from s to u that is no longer than both. */
  lemma {:induction false} Compose(s: bytes, p: seq<Edit>, t: bytes, q: seq<Edit>, u: bytes) returns (r: seq<Edit>)
    requires Transforms(s, p, t) && Transforms(t, q, u)
    ensures Transforms(s, r, u) && Cost(r) <= Cost(p) + Cost(q)
    decreases |p| + |q|
  {
    if q != [] && q[|q| - 1].Insert? {
      var x := Compose(s, p, t, q[..|q| - 1], Init(u));
      Extended(s, x, u, Insert);
      r := x + [Insert];
    } else if p != [] && p[|p| - 1].Delete? {
      var x := Compose(Init(s), p[..|p| - 1], t, q, u);
      Extended(s, x, u, Delete);
      r := x + [Delete];
    } else if p == [] || q == [] {
      r := [];
    } else {
      r := ComposeLast(s, p, t, q, u);
    }
  }

  lemma {:induction false} ComposeLast(s: bytes, p: seq<Edit>, t: bytes, q: seq<Edit>, u: bytes) returns (r: seq<Edit>)
    requires p != [] && q != [] && !p[|p| - 1].Delete? && !q[|q| - 1].Insert?
    requires Transforms(s, p, t) && Transforms(t, q, u)
    ensures Transforms(s, r, u) && Cost(r) <= Cost(p) + Cost(q)
    decreases |p| + |q|, 0
  {
    var a, b := p[|p| - 1], q[|q| - 1];
    var s' := if a.Insert? then s else Init(s);
    var u' := if b.Delete? then u else Init(u);
    var x := Compose(s', p[..|p| - 1], Init(t), q[..|q| - 1], u');
    if a.Insert? && b.Delete? {
      r := x;
    } else {
      var e := if a.Insert? then Insert else if b.Delete? then Delete else if a.Keep? && b.Keep? then Keep else Substitute;
      Extended(s, x, u, e);
      r := x + [e];
    }
  }

  lemma Triangle(s: bytes, t: bytes, u: bytes)
    ensures Cell(s, u) <= Cell(s, t) + Cell(t, u)
  {
    hide Transforms, Cost, Cell;
    var p := Script(s, t);
    var q := Script(t, u);
    var r := Compose(s, p, t, q, u);
    NoShorter(s, r, u);
  }

  // ---- the table ----

  lemma CellStep(s: bytes, t: bytes, i: nat, j: nat)
    requires 0 < i <= |s| && 0 < j <= |t|
    ensures Cell(s[..i], t[..j]) ==
      if s[i - 1] == t[j - 1] then Cell(s[..i - 1], t[..j - 1])
      else Min(Cell(s[..i - 1], t[..j]), Cell(s[..i], t[..j - 1]), Cell(s[..i - 1], t[..j - 1])) + 1
  {
    assert Init(s[..i]) == s[..i - 1] && Init(t[..j]) == t[..j - 1];
  }

  lemma CellEdge(s: bytes, t: bytes, i: nat, j: nat)
    requires i <= |s| && j <= |t|
    ensures Cell(s[..i], t[..0]) == i && Cell(s[..0], t[..j]) == j
  {
  }

  /** The filled table holds the distance of every two prefixes. */
  method Table(s: bytes, t: bytes) returns (d: array2<nat>)
    ensures fresh(d) && d.Length0 == |s| + 1 && d.Length1 == |t| + 1
    ensures forall i: nat, j: nat :: i <= |s| && j <= |t| ==> d[i, j] == Cell(s[..i], t[..j])
  {
    hide Cell;
    d := new nat[|s| + 1, |t| + 1];
    for i := 0 to |s| + 1
      invariant forall k: nat :: k < i ==> d[k, 0] == Cell(s[..k], t[..0])
    {
      CellEdge(s, t, i, 0);
      d[i, 0] := i;
    }
    for j := 0 to |t| + 1
      invariant forall k: nat :: k <= |s| ==> d[k, 0] == Cell(s[..k], t[..0])
      invariant forall k: nat :: k < j ==> d[0, k] == Cell(s[..0], t[..k])
    {
      CellEdge(s, t, 0, j);
      d[0, j] := j;
    }
    for j := 1 to |t| + 1
      invariant forall k: nat :: k <= |t| ==> d[0, k] == Cell(s[..0], t[..k])
      invariant forall i: nat, k: nat :: i <= |s| && k < j ==> d[i, k] == Cell(s[..i], t[..k])
    {
      for i := 1 to |s| + 1
        invariant forall k: nat :: k <= |t| ==> d[0, k] == Cell(s[..0], t[..k])
        invariant forall i: nat, k: nat :: i <= |s| && k < j ==> d[i, k] == Cell(s[..i], t[..k])
        invariant forall k: nat :: k < i ==> d[k, j] == Cell(s[..k], t[..j])
      {
        CellStep(s, t, i, j);
        assert d[i - 1, j] == Cell(s[..i - 1], t[..j]) && d[i, j - 1] == Cell(s[..i], t[..j - 1]) && d[i - 1, j - 1] == Cell(s[..i - 1], t[..j - 1]);
        if s[i - 1] == t[j - 1] {
          d[i, j] := d[i - 1, j - 1];
        } else {
          var min := d[i - 1, j];
          if d[i, j - 1] < min {
            min := d[i, j - 1];
          }
          if d[i - 1, j - 1] < min {
            min := d[i - 1, j - 1];
          }
          d[i, j] := min + 1;
        }
      }
    }
  }

  /** ld: the length of the shortest script between the strings, in lower case if asked for. */
  method Distance(s: bytes, t: bytes, ignoreCase: bool, lower: bytes -> bytes) returns (r: nat)
    ensures if ignoreCase then IsDistance(lower(s), lower(t), r) else IsDistance(s, t, r)
  {
    hide Cell;
    var a, b := s, t;
    if ignoreCase {
      a, b := lower(s), lower(t);
    }
    var d := Table(a, b);
    r := d[|a|, |b|];
    assert d[|a|, |b|] == Cell(a[..|a|], b[..|b|]);
    assert a[..|a|] == a && b[..|b|] == b;
    CellIsDistance(a, b);
  }
}
