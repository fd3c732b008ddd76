/** Emitter: the rows of a cursor are gathered into rows of one series, in chunks. */
module Emitter {

  datatype Series = Series(name: string, tags: string, id: nat)

  /** Two series with ids are compared by id, otherwise by name and tags. */
  predicate SameSeries(a: Series, b: Series) {
    if a.id != 0 && b.id != 0 then a.id == b.id else a.name == b.name && a.tags == b.tags
  }

  datatype Scanned<V> = Scanned(series: Series, values: V)

  datatype Row<V> = Row(series: Series, values: seq<V>, partial: bool)

  datatype Option<V> = None | Some(value: V)

  // ---- the rows of a scan ----

  function NewRow<V>(s: Scanned<V>): Row<V> {
    Row(s.series, [s.values], false)
  }

  /** The rows that are emitted when cur is the open row and rest is still to be scanned. */
  function Gather<V>(cur: Row<V>, rest: seq<Scanned<V>>, chunk: int): seq<Row<V>>
    decreases |rest|
  {
    if rest == [] then [cur]
    else if !SameSeries(cur.series, rest[0].series) then [cur] + Gather(NewRow(rest[0]), rest[1..], chunk)
    else if chunk > 0 && |cur.values| >= chunk then
      [cur.(partial := true)] + Gather(NewRow(rest[0]), rest[1..], chunk)
    else Gather(cur.(values := cur.values + [rest[0].values]), rest[1..], chunk)
  }

  function Rows<V>(scan: seq<Scanned<V>>, chunk: int): seq<Row<V>> {
    if scan == [] then [] else Gather(NewRow(scan[0]), scan[1..], chunk)
  }

  /** The values of the scanned rows stand in the row in order, and all are of the series of the first. */
  predicate Holds<V(==)>(row: Row<V>, scan: seq<Scanned<V>>) {
    && |row.values| == |scan| > 0 && row.series == scan[0].series
    && forall k :: 0 <= k < |scan| ==> row.values[k] == scan[k].values && SameSeries(row.series, scan[k].series)
  }

  /** The rows cut the scan into pieces, one after the other. */
  predicate Cuts<V(==)>(rows: seq<Row<V>>, scan: seq<Scanned<V>>)
    decreases |rows|
  {
    if rows == [] then scan == []
    else
      var n := |rows[0].values|;
      n <= |scan| && Holds(rows[0], scan[..n]) && Cuts(rows[1..], scan[n..])
  }

  /** Nothing is lost, reordered or put under another series. */
  lemma {:induction false} GatherCuts<V>(cur: Row<V>, done: seq<Scanned<V>>, rest: seq<Scanned<V>>, chunk: int)
    requires Holds(cur, done)
    ensures Cuts(Gather(cur, rest, chunk), done + rest)
    decreases |rest|
  {
    if rest == [] {
      assert done + rest == done && done[..|done|] == done;
      assert [cur][1..] == [] && done[|done|..] == [];
    } else if SameSeries(cur.series, rest[0].series) && !(chunk > 0 && |cur.values| >= chunk) {
      GatherCuts(cur.(values := cur.values + [rest[0].values]), done + [rest[0]], rest[1..], chunk);
      assert done + [rest[0]] + rest[1..] == done + rest;
    } else {
      var first := if SameSeries(cur.series, rest[0].series) then cur.(partial := true) else cur;
      GatherCuts(NewRow(rest[0]), [rest[0]], rest[1..], chunk);
      assert [rest[0]] + rest[1..] == rest;
      var tail := Gather(NewRow(rest[0]), rest[1..], chunk);
      assert ([first] + tail)[1..] == tail;
      assert (done + rest)[..|done|] == done && (done + rest)[|done|..] == rest;
    }
  }

  lemma RowsCut<V>(scan: seq<Scanned<V>>, chunk: int)
    ensures Cuts(Rows(scan, chunk), scan)
  {
    if scan != [] {
      GatherCuts(NewRow(scan[0]), [scan[0]], scan[1..], chunk);
      assert [scan[0]] + scan[1..] == scan;
    }
  }

  /** A row is partial exactly when the next row goes on with its series, and then it is a full chunk. */
  predicate RightlyPartial<V>(rows: seq<Row<V>>, i: nat, chunk: int)
    requires i < |rows|
  {
    && (rows[i].partial <==> i + 1 < |rows| && SameSeries(rows[i].series, rows[i + 1].series))
    && (rows[i].partial ==> |rows[i].values| == chunk)
    && (chunk > 0 ==> |rows[i].values| <= chunk)
  }

  lemma {:induction false} GatherPartial<V>(cur: Row<V>, rest: seq<Scanned<V>>, chunk: int)
    requires !cur.partial && (chunk > 0 ==> |cur.values| <= chunk)
    ensures var rows := Gather(cur, rest, chunk); rows != [] && rows[0].series == cur.series
    ensures forall i: nat :: i < |Gather(cur, rest, chunk)| ==> RightlyPartial(Gather(cur, rest, chunk), i, chunk)
    decreases |rest|
  {
    if rest != [] {
      if SameSeries(cur.series, rest[0].series) && !(chunk > 0 && |cur.values| >= chunk) {
        GatherPartial(cur.(values := cur.values + [rest[0].values]), rest[1..], chunk);
      } else {
        var first := if SameSeries(cur.series, rest[0].series) then cur.(partial := true) else cur;
        var tail := Gather(NewRow(rest[0]), rest[1..], chunk);
        GatherPartial(NewRow(rest[0]), rest[1..], chunk);
        forall i: nat | i < |[first] + tail| ensures RightlyPartial([first] + tail, i, chunk) {
          if i > 0 {
            assert RightlyPartial(tail, i - 1, chunk);
          }
        }
      }
    }
  }

  lemma RowsPartial<V>(scan: seq<Scanned<V>>, chunk: int)
    ensures forall i: nat :: i < |Rows(scan, chunk)| ==> RightlyPartial(Rows(scan, chunk), i, chunk)
  {
    if scan != [] {
      GatherPartial(NewRow(scan[0]), scan[1..], chunk);
    }
  }

  // ---- the emitter ----

  class Emitter<V> {
    /** The rest of the cursor, and whether it ends with an error. */
    var cursor: seq<Scanned<V>>
    const cursorFails: bool
    const chunkSize: int
    var row: Option<Row<V>>

    constructor (cursor: seq<Scanned<V>>, cursorFails: bool, chunkSize: int)
      ensures this.cursor == cursor && this.cursorFails == cursorFails && this.chunkSize == chunkSize && row == None
      ensures Pending() == Rows(cursor, chunkSize)
    {
      this.cursor, this.cursorFails, this.chunkSize := cursor, cursorFails, chunkSize;
      row := None;
    }

    /** The rows that are still to come. */
    ghost function Pending(): seq<Row<V>>
      reads this
    {
      if row.None? then Rows(cursor, chunkSize) else Gather(row.value, cursor, chunkSize)
    }

    /** The next row, if there is one; more says whether another one follows. */
    method Emit() returns (r: Option<Row<V>>, more: bool, failed: bool)
      modifies `cursor, `row
      ensures !failed && old(Pending()) == [] ==> r == None && !more && Pending() == []
      ensures !failed && old(Pending()) != [] ==>
        r == Some(old(Pending())[0]) && Pending() == old(Pending())[1..] && (more <==> Pending() != [])
      ensures failed ==> cursorFails && cursor == [] && r == None && !more
      ensures cursor == [] && cursorFails && !more ==> failed
    {
      ghost var pending := Pending();
      while true
        invariant Pending() == pending
        decreases |cursor|
      {
        if |cursor| == 0 {
          if cursorFails {
            return None, false, true;
          }
          r := row;
          row := None;
          return r, false, false;
        }
        var scanned := cursor[0];
        cursor := cursor[1..];
        if row.None? {
          row := Some(NewRow(scanned));
        } else if SameSeries(row.value.series, scanned.series) {
          if chunkSize > 0 && |row.value.values| >= chunkSize {
            r := Some(row.value.(partial := true));
            row := Some(NewRow(scanned));
            StillOpen();
            return r, true, false;
          }
          row := Some(row.value.(values := row.value.values + [scanned.values]));
        } else {
          r := row;
          row := Some(NewRow(scanned));
          StillOpen();
          return r, true, false;
        }
      }
    }

    lemma StillOpen()
      requires row.Some? && !row.value.partial && (chunkSize > 0 ==> |row.value.values| <= chunkSize)
      ensures Pending() != []
    {
      GatherPartial(row.value, cursor, chunkSize);
    }
  }

  /** Draining an emitter over a cursor without an error gives the rows of its scan. */
  method Drain<V>(e: Emitter<V>) returns (rows: seq<Row<V>>)
    requires !e.cursorFails && e.row == None
    modifies e
    ensures rows == Rows(old(e.cursor), e.chunkSize)
  {
    hide Rows, Gather;
    rows := [];
    ghost var all := e.Pending();
    while true
      invariant !e.cursorFails && rows + e.Pending() == all
      decreases |e.Pending()|
    {
      var r, more, _ := e.Emit();
      if r.Some? {
        rows := rows + [r.value];
      }
      if !more {
        return;
      }
    }
  }
}
