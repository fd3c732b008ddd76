/** BufferedPointsWriter: points are collected in a buffer of fixed capacity and written in batches. */
module BufferedWriter {
  import opened Bytes

  datatype Request<T> = Request(database: string, policy: string, points: seq<T>)

  datatype Result = Done | Refused | WriteError

  class Writer<T> {
    const database: string
    const policy: string
    const capacity: nat
    var buf: seq<T>
    /** The batches the underlying writer has accepted. */
    var written: seq<seq<T>>
    /** How many more batches the underlying writer will accept. */
    var patience: nat

    constructor (database: string, policy: string, capacity: nat, patience: nat)
      ensures this.database == database && this.policy == policy && this.capacity == capacity && this.patience == patience
      ensures Valid() && buf == [] && written == []
    {
      this.database, this.policy, this.capacity, this.patience := database, policy, capacity, patience;
      buf, written := [], [];
    }

    ghost predicate Valid()
      reads this
    {
      |buf| <= capacity
    }

    /** All points that were handed over, in order: those in the batches and those still in the buffer. */
    ghost function All(): seq<T>
      reads this
    {
      Flat(written) + buf
    }

    /** Writes the buffer as one batch; if that fails the buffer is kept. */
    method Flush() returns (r: Result)
      requires Valid()
      modifies `buf, `written, `patience
      ensures Valid() && All() == old(All()) && r != Refused
      ensures r.Done? ==> buf == [] && written == if old(buf) == [] then old(written) else old(written) + [old(buf)]
      ensures r.WriteError? ==> buf == old(buf) != [] && written == old(written) && old(patience) == 0
      ensures patience == if old(buf) == [] || r.WriteError? then old(patience) else old(patience) - 1
    {
      if |buf| == 0 {
        return Done;
      }
      if patience == 0 {
        return WriteError;
      }
      patience := patience - 1;
      FlatSnoc(written, buf);
      assert Flat(written) + buf + [] == Flat(written) + buf;
      written := written + [buf];
      buf := [];
      return Done;
    }

    /**
     One round of the loop of WritePointsInto, from point i on: as many points as there is room for, and a
     flush of a full buffer. With a capacity of zero a round changes nothing, so the loop would never end.
     */
    method Round(points: seq<T>, i: nat) returns (next: nat, r: Result)
      requires Valid() && i < |points|
      modifies `buf, `written, `patience
      ensures Valid() && r != Refused
      ensures var avail := capacity - |old(buf)|; next == if |points| - i > avail then i + avail else |points|
      ensures All() == old(All()) + points[i..next]
      ensures old(written) <= written && forall k :: |old(written)| <= k < |written| ==> |written[k]| == capacity
      ensures r.Done? && capacity > 0 ==> |buf| < capacity && (next > i || |buf| < |old(buf)|)
      ensures r.WriteError? ==> |buf| == capacity
      ensures capacity == 0 ==> r.Done? && next == i && unchanged(this)
    {
      var avail := capacity - |buf|;
      var n := |points| - i;
      if n > avail {
        n := avail;
      }
      Associate(Flat(written), buf, points[i..i + n]);
      buf := buf + points[i..i + n];
      next := i + n;
      r := Done;
      if |buf| == capacity {
        r := Flush();
      }
    }

    /**
     Adds the points of a request. On success nothing is lost or reordered, every batch written on the
     way has exactly the capacity, and the buffer is not left full. After a failed write the points
     handed over are a prefix of the request. The precondition is that the loop ends.
     */
    method WritePointsInto(req: Request<T>) returns (r: Result)
      requires Valid() && (capacity > 0 || req.points == [] || req.database != database || req.policy != policy)
      modifies `buf, `written, `patience
      ensures Valid()
      ensures r.Refused? <==> req.database != database || req.policy != policy
      ensures r.Refused? ==> unchanged(this)
      ensures old(written) <= written
      ensures forall k :: |old(written)| <= k < |written| ==> |written[k]| == capacity
      ensures r.Done? ==> All() == old(All()) + req.points
      ensures r.Done? && (|old(buf)| < capacity || req.points != []) ==> |buf| < capacity
      ensures r.WriteError? ==> |buf| == capacity && exists n :: 0 <= n <= |req.points| && All() == old(All()) + req.points[..n]
    {
      if req.database != database || req.policy != policy {
        return Refused;
      }
      var i := 0;
      assert req.points[..0] == [];
      while i < |req.points|
        invariant Valid() && 0 <= i <= |req.points|
        invariant |old(buf)| < capacity || i > 0 ==> |buf| < capacity
        invariant All() == old(All()) + req.points[..i]
        invariant old(written) <= written
        invariant forall k :: |old(written)| <= k < |written| ==> |written[k]| == capacity
        decreases |req.points| - i, |buf|
      {
        var next, f := Round(req.points, i);
        Taken(old(All()), req.points, i, next);
        i := next;
        if f.WriteError? {
          return WriteError;
        }
      }
      assert req.points[..i] == req.points;
      return Done;
    }
  }

  /** A call on the writer. */
  datatype Call<T> = Write(points: seq<T>) | FlushNow

  function Handed<T>(calls: seq<Call<T>>): seq<T> {
    if calls == [] then []
    else Handed(calls[..|calls| - 1]) + (if calls[|calls| - 1].Write? then calls[|calls| - 1].points else [])
  }

  /**
   Any sequence of successful calls on a new writer: the batches followed by the buffer are all the
   points in order, no batch is longer than the capacity, and the buffer is not full.
   */
  method Drive<T>(w: Writer<T>, calls: seq<Call<T>>) returns (ok: bool)
    requires w.Valid() && w.capacity > 0 && w.buf == [] && w.written == []
    modifies w
    ensures w.Valid()
    ensures ok ==> Flat(w.written) + w.buf == Handed(calls) && |w.buf| < w.capacity
    ensures forall k :: 0 <= k < |w.written| ==> 0 < |w.written[k]| <= w.capacity
  {
    assert calls[..0] == [];
    for i := 0 to |calls|
      invariant w.Valid() && w.All() == Handed(calls[..i]) && |w.buf| < w.capacity
      invariant forall k :: 0 <= k < |w.written| ==> 0 < |w.written[k]| <= w.capacity
    {
      assert calls[..i + 1][..i] == calls[..i];
      var r: Result;
      match calls[i] {
        case Write(points) =>
          r := w.WritePointsInto(Request(w.database, w.policy, points));
        case FlushNow =>
          r := w.Flush();
          assert w.All() + [] == w.All();
      }
      if !r.Done? {
        return false;
      }
    }
    assert calls[..|calls|] == calls;
    return true;
  }

  lemma Taken<T>(before: seq<T>, points: seq<T>, i: nat, next: nat)
    requires i <= next <= |points|
    ensures before + points[..i] + points[i..next] == before + points[..next]
  {
    assert points[..next] == points[..i] + points[i..next];
    Associate(before, points[..i], points[i..next]);
  }
}
