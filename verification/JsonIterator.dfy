/** The cursor of json-iterator: a buffer that is refilled from a reader. */
module JsonIterator {
  import opened Bytes

  /** What is stored in Error: nothing, the end of the input, or any other error. */
  datatype Error = NoError | EndOfInput | Failure

  predicate IsSpace(c: byte) {
    c == SPACE || c == NEWLINE || c == TAB || c == RETURN
  }

  /** The text without its leading white space. */
  function Trim(t: bytes): (r: bytes)
    ensures |r| <= |t|
    ensures r != [] ==> !IsSpace(r[0])
  {
    if t == [] then [] else if IsSpace(t[0]) then Trim(t[1..]) else t
  }

  lemma {:induction false} TrimPrefix(a: bytes, b: bytes)
    requires forall i :: 0 <= i < |a| ==> IsSpace(a[i])
    ensures Trim(a + b) == Trim(b)
  {
    if a == [] {
      assert a + b == b;
    } else {
      assert (a + b)[1..] == a[1..] + b;
      TrimPrefix(a[1..], b);
    }
  }

  /** The reads that are left after those that deliver nothing. */
  function DropEmpty(chunks: seq<bytes>): seq<bytes> {
    if chunks != [] && chunks[0] == [] then DropEmpty(chunks[1..]) else chunks
  }

  /** What is in the buffer after the next token, when window is in it now: a refill replaces white space only. */
  function AfterToken(window: bytes, chunks: seq<bytes>): bytes
    decreases |chunks|
  {
    if Trim(window) != [] then Trim(window)[1..]
    else if chunks == [] then []
    else AfterToken(chunks[0], chunks[1..])
  }

  lemma {:induction false} AfterRefill(window: bytes, chunks: seq<bytes>)
    requires Trim(window) == []
    ensures var left := DropEmpty(chunks);
      AfterToken(window, chunks) == if left == [] then [] else AfterToken(left[0], left[1..])
    decreases |chunks|
  {
    if chunks != [] && chunks[0] == [] {
      AfterRefill(chunks[0], chunks[1..]);
    }
  }

  class Iterator {
    var buf: bytes
    var head: nat
    var tail: nat
    var error: Error
    /** What the reader will still deliver, read by read; a read may deliver nothing and be repeated. */
    var chunks: seq<bytes>
    const hasReader: bool
    /** What the reader says after its last byte. */
    const atEnd: Error

    ghost predicate Valid()
      reads this
    {
      && head <= tail <= |buf|
      && (!hasReader ==> chunks == [])
      && !atEnd.NoError?
      && forall i :: 0 <= i < |chunks| ==> |chunks[i]| <= |buf|
    }

    /** All that is still to be read. */
    ghost function Rest(): bytes
      requires Valid()
      reads this
    {
      buf[head..tail] + Flat(chunks)
    }

    /** What is in the buffer. */
    ghost function Window(): bytes
      requires Valid()
      reads this
    {
      buf[head..tail]
    }

    /** Parse: a reader and an empty buffer of the given size. */
    constructor Parse(chunks: seq<bytes>, size: nat, atEnd: Error)
      requires !atEnd.NoError? && forall i :: 0 <= i < |chunks| ==> |chunks[i]| <= size
      ensures Valid() && error.NoError? && Rest() == Flat(chunks) && hasReader
      ensures Window() == [] && this.chunks == chunks && |buf| == size && forall i :: 0 <= i < size ==> buf[i] == NUL
    {
      this.buf := seq(size, _ => 0);
      this.head, this.tail, this.error := 0, 0, NoError;
      this.chunks, this.hasReader, this.atEnd := chunks, true, atEnd;
    }

    /** ParseBytes: the whole input in the buffer and no reader. */
    constructor ParseBytes(input: bytes)
      ensures Valid() && error.NoError? && Rest() == input && !hasReader && head == 0 && tail == |buf| && buf == input
    {
      this.buf := input;
      this.head, this.tail, this.error := 0, |input|, NoError;
      this.chunks, this.hasReader, this.atEnd := [], false, EndOfInput;
      new;
      assert input[0..|input|] + [] == input;
    }

    /** Refill the buffer; the bytes that were in it are gone. */
    method LoadMore() returns (ok: bool)
      requires Valid()
      modifies this
      ensures Valid() && |buf| == |old(buf)| && |chunks| <= |old(chunks)|
      ensures ok <==> Flat(old(chunks)) != []
      ensures ok ==> DropEmpty(old(chunks)) != [] && [Window()] + chunks == DropEmpty(old(chunks))
      ensures !ok ==> chunks == [] && DropEmpty(old(chunks)) == []
      ensures ok ==> head == 0 < tail && Rest() == Flat(old(chunks)) && |chunks| < |old(chunks)| && error == old(error)
      ensures !ok ==> Flat(chunks) == [] && tail == old(tail) && buf == old(buf) && old(head) <= head
      ensures !ok ==> !error.NoError? && (!old(error).NoError? ==> error == old(error))
      ensures !ok && hasReader ==> head == old(head)
      ensures !ok && !hasReader && old(error).NoError? ==> head == tail && error.EndOfInput?
    {
      if !hasReader {
        if error.NoError? {
          head := tail;
          error := EndOfInput;
        }
        return false;
      }
      while true
        invariant Valid() && unchanged(`buf, `head, `tail, `error)
        invariant Flat(chunks) == Flat(old(chunks)) && |chunks| <= |old(chunks)|
        invariant DropEmpty(chunks) == DropEmpty(old(chunks))
        decreases |chunks|
      {
        if |chunks| == 0 {
          if error.NoError? {
            error := atEnd;
          }
          return false;
        }
        var chunk := chunks[0];
        chunks := chunks[1..];
        if |chunk| > 0 {
          buf := chunk + buf[|chunk|..];
          head, tail := 0, |chunk|;
          assert buf[0..tail] == chunk;
          return true;
        }
      }
    }

    /** The next byte; a zero byte and an error at the end of the input. */
    method ReadByte() returns (c: byte)
      requires Valid()
      modifies this
      ensures Valid() && |buf| == |old(buf)|
      ensures old(Rest()) != [] ==>
        && c == old(Rest())[0] && Rest() == old(Rest())[1..] && error == old(error)
        && head > 0 && buf[head - 1] == c
      ensures old(Rest()) == [] ==> c == NUL && Rest() == [] && !error.NoError?
      ensures !hasReader ==> tail == old(tail) && buf == old(buf)
      ensures !old(error).NoError? ==> error == old(error)
    {
      if head == tail {
        assert Rest() == Flat(chunks);
        var more := LoadMore();
        if !more {
          return NUL;
        }
      }
      c := buf[head];
      assert buf[head..tail] == [c] + buf[head + 1..tail];
      head := head + 1;
    }

    /** Put the last byte back, unless there was an error. */
    method UnreadByte()
      requires Valid() && (error.NoError? ==> head > 0)
      modifies `head
      ensures Valid()
      ensures !error.NoError? ==> head == old(head)
      ensures error.NoError? ==> head == old(head) - 1 && Rest() == [buf[head]] + old(Rest())
    {
      if !error.NoError? {
        return;
      }
      head := head - 1;
      assert buf[head..tail] == [buf[head]] + buf[head + 1..tail];
    }

    /** An error is kept, but the end of the input is replaced. */
    method ReportError()
      requires Valid()
      modifies `error
      ensures error.Failure?
    {
      error := Failure;
    }

    /** The next byte that is not white space. */
    method NextToken() returns (c: byte)
      requires Valid()
      modifies this
      ensures Valid() && |buf| == |old(buf)|
      ensures Trim(old(Rest())) != [] ==>
        && c == Trim(old(Rest()))[0] && Rest() == Trim(old(Rest()))[1..] && error == old(error)
        && head > 0 && buf[head - 1] == c
        && Window() == AfterToken(old(Window()), old(chunks))
      ensures Trim(old(Rest())) == [] ==> c == NUL && !error.NoError? && |Rest()| <= |old(Rest())| && Trim(Rest()) == []
      ensures !old(error).NoError? ==> error == old(error)
      ensures old(head < tail && !IsSpace(buf[head])) ==> chunks == old(chunks)
      ensures !hasReader ==> tail == old(tail) && buf == old(buf)
    {
      hide Trim, AfterToken, DropEmpty, Flat;
      while true
        invariant Valid() && |buf| == |old(buf)| && error == old(error)
        invariant AfterToken(Window(), chunks) == AfterToken(old(Window()), old(chunks))
        invariant old(head < tail && !IsSpace(buf[head])) ==> head == old(head) && tail == old(tail) && buf == old(buf)
        invariant old(head < tail && !IsSpace(buf[head])) ==> chunks == old(chunks)
        invariant !hasReader ==> tail == old(tail) && buf == old(buf)
        invariant Trim(Rest()) == Trim(old(Rest())) && |Rest()| <= |old(Rest())|
        decreases |chunks|
      {
        var i := TokenInBuffer();
        TrimTo(i);
        if i < tail {
          c := buf[i];
          head := i + 1;
          return;
        }
        AfterRefill(Window(), chunks);
        var more := LoadMore();
        if !more {
          NothingLeft();
          return NUL;
        }
      }
    }

    lemma NothingLeft()
      requires Valid() && Flat(chunks) == [] && forall j :: head <= j < tail ==> IsSpace(buf[j])
      ensures Trim([]) == [] && Trim(Rest()) == []
    {
      assert Rest() == Window() + [];
      TrimPrefix(Window(), []);
    }

    /** The first byte in the buffer that is not white space. */
    method TokenInBuffer() returns (i: nat)
      requires Valid()
      ensures head <= i <= tail && (i < tail ==> !IsSpace(buf[i]))
      ensures forall j :: head <= j < i ==> IsSpace(buf[j])
    {
      i := head;
      while i < tail
        invariant head <= i <= tail
        invariant forall j :: head <= j < i ==> IsSpace(buf[j])
      {
        if !IsSpace(buf[i]) {
          return;
        }
        i := i + 1;
      }
    }

    lemma TrimTo(i: nat)
      requires Valid() && head <= i <= tail
      requires forall j :: head <= j < i ==> IsSpace(buf[j])
      ensures i == tail ==> Trim(Rest()) == Trim(Flat(chunks))
      ensures i < tail && !IsSpace(buf[i]) ==> Trim(Rest()) == [buf[i]] + (buf[i + 1..tail] + Flat(chunks))
      ensures |Flat(chunks)| <= |Rest()|
      ensures i == tail ==> Trim(Window()) == []
      ensures i < tail && !IsSpace(buf[i]) ==> AfterToken(Window(), chunks) == buf[i + 1..tail]
    {
      TrimPrefix(buf[head..i], buf[i..tail]);
      assert Window() == buf[head..i] + buf[i..tail];
      assert Rest() == buf[head..i] + (buf[i..tail] + Flat(chunks));
      TrimPrefix(buf[head..i], buf[i..tail] + Flat(chunks));
      if i == tail {
        assert buf[i..tail] + Flat(chunks) == Flat(chunks);
      } else {
        assert buf[i..tail] + Flat(chunks) == [buf[i]] + (buf[i + 1..tail] + Flat(chunks));
      }
    }
  }

  // ---- positions in the buffer ----

  /** The cursor's text from position i of the buffer on. */
  ghost function From(it: Iterator, i: nat): bytes
    requires it.Valid() && it.head <= i <= it.tail
    reads it
  {
    it.buf[i..it.tail] + Flat(it.chunks)
  }

  lemma FromNext(it: Iterator, i: nat)
    requires it.Valid() && it.head <= i < it.tail
    ensures From(it, i) != [] && From(it, i)[0] == it.buf[i] && From(it, i)[1..] == From(it, i + 1)
    ensures i + 1 < it.tail ==> |From(it, i)| >= 2 && From(it, i)[1] == it.buf[i + 1]
    ensures From(it, it.head) == it.Rest()
  {
    assert it.buf[i..it.tail] == [it.buf[i]] + it.buf[i + 1..it.tail];
  }

  lemma AtHead(it: Iterator)
    requires it.Valid()
    ensures From(it, it.head) == it.Rest()
  {
  }

  lemma AtTail(it: Iterator)
    requires it.Valid()
    ensures From(it, it.tail) == Flat(it.chunks)
  {
  }

  lemma Moved(it: Iterator, before: bytes, i: nat)
    requires it.Valid() && it.head <= i <= it.tail
    ensures before + it.Rest() == (before + it.buf[it.head..i]) + (it.buf[i..it.tail] + Flat(it.chunks))
    ensures |it.buf[i..it.tail] + Flat(it.chunks)| <= |it.Rest()|
  {
    assert it.buf[it.head..it.tail] == it.buf[it.head..i] + it.buf[i..it.tail];
  }

  /** Set the head to a position in the buffer. */
  method MoveTo(it: Iterator, i: nat)
    requires it.Valid() && it.head <= i <= it.tail
    modifies it`head
    ensures it.Valid() && it.head == i && it.Rest() == old(From(it, i)) && |it.Rest()| <= |old(it.Rest())|
  {
    Moved(it, [], i);
    it.head := i;
  }
}
