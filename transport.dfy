/** The serial port as the driver sees it: a queue of received chunks that
    the line reads hand out one at a time, and a log of every `write`. The
    later revision reads with `read_until(b'\r\n')`, which stops after CR LF;
    the earlier one with `readline()`, which stops after the first LF. A port
    is made for one of the two terminators, and every queued chunk is a line
    of its kind. A read on an empty queue returns empty bytes, which stands
    for the source's timeout. */
module Transport {
  import opened Bytes

  /** The terminator of `read_until(b'\r\n')`. */
  const CRLF: Bytes := [0x0D, 0x0A]

  /** The terminator of `readline()`. */
  const LF: Bytes := [0x0A]

  /** Whether the terminator `eol` occurs in `c` at offset `k`. */
  predicate EolAt(c: Bytes, eol: Bytes, k: nat) {
    k + |eol| <= |c| && c[k..k + |eol|] == eol
  }

  /** `eol` occurs in `c` at no offset below `n`. */
  predicate NoEolBefore(c: Bytes, eol: Bytes, n: nat) {
    n == 0 || (!EolAt(c, eol, n - 1) && NoEolBefore(c, eol, n - 1))
  }

  /** That is: no offset below `n` holds `eol`. */
  lemma {:induction false} NoEolBeforeAll(c: Bytes, eol: Bytes, n: nat)
    ensures NoEolBefore(c, eol, n) <==> forall k :: 0 <= k < n ==> !EolAt(c, eol, k)
  {
    if n > 0 {
      NoEolBeforeAll(c, eol, n - 1);
    }
  }

  /** A chunk as a read that stops at `eol` returns it: it ends in `eol`, and
      `eol` occurs nowhere earlier. */
  predicate IsLine(c: Bytes, eol: Bytes) {
    && |c| >= |eol|
    && EolAt(c, eol, |c| - |eol|)
    && NoEolBefore(c, eol, |c| - |eol|)
  }

  /** What one read returns from the queue `q`. */
  function NextLine(q: seq<Bytes>): Bytes {
    if q == [] then [] else q[0]
  }

  /** The queue after `n` reads. */
  function Drop(q: seq<Bytes>, n: nat): seq<Bytes> {
    q[Min(n, |q|)..]
  }

  /** What `n` reads in a row return, joined end to end: the first `n`
      chunks, then empty bytes for every read past the end of the queue. */
  function Joined(q: seq<Bytes>, n: nat): Bytes {
    if n == 0 then [] else Joined(q, n - 1) + NextLine(Drop(q, n - 1))
  }

  /** Reads compose: `a` reads followed by `b` reads leave the queue that
      `a + b` reads leave. */
  lemma DropDrop(q: seq<Bytes>, a: nat, b: nat)
    ensures Drop(Drop(q, a), b) == Drop(q, a + b)
  {
  }

  /** Joining `a` lines and then `b` more is joining `a + b` lines. */
  lemma {:induction false} JoinedConcat(q: seq<Bytes>, a: nat, b: nat)
    ensures Joined(q, a) + Joined(Drop(q, a), b) == Joined(q, a + b)
  {
    if b == 0 {
      assert Joined(q, a) + [] == Joined(q, a);
    } else {
      JoinedConcat(q, a, b - 1);
      JoinedConcatStep(q, a, b);
    }
  }

  lemma JoinedConcatStep(q: seq<Bytes>, a: nat, b: nat)
    requires b > 0
    requires Joined(q, a) + Joined(Drop(q, a), b - 1) == Joined(q, a + b - 1)
    ensures Joined(q, a) + Joined(Drop(q, a), b) == Joined(q, a + b)
  {
    var m := a + b - 1;
    DropDrop(q, a, b - 1);
    var head, line := Joined(Drop(q, a), b - 1), NextLine(Drop(q, m));
    assert Joined(Drop(q, a), b) == head + line;
    assert Joined(q, m + 1) == Joined(q, m) + line;
    AppendAssoc(Joined(q, a), head, line);
  }

  /** Joined chunks are exactly the queued chunks concatenated, as long as
      the queue lasts. */
  lemma {:induction false} JoinedIsPrefix(q: seq<Bytes>, n: nat)
    requires n <= |q|
    ensures Joined(q, n) == Concat(q[..n])
  {
    if n > 0 {
      JoinedIsPrefix(q, n - 1);
      assert q[..n][..n - 1] == q[..n - 1];
    }
  }

  /** The chunks of `q` joined end to end. */
  function Concat(q: seq<Bytes>): Bytes {
    if q == [] then [] else Concat(q[..|q| - 1]) + q[|q| - 1]
  }

  class Port {
    /** The terminator at which this port's reads stop: CRLF or LF. */
    const eol: Bytes
    /** The chunks still to be received, in arrival order. */
    var input: seq<Bytes>
    /** Everything written, one entry per `write` call. */
    var written: seq<Bytes>

    ghost predicate Valid()
      reads this
    {
      && (eol == CRLF || eol == LF)
      && forall k :: 0 <= k < |input| ==> IsLine(input[k], eol)
    }

    constructor (terminator: Bytes, lines: seq<Bytes>)
      requires terminator == CRLF || terminator == LF
      requires forall k :: 0 <= k < |lines| ==> IsLine(lines[k], terminator)
      ensures Valid() && eol == terminator && input == lines && written == []
    {
      eol, input, written := terminator, lines, [];
    }

    /** `ser.write(data)`. */
    method Write(data: Bytes)
      requires Valid()
      modifies this
      ensures Valid() && input == old(input) && written == old(written) + [data]
    {
      written := written + [data];
    }

    /** Whether `ser.in_waiting` is non-zero. */
    method InWaiting() returns (waiting: bool)
      requires Valid()
      ensures waiting <==> input != []
    {
      waiting := input != [];
    }

    /** `ser.read_until(b'\r\n')` on a CRLF port, `ser.readline()` on an LF
        port: the next chunk. */
    method ReadLine() returns (line: Bytes)
      requires Valid()
      modifies this
      ensures Valid() && written == old(written)
      ensures line == NextLine(old(input)) && input == Drop(old(input), 1)
      ensures line == [] || IsLine(line, eol)
    {
      if input == [] {
        line := [];
      } else {
        line, input := input[0], input[1..];
      }
    }
  }
}
