/** Byte sequences and the `Buffer` operations the engine relies on. */
module Bytes {

  type byte = bv8

  /** `n` zero bytes, as `Buffer.alloc(n)` yields. */
  function Zeros(n: nat): (z: seq<byte>)
    ensures |z| == n
    ensures forall i :: 0 <= i < n ==> z[i] == 0
  {
    seq(n, _ => 0)
  }

  /** The in-order concatenation of a list of chunks (`Buffer.concat`). */
  function Flatten(chunks: seq<seq<byte>>): seq<byte>
  {
    if |chunks| == 0 then [] else chunks[0] + Flatten(chunks[1..])
  }

  /** Total number of bytes held by a list of chunks. */
  function TotalLength(chunks: seq<seq<byte>>): nat
  {
    if |chunks| == 0 then 0 else |chunks[0]| + TotalLength(chunks[1..])
  }

  lemma {:induction false} FlattenLength(chunks: seq<seq<byte>>)
    ensures |Flatten(chunks)| == TotalLength(chunks)
  {
    if |chunks| > 0 {
      FlattenLength(chunks[1..]);
    }
  }

  /** Flattening distributes over concatenation of chunk lists. */
  lemma {:induction false} FlattenConcat(a: seq<seq<byte>>, b: seq<seq<byte>>)
    ensures Flatten(a + b) == Flatten(a) + Flatten(b)
  {
    if |a| == 0 {
      assert a + b == b;
    } else {
      assert (a + b)[1..] == a[1..] + b;
      FlattenConcat(a[1..], b);
    }
  }

  /** Appending one chunk appends exactly its bytes. */
  lemma FlattenAppend(chunks: seq<seq<byte>>, c: seq<byte>)
    ensures Flatten(chunks + [c]) == Flatten(chunks) + c
  {
    FlattenConcat(chunks, [c]);
    assert Flatten([c]) == c + Flatten([]);
  }

  /** Appending one chunk adds exactly its length. */
  lemma {:induction false} TotalLengthAppend(cs: seq<seq<byte>>, c: seq<byte>)
    ensures TotalLength(cs + [c]) == TotalLength(cs) + |c|
  {
    if |cs| > 0 {
      assert (cs + [c])[1..] == cs[1..] + [c];
      TotalLengthAppend(cs[1..], c);
    } else {
      assert cs + [c] == [c];
    }
  }

  /** `Buffer.concat(bufs)`: copies the chunks one after another into one buffer. */
  method Concat(chunks: seq<seq<byte>>) returns (buf: seq<byte>)
    ensures buf == Flatten(chunks)
    ensures |buf| == TotalLength(chunks)
  {
    buf := [];
    var i := 0;
    while i < |chunks|
      invariant 0 <= i <= |chunks|
      invariant buf == Flatten(chunks[..i])
    {
      FlattenAppend(chunks[..i], chunks[i]);
      assert chunks[..i + 1] == chunks[..i] + [chunks[i]];
      buf := buf + chunks[i];
      i := i + 1;
    }
    assert chunks[..i] == chunks;
    FlattenLength(chunks);
  }
}
