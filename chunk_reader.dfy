/** The streaming response body and `get_chunk`, which keeps polling it
    until it has collected at least the number of bytes asked for. */
module ChunkReader {
  import opened Errors
  import opened Bytes

  /** The body of the HTTP response. Each `iter_content(...).__next__()`
      yields the next chunk the transport delivered; once all chunks are
      gone it raises StopIteration. */
  class ByteStream {
    var polls: seq<seq<byte>>

    constructor (polls: seq<seq<byte>>)
      ensures this.polls == polls
    {
      this.polls := polls;
    }

    /** One poll: the next chunk, or None where StopIteration is raised. */
    method Next() returns (r: Option<seq<byte>>)
      modifies this
      ensures old(polls) == [] ==> r == None && polls == []
      ensures old(polls) != [] ==> r == Some(old(polls)[0]) && polls == old(polls)[1..]
    {
      if polls == [] {
        r := None;
      } else {
        r := Some(polls[0]);
        polls := polls[1..];
      }
    }
  }

  /** What a completed read returns: the collected bytes and the chunks still unread. */
  datatype Read = Read(data: seq<byte>, rest: seq<seq<byte>>)

  /** `get_chunk(source, size, chunk)` on a stream that will yield `polls`. */
  function Collect(chunk: seq<byte>, size: int, polls: seq<seq<byte>>): (r: Result<Read>)
    ensures r.Ok? ==> |r.value.rest| <= |polls|
    ensures r.Err? ==> r.failure == StreamEnded
    decreases |polls|
  {
    if |chunk| >= size then Ok(Read(chunk, polls))
    else if polls == [] then Err(StreamEnded)
    else Collect(chunk + polls[0], size, polls[1..])
  }

  /** The loop of `get_chunk`: append polled chunks until `size` bytes are held. */
  method GetChunk(source: ByteStream, size: int, chunk: seq<byte>) returns (r: Result<seq<byte>>)
    modifies source
    ensures r.Ok? <==> Collect(chunk, size, old(source.polls)).Ok?
    ensures r.Ok? ==>
              && r.value == Collect(chunk, size, old(source.polls)).value.data
              && source.polls == Collect(chunk, size, old(source.polls)).value.rest
    ensures r.Err? ==> r.failure == StreamEnded && source.polls == []
  {
    var buffer := chunk;
    while |buffer| < size
      invariant Collect(buffer, size, source.polls) == Collect(chunk, size, old(source.polls))
      decreases |source.polls|
    {
      var next := source.Next();
      if next.None? {
        return Err(StreamEnded);
      }
      buffer := buffer + next.value;
    }
    return Ok(buffer);
  }

  /** A successful read keeps the carried-in bytes as its prefix and holds
      at least `size` bytes. */
  lemma {:induction false} CollectKeepsOrder(chunk: seq<byte>, size: int, polls: seq<seq<byte>>)
    requires Collect(chunk, size, polls).Ok?
    ensures var read := Collect(chunk, size, polls).value;
      && |read.data| >= size
      && |read.data| >= |chunk| && read.data[..|chunk|] == chunk
    decreases |polls|
  {
    if |chunk| < size {
      CollectKeepsOrder(chunk + polls[0], size, polls[1..]);
      PrefixOfPrefix(Collect(chunk, size, polls).value.data, chunk, polls[0]);
    }
  }

  /** A successful read loses nothing: what it returns followed by what is
      left unread is exactly what was available, and what is left unread is
      the stream's last chunks. */
  lemma {:induction false} CollectLosesNothing(chunk: seq<byte>, size: int, polls: seq<seq<byte>>)
    requires Collect(chunk, size, polls).Ok?
    ensures var read := Collect(chunk, size, polls).value;
      && read.data + Flatten(read.rest) == chunk + Flatten(polls)
      && |read.rest| <= |polls| && read.rest == polls[|polls| - |read.rest|..]
    decreases |polls|
  {
    if |chunk| < size {
      CollectLosesNothing(chunk + polls[0], size, polls[1..]);
      AppendAssoc(chunk, polls[0], Flatten(polls[1..]));
      TailSuffix(polls, |Collect(chunk, size, polls).value.rest|);
    }
  }

  lemma PrefixOfPrefix(s: seq<byte>, a: seq<byte>, b: seq<byte>)
    requires |s| >= |a + b| && s[..|a + b|] == a + b
    ensures |s| >= |a| && s[..|a|] == a
  {
    assert s[..|a|] == s[..|a + b|][..|a|];
  }

  lemma TailSuffix(xs: seq<seq<byte>>, n: nat)
    requires n < |xs|
    ensures xs[1..][|xs| - 1 - n..] == xs[|xs| - n..]
  {
  }

  /** The read fails exactly when the carried-in bytes and the whole rest of
      the stream together fall short of `size`. */
  lemma {:induction false} CollectFailsIffShort(chunk: seq<byte>, size: int, polls: seq<seq<byte>>)
    ensures Collect(chunk, size, polls).Err? <==> |chunk| + |Flatten(polls)| < size
    decreases |polls|
  {
    if |chunk| < size && polls != [] {
      CollectFailsIffShort(chunk + polls[0], size, polls[1..]);
    }
  }

  /** The transport honours every request: each chunk it yields is no longer
      than the bytes still missing when it is polled. */
  predicate WithinRequests(held: nat, size: int, polls: seq<seq<byte>>)
    decreases |polls|
  {
    held >= size || polls == []
    || (held + |polls[0]| <= size && WithinRequests(held + |polls[0]|, size, polls[1..]))
  }

  /** Under that condition `get_chunk` returns exactly `size` bytes. */
  lemma {:induction false} CollectExact(chunk: seq<byte>, size: int, polls: seq<seq<byte>>)
    requires |chunk| <= size
    requires WithinRequests(|chunk|, size, polls)
    requires Collect(chunk, size, polls).Ok?
    ensures |Collect(chunk, size, polls).value.data| == size
    decreases |polls|
  {
    if |chunk| < size {
      CollectExact(chunk + polls[0], size, polls[1..]);
    }
  }

  /** Chunks of 3, 1 and 4 bytes give an 8-byte read in order; a stream that
      ends after 6 bytes makes the same read fail. */
  lemma CollectExample(a: byte, b: byte, c: byte, d: byte, e: byte, f: byte, g: byte, h: byte)
    ensures Collect([], 8, [[a, b, c], [d], [e, f, g, h]]) == Ok(Read([a, b, c, d, e, f, g, h], []))
    ensures Collect([], 8, [[a, b, c], [d], [e, f]]) == Err(StreamEnded)
  {
    var abc: seq<byte> := [a, b, c];
    var abcd: seq<byte> := [a, b, c, d];
    assert [] + abc == abc && abc + [d] == abcd;
    assert Collect([], 8, [[a, b, c], [d], [e, f, g, h]]) == Collect(abc, 8, [[d], [e, f, g, h]]);
    assert Collect(abc, 8, [[d], [e, f, g, h]]) == Collect(abcd, 8, [[e, f, g, h]]);
    assert abcd + [e, f, g, h] == [a, b, c, d, e, f, g, h];
    assert Collect([], 8, [[a, b, c], [d], [e, f]]) == Collect(abc, 8, [[d], [e, f]]);
    assert Collect(abc, 8, [[d], [e, f]]) == Collect(abcd, 8, [[e, f]]);
    assert |abcd + [e, f]| == 6;
  }
}
