/**
 Bounded body buffering (`read_body`, src/router.rs): the outcome depends on
 the bytes, not on how the stream cut them into chunks.
 */
module BodyReader {
  import opened Text
  import opened Http

  /** What the stream yields; `Broken` is a transport failure. */
  datatype Chunk = Data(bytes: seq<nat>) | Broken

  function Minimum(a: nat, b: nat): nat { if a <= b then a else b }

  /** The policy's limit as a machine word: too large a limit becomes the largest word. */
  function EndpointLimit(policy: Option<nat>, cap: nat, wordMax: nat): nat {
    match policy
    case None => cap
    case Some(bytes) => if bytes <= wordMax then bytes else wordMax
  }

  function Limit(policy: Option<nat>, cap: nat, wordMax: nat): nat {
    Minimum(EndpointLimit(policy, cap, wordMax), cap)
  }

  /** The narrowing to a machine word never shows: the limit is the smaller of policy and cap. */
  lemma LimitExact(policy: Option<nat>, cap: nat, wordMax: nat)
    requires cap <= wordMax
    ensures Limit(policy, cap, wordMax) == match policy { case None => cap case Some(bytes) => Minimum(bytes, cap) }
    ensures Limit(policy, cap, wordMax) <= cap
  {
  }

  // ------------------------------------------------------------ specification

  /** The bytes up to the first failure. */
  function Received(chunks: seq<Chunk>): seq<nat> {
    if chunks == [] || chunks[0].Broken? then [] else chunks[0].bytes + Received(chunks[1..])
  }

  predicate Intact(chunks: seq<Chunk>) { forall c :: c in chunks ==> c.Data? }

  const READ_FAILED := SoapError(Infrastructure, Foreign(NoSource))

  function BodyOf(chunks: seq<Chunk>, limit: nat): Result<seq<nat>> {
    if |Received(chunks)| > limit then Err(PayloadTooLarge())
    else if !Intact(chunks) then Err(READ_FAILED)
    else Ok(Received(chunks))
  }

  lemma IntactStep(chunks: seq<Chunk>, i: nat)
    requires i < |chunks|
    ensures Intact(chunks[i..]) <==> chunks[i].Data? && Intact(chunks[i + 1..])
  {
    assert chunks[i..] == [chunks[i]] + chunks[i + 1..];
  }

  /** Buffers chunk by chunk, giving up at the first chunk that goes over the limit. */
  method ReadBody(chunks: seq<Chunk>, limit: nat) returns (r: Result<seq<nat>>)
    ensures r == BodyOf(chunks, limit)
  {
    var buffer: seq<nat> := [];
    var remaining: nat := limit;
    var i := 0;
    assert chunks[0..] == chunks;
    while i < |chunks|
      invariant i <= |chunks|
      invariant |buffer| + remaining == limit
      invariant Received(chunks) == buffer + Received(chunks[i..])
      invariant Intact(chunks) <==> Intact(chunks[i..])
    {
      assert chunks[i..][0] == chunks[i] && chunks[i..][1..] == chunks[i + 1..];
      IntactStep(chunks, i);
      assert buffer + [] == buffer;
      if chunks[i].Broken? {
        return Err(READ_FAILED);
      }
      if |chunks[i].bytes| > remaining {
        return Err(PayloadTooLarge());
      }
      Associative(buffer, chunks[i].bytes, Received(chunks[i + 1..]));
      buffer := buffer + chunks[i].bytes;
      remaining := remaining - |chunks[i].bytes|;
      i := i + 1;
    }
    assert buffer + [] == buffer;
    return Ok(buffer);
  }

  /**
   A body is refused for its size exactly when what arrived exceeds the policy's
   limit or the cap, else for a failed transport, and else read whole.
   */
  lemma BodyExact(chunks: seq<Chunk>, policy: Option<nat>, cap: nat, wordMax: nat)
    requires cap <= wordMax
    ensures var fits := |Received(chunks)| <= cap && (policy.Some? ==> |Received(chunks)| <= policy.value);
            BodyOf(chunks, Limit(policy, cap, wordMax))
            == if !fits then Err(PayloadTooLarge())
               else if exists i :: 0 <= i < |chunks| && chunks[i].Broken?
               then Err(SoapError(Infrastructure, Foreign(NoSource)))
               else Ok(Received(chunks))
  {
    LimitExact(policy, cap, wordMax);
    assert forall i :: 0 <= i < |chunks| ==> chunks[i] in chunks;
  }

  lemma {:induction false} ReceivedConcat(a: seq<Chunk>, b: seq<Chunk>)
    requires Intact(a)
    ensures Received(a + b) == Received(a) + Received(b)
  {
    if a == [] {
      assert a + b == b;
    } else {
      assert a[0] in a;
      ReceivedConcat(a[1..], b);
      assert (a + b)[1..] == a[1..] + b;
      Associative(a[0].bytes, Received(a[1..]), Received(b));
    }
  }

  /** Every chunk adds its bytes at the end, and nothing counts after a failure. */
  lemma ReceivedExact(a: seq<Chunk>, bytes: seq<nat>, b: seq<Chunk>)
    requires Intact(a)
    ensures Received([]) == []
    ensures Received(a + [Data(bytes)]) == Received(a) + bytes
    ensures Received(a + ([Broken] + b)) == Received(a)
  {
    ReceivedConcat(a, [Data(bytes)]);
    ReceivedConcat(a, [Broken] + b);
    assert [Data(bytes)][1..] == [] && bytes + [] == bytes && Received(a) + [] == Received(a);
  }
}
