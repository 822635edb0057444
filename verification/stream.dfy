/** Reading the whole response off the encrypted stream. */
module Stream {

  /** The size of the buffer each read fills. */
  const BufferSize: nat := 2048

  /**
   * The text the read loop accumulates: every read decoded on its own, up to
   * and including the first read of zero bytes. A stream that has no more
   * reads listed is closed and returns zero bytes.
   */
  function Received(arrivals: seq<seq<bv8>>, decode: seq<bv8> -> string): string
    decreases |arrivals|
  {
    if |arrivals| == 0 || |arrivals[0]| == 0 then decode([])
    else decode(arrivals[0]) + Received(arrivals[1..], decode)
  }

  /** Each chunk decoded on its own, the results concatenated. */
  function DecodeEach(chunks: seq<seq<bv8>>, decode: seq<bv8> -> string): string
    decreases |chunks|
  {
    if |chunks| == 0 then [] else decode(chunks[0]) + DecodeEach(chunks[1..], decode)
  }

  /**
   * `DecodeResponse`: read into one reused buffer until a read returns zero
   * bytes, decoding the bytes of each read with a fresh decoder and appending
   * the characters.
   */
  method DecodeResponse(arrivals: seq<seq<bv8>>, decode: seq<bv8> -> string) returns (data: string)
    requires forall i :: 0 <= i < |arrivals| ==> |arrivals[i]| <= BufferSize
    ensures data == Received(arrivals, decode)
  {
    var buffer := new bv8[BufferSize];
    data := [];
    var i := 0;
    var done := false;
    while !done
      invariant !done ==> i <= |arrivals| && data + Received(arrivals[i..], decode) == Received(arrivals, decode)
      invariant done ==> data == Received(arrivals, decode)
      decreases if done then 0 else |arrivals| + 1 - i
    {
      var chunk := if i < |arrivals| then arrivals[i] else [];
      forall j | 0 <= j < |chunk| {
        buffer[j] := chunk[j];
      }
      var bytes := |chunk|;
      assert buffer[..bytes] == chunk;
      ReceivedFrom(arrivals, i, decode);
      data := data + decode(buffer[..bytes]);
      done := bytes == 0;
      i := i + 1;
    }
  }

  /** One read of the loop: what is received from read `i` on is that read, then the rest unless it was empty. */
  lemma ReceivedFrom(arrivals: seq<seq<bv8>>, i: nat, decode: seq<bv8> -> string)
    requires i <= |arrivals|
    ensures var chunk := if i < |arrivals| then arrivals[i] else [];
            Received(arrivals[i..], decode)
              == decode(chunk) + (if |chunk| == 0 then [] else Received(arrivals[i + 1..], decode))
  {
    if i < |arrivals| {
      assert arrivals[i..][1..] == arrivals[i + 1..];
    }
  }

  /**
   * No decoder state crosses a read boundary: the reads before the end of the
   * stream contribute their separate decodings, whatever follows them.
   */
  lemma {:induction false} ReadsDecodedSeparately(before: seq<seq<bv8>>, after: seq<seq<bv8>>, decode: seq<bv8> -> string)
    requires forall i :: 0 <= i < |before| ==> |before[i]| > 0
    ensures Received(before + after, decode) == DecodeEach(before, decode) + Received(after, decode)
  {
    if |before| > 0 {
      assert (before + after)[1..] == before[1..] + after;
      ReadsDecodedSeparately(before[1..], after, decode);
    } else {
      assert before + after == after;
    }
  }

  /** Nothing after the first zero-byte read is consumed. */
  lemma StopsAtEndOfStream(before: seq<seq<bv8>>, after: seq<seq<bv8>>, decode: seq<bv8> -> string)
    requires forall i :: 0 <= i < |before| ==> |before[i]| > 0
    ensures Received(before + [[]] + after, decode) == DecodeEach(before, decode) + decode([])
  {
    ReadsDecodedSeparately(before, [[]] + after, decode);
    assert before + [[]] + after == before + ([[]] + after);
  }
}
