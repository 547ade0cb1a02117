/**
 * What `read_dvc` guarantees, stated over its specification `ReadSpec`: how the zero-filled buffer
 * and the NUL trimming shape a fragment's text, when the loop stops, which messages it accepts, and
 * that a message split into FIRST, MIDDLE and LAST chunks is read back whole.
 */
module ReadProperties {
  import opened Common
  import opened Trimming
  import opened PduHeader
  import opened Completion
  import opened IoDvc

  // ---------------------------------------------------------------------------------------------
  // One fragment

  /** A freshly zeroed buffer holds nothing but NUL bytes. */
  lemma ZerosAreNul(n: nat)
    ensures AllStripped(Zeros(n), IsNul)
  {
    var z := Zeros(n);
    forall i | 0 <= i < n ensures IsNul(z[i]) {
      assert z[i] == 0;
    }
  }

  /** The header is read from the delivered bytes: the zero padding after them plays no part. */
  lemma HeaderFromDelivered(c: ReadCall)
    requires IsFragment(c)
    ensures Header(c) == DecodeHeader(Resolve(c).value)
  {
    var d := Resolve(c).value;
    var buf := FragmentBuffer(d);
    assert buf[..PDU_HEADER_LENGTH] == buf[..|d|][..PDU_HEADER_LENGTH];
    DecodeHeaderPrefix(buf, d);
  }

  /**
   * The text a fragment contributes is its delivered payload with NUL bytes trimmed from both
   * ends: the zeros that fill the rest of the buffer are trimmed away with them.
   */
  lemma PayloadTextIgnoresPadding(c: ReadCall)
    requires IsFragment(c)
    ensures PayloadText(c) == TrimNul(Resolve(c).value[PDU_HEADER_LENGTH..])
  {
    var d := Resolve(c).value;
    var pad := Zeros(PACKET_MAX_LENGTH - |d|);
    var payload := d[PDU_HEADER_LENGTH..];
    assert FragmentBuffer(d)[PDU_HEADER_LENGTH..] == [] + payload + pad;
    ZerosAreNul(|pad|);
    TrimIgnoresPadding([], payload, pad, IsNul);
  }

  /** A fragment's text is a NUL-free-ended slice of its payload, and trimming it again changes nothing. */
  lemma PayloadTextTrimmed(c: ReadCall)
    requires IsFragment(c)
    ensures |PayloadText(c)| <= PayloadCount(c)
    ensures Untrimmable(PayloadText(c), IsNul)
    ensures TrimNul(PayloadText(c)) == PayloadText(c)
  {
    PayloadTextIgnoresPadding(c);
    TrimIdempotent(Resolve(c).value[PDU_HEADER_LENGTH..], IsNul);
  }

  /** A payload with no NUL at either end is appended exactly as delivered. */
  lemma PayloadTextExact(c: ReadCall)
    requires IsFragment(c) && Untrimmable(Resolve(c).value[PDU_HEADER_LENGTH..], IsNul)
    ensures PayloadText(c) == Resolve(c).value[PDU_HEADER_LENGTH..]
  {
    PayloadTextIgnoresPadding(c);
    TrimKeepsUntrimmable(Resolve(c).value[PDU_HEADER_LENGTH..], IsNul);
  }

  // ---------------------------------------------------------------------------------------------
  // When the loop stops

  /** The read runs out of transfers exactly when every transfer given is a FIRST or MIDDLE fragment. */
  lemma StarvedIff(calls: seq<ReadCall>)
    ensures ReadSpec(calls) == Starved <==> ContinuesBefore(calls, |calls|)
  {
    if ContinuesBefore(calls, |calls|) {
      StopIndexAt(calls, |calls|);
    }
  }

  /**
   * A read that returns has consumed the transfers up to and including the first one that is not a
   * FIRST or MIDDLE fragment, and no more.
   */
  lemma ReadConsumed(calls: seq<ReadCall>)
    requires ReadSpec(calls).Returned?
    ensures var n := ReadSpec(calls).consumed;
      1 <= n <= |calls| && ContinuesBefore(calls, n - 1) && !Continues(calls[n - 1])
    ensures ReadSpec(calls).result.Ok? ==> IsTerminal(calls[ReadSpec(calls).consumed - 1])
  {
  }

  /** Transfers after the one that ends the read are never looked at. */
  lemma ReadIgnoresLaterCalls(calls: seq<ReadCall>, more: seq<ReadCall>)
    requires ReadSpec(calls).Returned?
    ensures ReadSpec(calls + more) == ReadSpec(calls)
  {
    var k := StopIndex(calls);
    var all := calls + more;
    forall j | 0 <= j < k ensures Continues(all[j]) {
      assert all[j] == calls[j];
      assert Continues(calls[j]);
    }
    assert all[k] == calls[k];
    StopIndexAt(all, k);
    assert all[..k + 1] == calls[..k + 1];
  }

  /** Each fragment adds at most one chunk (1600 bytes) to the total. */
  lemma {:induction false} PayloadTotalBound(cs: seq<ReadCall>)
    requires AllFragments(cs)
    ensures PayloadTotal(cs) <= CHANNEL_CHUNK_LENGTH * |cs|
  {
    if cs != [] {
      var front := cs[..|cs| - 1];
      forall i | 0 <= i < |front| ensures IsFragment(front[i]) {
        assert front[i] == cs[i];
      }
      PayloadTotalBound(front);
    }
  }

  // ---------------------------------------------------------------------------------------------
  // Which messages are accepted

  /**
   * A read that ends on an ONLY fragment (transfer `k`, after `k` FIRST or MIDDLE fragments)
   * succeeds exactly when the wrapped payload total is zero, because ONLY leaves the announced
   * length at its initial zero; the text is then everything read.
   */
  lemma OnlyAcceptedIffNoPayload(calls: seq<ReadCall>, k: nat)
    requires k < |calls| && ContinuesBefore(calls, k)
    requires IsFragment(calls[k]) && Kind(calls[k]) == Some(Only)
    ensures AllFragments(calls[..k + 1])
    ensures var total := WrapU32(PayloadTotal(calls[..k + 1]));
      ReadSpec(calls) == if total == 0 then Returned(Ok(Assembled(calls[..k + 1])), k + 1)
                         else Returned(Err(InconsistentLength(0, total)), k + 1)
  {
    StopsOnTerminal(calls, k);
  }

  /**
   * A read that ends on a LAST fragment (transfer `k`, after `k` FIRST or MIDDLE fragments)
   * succeeds exactly when that fragment's announced length equals the wrapped payload total of all
   * fragments read; the text is then everything read.
   */
  lemma LastAcceptedIffLengthMatches(calls: seq<ReadCall>, k: nat)
    requires k < |calls| && ContinuesBefore(calls, k)
    requires IsFragment(calls[k]) && Kind(calls[k]) == Some(Last)
    ensures AllFragments(calls[..k + 1])
    ensures var total := WrapU32(PayloadTotal(calls[..k + 1]));
      ReadSpec(calls) == if Header(calls[k]).length == total then Returned(Ok(Assembled(calls[..k + 1])), k + 1)
                         else Returned(Err(InconsistentLength(Header(calls[k]).length, total)), k + 1)
  {
    StopsOnTerminal(calls, k);
  }

  /**
   * Without wrap-around (fewer than 2^32 / 1600 transfers), a read that ends on an ONLY fragment
   * after any payload at all is rejected as inconsistent, whatever that payload is.
   */
  lemma OnlyWithPayloadRejected(calls: seq<ReadCall>, k: nat)
    requires CHANNEL_CHUNK_LENGTH * |calls| < U32_MODULUS
    requires k < |calls| && ContinuesBefore(calls, k)
    requires IsFragment(calls[k]) && Kind(calls[k]) == Some(Only)
    ensures AllFragments(calls[..k + 1]) && PayloadTotal(calls[..k + 1]) < U32_MODULUS
    ensures var total := PayloadTotal(calls[..k + 1]);
      total > 0 ==> ReadSpec(calls) == Returned(Err(InconsistentLength(0, total)), k + 1)
  {
    OnlyAcceptedIffNoPayload(calls, k);
    PayloadTotalBound(calls[..k + 1]);
  }

  /** The bytes of "hello". */
  const HELLO: seq<byte> := [0x68, 0x65, 0x6C, 0x6C, 0x6F]

  /** A single chunk carrying "hello", flagged ONLY and announcing its five bytes, completed at once. */
  function HelloOnlyCall(): (c: ReadCall)
    ensures c.submit.Completed? && |c.submit.value| == PDU_HEADER_LENGTH + 5
  {
    Call(Completed(EncodeHeader(ChannelPduHeader(5, FlagsOf(Only))) + HELLO), WaitOk([]))
  }

  /** The one-chunk message "hello" sent as an ONLY fragment is rejected: 0 announced, 5 read. */
  lemma HelloAsOnlyRejected()
    ensures ReadSpec([HelloOnlyCall()]) == Returned(Err(InconsistentLength(0, 5)), 1)
  {
    var c := HelloOnlyCall();
    var d := Resolve(c).value;
    HeaderFromDelivered(c);
    DecodeEncodeHeader(ChannelPduHeader(5, FlagsOf(Only)), HELLO);
    assert Header(c) == ChannelPduHeader(5, 3);
    assert Kind(c) == Some(Only);
    assert [c][..1] == [c];
    assert PayloadTotal([c]) == 5 by {
      assert [c][..0] == [];
    }
    OnlyAcceptedIffNoPayload([c], 0);
  }

  /**
   * The order of kinds is not checked: a LAST fragment read on its own is accepted when it
   * announces its own payload count, and its text is the whole result.
   */
  lemma LoneLastAccepted(c: ReadCall)
    requires IsFragment(c) && Kind(c) == Some(Last) && Header(c).length == PayloadCount(c)
    ensures ReadSpec([c]) == Returned(Ok(PayloadText(c)), 1)
  {
    assert [c][..1] == [c];
    assert [c][..0] == [];
    assert PayloadTotal([c]) == PayloadCount(c);
    assert Assembled([c]) == [] + PayloadText(c);
    assert [] + PayloadText(c) == PayloadText(c);
    LastAcceptedIffLengthMatches([c], 0);
  }

  // ---------------------------------------------------------------------------------------------
  // A chunked message is read back whole

  /** The flags of chunk `j` of `n` (at least two): FIRST, then MIDDLE, then LAST. */
  function ChunkFlags(j: nat, n: nat): (flags: u32)
    requires 2 <= n && j < n
    ensures ClassifyFlags(flags) == Some(if j == 0 then First else if j == n - 1 then Last else Middle)
  {
    if j == 0 then FlagsOf(First) else if j == n - 1 then FlagsOf(Last) else FlagsOf(Middle)
  }

  /** A chunk of at most 1600 bytes behind a header announcing `total` bytes, delivered at once. */
  function ChunkCall(total: u32, flags: u32, chunk: seq<byte>): (c: ReadCall)
    requires |chunk| <= CHANNEL_CHUNK_LENGTH
    ensures c.submit.Completed? && c.submit.value == EncodeHeader(ChannelPduHeader(total, flags)) + chunk
  {
    Call(Completed(EncodeHeader(ChannelPduHeader(total, flags)) + chunk), WaitOk([]))
  }

  predicate ChunksFit(chunks: seq<seq<byte>>)
  {
    forall j | 0 <= j < |chunks| :: |chunks[j]| <= CHANNEL_CHUNK_LENGTH
  }

  /** The transfers that carry `chunks`, each header announcing the message length `total`. */
  function Chunked(chunks: seq<seq<byte>>, total: u32): (calls: seq<ReadCall>)
    requires 2 <= |chunks| && ChunksFit(chunks)
    ensures |calls| == |chunks|
    ensures forall j | 0 <= j < |chunks| :: calls[j] == ChunkCall(total, ChunkFlags(j, |chunks|), chunks[j])
  {
    seq(|chunks|, j requires 0 <= j < |chunks| => ChunkCall(total, ChunkFlags(j, |chunks|), chunks[j]))
  }

  /** The chunks of a message, joined in order. */
  function Flatten(chunks: seq<seq<byte>>): seq<byte>
  {
    if chunks == [] then [] else Flatten(chunks[..|chunks| - 1]) + chunks[|chunks| - 1]
  }

  /** A chunk call is a fragment of its kind, whose count is the chunk's length. */
  lemma ChunkCallFacts(total: u32, flags: u32, chunk: seq<byte>)
    requires |chunk| <= CHANNEL_CHUNK_LENGTH
    ensures IsFragment(ChunkCall(total, flags, chunk))
    ensures Header(ChunkCall(total, flags, chunk)) == ChannelPduHeader(total, flags)
    ensures PayloadCount(ChunkCall(total, flags, chunk)) == |chunk|
    ensures Untrimmable(chunk, IsNul) ==> PayloadText(ChunkCall(total, flags, chunk)) == chunk
  {
    var c := ChunkCall(total, flags, chunk);
    var h := EncodeHeader(ChannelPduHeader(total, flags));
    HeaderFromDelivered(c);
    DecodeEncodeHeader(ChannelPduHeader(total, flags), chunk);
    assert (h + chunk)[PDU_HEADER_LENGTH..] == chunk;
    if Untrimmable(chunk, IsNul) {
      PayloadTextExact(c);
    }
  }

  /** The first `m` transfers carry the first `m` chunks: their total and text are those chunks'. */
  lemma {:induction false} ChunkedPrefix(chunks: seq<seq<byte>>, total: u32, m: nat)
    requires 2 <= |chunks| && ChunksFit(chunks) && m <= |chunks|
    requires forall j | 0 <= j < |chunks| :: Untrimmable(chunks[j], IsNul)
    ensures AllFragments(Chunked(chunks, total)[..m])
    ensures PayloadTotal(Chunked(chunks, total)[..m]) == |Flatten(chunks[..m])|
    ensures Assembled(Chunked(chunks, total)[..m]) == Flatten(chunks[..m])
  {
    var calls := Chunked(chunks, total);
    if m == 0 {
      assert calls[..0] == [] && chunks[..0] == [];
    } else {
      ChunkedPrefix(chunks, total, m - 1);
      var chunk := chunks[m - 1];
      ChunkCallFacts(total, ChunkFlags(m - 1, |chunks|), chunk);
      FragmentsAppend(calls, m - 1);
      ChunkedStep(calls, chunks, m);
    }
  }

  /** Re-indexing for one step of `ChunkedPrefix`. */
  lemma ChunkedStep(calls: seq<ReadCall>, chunks: seq<seq<byte>>, m: nat)
    requires 0 < m <= |calls| && m <= |chunks|
    requires AllFragments(calls[..m]) && AllFragments(calls[..m - 1])
    requires PayloadCount(calls[m - 1]) == |chunks[m - 1]| && PayloadText(calls[m - 1]) == chunks[m - 1]
    requires PayloadTotal(calls[..m - 1]) == |Flatten(chunks[..m - 1])|
    requires Assembled(calls[..m - 1]) == Flatten(chunks[..m - 1])
    ensures PayloadTotal(calls[..m]) == |Flatten(chunks[..m])|
    ensures Assembled(calls[..m]) == Flatten(chunks[..m])
  {
    assert calls[..m][..m - 1] == calls[..m - 1] && calls[..m][m - 1] == calls[m - 1];
    assert chunks[..m][..m - 1] == chunks[..m - 1] && chunks[..m][m - 1] == chunks[m - 1];
  }

  /** All the transfers carry all the chunks. */
  lemma ChunkedWhole(chunks: seq<seq<byte>>, total: u32)
    requires 2 <= |chunks| && ChunksFit(chunks)
    requires forall j | 0 <= j < |chunks| :: Untrimmable(chunks[j], IsNul)
    ensures AllFragments(Chunked(chunks, total)[..|chunks|])
    ensures PayloadTotal(Chunked(chunks, total)[..|chunks|]) == |Flatten(chunks)|
    ensures Assembled(Chunked(chunks, total)[..|chunks|]) == Flatten(chunks)
  {
    ChunkedPrefix(chunks, total, |chunks|);
    assert chunks[..|chunks|] == chunks;
  }

  /** Every chunk but the last is a FIRST or MIDDLE fragment. */
  lemma ChunkedContinues(chunks: seq<seq<byte>>, total: u32)
    requires 2 <= |chunks| && ChunksFit(chunks)
    ensures ContinuesBefore(Chunked(chunks, total), |chunks| - 1)
  {
    var calls := Chunked(chunks, total);
    forall j | 0 <= j < |chunks| - 1 ensures Continues(calls[j]) {
      ChunkCallFacts(total, ChunkFlags(j, |chunks|), chunks[j]);
    }
  }

  /**
   * A message of at least two chunks, each at most 1600 bytes with no NUL at either end, sent as
   * FIRST, MIDDLE ... LAST fragments whose headers announce the message length, is read back whole,
   * consuming exactly its chunks.
   */
  lemma MessageRoundTrip(chunks: seq<seq<byte>>)
    requires 2 <= |chunks| && ChunksFit(chunks)
    requires forall j | 0 <= j < |chunks| :: Untrimmable(chunks[j], IsNul)
    requires |Flatten(chunks)| < U32_MODULUS
    ensures ReadSpec(Chunked(chunks, |Flatten(chunks)|)) == Returned(Ok(Flatten(chunks)), |chunks|)
  {
    var n := |chunks|;
    var total: u32 := |Flatten(chunks)|;
    var calls := Chunked(chunks, total);
    ChunkedContinues(chunks, total);
    ChunkCallFacts(total, ChunkFlags(n - 1, n), chunks[n - 1]);
    ChunkedWhole(chunks, total);
    LastAcceptedIffLengthMatches(calls, n - 1);
  }
}
