/**
 * The server's channel I/O (echo_dvc_server/src/io_dvc.rs): `write_dvc`, one blocking write, and
 * `read_dvc`, which reads chunks until a terminal one, decodes each chunk's `CHANNEL_PDU_HEADER`,
 * appends the NUL-trimmed payload and finally compares the payload byte count with the length the
 * header announced.
 *
 * Each operating-system transfer is a `Call` (see module Completion); a read is given the
 * sequence of transfers the channel would produce, in order.
 */
module IoDvc {
  import opened Common
  import opened Trimming
  import opened PduHeader
  import opened Completion

  /** What one `ReadFile` can place in the `PACKET_MAX_LENGTH`-byte buffer: never more than it holds. */
  type Delivered = d: seq<byte> | |d| <= PACKET_MAX_LENGTH

  /** A write transfer reports the number of bytes written. */
  type WriteCall = Call<u32>

  /** A read transfer reports the bytes it placed in the buffer (their number is the count read). */
  type ReadCall = Call<Delivered>

  // ---------------------------------------------------------------------------------------------
  // write_dvc

  /**
   * One blocking write of `data`. The count written is only logged by the server, so a short write
   * is a success; `written` is that logged count.
   */
  method WriteDvc(data: seq<byte>, call: WriteCall) returns (r: Result<(), HResult>, written: u32)
    ensures r.Ok? <==> Resolve(call).Ok?
    ensures r.Ok? ==> written == Resolve(call).value
    ensures r.Err? ==> r.error == Resolve(call).error
    ensures call.submit.Completed? ==> r.Ok? && written == call.submit.value
  {
    written := 0;
    var realWritten := Resolve(call);
    match realWritten {
      case Err(code) =>
        r := Err(code);
        return;
      case Ok(count) =>
        written := count;
    }
    r := Ok(());
  }

  // ---------------------------------------------------------------------------------------------
  // One fragment, as read_dvc sees it

  /** The zero-filled per-iteration buffer after the operating system wrote `d` at its front. */
  function FragmentBuffer(d: Delivered): (buf: seq<byte>)
    ensures |buf| == PACKET_MAX_LENGTH && buf[..|d|] == d
  {
    d + Zeros(PACKET_MAX_LENGTH - |d|)
  }

  predicate IsNul(b: byte)
  {
    b == 0
  }

  /** NUL bytes stripped from both ends, as `trim_matches(char::from(0))` does. */
  function TrimNul(s: seq<byte>): seq<byte>
  {
    Trim(s, IsNul)
  }

  /** The transfer succeeded and delivered at least a whole header. */
  predicate IsFragment(c: ReadCall)
  {
    Resolve(c).Ok? && |Resolve(c).value| >= PDU_HEADER_LENGTH
  }

  function Header(c: ReadCall): ChannelPduHeader
    requires IsFragment(c)
  {
    DecodeHeader(FragmentBuffer(Resolve(c).value))
  }

  /** The amount `tot_read` grows by: the count read minus the header, at most one chunk. */
  function PayloadCount(c: ReadCall): (n: nat)
    requires IsFragment(c)
    ensures n <= CHANNEL_CHUNK_LENGTH
    ensures n + PDU_HEADER_LENGTH == |Resolve(c).value|
  {
    |Resolve(c).value| - PDU_HEADER_LENGTH
  }

  /** What is appended to the result: the buffer after the header, NUL bytes trimmed off both ends. */
  function PayloadText(c: ReadCall): (t: seq<byte>)
    requires IsFragment(c)
    ensures |t| <= CHANNEL_CHUNK_LENGTH
  {
    TrimNul(FragmentBuffer(Resolve(c).value)[PDU_HEADER_LENGTH..])
  }

  function Kind(c: ReadCall): Option<FragmentKind>
    requires IsFragment(c)
  {
    ClassifyFlags(Header(c).flags)
  }

  /** A FIRST or MIDDLE fragment: the loop goes on to the next transfer. */
  predicate Continues(c: ReadCall)
  {
    IsFragment(c) && Kind(c).Some? && !Kind(c).value.Terminal()
  }

  /** An ONLY or LAST fragment: the loop stops after it. */
  predicate IsTerminal(c: ReadCall)
  {
    IsFragment(c) && Kind(c).Some? && Kind(c).value.Terminal()
  }

  predicate AllFragments(cs: seq<ReadCall>)
  {
    forall i {:trigger IsFragment(cs[i])} | 0 <= i < |cs| :: IsFragment(cs[i])
  }

  /** Every transfer before index `k` is a FIRST or MIDDLE fragment. */
  predicate ContinuesBefore(calls: seq<ReadCall>, k: nat)
    requires k <= |calls|
  {
    forall j {:trigger Continues(calls[j])} | 0 <= j < k :: Continues(calls[j])
  }

  /** The sum of the payload counts of `cs`. */
  function PayloadTotal(cs: seq<ReadCall>): nat
    requires AllFragments(cs)
  {
    if cs == [] then 0 else PayloadTotal(cs[..|cs| - 1]) + PayloadCount(cs[|cs| - 1])
  }

  /** The payload texts of `cs`, concatenated in arrival order. */
  function Assembled(cs: seq<ReadCall>): seq<byte>
    requires AllFragments(cs)
  {
    if cs == [] then [] else Assembled(cs[..|cs| - 1]) + PayloadText(cs[|cs| - 1])
  }

  /** The index of the first transfer that does not continue the loop, or `|calls|` if there is none. */
  function StopIndex(calls: seq<ReadCall>): (k: nat)
    ensures k <= |calls|
    ensures ContinuesBefore(calls, k)
    ensures k < |calls| ==> !Continues(calls[k])
  {
    if calls == [] || !Continues(calls[0]) then 0 else 1 + StopIndex(calls[1..])
  }

  // ---------------------------------------------------------------------------------------------
  // read_dvc: its outcome, specified

  /** The errors `read_dvc` returns (each message of the source is one constructor). */
  datatype ReadError =
    | Transport(code: HResult)                        // ReadFile or GetOverlappedResult failed
    | NotAPduHeader(length: nat)                      // fewer than 8 bytes read
    | UnsupportedFlags(flags: u32)                    // flags outside ONLY, LAST, FIRST, MIDDLE
    | InconsistentLength(declared: u32, read: u32)    // specified_pdu_length != tot_read

  /** The HRESULT the returned `windows::core::Error` carries. */
  function ErrorCode(e: ReadError): (code: HResult)
    ensures code != E_FAIL ==> e.Transport?
  {
    if e.Transport? then e.code else E_FAIL
  }

  /**
   * `Returned(result, n)`: `read_dvc` returned `result` after the first `n` transfers.
   * `Starved`: the transfers given ran out before the loop returned.
   */
  datatype ReadOutcome = Returned(result: Result<seq<byte>, ReadError>, consumed: nat) | Starved

  /** `specified_pdu_length` once the loop has stopped on a terminal fragment: only LAST sets it. */
  function SpecifiedLength(c: ReadCall): (n: u32)
    requires IsTerminal(c)
    ensures Kind(c) == Some(Only) ==> n == 0
    ensures Kind(c) == Some(Last) ==> n == Header(c).length
  {
    if Kind(c) == Some(Last) then Header(c).length else 0
  }

  /**
   * The outcome of `read_dvc`: every transfer before the first one that does not continue the loop
   * contributes its payload; that transfer decides the outcome.
   */
  function ReadSpec(calls: seq<ReadCall>): ReadOutcome
  {
    var k := StopIndex(calls);
    if k == |calls| then Starved
    else
      var c := calls[k];
      match Resolve(c)
      case Err(code) => Returned(Err(Transport(code)), k + 1)
      case Ok(d) =>
        if |d| < PDU_HEADER_LENGTH then Returned(Err(NotAPduHeader(|d|)), k + 1)
        else if Kind(c).None? then Returned(Err(UnsupportedFlags(Header(c).flags)), k + 1)
        else
          FragmentsThrough(calls, k);
          var total := WrapU32(PayloadTotal(calls[..k + 1]));
          if SpecifiedLength(c) != total then Returned(Err(InconsistentLength(SpecifiedLength(c), total)), k + 1)
          else Returned(Ok(Assembled(calls[..k + 1])), k + 1)
  }

  // ---------------------------------------------------------------------------------------------
  // read_dvc: the loop

  /**
   * `read_dvc`: reads fragments until a terminal one, then checks the announced length. At the
   * head of every pass `tot_read` is the wrapped sum of the payload counts of the fragments read so
   * far, and `read_string` is their trimmed payloads in arrival order.
   */
  method ReadDvc(calls: seq<ReadCall>) returns (r: ReadOutcome)
    ensures r == ReadSpec(calls)
  {
    var totRead: u32 := 0;
    var specifiedPduLength: u32 := 0;
    var readString: seq<byte> := [];
    var i := 0;
    assert calls[..0] == [];
    while true
      invariant i <= |calls|
      invariant ContinuesBefore(calls, i) && AllFragments(calls[..i])
      invariant totRead == WrapU32(PayloadTotal(calls[..i])) && readString == Assembled(calls[..i])
      invariant specifiedPduLength == 0
      decreases |calls| - i
    {
      if i == |calls| {
        StopIndexAt(calls, i);
        return Starved;
      }
      var transfer := Resolve(calls[i]);
      if transfer.Err? {
        StopsOnError(calls, i);
        return Returned(Err(Transport(transfer.error)), i + 1);
      }
      var realRead := |transfer.value|;
      if realRead < PDU_HEADER_LENGTH {
        StopsOnError(calls, i);
        return Returned(Err(NotAPduHeader(realRead)), i + 1);
      }
      var rbuf := FragmentBuffer(transfer.value);
      var header := DecodeHeader(rbuf);
      FragmentStep(calls, i, totRead, readString, transfer.value, rbuf,
                   WrapU32(totRead + (realRead - PDU_HEADER_LENGTH)),
                   readString + TrimNul(rbuf[PDU_HEADER_LENGTH..]));
      readString := readString + TrimNul(rbuf[PDU_HEADER_LENGTH..]);
      totRead := WrapU32(totRead + (realRead - PDU_HEADER_LENGTH));
      i := i + 1;
      match ClassifyFlags(header.flags) {
        case Some(Only) =>
          assert specifiedPduLength == SpecifiedLength(calls[i - 1]);
          break;
        case Some(Last) =>
          specifiedPduLength := header.length;
          assert specifiedPduLength == SpecifiedLength(calls[i - 1]);
          break;
        case Some(First) =>
          ContinuesStep(calls, i - 1);
        case Some(Middle) =>
          ContinuesStep(calls, i - 1);
        case None =>
          StopsOnError(calls, i - 1);
          return Returned(Err(UnsupportedFlags(header.flags)), i);
      }
    }
    StopsOnTerminal(calls, i - 1);
    if specifiedPduLength != totRead {
      return Returned(Err(InconsistentLength(specifiedPduLength, totRead)), i);
    }
    return Returned(Ok(readString), i);
  }

  /**
   * One pass of the loop over a fragment: with `tot'` and `text'` the values the body computes,
   * `tot_read` is still the wrapped sum of the payload counts read and `read_string` their texts.
   */
  lemma FragmentStep(calls: seq<ReadCall>, i: nat, tot: u32, text: seq<byte>,
                     d: Delivered, buf: seq<byte>, tot': u32, text': seq<byte>)
    requires i < |calls| && AllFragments(calls[..i])
    requires tot == WrapU32(PayloadTotal(calls[..i])) && text == Assembled(calls[..i])
    requires Resolve(calls[i]) == Ok(d) && |d| >= PDU_HEADER_LENGTH && buf == FragmentBuffer(d)
    requires tot' == WrapU32(tot + (|d| - PDU_HEADER_LENGTH))
    requires text' == text + TrimNul(buf[PDU_HEADER_LENGTH..])
    ensures IsFragment(calls[i]) && Header(calls[i]) == DecodeHeader(buf)
    ensures AllFragments(calls[..i + 1])
    ensures tot' == WrapU32(PayloadTotal(calls[..i + 1])) && text' == Assembled(calls[..i + 1])
  {
    FragmentsAppend(calls, i);
    AdvanceTotal(calls, i);
    AdvanceText(calls, i);
  }

  /**
   * A transfer that fails, delivers fewer than 8 bytes or carries an unsupported flags value ends
   * the read with the matching error, whatever follows it.
   */
  lemma StopsOnError(calls: seq<ReadCall>, k: nat)
    requires k < |calls| && ContinuesBefore(calls, k)
    requires !IsFragment(calls[k]) || Kind(calls[k]).None?
    ensures Resolve(calls[k]).Err? ==> ReadSpec(calls) == Returned(Err(Transport(Resolve(calls[k]).error)), k + 1)
    ensures Resolve(calls[k]).Ok? && |Resolve(calls[k]).value| < PDU_HEADER_LENGTH ==>
      ReadSpec(calls) == Returned(Err(NotAPduHeader(|Resolve(calls[k]).value|)), k + 1)
    ensures IsFragment(calls[k]) ==> ReadSpec(calls) == Returned(Err(UnsupportedFlags(Header(calls[k]).flags)), k + 1)
  {
    StopIndexAt(calls, k);
  }

  /** A terminal fragment ends the read: it succeeds exactly when the length check passes. */
  lemma StopsOnTerminal(calls: seq<ReadCall>, k: nat)
    requires k < |calls| && ContinuesBefore(calls, k)
    requires IsTerminal(calls[k])
    ensures AllFragments(calls[..k + 1])
    ensures var total := WrapU32(PayloadTotal(calls[..k + 1]));
      ReadSpec(calls) == if SpecifiedLength(calls[k]) == total then Returned(Ok(Assembled(calls[..k + 1])), k + 1)
                         else Returned(Err(InconsistentLength(SpecifiedLength(calls[k]), total)), k + 1)
  {
    FragmentsThrough(calls, k);
    StopIndexAt(calls, k);
  }

  /** The stop index is the first transfer that does not continue the loop. */
  lemma {:induction false} StopIndexAt(calls: seq<ReadCall>, k: nat)
    requires k <= |calls|
    requires ContinuesBefore(calls, k)
    requires k < |calls| ==> !Continues(calls[k])
    ensures StopIndex(calls) == k
  {
    if k > 0 {
      assert Continues(calls[0]);
      var rest := calls[1..];
      forall j | 0 <= j < k - 1 ensures Continues(rest[j]) {
        assert Continues(calls[j + 1]);
      }
      assert k - 1 < |rest| ==> rest[k - 1] == calls[k];
      StopIndexAt(rest, k - 1);
    }
  }

  /** A continuing prefix followed by one more continuing fragment is a longer continuing prefix. */
  lemma ContinuesStep(calls: seq<ReadCall>, k: nat)
    requires k < |calls| && ContinuesBefore(calls, k)
    requires IsFragment(calls[k]) && Kind(calls[k]).Some? && !Kind(calls[k]).value.Terminal()
    ensures ContinuesBefore(calls, k + 1)
  {
    assert Continues(calls[k]);
  }

  /** A continuing prefix followed by one more fragment is made of fragments only. */
  lemma FragmentsThrough(calls: seq<ReadCall>, k: nat)
    requires k < |calls| && ContinuesBefore(calls, k) && IsFragment(calls[k])
    ensures AllFragments(calls[..k + 1])
  {
    var through := calls[..k + 1];
    forall j | 0 <= j < k + 1 ensures IsFragment(through[j]) {
      if j < k { assert Continues(calls[j]); }
    }
  }

  /** One more fragment keeps the prefix made of fragments only. */
  lemma FragmentsAppend(calls: seq<ReadCall>, i: nat)
    requires i < |calls| && IsFragment(calls[i]) && AllFragments(calls[..i])
    ensures AllFragments(calls[..i + 1])
  {
    var next := calls[..i + 1];
    forall j | 0 <= j < i + 1 ensures IsFragment(next[j]) {
      if j < i { assert next[j] == calls[..i][j]; }
    }
  }

  /** One more fragment adds its payload count to the wrapped total. */
  lemma AdvanceTotal(calls: seq<ReadCall>, i: nat)
    requires i < |calls| && AllFragments(calls[..i + 1])
    ensures AllFragments(calls[..i])
    ensures WrapU32(WrapU32(PayloadTotal(calls[..i])) + PayloadCount(calls[i])) == WrapU32(PayloadTotal(calls[..i + 1]))
  {
    var next := calls[..i + 1];
    assert next[..i] == calls[..i];
    assert next[i] == calls[i];
    WrapAdd(PayloadTotal(calls[..i]), PayloadCount(calls[i]));
  }

  /** One more fragment appends its text to the result. */
  lemma AdvanceText(calls: seq<ReadCall>, i: nat)
    requires i < |calls| && AllFragments(calls[..i + 1])
    ensures AllFragments(calls[..i])
    ensures Assembled(calls[..i]) + PayloadText(calls[i]) == Assembled(calls[..i + 1])
  {
    var next := calls[..i + 1];
    assert next[..i] == calls[..i];
    assert next[i] == calls[i];
  }
}
