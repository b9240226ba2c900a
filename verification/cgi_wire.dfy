/** The relay's outgoing data as a value: what is queued, what belongs on the
    wire, and which part of the script's output the chunks carry. */
module CgiWire {
  import opened Bytes
  import opened Chunked
  import opened CgiHeader

  const HDR_CAP := 4096
  const BODY_CAP := 8192
  const PREFIX_CAP := 32

  /** "cgi produced no output\n" */
  const NO_OUTPUT: seq<byte> :=
    [99, 103, 105, 32, 112, 114, 111, 100, 117, 99, 101, 100, 32, 110, 111, 32, 111, 117, 116, 112, 117, 116, 10]

  /** What is queued for the client and not yet sent, piece by piece: the reply
      header, the current chunk's size line, data and CRLF, and the final chunk. */
  datatype Outbox = Outbox(header: seq<byte>, prefix: seq<byte>, body: seq<byte>, suffix: seq<byte>, last: seq<byte>)
  {
    function Pending(): seq<byte> {
      header + (prefix + (body + (suffix + last)))
    }

    predicate ChunkOut() {
      prefix == [] && body == [] && suffix == []
    }

    /** The outbox once `data` has been made the current chunk. */
    function WithChunk(data: seq<byte>): Outbox {
      if data == [] then Outbox(header, [], [], [], last)
      else Outbox(header, ChunkPrefix(|data|), data, CRLF, last)
    }

    /** How many of n bytes go beyond the header and the current chunk. */
    function Beyond(n: nat): nat {
      var h := Min(n, |header|);
      var p := Min(n - h, |prefix|);
      var b := Min(n - h - p, |body|);
      n - h - p - b - Min(n - h - p - b, |suffix|)
    }

    /** The outbox after the kernel took n bytes of what was offered. */
    function Advance(n: nat): Outbox {
      var h := Min(n, |header|);
      var p := Min(n - h, |prefix|);
      var b := Min(n - h - p, |body|);
      var s := Min(n - h - p - b, |suffix|);
      var l := Min(n - h - p - b - s, |last|);
      Outbox(From(header, h), From(prefix, p), From(body, b), From(suffix, s), From(last, l))
    }
  }

  function AddChunk(chunks: seq<seq<byte>>, data: seq<byte>): seq<seq<byte>> {
    if data == [] then chunks else chunks + [data]
  }

  /** The body a client should receive for a finished script's output. */
  function Intended(output: seq<byte>): seq<byte> {
    FindEndBound(output, 0);
    match FindEnd(output, 0)
    case Some(k) => output[k..]
    case None => if output == [] then NO_OUTPUT else output
  }

  /** `body` is the output from its split point on, without the `lost` bytes
      that a header-phase read brought in beyond the header buffer. */
  ghost predicate Carries(output: seq<byte>, lost: nat, eof: bool, body: seq<byte>) {
    FindEndBound(output, 0);
    match FindEnd(output, 0)
    case Some(k) =>
      if lost == 0 then body == output[k..]
      else k <= HDR_CAP && HDR_CAP + lost <= |output| && body == output[k..HDR_CAP] + output[HDR_CAP + lost..]
    case None => lost == 0 && body == if eof then Intended(output) else []
  }

  /** The books of one relay: everything read from the pipe, the bytes a
      header-phase read brought in beyond the free header space, whether the pipe
      has ended, the chunks and the texts put around them, everything the client
      has been given, and what is queued for it. */
  datatype Ledger = Ledger(output: seq<byte>, lost: nat, eof: bool, chunks: seq<seq<byte>>,
                           header: seq<byte>, last: seq<byte>, sent: seq<byte>, out: Outbox)

  const NOTHING_QUEUED := Outbox([], [], [], [], [])

  /** The books while the header block is being collected. */
  function Collected(output: seq<byte>): Ledger {
    Ledger(output, 0, false, [], [], [], [], NOTHING_QUEUED)
  }

  /** The client has been given a prefix of header, chunks and final chunk, the
      rest is queued, and the chunks carry the output. */
  ghost predicate Sound(l: Ledger) {
    && l.sent + l.out.Pending() == l.header + (Encode(l.chunks) + l.last)
    && NoEmptyChunk(l.chunks)
    && Carries(l.output, l.lost, l.eof, Concat(l.chunks))
    && |l.out.last| <= |l.last| && (l.last == [] || (l.last == FINAL && l.eof && l.out.ChunkOut()))
  }

  /** Something of the reply is still to be sent. */
  predicate Unfinished(l: Ledger) {
    l.last == [] || l.out.Pending() != []
  }

  predicate Finished(l: Ledger) {
    l.eof && l.last == FINAL && l.out.Pending() == []
  }

  /** Books that are sound. */
  type Books = l: Ledger | Sound(l) ghost witness Collected([])

  /** The final chunk is queued only after the end of the pipe and behind every other chunk. */
  lemma FinalComesLast(l: Books)
    ensures |l.out.last| <= |l.last| && (l.last == [] || (l.last == FINAL && l.eof && l.out.ChunkOut()))
  {
  }

  lemma CollectedIsSound(output: seq<byte>)
    requires FindEnd(output, 0).None?
    ensures Sound(Collected(output))
  {
    assert Collected(output).out.Pending() == [];
    assert [] + [] == [] + (Encode([]) + []);
  }

  /** No size_t needs more than the prefix buffer holds. */
  lemma PrefixFits(n: nat)
    requires n < 0x1_0000_0000_0000_0000
    ensures |ChunkPrefix(n)| < PREFIX_CAP
  {
    assert Pow16(4) == 0x1_0000;
    assert Pow16(8) == 0x1_0000_0000;
    assert Pow16(12) == 0x1_0000_0000_0000;
    assert Pow16(16) == 0x1_0000_0000_0000_0000;
    HexLength(n, 16);
  }

  lemma CarriesFirst(output: seq<byte>, k: nat, n: nat)
    requires FindEnd(output, 0) == Some(k) && k <= n <= |output|
    requires n == |output| || n == HDR_CAP
    ensures Carries(output, |output| - n, false, output[k..n])
  {
    if n == |output| {
      assert output[k..n] == output[k..];
    } else {
      assert output[k..n] == output[k..HDR_CAP] + output[HDR_CAP + (|output| - n)..];
    }
  }

  lemma CarriesMore(output: seq<byte>, lost: nat, body: seq<byte>, data: seq<byte>)
    requires Carries(output, lost, false, body) && FindEnd(output, 0).Some?
    ensures Carries(output + data, lost, false, body + data)
  {
    SplitIsStable(output, data, 0);
    FindEndBound(output, 0);
    var k := FindEnd(output, 0).value;
    if lost == 0 {
      assert (output + data)[k..] == output[k..] + data;
    } else {
      assert (output + data)[k..HDR_CAP] == output[k..HDR_CAP];
      assert (output + data)[HDR_CAP + lost..] == output[HDR_CAP + lost..] + data;
    }
  }

  /** A finished relay delivers the intended body exactly when nothing was lost. */
  lemma LossIsExact(output: seq<byte>, lost: nat, body: seq<byte>)
    requires Carries(output, lost, true, body)
    ensures body == Intended(output) <==> lost == 0
  {
    FindEndBound(output, 0);
    if lost > 0 {
      assert |body| + lost == |Intended(output)|;
    }
  }

  lemma ChunkPendingOnly(o: Outbox, data: seq<byte>)
    requires o.ChunkOut() && o.last == [] && data != []
    ensures o.Pending() == o.header && o.WithChunk(data).Pending() == o.header + EncodeChunk(data)
  {
    assert CRLF + o.last == CRLF;
    assert ChunkPrefix(|data|) + (data + CRLF) == EncodeChunk(data);
  }

  lemma Reassociate(sent: seq<byte>, left: seq<byte>, header: seq<byte>, coded: seq<byte>, more: seq<byte>)
    requires sent + left == header + (coded + [])
    ensures sent + (left + more) == header + ((coded + more) + [])
  {
    assert sent + (left + more) == (sent + left) + more;
  }

  /** Queueing a chunk extends what is pending and what belongs on the wire alike. */
  lemma QueueKeepsWire(chunks: seq<seq<byte>>, header: seq<byte>, sent: seq<byte>, o: Outbox, data: seq<byte>)
    requires o.ChunkOut() && o.last == []
    requires sent + o.Pending() == header + (Encode(chunks) + [])
    ensures sent + o.WithChunk(data).Pending() == header + (Encode(AddChunk(chunks, data)) + [])
    ensures Concat(AddChunk(chunks, data)) == Concat(chunks) + data
  {
    if data == [] {
      assert Concat(chunks) == Concat(chunks) + data;
    } else {
      EncodeSnoc(chunks, data);
      ChunkPendingOnly(o, data);
      Reassociate(sent, o.header, header, Encode(chunks), EncodeChunk(data));
    }
  }

  lemma BeginWith(header: seq<byte>, body: seq<byte>)
    ensures [] + Outbox(header, [], [], [], []).WithChunk(body).Pending() ==
            header + (Encode(AddChunk([], body)) + [])
    ensures NoEmptyChunk(AddChunk([], body)) && Concat(AddChunk([], body)) == body
  {
    var o := Outbox(header, [], [], [], []);
    assert [] + o.Pending() == header + (Encode([]) + []);
    QueueKeepsWire([], header, [], o, body);
    assert Concat([]) + body == body;
  }

  /** The split point is at k and n header-phase bytes were kept: output[k..n] is the first chunk. */
  lemma BeginRelaying(output: seq<byte>, k: nat, n: nat, header: seq<byte>) returns (l: Books)
    requires FindEnd(output, 0) == Some(k) && k <= n <= |output| && n <= HDR_CAP
    requires n == |output| || n == HDR_CAP
    ensures l == Ledger(output, |output| - n, false, AddChunk([], output[k..n]), header, [], [],
                        Outbox(header, [], [], [], []).WithChunk(output[k..n]))
  {
    BeginWith(header, output[k..n]);
    CarriesFirst(output, k, n);
    l := Ledger(output, |output| - n, false, AddChunk([], output[k..n]), header, [], [],
                Outbox(header, [], [], [], []).WithChunk(output[k..n]));
  }

  /** The pipe ended before a blank line: the whole output, or a fixed message, is the body. */
  lemma BeginWithoutHeader(output: seq<byte>, header: seq<byte>) returns (l: Books)
    requires FindEnd(output, 0).None?
    ensures l == Ledger(output, 0, true, AddChunk([], Intended(output)), header, [], [],
                        Outbox(header, [], [], [], []).WithChunk(Intended(output)))
  {
    BeginWith(header, Intended(output));
    l := Ledger(output, 0, true, AddChunk([], Intended(output)), header, [], [],
                Outbox(header, [], [], [], []).WithChunk(Intended(output)));
  }

  lemma RelayMore(l: Books, data: seq<byte>) returns (m: Books)
    requires FindEnd(l.output, 0).Some? && !l.eof && l.out.ChunkOut()
    ensures m == l.(output := l.output + data, chunks := AddChunk(l.chunks, data), out := l.out.WithChunk(data))
    ensures FindEnd(m.output, 0).Some?
  {
    QueueKeepsWire(l.chunks, l.header, l.sent, l.out, data);
    CarriesMore(l.output, l.lost, Concat(l.chunks), data);
    SplitIsStable(l.output, data, 0);
    m := l.(output := l.output + data, chunks := AddChunk(l.chunks, data), out := l.out.WithChunk(data));
  }

  /** Once the chunks are out and the pipe has ended, the final chunk may be queued. */
  lemma QueueFinal(l: Books) returns (m: Books)
    requires l.out.ChunkOut() && l.last == [] && (l.eof || FindEnd(l.output, 0).Some?)
    ensures m == l.(eof := true, last := FINAL, out := l.out.(last := FINAL))
  {
    FinalKeepsWire(l);
    m := l.(eof := true, last := FINAL, out := l.out.(last := FINAL));
  }

  lemma FinalKeepsWire(l: Books)
    requires l.last == []
    ensures l.sent + l.out.(last := FINAL).Pending() == l.header + (Encode(l.chunks) + FINAL)
  {
    hide Encode;
    var o := l.out;
    assert o.(last := FINAL).Pending() == o.Pending() + FINAL;
    assert l.sent + (o.Pending() + FINAL) == (l.sent + o.Pending()) + FINAL;
    assert (l.header + (Encode(l.chunks) + [])) + FINAL == l.header + (Encode(l.chunks) + FINAL);
  }

  lemma AdvanceHeaderOnly(o: Outbox, n: nat)
    ensures n <= |o.header| || (o.prefix == [] && o.body == [] && o.suffix == []) ==>
              var a := o.Advance(n);
              a.prefix == o.prefix && a.body == o.body && a.suffix == o.suffix && o.Beyond(n) == n - Min(n, |o.header|)
  {
  }

  lemma PendingLength(o: Outbox)
    ensures |o.Pending()| == |o.header| + |o.prefix| + |o.body| + |o.suffix| + |o.last|
  {
  }

  /** What is pending after the kernel took n bytes is exactly what was pending beyond them. */
  lemma AdvanceDrains(o: Outbox, n: nat)
    requires n <= |o.Pending()|
    ensures o.Advance(n).Pending() == From(o.Pending(), n)
  {
    hide From;
    var h := Min(n, |o.header|);
    var p := Min(n - h, |o.prefix|);
    FromConcat(o.header, o.prefix + (o.body + (o.suffix + o.last)), n);
    FromConcat(o.prefix, o.body + (o.suffix + o.last), n - h);
    AdvanceTail(o.body, o.suffix, o.last, n - h - p);
  }

  lemma AdvanceTail(body: seq<byte>, suffix: seq<byte>, last: seq<byte>, n: nat)
    requires n <= |body| + |suffix| + |last|
    ensures var b := Min(n, |body|);
            var s := Min(n - b, |suffix|);
            From(body + (suffix + last), n) == From(body, b) + (From(suffix, s) + From(last, n - b - s))
  {
    FromConcat(body, suffix + last, n);
    FromConcat(suffix, last, n - Min(n, |body|));
  }

  /** Sending moves bytes from the outbox to the client and changes nothing else. */
  lemma Drain(l: Books, n: nat) returns (m: Books)
    requires n <= |l.out.Pending()|
    ensures m == l.(sent := l.sent + l.out.Pending()[..n], out := l.out.Advance(n))
  {
    AdvanceDrains(l.out, n);
    var all := l.out.Pending();
    assert (l.sent + all[..n]) + From(all, n) == l.sent + all;
    m := l.(sent := l.sent + all[..n], out := l.out.Advance(n));
  }

  /** At every moment the client holds a prefix of header, chunks and final chunk. */
  lemma SentIsPrefix(l: Books)
    ensures l.sent <= l.header + (Encode(l.chunks) + FINAL)
  {
    var now := l.header + (Encode(l.chunks) + l.last);
    assert l.sent == now[..|l.sent|];
    assert now <= l.header + (Encode(l.chunks) + FINAL);
  }

  /** With nothing pending after the final chunk, the client holds the whole
      reply: the bytes behind the header decode to the body, with nothing left
      over, and the body is the intended one exactly when no byte was lost. */
  lemma RelayComplete(l: Books)
    requires l.last == FINAL && l.out.Pending() == []
    ensures l.header <= l.sent && Decode(l.sent[|l.header|..]) == Some((Concat(l.chunks), []))
    ensures Concat(l.chunks) == Intended(l.output) <==> l.lost == 0
  {
    assert l.sent == l.header + (Encode(l.chunks) + FINAL);
    DecodeOfEncode(l.chunks, []);
    assert Encode(l.chunks) + FINAL + [] == Encode(l.chunks) + FINAL;
    LossIsExact(l.output, l.lost, Concat(l.chunks));
  }

  /** Until then the client holds a proper prefix, which no decoder takes for a complete reply. */
  lemma RelayIncomplete(l: Books)
    requires l.header <= l.sent && Unfinished(l)
    ensures Decode(l.sent[|l.header|..]) == None
  {
    var full := l.header + (Encode(l.chunks) + FINAL);
    var cut := |l.sent| - |l.header|;
    assert l.sent == full[..|l.sent|] by {
      var now := l.header + (Encode(l.chunks) + l.last);
      assert l.sent == now[..|l.sent|] && now == full[..|now|];
    }
    assert l.sent[|l.header|..] == (Encode(l.chunks) + FINAL)[..cut];
    CutTransferIsIncomplete(l.chunks, cut);
  }
}
