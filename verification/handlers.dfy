/** What the worker knows of a connection, read off the objects its handlers
    work on: each handler moves its object as the worker's table of moves says,
    so the outcomes the worker is given are those the handlers produce. */
module Handlers {
  import opened Bytes
  import opened Kernel
  import opened Registry
  import opened Worker
  import CgiRelay
  import CgiWire
  import HttpConn
  import ResponseWriter

  /** A connection whose reply comes from a script, as the worker sees it. */
  function View(relay: CgiRelay.Relay): Conn
    reads relay
  {
    Conn(if relay.connArmed then Out else Off,
         if !relay.pipeOpen then NoPipe else if relay.pipeArmed then Armed else Fired,
         true, relay.body.text != [], None)
  }

  /** A connection in a handler, before a script is started for it. */
  const PLAIN := Conn(Off, NoPipe, false, false, None)

  /** Between handlers one registration is armed, and the pipe only with no chunk waiting. */
  lemma ViewAtRest(relay: CgiRelay.Relay)
    requires relay.Valid()
    ensures View(relay).Shape() && View(relay).Registrations() == 1
  {
  }

  /** The relay is left as a move says; scripts have the request timeout. */
  ghost predicate LeftAs(relay: CgiRelay.Relay, m: Move)
    reads relay
  {
    match m
    case Ends => !relay.open && !relay.timer && !relay.connArmed && !relay.pipeArmed && !relay.pipeOpen
    case Waits(c, keepAlive) => relay.Valid() && relay.timer && View(relay) == c && !keepAlive
  }

  function PipeOutcomeOf(exit: CgiRelay.StdoutExit, eof: bool): PipeOutcome {
    match exit
    case StdoutClosed => PipeFatal
    case AwaitPipe => PipeEmpty
    case AwaitClient => if eof then EndQueued else ChunkQueued
  }

  function SendOutcomeOf(exit: CgiRelay.WriteExit): ResponseWriter.WriteResult {
    match exit
    case AwaitWritable => ResponseWriter.Blocked
    case AwaitCgi | WriteDone => ResponseWriter.Complete
    case WriteClosed => ResponseWriter.Broken
  }

  /** A request that starts a script. */
  method StartScript(headerFor: seq<byte> -> Option<seq<byte>>, plainHeader: Option<seq<byte>>,
                     failHeader: Option<seq<byte>>, outLimit: nat) returns (relay: CgiRelay.Relay)
    ensures fresh(relay) && LeftAs(relay, RequestMove(PLAIN, DEFAULT.(request := HttpConn.AwaitScript)))
  {
    relay := new CgiRelay.Relay(headerFor, plainHeader, failHeader, outLimit);
  }

  /** The event of a script's pipe. */
  method OnStdoutReady(relay: CgiRelay.Relay, input: seq<ReadAnswer>) returns (o: Outcome)
    requires relay.Valid() && relay.pipeArmed
    modifies relay
    ensures LeftAs(relay, StdoutMove(old(View(relay)).(pipe := Fired), o))
    ensures o.pipe == PipeFatal <==> !relay.open
    ensures o.pipe == EndQueued <==> relay.open && relay.eof
    ensures relay.open ==> (o.chunk <==> relay.body.text != [])
  {
    hide CgiRelay.Relay.Consistent, CgiRelay.Relay.PipeMoves, CgiWire.Unfinished;
    var exit, used := relay.OnStdoutReady(input);
    if relay.open { PipeIsBooked(relay); }
    o := DEFAULT.(pipe := PipeOutcomeOf(exit, relay.eof), chunk := |relay.body.text| > 0);
  }

  /** The write event of a script's client. */
  method OnWriteEvent(relay: CgiRelay.Relay, room: seq<WriteAnswer>) returns (o: Outcome)
    requires relay.Valid() && relay.connArmed
    modifies relay
    ensures LeftAs(relay, WriteMove(old(View(relay)).(sock := Off), o))
    ensures relay.Complete() <==> o.send == ResponseWriter.Complete && !relay.open
    ensures relay.open ==> (o.chunk <==> relay.body.text != [])
  {
    hide CgiRelay.Relay.Consistent;
    PipeIsBooked(relay);
    var exit, used := relay.OnWriteEvent(room);
    if relay.open { PipeIsBooked(relay); }
    o := DEFAULT.(send := SendOutcomeOf(exit), chunk := |relay.body.text| > 0);
  }

  lemma PipeIsBooked(relay: CgiRelay.Relay)
    requires relay.Valid()
    ensures relay.eof == relay.books.eof && relay.pipeOpen == !relay.eof
  {
  }

  /** The write event of a static reply: the socket is armed for writing exactly
      while a reply is under way, and for reading, under the keep-alive timeout,
      once every reply asked for has been delivered. */
  method DoWrite(writer: ResponseWriter.Writer, room: seq<WriteAnswer>, disk: seq<ResponseWriter.FileAnswer>)
    returns (o: Outcome)
    requires writer.Valid() && writer.open && writer.writing
    modifies writer
    ensures match WriteMove(PLAIN, o)
            case Ends => !writer.open
            case Waits(c, keepAlive) =>
              && writer.open && writer.Valid() && c.Shape() && c.Registrations() == 1
              && (c.sock == Out <==> writer.writing) && (c.sock == In <==> writer.Idle()) && (keepAlive <==> c.sock == In)
  {
    var result, w, f := writer.TrySend(room, disk);
    var keep := writer.keepAlive;
    ghost var cut;
    var exit;
    exit, cut := writer.Settle(result);
    o := DEFAULT.(send := result, keepAlive := keep);
  }

  /** The read event of a connection.  It is closed exactly if the request loop
      says so; the socket is armed for reading exactly if the loop waits for input,
      with every complete request handled, and for writing exactly if a reply has
      to wait; the pipe is armed exactly if a script was started.  The keep-alive
      timeout is set exactly if the loop waits for input and no byte of a further
      request has arrived. */
  method DoRequest(connection: HttpConn.Connection, input: seq<ReadAnswer>, verdicts: seq<HttpConn.Verdict>)
    returns (o: Outcome, exit: HttpConn.RequestExit, served: nat, ghost pieces: seq<seq<byte>>)
    requires connection.Valid()
    modifies connection, connection.buf
    ensures HttpConn.PiecesOf(pieces, input, old(connection.stream), connection.first)
    ensures |connection.handled| == |old(connection.handled)| + served && connection.InOrder()
    ensures forall k :: 0 <= k < served - 1 ==> HttpConn.VerdictAt(verdicts, k) == HttpConn.Answered(true)
    ensures served > 0 && HttpConn.VerdictAt(verdicts, served - 1) == HttpConn.Answered(false) ==> exit == HttpConn.Closed
    ensures served > 0 && HttpConn.VerdictAt(verdicts, served - 1) == HttpConn.Stalled ==> exit == HttpConn.AwaitWrite
    ensures served > 0 && HttpConn.VerdictAt(verdicts, served - 1) == HttpConn.ScriptStarted ==> exit == HttpConn.AwaitScript
    ensures exit == HttpConn.AwaitRead ==>
              connection.Valid() && connection.AllHandled() && NextRead(input, |pieces|).ReadWouldBlock?
    ensures RequestMove(PLAIN, o).Ends? <==> exit == HttpConn.Closed
    ensures match RequestMove(PLAIN, o)
            case Ends => true
            case Waits(c, keepAlive) =>
              && c.Shape() && c.Registrations() == 1
              && (c.sock == In <==> exit == HttpConn.AwaitRead)
              && (c.sock == Out <==> exit == HttpConn.AwaitWrite || exit == HttpConn.AwaitLastWrite)
              && (c.cgi && c.pipe == Armed <==> exit == HttpConn.AwaitScript)
              && (keepAlive <==> exit == HttpConn.AwaitRead && connection.last == 0 && connection.parser.phase == 0)
              && (keepAlive ==> connection.taken == connection.stream)
  {
    hide HttpConn.PiecesOf, HttpConn.Connection.AllHandled, HttpConn.ExitFor,
         HttpConn.Connection.Valid, HttpConn.Connection.Window, HttpConn.Connection.InOrder;
    var inFlight;
    exit, inFlight, served, pieces := connection.DoRequest(input, verdicts);
    if connection.last == 0 { connection.EmptyWindow(); }
    o := DEFAULT.(request := exit, inFlight := inFlight);
  }
}
