/** The resumable writer of static replies: header and body through writev,
    then a file through sendfile. */
module ResponseWriter {
  import opened Bytes
  import opened Kernel

  /** What sendfile answers; `Moved(0)` is its end-of-file report. */
  datatype FileAnswer = Moved(n: nat) | FileInterrupted | FileWouldBlock | FileFailed

  datatype WriteResult = Complete | Blocked | Broken

  datatype Reply = Reply(header: seq<byte>, body: seq<byte>, file: Option<seq<byte>>, size: nat)

  /** How a step leaves the connection. */
  datatype SendExit = ReplyOut | AwaitWritable | ConnectionClosed

  datatype SendEvent =
    | Answer(reply: Reply, keep: bool, room: seq<WriteAnswer>, disk: seq<FileAnswer>)
    | Writable(room: seq<WriteAnswer>, disk: seq<FileAnswer>)

  function NextMove(script: seq<FileAnswer>, i: nat): FileAnswer {
    if i < |script| then script[i] else FileWouldBlock
  }

  /** What sendfile can deliver of a reply's file: a file that has shrunk since
      its size was taken ends early. */
  function FileText(r: Reply): seq<byte> {
    if r.file.Some? then r.file.value[..Min(r.size, |r.file.value|)] else []
  }

  function Head(r: Reply): seq<byte> {
    r.header + r.body
  }

  function Text(r: Reply): seq<byte> {
    r.header + (r.body + FileText(r))
  }

  function Texts(rs: seq<Reply>): seq<byte> {
    if rs == [] then [] else Texts(rs[..|rs| - 1]) + Text(rs[|rs| - 1])
  }

  lemma TextsSnoc(rs: seq<Reply>, r: Reply)
    ensures Texts(rs + [r]) == Texts(rs) + Text(r)
  {
    assert (rs + [r])[..|rs|] == rs;
  }

  /** How many bytes the first n answers take or move. */
  function Taken(room: seq<WriteAnswer>, n: nat): nat {
    if n == 0 then 0 else Taken(room, n - 1) + match NextWrite(room, n - 1) case Took(k) => k case _ => 0
  }

  function MovedBy(disk: seq<FileAnswer>, n: nat): nat {
    if n == 0 then 0 else MovedBy(disk, n - 1) + match NextMove(disk, n - 1) case Moved(k) => k case _ => 0
  }

  /** A writer between two events: `head` counts the bytes of header and body
      sent, `offset` those of the file. */
  datatype Moment = Moment(open: bool, writing: bool, keep: bool, reply: Reply, head: nat, offset: nat,
                           earlier: seq<Reply>, delivered: seq<byte>)

  /** With h bytes of header and body out, this answer is followed by another writev. */
  predicate HeadGoesOn(r: Reply, h: nat, answer: WriteAnswer) {
    h < |Head(r)| && (answer.WriteInterrupted? || (answer.Took? && answer.n > 0))
  }

  /** With o bytes of the file out, this answer is followed by another sendfile. */
  predicate FileGoesOn(r: Reply, o: nat, answer: FileAnswer) {
    r.file.Some? && o < r.size && (answer.FileInterrupted? || (answer.Moved? && answer.n > 0 && o < |FileText(r)|))
  }

  function HeadAfter(r: Reply, head: nat, room: seq<WriteAnswer>, w: nat): nat {
    Min(head + Taken(room, w), |Head(r)|)
  }

  function FileAfter(r: Reply, offset: nat, disk: seq<FileAnswer>, f: nat): nat {
    Min(offset + MovedBy(disk, f), |FileText(r)|)
  }

  /** The writev loop stops at the answer number w. */
  ghost predicate HeadStopsAt(r: Reply, head: nat, room: seq<WriteAnswer>, w: nat) {
    && HeadPasses(r, head, room, w)
    && !HeadGoesOn(r, HeadAfter(r, head, room, w), NextWrite(room, w))
  }

  ghost predicate HeadPasses(r: Reply, head: nat, room: seq<WriteAnswer>, w: nat) {
    forall i: nat :: i < w ==> HeadGoesOn(r, HeadAfter(r, head, room, i), NextWrite(room, i))
  }

  lemma HeadAfterMeans(r: Reply, head: nat, room: seq<WriteAnswer>)
    ensures forall k: nat :: HeadAfter(r, head, room, k) == Min(head + Taken(room, k), |r.header| + |r.body|)
  {
  }

  lemma FileAfterMeans(r: Reply, offset: nat, disk: seq<FileAnswer>)
    ensures r.file.Some? ==>
              forall k: nat :: FileAfter(r, offset, disk, k) == Min(offset + MovedBy(disk, k), Min(r.size, |r.file.value|))
  {
  }

  lemma HeadPassesNone(r: Reply, head: nat, room: seq<WriteAnswer>)
    ensures HeadPasses(r, head, room, 0) && HeadAfter(r, head, room, 0) == Min(head, |Head(r)|)
  {
  }

  lemma HeadPassesOneMore(r: Reply, head: nat, room: seq<WriteAnswer>, w: nat)
    requires HeadPasses(r, head, room, w) && HeadGoesOn(r, HeadAfter(r, head, room, w), NextWrite(room, w))
    ensures HeadPasses(r, head, room, w + 1)
    ensures HeadAfter(r, head, room, w + 1) ==
            Min(HeadAfter(r, head, room, w) + (match NextWrite(room, w) case Took(n) => n case _ => 0), |Head(r)|)
  {
    hide HeadAfter, HeadGoesOn, Head;
    HeadAfterOneMore(r, head, room, w);
  }

  lemma HeadAfterOneMore(r: Reply, head: nat, room: seq<WriteAnswer>, w: nat)
    ensures HeadAfter(r, head, room, w + 1) ==
            Min(HeadAfter(r, head, room, w) + (match NextWrite(room, w) case Took(n) => n case _ => 0), |Head(r)|)
  {
    hide Head;
  }

  lemma FilePassesNone(r: Reply, offset: nat, disk: seq<FileAnswer>)
    ensures FilePasses(r, offset, disk, 0) && FileAfter(r, offset, disk, 0) == Min(offset, |FileText(r)|)
  {
  }

  lemma FilePassesOneMore(r: Reply, offset: nat, disk: seq<FileAnswer>, f: nat)
    requires FilePasses(r, offset, disk, f) && FileGoesOn(r, FileAfter(r, offset, disk, f), NextMove(disk, f))
    ensures FilePasses(r, offset, disk, f + 1)
    ensures FileAfter(r, offset, disk, f + 1) ==
            Min(FileAfter(r, offset, disk, f) + (match NextMove(disk, f) case Moved(n) => n case _ => 0), |FileText(r)|)
  {
    hide FileAfter, FileGoesOn, FileText;
    FileAfterOneMore(r, offset, disk, f);
  }

  lemma FileAfterOneMore(r: Reply, offset: nat, disk: seq<FileAnswer>, f: nat)
    ensures FileAfter(r, offset, disk, f + 1) ==
            Min(FileAfter(r, offset, disk, f) + (match NextMove(disk, f) case Moved(n) => n case _ => 0), |FileText(r)|)
  {
    hide FileText;
  }

  /** The sendfile loop stops at the answer number f. */
  ghost predicate FileStopsAt(r: Reply, offset: nat, disk: seq<FileAnswer>, f: nat) {
    && FilePasses(r, offset, disk, f)
    && !FileGoesOn(r, FileAfter(r, offset, disk, f), NextMove(disk, f))
  }

  ghost predicate FilePasses(r: Reply, offset: nat, disk: seq<FileAnswer>, f: nat) {
    forall i: nat :: i < f ==> FileGoesOn(r, FileAfter(r, offset, disk, i), NextMove(disk, i))
  }

  /** w and f are the answers at which sending stops; no file is sent before header and body are out. */
  ghost predicate StopsAt(r: Reply, head: nat, offset: nat, room: seq<WriteAnswer>, w: nat,
                          disk: seq<FileAnswer>, f: nat) {
    && HeadStopsAt(r, head, room, w)
    && if HeadAfter(r, head, room, w) < |Head(r)| then f == 0 else FileStopsAt(r, offset, disk, f)
  }

  /** What sending comes to when it stops with h and o bytes out. */
  function ResultAt(r: Reply, h: nat, o: nat, written: WriteAnswer, moved: FileAnswer): WriteResult {
    if h < |Head(r)| then if written.WriteWouldBlock? then Blocked else Broken
    else FileResultAt(r, o, moved)
  }

  function FileResultAt(r: Reply, o: nat, moved: FileAnswer): WriteResult {
    if r.file.None? || o == r.size then Complete
    else if moved.FileWouldBlock? then Blocked
    else if moved.FileFailed? then Broken
    else Complete
  }

  /** The writer after its reply has been sent on up to the answers w and f. */
  function SentOn(m: Moment, room: seq<WriteAnswer>, w: nat, disk: seq<FileAnswer>, f: nat): Moment {
    var h, o := HeadAfter(m.reply, m.head, room, w), FileAfter(m.reply, m.offset, disk, f);
    var delivered := Texts(m.earlier) + Text(m.reply)[..Min(h + o, |Text(m.reply)|)];
    match ResultAt(m.reply, h, o, NextWrite(room, w), NextMove(disk, f))
    case Blocked => m.(writing := true, head := h, offset := o, delivered := delivered)
    case Broken => Moment(false, false, m.keep, NO_REPLY, 0, 0, m.earlier, delivered)
    case Complete => Moment(m.keep, false, m.keep, NO_REPLY, 0, 0, m.earlier + [AsSeen(m.reply, o)], delivered)
  }

  /** A reply as the client gets it: cut where sendfile reported the end of the file. */
  function AsSeen(r: Reply, offset: nat): Reply
    requires offset <= |FileText(r)|
  {
    if r.file.Some? then CutAt(r, offset) else r
  }

  /** One event: a reply is accepted when none is under way, a write event
      delivered when one is. */
  ghost predicate Moves(m: Moment, e: SendEvent, w: nat, f: nat, n: Moment) {
    match e
    case Answer(r, keep, room, disk) =>
      if Accepts(m, e)
      then StopsAt(r, 0, 0, room, w, disk, f) && n == SentOn(m.(reply := r, keep := keep, head := 0, offset := 0), room, w, disk, f)
      else n == m
    case Writable(room, disk) =>
      if m.open && m.writing
      then StopsAt(m.reply, m.head, m.offset, room, w, disk, f) && n == SentOn(m, room, w, disk, f)
      else n == m
  }

  predicate Accepts(m: Moment, e: SendEvent) {
    m.open && !m.writing && e.Answer?
  }

  /** The first n events of a run, one by one. */
  ghost predicate IsTrace(events: seq<SendEvent>, reached: seq<(nat, nat)>, trace: seq<Moment>) {
    && |reached| <= |events| && |trace| == |reached| + 1
    && forall i :: 0 <= i < |reached| ==> Moves(trace[i], events[i], reached[i].0, reached[i].1, trace[i + 1])
  }

  /** The replies of the accepted answers among the first n events, in order. */
  ghost function Asked(events: seq<SendEvent>, trace: seq<Moment>, n: nat): seq<Reply>
    requires n <= |events| && n <= |trace|
  {
    if n == 0 then [] else
      Asked(events, trace, n - 1) + if Accepts(trace[n - 1], events[n - 1]) then [events[n - 1].reply] else []
  }

  /** What an event that finishes a reply, or closes the connection without
      finishing one, says of the answers it reached. */
  lemma MoveMeans(m: Moment, e: SendEvent, w: nat, f: nat, n: Moment)
    requires Moves(m, e, w, f, n)
    ensures |m.earlier| < |n.earlier| ==>
              var r := if e.Answer? then e.reply else m.reply;
              var seen := n.earlier[|n.earlier| - 1];
              && n.open == n.keep && n.keep == (if e.Answer? then e.keep else m.keep) && n.earlier == m.earlier + [seen]
              && if r.file.None? then seen == r
                 else && seen.file.Some? && seen == r.(file := seen.file) && seen.file.value <= r.file.value
                      && (|seen.file.value| == r.size || NextMove(e.disk, f) == Moved(0) ||
                          (NextMove(e.disk, f).Moved? && seen.file.value == r.file.value))
    ensures m.open && (if e.Answer? then !m.writing else m.writing) ==>
              || !n.open || |m.earlier| < |n.earlier|
              || (n.writing && n.reply == (if e.Answer? then e.reply else m.reply)
                  && (NextWrite(e.room, w).WriteWouldBlock? || NextMove(e.disk, f).FileWouldBlock?))
    ensures m.open && !n.open && |n.earlier| <= |m.earlier| ==>
              NextWrite(e.room, w) in {WriteFailed, Took(0)} || NextMove(e.disk, f) == FileFailed
  {
    hide Texts, Text, SentOn, StopsAt;
    if m.open && !m.writing && e.Answer? {
      var r := m.(reply := e.reply, keep := e.keep, head := 0, offset := 0);
      SentOnMeans(r, e.room, w, e.disk, f, n);
    } else if m.open && m.writing && e.Writable? {
      SentOnMeans(m, e.room, w, e.disk, f, n);
    }
  }

  lemma SentOnMeans(m: Moment, room: seq<WriteAnswer>, w: nat, disk: seq<FileAnswer>, f: nat, n: Moment)
    requires StopsAt(m.reply, m.head, m.offset, room, w, disk, f) && n == SentOn(m, room, w, disk, f)
    ensures |m.earlier| < |n.earlier| ==>
              var seen := n.earlier[|n.earlier| - 1];
              && n.open == n.keep && n.keep == m.keep && n.earlier == m.earlier + [seen]
              && if m.reply.file.None? then seen == m.reply
                 else && seen.file.Some? && seen == m.reply.(file := seen.file) && seen.file.value <= m.reply.file.value
                      && (|seen.file.value| == m.reply.size || NextMove(disk, f) == Moved(0) ||
                          (NextMove(disk, f).Moved? && seen.file.value == m.reply.file.value))
    ensures !n.open || |m.earlier| < |n.earlier| ||
            (n.writing && n.reply == m.reply && (NextWrite(room, w).WriteWouldBlock? || NextMove(disk, f).FileWouldBlock?))
    ensures m.open && !n.open && |n.earlier| <= |m.earlier| ==>
              NextWrite(room, w) in {WriteFailed, Took(0)} || NextMove(disk, f) == FileFailed
  {
    hide Texts, Text, Taken, MovedBy, HeadPasses, FilePasses, Head;
    if m.reply.file.Some? {
      var o, x := FileAfter(m.reply, m.offset, disk, f), m.reply.file.value;
      assert FileText(m.reply)[..o] == x[..o] && x[..|x|] == x;
    }
  }

  lemma OneEventMore(events: seq<SendEvent>, reached: seq<(nat, nat)>, trace: seq<Moment>, w: nat, f: nat, n: Moment)
    requires IsTrace(events, reached, trace) && |reached| < |events|
    requires Moves(trace[|reached|], events[|reached|], w, f, n)
    ensures IsTrace(events, reached + [(w, f)], trace + [n])
  {
    hide Moves;
  }

  lemma {:induction false} AskedBefore(events: seq<SendEvent>, trace: seq<Moment>, m: Moment, n: nat)
    requires n <= |events| && n <= |trace|
    ensures Asked(events, trace + [m], n) == Asked(events, trace, n)
  {
    if n > 0 { AskedBefore(events, trace, m, n - 1); }
  }

  const NO_REPLY := Reply([], [], None, 0)

  /** Moving the first n bytes of x from what is left to what is delivered. */
  lemma MoveBytes(d: seq<byte>, x: seq<byte>, y: seq<byte>, n: nat)
    requires n <= |x|
    ensures (d + x[..n]) + (From(x, n) + y) == d + (x + y)
  {
    assert x[..n] + From(x, n) == x;
  }

  lemma PrefixOfPrefix(x: seq<byte>, n: nat, k: nat)
    requires k <= n <= |x|
    ensures x[..n][..k] == x[..k]
  {
  }

  lemma NoText()
    ensures Text(NO_REPLY) == []
  {
  }

  class Writer {
    var open: bool
    var writing: bool
    var header: Piece
    var body: Piece
    var fileOpen: bool
    var fileOffset: nat
    var fileSize: nat

    /** The current reply with the file behind its descriptor. */
    var reply: Reply
    var keepAlive: bool

    /** The replies completed before it, as sendfile saw their files, and everything delivered. */
    ghost var earlier: seq<Reply>
    ghost var delivered: seq<byte>

    ghost predicate Counters()
      reads `header, `body, `fileOpen, `fileOffset, `fileSize, `reply
    {
      && header.Ok() && body.Ok() && header.text == reply.header && body.text == reply.body
      && fileOpen == reply.file.Some? && fileSize == reply.size
      && fileOffset <= |FileText(reply)|
    }

    ghost function Left(): seq<byte>
      reads `header, `body, `fileOpen, `fileOffset, `fileSize, `reply
      requires Counters()
    {
      header.Rest() + (body.Rest() + From(FileText(reply), fileOffset))
    }

    /** What is delivered, followed by what is left, is every reply so far in full. */
    ghost predicate Valid()
      reads `header, `body, `fileOpen, `fileOffset, `fileSize, `reply, `earlier, `delivered
    {
      Counters() && delivered + Left() == Texts(earlier) + Text(reply)
    }

    ghost predicate HeadOut()
      reads this
    {
      header.sent == |header.text| && body.sent == |body.text|
    }

    constructor ()
      ensures Valid() && open && !writing && delivered == [] && earlier == []
    {
      open, writing, keepAlive := true, false, false;
      header, body, fileOpen, fileOffset, fileSize := Piece([], 0), Piece([], 0), false, 0, 0;
      reply, earlier, delivered := NO_REPLY, [], [];
    }

    /** Charges n bytes taken by a writev to the header and then to the body. */
    method SpendPieces(n: nat)
      requires header.Ok() && body.Ok() && n <= |header.Rest()| + |body.Rest()|
      modifies this`header, this`body
      ensures header.Ok() && body.Ok() && header.text == old(header.text) && body.text == old(body.text)
      ensures header.Rest() + body.Rest() == From(old(header.Rest()) + old(body.Rest()), n)
      ensures header.sent + body.sent == old(header.sent + body.sent) + n
    {
      var left := n;
      FromConcat(header.Rest(), body.Rest(), n);
      if header.sent < |header.text| {
        SendRest(header, left);
        var (piece, taken) := header.Send(left);
        header, left := piece, left - taken;
      }
      if left > 0 && body.sent < |body.text| {
        SendRest(body, left);
        var (piece, taken) := body.Send(left);
        body, left := piece, left - taken;
      }
    }

    /** The kernel took the first n bytes of what one writev offered. */
    method Spend(n: nat)
      requires Valid() && n <= |header.Rest()| + |body.Rest()|
      modifies this`header, this`body, this`delivered
      ensures Valid() && delivered == old(delivered) + (old(header.Rest()) + old(body.Rest()))[..n]
      ensures header.sent + body.sent == old(header.sent + body.sent) + n
    {
      ghost var x, file := header.Rest() + body.Rest(), From(FileText(reply), fileOffset);
      MoveBytes(delivered, x, file, n);
      Associative(header.Rest(), body.Rest(), file);
      delivered := delivered + x[..n];
      SpendPieces(n);
      Associative(header.Rest(), body.Rest(), file);
    }

    /** Sends header and body until both are out or the kernel takes no more. */
    method SendHead(room: seq<WriteAnswer>) returns (result: WriteResult, used: nat)
      requires Valid()
      modifies this`header, this`body, this`delivered
      ensures Valid() && old(delivered) <= delivered
      ensures header.sent + body.sent == HeadAfter(reply, old(header.sent + body.sent), room, used)
      ensures header.sent + body.sent == Min(old(header.sent + body.sent) + Taken(room, used), |reply.header| + |reply.body|)
      ensures HeadStopsAt(reply, old(header.sent + body.sent), room, used)
      ensures result == Complete <==> HeadOut()
      ensures !HeadOut() ==> result == if NextWrite(room, used).WriteWouldBlock? then Blocked else Broken
      ensures result == Broken ==> NextWrite(room, used) in {WriteFailed, Took(0)}
      ensures forall i: nat :: i < used ==>
                NextWrite(room, i).WriteInterrupted? || (NextWrite(room, i).Took? && NextWrite(room, i).n > 0)
    {
      hide Valid, HeadAfter, HeadPasses, Head, Piece.Rest;
      used := 0;
      ghost var head := header.sent + body.sent;
      HeadCounts();
      HeadPassesNone(reply, head, room);
      HeadAfterMeans(reply, head, room);
      while header.sent < |header.text| || body.sent < |body.text|
        invariant Valid() && used <= |room| && old(delivered) <= delivered
        invariant header.Ok() && body.Ok() && |header.text| + |body.text| == |Head(reply)|
        invariant header.sent + body.sent == HeadAfter(reply, head, room, used) && HeadPasses(reply, head, room, used)
        invariant forall i: nat :: i < used ==>
                    NextWrite(room, i).WriteInterrupted? || (NextWrite(room, i).Took? && NextWrite(room, i).n > 0)
        decreases |room| - used
      {
        var answer := NextWrite(room, used);
        if used == |room| { return Blocked, used; }
        match answer {
          case Took(n) =>
            if n == 0 { return Broken, used; }
            HeadPassesOneMore(reply, head, room, used);
            HeadCounts();
            Spend(Min(n, |header.text| - header.sent + |body.text| - body.sent));
            HeadCounts();
          case WriteInterrupted =>
            HeadPassesOneMore(reply, head, room, used);
          case WriteWouldBlock => return Blocked, used;
          case WriteFailed => return Broken, used;
        }
        used := used + 1;
      }
      result := Complete;
    }

    lemma HeadCounts()
      requires Valid()
      ensures header.Ok() && body.Ok() && |header.text| + |body.text| == |Head(reply)|
      ensures |header.Rest()| + |body.Rest()| == |Head(reply)| - (header.sent + body.sent)
    {
    }

    /** One sendfile call moved n bytes of the file. */
    method MoveFile(n: nat)
      requires Valid() && HeadOut() && fileOffset + n <= |FileText(reply)|
      modifies this`fileOffset, this`delivered
      ensures Valid() && HeadOut() && fileOffset == old(fileOffset) + n
      ensures delivered == old(delivered) + From(FileText(reply), old(fileOffset))[..n]
    {
      hide Texts;
      ghost var file := From(FileText(reply), fileOffset);
      MoveBytes(delivered, file, [], n);
      assert Left() == file && file + [] == file && From(file, n) + [] == From(file, n);
      delivered := delivered + file[..n];
      fileOffset := fileOffset + n;
      assert Left() == From(file, n);
    }

    /** Sends the file until it is out, sendfile reports its end, or the kernel takes no more. */
    method SendFile(disk: seq<FileAnswer>) returns (result: WriteResult, used: nat)
      requires Valid() && HeadOut()
      modifies this`fileOffset, this`delivered
      ensures Valid() && HeadOut() && old(delivered) <= delivered
      ensures fileOffset == FileAfter(reply, old(fileOffset), disk, used)
      ensures reply.file.Some? ==>
                fileOffset == Min(old(fileOffset) + MovedBy(disk, used), Min(reply.size, |reply.file.value|))
      ensures FileStopsAt(reply, old(fileOffset), disk, used)
      ensures result == FileResultAt(reply, fileOffset, NextMove(disk, used))
      ensures result == Complete <==> reply.file.None? || fileOffset == reply.size || NextMove(disk, used).Moved?
      ensures result == Broken <==> reply.file.Some? && fileOffset != reply.size && NextMove(disk, used).FileFailed?
      ensures result == Complete && reply.file.Some? && fileOffset != reply.size ==>
                NextMove(disk, used) == Moved(0) || fileOffset == |reply.file.value|
      ensures forall i: nat :: i < used ==>
                NextMove(disk, i).FileInterrupted? || (NextMove(disk, i).Moved? && NextMove(disk, i).n > 0)
    {
      hide Valid, FileText, FileAfter, FilePasses;
      used := 0;
      ghost var offset := fileOffset;
      FileCounts();
      FilePassesNone(reply, offset, disk);
      FileAfterMeans(reply, offset, disk);
      while fileOpen && fileOffset < fileSize
        invariant Valid() && HeadOut() && used <= |disk| && old(delivered) <= delivered
        invariant fileOffset <= |FileText(reply)| && fileOpen == reply.file.Some? && fileSize == reply.size
        invariant fileOffset == FileAfter(reply, offset, disk, used) && FilePasses(reply, offset, disk, used)
        invariant forall i: nat :: i < used ==>
                    NextMove(disk, i).FileInterrupted? || (NextMove(disk, i).Moved? && NextMove(disk, i).n > 0)
        decreases |disk| - used
      {
        var answer := NextMove(disk, used);
        if used == |disk| { return Blocked, used; }
        match answer {
          case Moved(n) =>
            var moved := Min(n, |FileText(reply)| - fileOffset);
            if moved == 0 { return Complete, used; }
            FilePassesOneMore(reply, offset, disk, used);
            MoveFile(moved);
            FileCounts();
          case FileInterrupted =>
            FilePassesOneMore(reply, offset, disk, used);
          case FileWouldBlock => return Blocked, used;
          case FileFailed => return Broken, used;
        }
        used := used + 1;
      }
      result := Complete;
    }

    lemma FileCounts()
      requires Valid()
      ensures fileOffset <= |FileText(reply)| && fileOpen == reply.file.Some? && fileSize == reply.size
      ensures |FileText(reply)| <= reply.size && (reply.file.None? ==> FileText(reply) == [])
      ensures reply.file.Some? ==> |FileText(reply)| == Min(reply.size, |reply.file.value|)
    {
    }

    ghost function Seen(): Reply
      reads `header, `body, `fileOpen, `fileOffset, `fileSize, `reply
      requires Counters()
    {
      AsSeen(reply, fileOffset)
    }

    ghost function Now(): Moment
      reads this
    {
      Moment(open, writing, keepAlive, reply, header.sent + body.sent, fileOffset, earlier, delivered)
    }

    /** Sends what is left of the current reply, up to the answers w of writev
        and f of sendfile. */
    method TrySend(room: seq<WriteAnswer>, disk: seq<FileAnswer>) returns (result: WriteResult, w: nat, f: nat)
      requires Valid()
      modifies this`header, this`body, this`fileOffset, this`delivered
      ensures Valid() && old(delivered) <= delivered
      ensures header.sent + body.sent == HeadAfter(reply, old(header.sent + body.sent), room, w)
      ensures fileOffset == FileAfter(reply, old(fileOffset), disk, f)
      ensures StopsAt(reply, old(header.sent + body.sent), old(fileOffset), room, w, disk, f)
      ensures result == ResultAt(reply, header.sent + body.sent, fileOffset, NextWrite(room, w), NextMove(disk, f))
      ensures result == Complete ==> HeadOut()
      ensures result == Complete <==>
                HeadOut() && (reply.file.None? || fileOffset == reply.size || NextMove(disk, f).Moved?)
      ensures result == Complete && reply.file.Some? && fileOffset != reply.size ==>
                NextMove(disk, f) == Moved(0) || fileOffset == |reply.file.value|
      ensures result == Broken <==>
                if HeadOut() then reply.file.Some? && fileOffset != reply.size && NextMove(disk, f).FileFailed?
                else NextWrite(room, w) in {WriteFailed, Took(0)}
      ensures forall i: nat :: i < w ==>
                NextWrite(room, i).WriteInterrupted? || (NextWrite(room, i).Took? && NextWrite(room, i).n > 0)
      ensures forall i: nat :: i < f ==>
                NextMove(disk, i).FileInterrupted? || (NextMove(disk, i).Moved? && NextMove(disk, i).n > 0)
    {
      hide HeadStopsAt, FileStopsAt, FileText, Left;
      f := 0;
      FileCounts();
      result, w := SendHead(room);
      HeadCounts();
      if result == Complete {
        result, f := SendFile(disk);
      }
    }

    /** A finished reply, as seen, is exactly what its delivery added. */
    lemma FinishedIsSeen()
      requires Valid() && HeadOut()
      ensures delivered == Texts(earlier + [Seen()])
      ensures !fileOpen || fileOffset == fileSize ==> Text(Seen()) == Text(reply)
    {
      CutReply(delivered, Texts(earlier), reply.header, reply.body, FileText(reply), fileOffset);
      SeenFile(reply, fileOffset);
      TextsSnoc(earlier, Seen());
      if !fileOpen || fileOffset == fileSize {
        assert FileText(reply)[..fileOffset] == FileText(reply);
      }
    }

    /** That is its header, its body and the file as far as it was sent, in this order. */
    lemma FinishedInOrder()
      requires Valid() && HeadOut()
      ensures fileOpen ==> fileOffset <= |reply.file.value|
      ensures delivered == Texts(earlier) + header.text + body.text + if fileOpen then reply.file.value[..fileOffset] else []
    {
      FinishedIsSeen();
      TextsSnoc(earlier, Seen());
      SeenFile(reply, fileOffset);
      FileCounts();
      var file := FileText(Seen());
      if fileOpen { PrefixOfPrefix(reply.file.value, |FileText(reply)|, fileOffset); }
      assert file == if fileOpen then reply.file.value[..fileOffset] else [];
      assert Text(Seen()) == header.text + (body.text + file);
      hide Texts, Text, FileText;
      Associative(header.text, body.text, file);
      Associative(Texts(earlier), header.text + body.text, file);
      Associative(Texts(earlier), header.text, body.text);
    }

    /** Forgets the current reply. */
    method ResetOutput()
      requires Counters()
      modifies this`writing, this`header, this`body, this`fileOpen, this`fileOffset, this`fileSize, this`reply
      ensures Counters() && reply == NO_REPLY && !writing && Left() == []
      ensures header.sent + body.sent == 0 && fileOffset == 0
    {
      writing, reply := false, NO_REPLY;
      header, body, fileOpen, fileOffset, fileSize := Piece([], 0), Piece([], 0), false, 0, 0;
    }

    /** The current reply is out: it joins the earlier ones. */
    method Finish()
      requires Valid() && HeadOut()
      modifies this`writing, this`header, this`body, this`fileOpen, this`fileOffset, this`fileSize, this`reply,
               this`earlier
      ensures Valid() && reply == NO_REPLY && !writing && delivered == Texts(earlier)
      ensures earlier == old(earlier) + [old(Seen())] && header.sent + body.sent == 0 && fileOffset == 0
    {
      FinishedIsSeen();
      earlier := earlier + [Seen()];
      ResetOutput();
      assert delivered + [] == Texts(earlier) + Text(NO_REPLY);
    }

    /** Loads a reply; none may be under way. */
    method Prepare(r: Reply, keep: bool)
      requires Valid() && reply == NO_REPLY && Left() == []
      modifies this`header, this`body, this`fileOpen, this`fileOffset, this`fileSize, this`reply, this`keepAlive
      ensures Valid() && reply == r && keepAlive == keep && header.sent + body.sent == 0 && fileOffset == 0
    {
      assert delivered + [] == delivered && Texts(earlier) + Text(NO_REPLY) == Texts(earlier);
      reply, keepAlive := r, keep;
      header, body := Piece(r.header, 0), Piece(r.body, 0);
      fileOpen, fileOffset, fileSize := r.file.Some?, 0, r.size;
    }

    /** What TrySend came to: stay, finish the reply, or close.  The reply that
        was under way when the connection broke is `cut`. */
    method Settle(result: WriteResult) returns (exit: SendExit, ghost cut: Reply)
      requires Valid() && open && (result == Complete ==> HeadOut())
      modifies this
      ensures delivered == old(delivered)
      ensures result == Blocked ==> exit == AwaitWritable && open && writing && Valid()
      ensures result == Blocked ==> earlier == old(earlier) && reply == old(reply)
      ensures result == Complete ==> Valid() && !writing && delivered == Texts(earlier)
      ensures result == Complete ==> earlier == old(earlier) + [old(Seen())]
      ensures result == Complete ==> reply == NO_REPLY && exit == (if old(keepAlive) then ReplyOut else ConnectionClosed)
      ensures result == Broken ==> exit == ConnectionClosed && earlier == old(earlier) && reply == NO_REPLY && !writing
      ensures result == Blocked ==> Now() == old(Now()).(writing := true)
      ensures result != Blocked ==> header.sent + body.sent == 0 && fileOffset == 0
      ensures keepAlive == old(keepAlive)
      ensures open == (exit != ConnectionClosed) && delivered <= Texts(earlier) + Text(cut)
      ensures cut == NO_REPLY || (cut == old(reply) && earlier == old(earlier))
    {
      hide Texts, CutAt, FileText;
      assert Text(NO_REPLY) == [] by { NoText(); }
      cut := reply;
      match result {
        case Blocked =>
          writing := true;
          exit := AwaitWritable;
        case Broken =>
          ResetOutput();
          open := false;
          exit := ConnectionClosed;
        case Complete =>
          Finish();
          cut := NO_REPLY;
          assert delivered + [] == delivered;
          if !keepAlive { open := false; }
          exit := if keepAlive then ReplyOut else ConnectionClosed;
      }
    }

    /** Nothing is under way. */
    ghost predicate Idle()
      reads this
    {
      reply == NO_REPLY && !writing && delivered == Texts(earlier)
    }

    /** The replies completed are the first ones of those asked for, and at most
        one more, `cut`, has been begun. */
    ghost predicate InStep(asked: seq<Reply>, cut: Reply)
      reads this
    {
      && Follows(earlier, asked) && delivered <= Texts(earlier) + Text(cut)
      && (cut == NO_REPLY || (|asked| == |earlier| + 1 && cut == asked[|earlier|]))
      && (open ==> Valid() && if writing then |asked| == |earlier| + 1 && reply == asked[|earlier|]
                              else Idle() && |asked| == |earlier|)
    }

    /** Any replies, any write events, any answers from the kernel; the trace says
        what each event did, and `asked` are the replies accepted.  The bytes
        delivered are those replies, in order, none repeated and none skipped, the
        last one possibly unfinished. */
    method Run(events: seq<SendEvent>)
      returns (ghost asked: seq<Reply>, ghost cut: Reply, ghost reached: seq<(nat, nat)>, ghost trace: seq<Moment>)
      requires Valid() && open && Idle() && earlier == []
      modifies this
      ensures |reached| == |events| && IsTrace(events, reached, trace)
      ensures trace[0] == old(Now()) && trace[|events|] == Now()
      ensures asked == Asked(events, trace, |events|) && InStep(asked, cut)
      ensures forall i :: 0 <= i < |events| && |trace[i].earlier| < |trace[i + 1].earlier| ==>
                var r := if events[i].Answer? then events[i].reply else trace[i].reply;
                var seen := trace[i + 1].earlier[|trace[i + 1].earlier| - 1];
                && trace[i + 1].open == trace[i + 1].keep && trace[i + 1].earlier == trace[i].earlier + [seen]
                && if r.file.None? then seen == r
                   else && seen.file.Some? && seen == r.(file := seen.file) && seen.file.value <= r.file.value
                        && (|seen.file.value| == r.size || NextMove(events[i].disk, reached[i].1).Moved?)
      ensures forall i :: 0 <= i < |events| && trace[i].open && trace[i].writing == events[i].Writable? ==>
                || !trace[i + 1].open || |trace[i].earlier| < |trace[i + 1].earlier|
                || (trace[i + 1].writing && trace[i + 1].reply == (if events[i].Answer? then events[i].reply else trace[i].reply)
                    && (NextWrite(events[i].room, reached[i].0).WriteWouldBlock? ||
                        NextMove(events[i].disk, reached[i].1).FileWouldBlock?))
      ensures forall i :: 0 <= i < |events| && trace[i].open && !trace[i + 1].open ==>
                || |trace[i].earlier| < |trace[i + 1].earlier|
                || NextWrite(events[i].room, reached[i].0) in {WriteFailed, Took(0)}
                || NextMove(events[i].disk, reached[i].1) == FileFailed
    {
      hide Moves, InStep, Asked, IsTrace;
      asked, cut, reached, trace := [], NO_REPLY, [], [Now()];
      var i := 0;
      NothingAsked(events, trace);
      while i < |events|
        invariant i <= |events| && |reached| == i && |trace| == i + 1 && IsTrace(events, reached, trace)
        invariant trace[0] == old(Now()) && trace[i] == Now()
        invariant asked == Asked(events, trace, i) && InStep(asked, cut)
      {
        ghost var w, f;
        asked, cut, w, f := Step(events[i], asked, cut);
        OneEventMore(events, reached, trace, w, f, Now());
        AskedOneMore(events, trace, Now(), i);
        reached, trace := reached + [(w, f)], trace + [Now()];
        i := i + 1;
      }
      forall k | 0 <= k < |events| ensures Moves(trace[k], events[k], reached[k].0, reached[k].1, trace[k + 1]) {
        MoveOf(events, reached, trace, k);
      }
      forall k | 0 <= k < |events| {
        MoveMeans(trace[k], events[k], reached[k].0, reached[k].1, trace[k + 1]);
      }
    }

    lemma MoveOf(events: seq<SendEvent>, reached: seq<(nat, nat)>, trace: seq<Moment>, k: nat)
      requires IsTrace(events, reached, trace) && k < |reached|
      ensures Moves(trace[k], events[k], reached[k].0, reached[k].1, trace[k + 1])
    {
    }

    lemma NothingAsked(events: seq<SendEvent>, trace: seq<Moment>)
      requires Valid() && open && Idle() && earlier == [] && |trace| == 1
      ensures InStep([], NO_REPLY) && Asked(events, trace, 0) == [] && IsTrace(events, [], trace)
    {
      assert delivered + Text(NO_REPLY) == delivered;
    }

    /** One event. */
    method Step(e: SendEvent, ghost asked: seq<Reply>, ghost cut: Reply)
      returns (ghost asked': seq<Reply>, ghost cut': Reply, ghost w: nat, ghost f: nat)
      requires InStep(asked, cut)
      modifies this
      ensures Moves(old(Now()), e, w, f, Now()) && InStep(asked', cut')
      ensures asked' == asked + if Accepts(old(Now()), e) then [e.reply] else []
    {
      hide SentOn, StopsAt;
      asked', cut', w, f := asked, cut, 0, 0;
      if open {
        match e {
          case Answer(r, keep, room, disk) =>
            if !writing {
              asked' := Ask(r, keep, asked);
              cut', w, f := Continue(room, disk, asked');
            }
          case Writable(room, disk) =>
            if writing {
              cut', w, f := Continue(room, disk, asked);
            }
        }
      }
    }

    method Ask(r: Reply, keep: bool, ghost asked: seq<Reply>) returns (ghost asked': seq<Reply>)
      requires Valid() && open && Idle() && Follows(earlier, asked) && |asked| == |earlier|
      modifies this`header, this`body, this`fileOpen, this`fileOffset, this`fileSize, this`reply, this`keepAlive
      ensures Valid() && asked' == asked + [r] && Follows(earlier, asked')
      ensures Now() == old(Now()).(reply := r, keep := keep, head := 0, offset := 0)
    {
      Prepare(r, keep);
      asked' := asked + [r];
    }

    /** Sends on with the last reply asked for. */
    method Continue(room: seq<WriteAnswer>, disk: seq<FileAnswer>, ghost asked: seq<Reply>)
      returns (ghost cut: Reply, ghost w: nat, ghost f: nat)
      requires Valid() && open && Follows(earlier, asked) && |asked| == |earlier| + 1 && reply == asked[|earlier|]
      modifies this
      ensures InStep(asked, cut)
      ensures var m := old(Now()); StopsAt(m.reply, m.head, m.offset, room, w, disk, f) && Now() == SentOn(m, room, w, disk, f)
    {
      hide HeadAfter, FileAfter, StopsAt, CutAt, FileText, Texts, Text, Head, FileResultAt, Follows, IsSeen, NextWrite,
           NextMove, Valid, Left;
      ghost var m := Now();
      var result, exit;
      result, w, f := TrySend(room, disk);
      SentSoFar();
      FileCounts();
      if result == Complete {
        FollowsOneMore(earlier, asked, reply, fileOffset);
      }
      exit, cut := Settle(result);
    }

    /** What is delivered is the earlier replies and the counted bytes of the current one. */
    lemma SentSoFar()
      requires Valid()
      ensures var gone := header.sent + body.sent + fileOffset;
              gone <= |Text(reply)| && delivered == Texts(earlier) + Text(reply)[..gone]
    {
      hide Texts, FileText;
      var gone := header.sent + body.sent + fileOffset;
      assert |Left()| == |Text(reply)| - gone;
      assert delivered == (delivered + Left())[..|delivered|];
    }
  }

  lemma AskedOneMore(events: seq<SendEvent>, trace: seq<Moment>, m: Moment, n: nat)
    requires n < |events| && |trace| == n + 1
    ensures Asked(events, trace + [m], n + 1) ==
            Asked(events, trace, n) + if Accepts(trace[n], events[n]) then [events[n].reply] else []
  {
    AskedBefore(events, trace, m, n);
  }

  /** r is what was asked for, its file perhaps cut where sendfile reported its end. */
  ghost predicate IsSeen(r: Reply, asked: Reply) {
    r == asked || (asked.file.Some? && exists n: nat :: n <= |FileText(asked)| && r == CutAt(asked, n))
  }

  function CutAt(r: Reply, n: nat): Reply
    requires n <= |FileText(r)|
  {
    r.(file := Some(FileText(r)[..n]))
  }

  /** The completed replies are the first ones asked for. */
  ghost predicate Follows(done: seq<Reply>, asked: seq<Reply>) {
    |done| <= |asked| && forall i :: 0 <= i < |done| ==> IsSeen(done[i], asked[i])
  }

  lemma FollowsOneMore(done: seq<Reply>, asked: seq<Reply>, r: Reply, offset: nat)
    requires Follows(done, asked) && |asked| > |done| && asked[|done|] == r && offset <= |FileText(r)|
    ensures Follows(done + [r], asked)
    ensures Follows(done + [AsSeen(r, offset)], asked)
  {
    if r.file.Some? {
      assert IsSeen(CutAt(r, offset), r);
    }
  }

  lemma SeenFile(r: Reply, offset: nat)
    requires offset <= |FileText(r)|
    ensures r.file.Some? ==> FileText(CutAt(r, offset)) == FileText(r)[..offset]
  {
  }

  lemma CutReply(d: seq<byte>, e: seq<byte>, header: seq<byte>, body: seq<byte>, file: seq<byte>, offset: nat)
    requires offset <= |file| && d + ([] + ([] + From(file, offset))) == e + (header + (body + file))
    ensures d == e + (header + (body + file[..offset]))
  {
    var full, rest := e + (header + (body + file)), From(file, offset);
    assert [] + ([] + rest) == rest;
    assert file[..offset] + rest == file;
    assert full == e + (header + (body + file[..offset])) + rest;
    CancelRight(d, e + (header + (body + file[..offset])), rest);
  }

  lemma CancelRight(a: seq<byte>, b: seq<byte>, c: seq<byte>)
    requires a + c == b + c
    ensures a == b
  {
    assert |a + c| == |b + c|;
    assert a == (a + c)[..|a|] && b == (b + c)[..|b|];
  }
}
