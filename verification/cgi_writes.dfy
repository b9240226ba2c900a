/** What a sequence of writes to a client amounts to: the books after the bytes
    each answer took, and where sending stops. */
module CgiWrites {
  import opened Bytes
  import opened Kernel
  import opened Chunked
  import opened CgiWire

  /** Before a writev the final chunk is queued, if the pipe has ended and all chunks are out. */
  function Ready(l: Ledger): Ledger {
    if l.eof && l.out.ChunkOut() && l.last == [] then l.(last := FINAL, out := l.out.(last := FINAL)) else l
  }

  /** There is something for the next writev: a chunk, or after the end of the pipe anything at all. */
  predicate Offers(l: Ledger) {
    !l.out.ChunkOut() || (l.eof && l.out.Pending() != [])
  }

  /** One answer: the bytes it took, which are the next ones pending, have gone out. */
  function Charge(l: Ledger, answer: WriteAnswer): Ledger {
    if answer.Took? && answer.n > 0 then
      var m := Min(answer.n, |l.out.Pending()|);
      l.(sent := l.sent + l.out.Pending()[..m], out := l.out.Advance(m))
    else l
  }

  /** The books after n answers. */
  function Written(l: Ledger, room: seq<WriteAnswer>, n: nat): Ledger {
    if n == 0 then Ready(l) else Ready(Charge(Written(l, room, n - 1), NextWrite(room, n - 1)))
  }

  /** This answer is followed by another writev, if there is something left for it. */
  predicate GoesOn(answer: WriteAnswer) {
    answer.WriteInterrupted? || (answer.Took? && answer.n > 0)
  }

  /** Every answer but the last let sending go on, and there was always something to send. */
  ghost predicate Passes(l: Ledger, room: seq<WriteAnswer>, n: nat) {
    && (forall i: nat :: i < n ==> Offers(Written(l, room, i)))
    && (forall i: nat :: i + 1 < n ==> GoesOn(NextWrite(room, i)))
  }

  /** Sending stops after n answers: the last does not let it go on, or nothing is left. */
  ghost predicate StopsAfter(l: Ledger, room: seq<WriteAnswer>, n: nat) {
    Passes(l, room, n) && ((0 < n && !GoesOn(NextWrite(room, n - 1))) || !Offers(Written(l, room, n)))
  }

  /** Nothing has been read since a, and the client has what it had then and perhaps more. */
  ghost predicate Grown(a: Ledger, b: Ledger) {
    && b.output == a.output && b.lost == a.lost && b.eof == a.eof
    && b.chunks == a.chunks && b.header == a.header && a.sent <= b.sent
  }

  lemma ReadyAgain(l: Ledger)
    ensures Ready(Ready(l)) == Ready(l)
  {
  }

  lemma {:induction false} WrittenIsReady(l: Ledger, room: seq<WriteAnswer>, n: nat)
    ensures Ready(Written(l, room, n)) == Written(l, room, n)
  {
    hide Ready, Charge;
    ReadyAgain(if n == 0 then l else Charge(Written(l, room, n - 1), NextWrite(room, n - 1)));
  }

  lemma WrittenOneMore(l: Ledger, room: seq<WriteAnswer>, n: nat)
    ensures var answer := NextWrite(room, n);
            && Written(l, room, n + 1) == Ready(Charge(Written(l, room, n), answer))
            && (!GoesOn(answer) ==> Charge(Written(l, room, n), answer) == Written(l, room, n + 1))
  {
    WrittenIsReady(l, room, n);
  }

  /** An answer that took nothing leaves the books alone. */
  lemma NothingTaken(l: Ledger, room: seq<WriteAnswer>, n: nat)
    requires 0 < n && !(NextWrite(room, n - 1).Took? && NextWrite(room, n - 1).n > 0)
    ensures Written(l, room, n) == Written(l, room, n - 1)
  {
    WrittenIsReady(l, room, n - 1);
  }

  lemma ReadyGrows(l: Ledger)
    ensures Grown(l, Ready(l))
  {
  }

  lemma ChargeGrows(l: Ledger, answer: WriteAnswer)
    ensures Grown(l, Ready(Charge(l, answer)))
  {
    hide Outbox.Pending, Outbox.Advance;
  }

  lemma {:induction false} WrittenGrows(l: Ledger, room: seq<WriteAnswer>, n: nat)
    ensures Grown(l, Written(l, room, n))
  {
    hide Ready, Charge;
    if n == 0 {
      ReadyGrows(l);
    } else {
      WrittenGrows(l, room, n - 1);
      ChargeGrows(Written(l, room, n - 1), NextWrite(room, n - 1));
    }
  }

  lemma PassesNone(l: Ledger, room: seq<WriteAnswer>)
    ensures Passes(l, room, 0) && Ready(l) == Written(l, room, 0)
  {
  }

  lemma PassesOneMore(l: Ledger, room: seq<WriteAnswer>, n: nat)
    requires Passes(l, room, n) && (0 < n ==> GoesOn(NextWrite(room, n - 1))) && Offers(Written(l, room, n))
    ensures Passes(l, room, n + 1)
  {
    hide Offers, Written, GoesOn;
  }

  /** How many bytes the first n answers took. */
  function Accepted(l: Ledger, room: seq<WriteAnswer>, n: nat): nat {
    if n == 0 then 0 else
      var before := Written(l, room, n - 1);
      Accepted(l, room, n - 1) +
      match NextWrite(room, n - 1) case Took(k) => Min(k, |before.out.Pending()|) case _ => 0
  }

  lemma ReadyIsSound(l: Books)
    ensures Sound(Ready(l)) && Ready(l).sent == l.sent
  {
    hide Sound;
    if l.eof && l.out.ChunkOut() && l.last == [] { var m := QueueFinal(l); }
  }

  lemma ChargeIsSound(l: Books, answer: WriteAnswer)
    ensures Sound(Charge(l, answer))
    ensures |Charge(l, answer).sent| ==
            |l.sent| + match answer case Took(k) => Min(k, |l.out.Pending()|) case _ => 0
  {
    hide Sound;
    if answer.Took? && answer.n > 0 { var m := Drain(l, Min(answer.n, |l.out.Pending()|)); }
  }

  /** Whatever the answers, the client has been given as many bytes as they took,
      and they are the first ones of header, chunks and final chunk. */
  lemma {:induction false} GivenInOrder(l: Books, room: seq<WriteAnswer>, n: nat)
    ensures Sound(Written(l, room, n))
    ensures |Written(l, room, n).sent| == |l.sent| + Accepted(l, room, n)
    ensures Written(l, room, n).sent <= l.header + (Encode(l.chunks) + FINAL)
  {
    hide Sound, Ready, Charge, Encode;
    if n == 0 {
      ReadyIsSound(l);
    } else {
      GivenInOrder(l, room, n - 1);
      var before, answer := Written(l, room, n - 1), NextWrite(room, n - 1);
      ChargeIsSound(before, answer);
      ReadyIsSound(Charge(before, answer));
    }
    WrittenGrows(l, room, n);
    SentIsPrefix(Written(l, room, n));
  }
}
