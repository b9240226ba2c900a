/** What a sequence of reads from a CGI pipe amounts to: the output read, and
    what the header buffer has no room for. */
module CgiReads {
  import opened Bytes
  import opened Kernel
  import opened CgiHeader
  import opened CgiWire

  /** How much of the output does not fit the header buffer. */
  function Excess(output: seq<byte>): nat {
    if |output| > HDR_CAP then |output| - HDR_CAP else 0
  }

  /** What n answers of a script read, each at most a buffer full. */
  function DataRead(input: seq<ReadAnswer>, n: nat): seq<byte> {
    if n == 0 then [] else DataRead(input, n - 1) + Block(NextRead(input, n - 1))
  }

  function Block(answer: ReadAnswer): seq<byte> {
    match answer
    case Data(bytes) => bytes[..Min(|bytes|, BODY_CAP)]
    case _ => []
  }

  lemma {:induction false} ReadAtOnce(output: seq<byte>, n: nat)
    requires 0 < n && |output| <= BODY_CAP
    ensures DataRead([Data(output)], n) == output
  {
    var input := [Data(output)];
    assert output[..|output|] == output;
    if n == 1 {
      assert DataRead(input, 0) == [];
      assert NextRead(input, 0) == Data(output);
    } else {
      ReadAtOnce(output, n - 1);
      assert NextRead(input, n - 1) == ReadWouldBlock;
    }
  }

  lemma NothingMore(input: seq<ReadAnswer>, n: nat)
    requires 0 < n && NextRead(input, n - 1) in {ReadWouldBlock, Data([])}
    ensures DataRead(input, n) == DataRead(input, n - 1)
  {
  }

  predicate Marked(output: seq<byte>) {
    FindEnd(output, 0).Some?
  }

  /** The first n answers of a script. */
  function Answers(input: seq<ReadAnswer>, n: nat): seq<ReadAnswer> {
    if n == 0 then [] else Answers(input, n - 1) + [NextRead(input, n - 1)]
  }

  /** What reads bring in. */
  function Got(answers: seq<ReadAnswer>): seq<byte> {
    if answers == [] then [] else Got(answers[..|answers| - 1]) + Block(answers[|answers| - 1])
  }

  /** What the header buffer has no room for when the read that completes the header block returns. */
  function Lost(answers: seq<ReadAnswer>): nat {
    if answers == [] then 0 else
      var before := answers[..|answers| - 1];
      if Marked(Got(before)) then Lost(before)
      else if Marked(Got(answers)) then Excess(Got(answers))
      else 0
  }

  /** The k-th read brings in the end of the first blank line. */
  ghost predicate CompletesHeader(answers: seq<ReadAnswer>, k: nat) {
    0 < k <= |answers| && Marked(Got(answers[..k])) && !Marked(Got(answers[..k - 1]))
  }

  /** When the read that brings in the end of the first blank line returns, no
      more has been read than the header buffer holds. */
  ghost predicate HeaderFits(answers: seq<ReadAnswer>) {
    forall k: nat :: CompletesHeader(answers, k) ==> |Got(answers[..k])| <= HDR_CAP
  }

  lemma MarkStays(output: seq<byte>, more: seq<byte>)
    requires Marked(output)
    ensures Marked(output + more)
  {
    SplitIsStable(output, more, 0);
  }

  lemma GotMore(answers: seq<ReadAnswer>, x: ReadAnswer)
    ensures Got(answers + [x]) == Got(answers) + Block(x)
    ensures Got(answers + [x]) == Got(answers) + match x case Data(b) => b[..Min(|b|, 8192)] case _ => []
    ensures Got([]) == []
  {
    assert (answers + [x])[..|answers|] == answers;
  }

  lemma LostMore(answers: seq<ReadAnswer>, x: ReadAnswer)
    ensures Lost(answers + [x]) ==
            if Marked(Got(answers)) then Lost(answers)
            else if Marked(Got(answers + [x])) then Excess(Got(answers + [x])) else 0
  {
    assert (answers + [x])[..|answers|] == answers;
  }

  lemma AnswersMore(answers: seq<ReadAnswer>, input: seq<ReadAnswer>, n: nat)
    ensures answers + Answers(input, n + 1) == (answers + Answers(input, n)) + [NextRead(input, n)]
  {
    Associative(answers, Answers(input, n), [NextRead(input, n)]);
  }

  lemma NoAnswers(answers: seq<ReadAnswer>, input: seq<ReadAnswer>)
    ensures answers + Answers(input, 0) == answers
  {
  }

  lemma {:induction false} GotAnswers(answers: seq<ReadAnswer>, input: seq<ReadAnswer>, n: nat)
    ensures Got(answers + Answers(input, n)) == Got(answers) + DataRead(input, n)
  {
    hide Got, Answers, Block;
    if n == 0 {
      NoAnswers(answers, input);
      assert Got(answers) + [] == Got(answers);
    } else {
      AnswersMore(answers, input, n - 1);
      GotMore(answers + Answers(input, n - 1), NextRead(input, n - 1));
      GotAnswers(answers, input, n - 1);
      Associative(Got(answers), DataRead(input, n - 1), Block(NextRead(input, n - 1)));
    }
  }

  /** Once the header block is complete nothing more is lost. */
  lemma {:induction false} LossIsOver(answers: seq<ReadAnswer>, input: seq<ReadAnswer>, n: nat)
    requires Marked(Got(answers))
    ensures Lost(answers + Answers(input, n)) == Lost(answers) && Marked(Got(answers + Answers(input, n)))
  {
    hide Got, Answers, Block, Lost, Marked;
    if n == 0 {
      NoAnswers(answers, input);
    } else {
      var front, x := answers + Answers(input, n - 1), NextRead(input, n - 1);
      LossIsOver(answers, input, n - 1);
      AnswersMore(answers, input, n - 1);
      LostMore(front, x);
      GotMore(front, x);
      MarkStays(Got(front), Block(x));
    }
  }

  /** No blank line, nothing lost. */
  lemma NoMarkNoLoss(answers: seq<ReadAnswer>)
    requires !Marked(Got(answers))
    ensures Lost(answers) == 0
  {
    hide Marked;
    if answers != [] {
      var before, x := answers[..|answers| - 1], answers[|answers| - 1];
      if Marked(Got(before)) { MarkStays(Got(before), Block(x)); }
    }
  }

  /** The last of these answers completes the header block. */
  lemma LossAtMark(answers: seq<ReadAnswer>, input: seq<ReadAnswer>, n: nat)
    requires 0 < n && !Marked(Got(answers) + DataRead(input, n - 1)) && Marked(Got(answers) + DataRead(input, n))
    ensures Lost(answers + Answers(input, n)) == Excess(Got(answers) + DataRead(input, n))
  {
    hide Got, Answers, Block, Lost, Marked, DataRead, Excess;
    AnswersMore(answers, input, n - 1);
    LostMore(answers + Answers(input, n - 1), NextRead(input, n - 1));
    GotAnswers(answers, input, n);
    GotAnswers(answers, input, n - 1);
  }

  lemma {:induction false} EarlierMark(answers: seq<ReadAnswer>, k: nat)
    requires k <= |answers| && Marked(Got(answers[..k]))
    ensures Marked(Got(answers))
  {
    hide Marked;
    if k == |answers| {
      assert answers[..k] == answers;
    } else {
      var before, x := answers[..|answers| - 1], answers[|answers| - 1];
      assert before[..k] == answers[..k];
      EarlierMark(before, k);
      MarkStays(Got(before), Block(x));
    }
  }

  /** Nothing is lost exactly if the header fits. */
  lemma {:induction false} LostNothing(answers: seq<ReadAnswer>)
    ensures Lost(answers) == 0 <==> HeaderFits(answers)
  {
    if answers != [] {
      var n := |answers|;
      var before := answers[..n - 1];
      LostNothing(before);
      if Marked(Got(before)) {
        SameCompletion(answers);
      } else {
        OnlyTheLast(answers);
        assert answers[..n] == answers;
        if Marked(Got(answers)) { assert CompletesHeader(answers, n); }
      }
    }
  }

  lemma SameCompletion(answers: seq<ReadAnswer>)
    requires answers != [] && Marked(Got(answers[..|answers| - 1]))
    ensures HeaderFits(answers) <==> HeaderFits(answers[..|answers| - 1])
  {
    hide Marked, Got;
    var before := answers[..|answers| - 1];
    assert forall k: nat :: k <= |before| ==> answers[..k] == before[..k];
    assert forall k: nat :: CompletesHeader(answers, k) <==> CompletesHeader(before, k);
  }

  lemma OnlyTheLast(answers: seq<ReadAnswer>)
    requires answers != [] && !Marked(Got(answers[..|answers| - 1]))
    ensures forall k: nat :: CompletesHeader(answers, k) ==> k == |answers|
  {
    hide Marked, Got;
    var before := answers[..|answers| - 1];
    forall k: nat | CompletesHeader(answers, k) ensures k == |answers| {
      if k < |answers| {
        assert answers[..k] == before[..k];
        EarlierMark(before, k);
      }
    }
  }
}
