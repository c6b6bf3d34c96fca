/**
 * The conversation side of the service: the streaming session that runs
 * over one WebSocket connection (numbered turns, each sending only the new
 * suffix of the engine's accumulated answer), and the single-shot chat
 * that keeps only the final answer.
 *
 * The answer engine is a parameter: for a question and a history it yields
 * a finite, non-empty sequence of steps, each carrying the whole answer
 * accumulated so far, the retrieved documents and the updated history.
 */
module Streaming {
  import opened Common
  import opened SourceCitations

  /** The `[question, answer]` pairs the engine keeps between turns. */
  type History = seq<seq<string>>

  /** One element the engine yields: the answer so far, its sources and the new history. */
  datatype Step = Step(result: string, sources: seq<SourceDoc>, history: History)

  /** Everything the engine yields for one question. */
  type Run = s: seq<Step> | |s| > 0 witness [Step("", [], [])]

  /** The engine bound to one knowledge base's index: question and history to steps. */
  type Answerer = (string, History) -> Run

  /** The frames the server sends on the connection, in order. */
  datatype Frame =
    | NotFound(kb: string)                                   // the error frame before closing
    | Start(question: string, turn: nat)                     // flag "start"
    | Text(delta: string)                                    // newly produced answer text
    | End(question: string, turn: nat, sources: seq<string>) // flag "end", with the citations

  /** Python's `s[n:]`: empty when `n` is past the end. */
  function Suffix(s: string, n: nat): string {
    if n <= |s| then s[n..] else ""
  }

  /**
   * The text frames of one turn: for each step, what its answer holds
   * beyond the length of the answer sent before it (`last_print_len`).
   */
  function DeltaFrames(lastPrintLen: nat, steps: seq<Step>): seq<Frame>
    decreases |steps|
  {
    if steps == [] then []
    else [Text(Suffix(steps[0].result, lastPrintLen))] + DeltaFrames(|steps[0].result|, steps[1..])
  }

  /** Every answer in `steps` extends the one before it. */
  predicate Extends(steps: seq<Step>) {
    forall i :: 0 <= i < |steps| - 1 ==> steps[i].result <= steps[i + 1].result
  }

  /** All frames of one turn: start marker, answer deltas, end marker with citations. */
  function TurnFrames(question: string, turn: nat, run: Run): seq<Frame> {
    [Start(question, turn)] + DeltaFrames(0, run) + [End(question, turn, Citations(run[|run| - 1].sources))]
  }

  /**
   * The frames of a session whose client sends `questions` and then closes,
   * from question `i` on: it is answered as turn `i + 1` with `history`,
   * and each later turn gets the history the turn before returned.
   */
  function SessionFrames(questions: seq<string>, i: nat, history: History, engine: Answerer): seq<Frame>
    requires i <= |questions|
    decreases |questions| - i
  {
    if i == |questions| then []
    else
      var run := engine(questions[i], history);
      TurnFrames(questions[i], i + 1, run) + SessionFrames(questions, i + 1, run[|run| - 1].history, engine)
  }

  /** The answer text a client receives: the text frames concatenated. */
  function Transmitted(frames: seq<Frame>): string
    decreases |frames|
  {
    if frames == [] then ""
    else (if frames[0].Text? then frames[0].delta else "") + Transmitted(frames[1..])
  }

  /** The `(question, turn)` of every start frame, in order. */
  function Starts(frames: seq<Frame>): seq<(string, nat)>
    decreases |frames|
  {
    if frames == [] then []
    else (if frames[0].Start? then [(frames[0].question, frames[0].turn)] else []) + Starts(frames[1..])
  }

  /** The `(question, turn)` of every end frame, in order. */
  function Ends(frames: seq<Frame>): seq<(string, nat)>
    decreases |frames|
  {
    if frames == [] then []
    else (if frames[0].End? then [(frames[0].question, frames[0].turn)] else []) + Ends(frames[1..])
  }

  lemma {:induction false} TransmittedAppend(a: seq<Frame>, b: seq<Frame>)
    ensures Transmitted(a + b) == Transmitted(a) + Transmitted(b)
    decreases |a|
  {
    if a != [] {
      assert (a + b)[1..] == a[1..] + b;
      TransmittedAppend(a[1..], b);
    } else {
      assert a + b == b;
    }
  }

  lemma {:induction false} MarkersAppend(a: seq<Frame>, b: seq<Frame>)
    ensures Starts(a + b) == Starts(a) + Starts(b)
    ensures Ends(a + b) == Ends(a) + Ends(b)
    decreases |a|
  {
    if a != [] {
      assert (a + b)[1..] == a[1..] + b;
      MarkersAppend(a[1..], b);
    } else {
      assert a + b == b;
    }
  }

  /** Answer deltas are text frames only: they carry no turn marker. */
  lemma {:induction false} DeltaFramesUnmarked(lastPrintLen: nat, steps: seq<Step>)
    ensures Starts(DeltaFrames(lastPrintLen, steps)) == []
    ensures Ends(DeltaFrames(lastPrintLen, steps)) == []
    decreases |steps|
  {
    if steps != [] {
      var rest := DeltaFrames(|steps[0].result|, steps[1..]);
      DeltaFramesUnmarked(|steps[0].result|, steps[1..]);
      MarkersAppend([Text(Suffix(steps[0].result, lastPrintLen))], rest);
    }
  }

  /** When each answer extends the previous one, the first is a prefix of the last. */
  lemma {:induction false} FirstPrefixOfLast(steps: seq<Step>)
    requires steps != [] && Extends(steps)
    ensures steps[0].result <= steps[|steps| - 1].result
    decreases |steps|
  {
    if |steps| > 1 {
      FirstPrefixOfLast(steps[1..]);
    }
  }

  /**
   * Delta reassembly: when each answer extends the previous one, the text
   * frames sent from `lastPrintLen` on concatenate to exactly the final
   * answer from that position on, with no gap and no repetition.
   */
  lemma {:induction false} DeltasReassemble(lastPrintLen: nat, steps: seq<Step>)
    requires steps != [] && Extends(steps)
    requires lastPrintLen <= |steps[0].result|
    ensures lastPrintLen <= |steps[|steps| - 1].result|
         && Transmitted(DeltaFrames(lastPrintLen, steps)) == steps[|steps| - 1].result[lastPrintLen..]
    decreases |steps|
  {
    var first := steps[0].result;
    var rest := DeltaFrames(|first|, steps[1..]);
    TransmittedAppend([Text(Suffix(first, lastPrintLen))], rest);
    assert Transmitted([Text(Suffix(first, lastPrintLen))]) == first[lastPrintLen..];
    if |steps| == 1 {
      assert rest == [];
    } else {
      assert first <= steps[1].result;
      DeltasReassemble(|first|, steps[1..]);
      FirstPrefixOfLast(steps);
      var last := steps[|steps| - 1].result;
      assert first == last[..|first|];
      assert last[lastPrintLen..] == last[lastPrintLen..|first|] + last[|first|..];
    }
  }

  /** A turn has one start and one end marker, both carrying its question and number. */
  lemma TurnMarkers(question: string, turn: nat, run: Run)
    ensures Starts(TurnFrames(question, turn, run)) == [(question, turn)]
    ensures Ends(TurnFrames(question, turn, run)) == [(question, turn)]
  {
    var deltas := DeltaFrames(0, run);
    var endFrame := End(question, turn, Citations(run[|run| - 1].sources));
    MarkersAppend([Start(question, turn)], deltas);
    MarkersAppend([Start(question, turn)] + deltas, [endFrame]);
    DeltaFramesUnmarked(0, run);
  }

  /** One turn delivers the final answer exactly once, between its two markers. */
  lemma TurnReassembles(question: string, turn: nat, run: Run)
    requires Extends(run)
    ensures Transmitted(TurnFrames(question, turn, run)) == run[|run| - 1].result
    ensures Starts(TurnFrames(question, turn, run)) == [(question, turn)]
    ensures Ends(TurnFrames(question, turn, run)) == [(question, turn)]
  {
    var deltas := DeltaFrames(0, run);
    var endFrame := End(question, turn, Citations(run[|run| - 1].sources));
    TransmittedAppend([Start(question, turn)], deltas);
    TransmittedAppend([Start(question, turn)] + deltas, [endFrame]);
    DeltasReassemble(0, run);
    TurnMarkers(question, turn, run);
  }

  /**
   * Turn numbering: from question `i` on, the session's start frames and
   * its end frames both carry the questions in the order they arrived,
   * question k as turn k + 1; so each turn's two markers carry the same
   * number, and the numbers rise by one from turn to turn.
   */
  lemma {:induction false} SessionTurns(questions: seq<string>, i: nat, history: History, engine: Answerer)
    requires i <= |questions|
    ensures |Starts(SessionFrames(questions, i, history, engine))| == |questions| - i
    ensures forall k :: i <= k < |questions| ==>
      Starts(SessionFrames(questions, i, history, engine))[k - i] == (questions[k], k + 1)
    ensures Ends(SessionFrames(questions, i, history, engine)) == Starts(SessionFrames(questions, i, history, engine))
    decreases |questions| - i
  {
    if i < |questions| {
      var run := engine(questions[i], history);
      var head := TurnFrames(questions[i], i + 1, run);
      var tail := SessionFrames(questions, i + 1, run[|run| - 1].history, engine);
      var starts := Starts(SessionFrames(questions, i, history, engine));
      assert SessionFrames(questions, i, history, engine) == head + tail;
      TurnMarkers(questions[i], i + 1, run);
      MarkersAppend(head, tail);
      SessionTurns(questions, i + 1, run[|run| - 1].history, engine);
      assert starts == [(questions[i], i + 1)] + Starts(tail);
      forall k | i < k < |questions| ensures starts[k - i] == (questions[k], k + 1) {
        assert starts[k - i] == Starts(tail)[k - (i + 1)];
      }
    }
  }

  /**
   * One turn of `stream_chat`: the start frame, one text frame per step with
   * the suffix beyond `last_print_len` (which starts at 0 in every turn),
   * and the end frame with the citations of the last step.
   */
  method StreamTurn(question: string, turn: nat, run: Run) returns (frames: seq<Frame>)
    ensures frames == TurnFrames(question, turn, run)
  {
    frames := [Start(question, turn)];
    var lastPrintLen := 0;
    var i := 0;
    while i < |run|
      invariant 0 <= i <= |run|
      invariant lastPrintLen == if i == 0 then 0 else |run[i - 1].result|
      invariant frames + DeltaFrames(lastPrintLen, run[i..]) == [Start(question, turn)] + DeltaFrames(0, run)
    {
      assert run[i..][1..] == run[i + 1..];
      frames := frames + [Text(Suffix(run[i].result, lastPrintLen))];
      lastPrintLen := |run[i].result|;
      i := i + 1;
    }
    frames := frames + [End(question, turn, Citations(run[|run| - 1].sources))];
  }

  /**
   * `stream_chat` for a client that sends `questions` and then closes. A
   * knowledge base without an index gets the error frame and nothing else;
   * otherwise turns are numbered from 1 and each turn's history is the one
   * the engine returned at the end of the turn before.
   */
  method StreamChat(kb: string, indexed: set<string>, questions: seq<string>, engine: Answerer)
    returns (frames: seq<Frame>)
    ensures kb !in indexed ==> frames == [NotFound(kb)]
    ensures kb in indexed ==> frames == SessionFrames(questions, 0, [], engine)
  {
    if kb !in indexed {
      return [NotFound(kb)];
    }
    frames := [];
    var history: History := [];
    var turn := 1;
    var i := 0;
    while i < |questions|
      invariant 0 <= i <= |questions|
      invariant turn == i + 1
      invariant frames + SessionFrames(questions, i, history, engine) == SessionFrames(questions, 0, [], engine)
    {
      var question := questions[i];
      var run := engine(question, history);
      var turnFrames := StreamTurn(question, turn, run);
      ghost var later := SessionFrames(questions, i + 1, run[|run| - 1].history, engine);
      assert SessionFrames(questions, i, history, engine) == turnFrames + later;
      assert frames + (turnFrames + later) == (frames + turnFrames) + later;
      frames := frames + turnFrames;
      history := run[|run| - 1].history;
      turn := turn + 1;
      i := i + 1;
    }
  }

  /** The response of the single-shot `chat` endpoint. */
  datatype ChatMessage = ChatMessage(question: string, response: string, history: History, sourceDocuments: seq<string>)

  /**
   * `chat`: runs the engine to completion and keeps only its last step.
   * `indexExists` says whether the index it reads is on disk; when it is
   * not, the handler raises, modelled as `None`.
   */
  function Chat(indexExists: bool, question: string, history: History, engine: Answerer): (r: Option<ChatMessage>)
    ensures r.Some? <==> indexExists
    ensures r.Some? ==>
      var last := engine(question, history)[|engine(question, history)| - 1];
      && r.value.question == question
      && r.value.response == last.result
      && r.value.history == last.history
      && r.value.sourceDocuments == Citations(last.sources)
  {
    if !indexExists then None
    else
      var run := engine(question, history);
      var last := run[|run| - 1];
      Some(ChatMessage(question, last.result, last.history, Citations(last.sources)))
  }

  /**
   * The single-shot answer cites every source document of the last step
   * once, in order, numbered from 1.
   */
  lemma ChatSourcesNumbered(question: string, history: History, engine: Answerer)
    ensures var run := engine(question, history);
      var docs := Chat(true, question, history, engine).value.sourceDocuments;
      && |docs| == |run[|run| - 1].sources|
      && forall i :: 0 <= i < |docs| ==> OrdinalOf(docs[i]) == Some(i + 1)
  {
    var run := engine(question, history);
    CitationsNumbered(run[|run| - 1].sources);
  }

  /**
   * The single-shot answer is what a streaming turn for the same question
   * delivers: the same final text (when the answers extend each other) and
   * the same citations as that turn's end frame.
   */
  lemma ChatMatchesStreamTurn(question: string, history: History, engine: Answerer, turn: nat)
    requires Extends(engine(question, history))
    ensures Chat(true, question, history, engine).Some?
    ensures Chat(true, question, history, engine).value.response
         == Transmitted(TurnFrames(question, turn, engine(question, history)))
    ensures var frames := TurnFrames(question, turn, engine(question, history));
            frames[|frames| - 1] == End(question, turn, Chat(true, question, history, engine).value.sourceDocuments)
  {
    TurnReassembles(question, turn, engine(question, history));
  }
}
