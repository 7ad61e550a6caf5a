/**
 * The session: three slots that survive from one run of the script to the
 * next, and the guarded transitions one run applies in order (upload and
 * OCR, fill, render, ask, show the history).  The services the session
 * calls (rasterising and OCR, the HTTP post) arrive as parameters.
 */
module SessionState {
  import opened Results
  import opened PdfLayout
  import opened PdfRenderer
  import opened TextExtractor
  import opened LlmClient

  datatype QaEntry = QaEntry(question: string, answer: string)

  /** `ocr_text`, `filled_text` and `qa_history`. */
  datatype State = State(ocrText: string, filledText: string, qaHistory: seq<QaEntry>)

  /** The external calls a run makes. */
  datatype Call = OcrCall | FillCall | AnswerCall

  datatype Services<!Image> = Services(
    convert: seq<bv8> -> Result<seq<Image>>,
    ocr: Image -> Result<string>,
    post: Request -> HttpOutcome)

  /** What the user did before this run: the file in the uploader, the fill button, the question box. */
  datatype Interaction = Interaction(upload: Option<seq<bv8>>, fillClicked: bool, question: string)

  /**
   * What one run produces besides the new state: the calls it made in order,
   * the extraction error it reported, the PDF offered for download and the
   * history as displayed.
   */
  datatype View = View(calls: seq<Call>, report: Option<string>, pdf: Option<seq<Op>>, history: seq<QaEntry>)

  /** The slots as `setdefault` creates them. */
  function Initial(): State {
    State([], [], [])
  }

  /** Filled text never exists without extracted text. */
  predicate Consistent(s: State) {
    s.filledText != [] ==> s.ocrText != []
  }

  /** Upload and OCR: runs only while there is an upload and no extracted text yet. */
  function UploadStep<Image>(s: State, upload: Option<seq<bv8>>, svc: Services<Image>): (State, seq<Call>, Option<string>) {
    if upload.Some? && s.ocrText == [] then
      var (text, report) := PdfText(upload.value, svc.convert, svc.ocr);
      (s.(ocrText := text), [OcrCall], report)
    else (s, [], None)
  }

  /** The fill button: only offered while there is extracted text. */
  function FillStep<Image>(s: State, clicked: bool, svc: Services<Image>): (State, seq<Call>) {
    if s.ocrText != [] && clicked then (s.(filledText := FillMissing(s.ocrText, svc.post)), [FillCall])
    else (s, [])
  }

  /** The question box: only offered while there is filled text; a non-empty question is answered and recorded. */
  function AskStep<Image>(s: State, question: string, svc: Services<Image>): (State, seq<Call>) {
    if s.filledText != [] && question != [] then
      var answer := AnswerQuestion(s.filledText, question, svc.post);
      (s.(qaHistory := s.qaHistory + [QaEntry(question, answer)]), [AnswerCall])
    else (s, [])
  }

  /** The history newest first. */
  function Newest(h: seq<QaEntry>): seq<QaEntry>
    decreases |h|
  {
    if h == [] then [] else [h[|h| - 1]] + Newest(h[..|h| - 1])
  }

  /** One run of the script. */
  function RunStep<Image>(s: State, act: Interaction, svc: Services<Image>): (State, View) {
    var (s1, c1, report) := UploadStep(s, act.upload, svc);
    var (s2, c2) := FillStep(s1, act.fillClicked, svc);
    var pdf := if s2.filledText != [] then Some(Render(s2.filledText)) else None;
    var (s3, c3) := AskStep(s2, act.question, svc);
    (s3, View(c1 + c2 + c3, report, pdf, Newest(s3.qaHistory)))
  }

  /**
   * Several runs in a row, with the view of each.  Run `k` sees the services
   * as they answer at that moment, `svcs[k]`, so a rasterising, OCR or network
   * call that raised once may succeed on a rerun, and a question asked again
   * may get another answer.
   */
  function Runs<Image>(s: State, acts: seq<Interaction>, svcs: seq<Services<Image>>): (State, seq<View>)
    requires |svcs| == |acts|
    decreases |acts|
  {
    if acts == [] then (s, [])
    else
      var (mid, views) := Runs(s, acts[..|acts| - 1], svcs[..|acts| - 1]);
      var (next, view) := RunStep(mid, acts[|acts| - 1], svcs[|acts| - 1]);
      (next, views + [view])
  }

  /** How many of the runs called the question-answering service. */
  function Answered(views: seq<View>): nat
    decreases |views|
  {
    if views == [] then 0
    else Answered(views[..|views| - 1]) + (if AnswerCall in views[|views| - 1].calls then 1 else 0)
  }

  // ---------------------------------------------------------------------
  // Properties of one run

  /**
   * OCR runs exactly when a file is uploaded and no text has been extracted
   * yet; extracted text, once there, is never changed.
   */
  lemma OcrGuard<Image>(s: State, act: Interaction, svc: Services<Image>)
    ensures var (next, view) := RunStep(s, act, svc);
            && (OcrCall in view.calls <==> act.upload.Some? && s.ocrText == [])
            && (OcrCall in view.calls ==> next.ocrText == PdfText(act.upload.value, svc.convert, svc.ocr).0)
            && (OcrCall !in view.calls ==> next.ocrText == s.ocrText && view.report == None)
  {
  }

  /**
   * The form is filled exactly when the button is clicked while there is
   * extracted text (so never from empty text), and only `filled_text` changes.
   */
  lemma FillGuard<Image>(s: State, act: Interaction, svc: Services<Image>)
    ensures var (s1, _, _) := UploadStep(s, act.upload, svc);
            var (next, view) := RunStep(s, act, svc);
            && (FillCall in view.calls <==> act.fillClicked && s1.ocrText != [])
            && next.filledText == (if FillCall in view.calls then FillMissing(s1.ocrText, svc.post) else s.filledText)
            && next.ocrText == s1.ocrText
  {
  }

  /**
   * A question is answered exactly when it and the filled text are both
   * non-empty; the answer is appended as one entry and nothing else changes.
   * A run repeats this for the question still in the box.
   */
  lemma AskAppends<Image>(s: State, act: Interaction, svc: Services<Image>)
    ensures var (s1, _, _) := UploadStep(s, act.upload, svc);
            var (s2, _) := FillStep(s1, act.fillClicked, svc);
            var (next, view) := RunStep(s, act, svc);
            var asked := AnswerCall in view.calls;
            && (asked <==> s2.filledText != [] && act.question != [])
            && |next.qaHistory| == |s.qaHistory| + (if asked then 1 else 0)
            && next.qaHistory[..|s.qaHistory|] == s.qaHistory
            && (asked ==> next.qaHistory[|s.qaHistory|]
                            == QaEntry(act.question, AnswerQuestion(s2.filledText, act.question, svc.post)))
            && next.ocrText == s2.ocrText && next.filledText == s2.filledText
  {
    var (s1, _, _) := UploadStep(s, act.upload, svc);
    var (s2, _) := FillStep(s1, act.fillClicked, svc);
    assert s2.qaHistory == s.qaHistory;
  }

  /** Position of a call in the script: OCR comes first, then fill, then answer. */
  function Rank(c: Call): nat
  {
    match c
    case OcrCall => 0
    case FillCall => 1
    case AnswerCall => 2
  }

  /** The calls of a run come in script order: OCR, then fill, then answer, each at most once. */
  lemma CallOrder<Image>(s: State, act: Interaction, svc: Services<Image>)
    ensures var calls := RunStep(s, act, svc).1.calls;
            |calls| <= 3 && forall i, j :: 0 <= i < j < |calls| ==> Rank(calls[i]) < Rank(calls[j])
  {
    var (s1, c1, _) := UploadStep(s, act.upload, svc);
    var (s2, c2) := FillStep(s1, act.fillClicked, svc);
    var (s3, c3) := AskStep(s2, act.question, svc);
    assert c1 == [] || c1 == [OcrCall];
    assert c2 == [] || c2 == [FillCall];
    assert c3 == [] || c3 == [AnswerCall];
    assert RunStep(s, act, svc).1.calls == c1 + c2 + c3;
  }

  /** A PDF is offered exactly when there is filled text, and it is that text rendered. */
  lemma PdfOffered<Image>(s: State, act: Interaction, svc: Services<Image>)
    ensures var (next, view) := RunStep(s, act, svc);
            view.pdf == if next.filledText != [] then Some(Render(next.filledText)) else None
  {
  }

  /** Newest first: entry `i` of the display is entry `|h| - 1 - i` of the history. */
  lemma {:induction false} NewestIsReverse(h: seq<QaEntry>)
    ensures |Newest(h)| == |h|
    ensures forall i :: 0 <= i < |h| ==> Newest(h)[i] == h[|h| - 1 - i]
    decreases |h|
  {
    if h != [] {
      NewestIsReverse(h[..|h| - 1]);
    }
  }

  /** Every run keeps the session consistent: no filled text without extracted text. */
  lemma RunConsistent<Image>(s: State, act: Interaction, svc: Services<Image>)
    requires Consistent(s)
    ensures Consistent(RunStep(s, act, svc).0)
  {
  }

  /**
   * When extraction raises, the slot stays empty, so the next run with the
   * file still uploaded extracts again, whatever the services answer then;
   * if that attempt succeeds, its text is kept.
   */
  lemma FailedExtractionRetried<Image>(s: State, act: Interaction, svc: Services<Image>, retry: Services<Image>)
    requires s.ocrText == [] && act.upload.Some?
    requires PdfText(act.upload.value, svc.convert, svc.ocr).1.Some?
    ensures var (next, view) := RunStep(s, act, svc);
            && next.ocrText == [] && view.report.Some?
            && OcrCall in RunStep(next, act, retry).1.calls
            && (PdfText(act.upload.value, retry.convert, retry.ocr).1.None? ==>
                  RunStep(next, act, retry).0.ocrText == PdfText(act.upload.value, retry.convert, retry.ocr).0)
  {
  }

  /**
   * A failed fill request still yields non-empty filled text (the error
   * string), so the error is rendered as the PDF and questions are enabled.
   */
  lemma FailedFillEnablesAsk<Image>(s: State, act: Interaction, svc: Services<Image>)
    requires s.ocrText != [] && act.fillClicked
    requires !Succeeded(svc.post(FillRequest(s.ocrText)))
    ensures var (next, view) := RunStep(s, act, svc);
            && next.filledText != [] && view.pdf.Some?
            && (act.question != [] ==> AnswerCall in view.calls)
  {
    ErrorReplyNonEmpty(svc.post(FillRequest(s.ocrText)));
  }

  // ---------------------------------------------------------------------
  // Properties of many runs

  /**
   * The history is append-only: after any number of runs the old history is
   * a prefix of the new one, which has grown by exactly the number of runs
   * that answered a question.
   */
  lemma {:induction false} HistoryAppendOnly<Image>(s: State, acts: seq<Interaction>, svcs: seq<Services<Image>>)
    requires |svcs| == |acts|
    ensures var (last, views) := Runs(s, acts, svcs);
            && |last.qaHistory| == |s.qaHistory| + Answered(views)
            && last.qaHistory[..|s.qaHistory|] == s.qaHistory
    decreases |acts|
  {
    if acts != [] {
      var (mid, views) := Runs(s, acts[..|acts| - 1], svcs[..|acts| - 1]);
      HistoryAppendOnly(s, acts[..|acts| - 1], svcs[..|acts| - 1]);
      AskAppends(mid, acts[|acts| - 1], svcs[|acts| - 1]);
      var (next, view) := RunStep(mid, acts[|acts| - 1], svcs[|acts| - 1]);
      assert (views + [view])[..|views|] == views;
      assert next.qaHistory[..|mid.qaHistory|][..|s.qaHistory|] == next.qaHistory[..|s.qaHistory|];
    }
  }

  /** Once text has been extracted, no later run extracts again or changes it. */
  lemma {:induction false} OcrOnce<Image>(s: State, acts: seq<Interaction>, svcs: seq<Services<Image>>)
    requires s.ocrText != [] && |svcs| == |acts|
    ensures var (last, views) := Runs(s, acts, svcs);
            && last.ocrText == s.ocrText
            && forall k :: 0 <= k < |views| ==> OcrCall !in views[k].calls
    decreases |acts|
  {
    if acts != [] {
      var (mid, views) := Runs(s, acts[..|acts| - 1], svcs[..|acts| - 1]);
      OcrOnce(s, acts[..|acts| - 1], svcs[..|acts| - 1]);
      OcrGuard(mid, acts[|acts| - 1], svcs[|acts| - 1]);
    }
  }

  /** The session as the script keeps it between runs. */
  class Session {
    var ocrText: string
    var filledText: string
    var qaHistory: seq<QaEntry>

    function Snapshot(): State
      reads this
    {
      State(ocrText, filledText, qaHistory)
    }

    constructor ()
      ensures Snapshot() == Initial()
    {
      ocrText, filledText, qaHistory := [], [], [];
    }

    /** One run of the script from top to bottom. */
    method Run<Image>(act: Interaction, svc: Services<Image>) returns (view: View)
      modifies this
      ensures (Snapshot(), view) == RunStep(old(Snapshot()), act, svc)
    {
      ghost var s0 := Snapshot();
      var calls: seq<Call> := [];
      var report: Option<string> := None;
      if act.upload.Some? && ocrText == [] {
        var text, r := PdfToText(act.upload.value, svc.convert, svc.ocr);
        ocrText, report, calls := text, r, [OcrCall];
      }
      ghost var up := UploadStep(s0, act.upload, svc);
      assert (Snapshot(), calls, report) == up;
      ghost var c1 := calls;
      if ocrText != [] && act.fillClicked {
        filledText := FillMissing(ocrText, svc.post);
        calls := calls + [FillCall];
      }
      ghost var fill := FillStep(up.0, act.fillClicked, svc);
      assert Snapshot() == fill.0 && calls == c1 + fill.1;
      ghost var c2 := calls;
      var pdf: Option<seq<Op>> := None;
      if filledText != [] {
        var ops := GeneratePdf(filledText);
        pdf := Some(ops);
      }
      if filledText != [] && act.question != [] {
        var answer := AnswerQuestion(filledText, act.question, svc.post);
        qaHistory := qaHistory + [QaEntry(act.question, answer)];
        calls := calls + [AnswerCall];
      }
      ghost var ask := AskStep(fill.0, act.question, svc);
      assert Snapshot() == ask.0 && calls == c2 + ask.1;
      view := View(calls, report, pdf, Newest(qaHistory));
    }
  }
}
