# AI PDF auto-filler: a Dafny model of its pipeline

The program is a Streamlit page with four steps. It OCRs an uploaded scanned PDF form and has a chat-completion service fill in the missing values. It re-renders the filled text as a new PDF. Then it answers free-form questions about the filled text and keeps a history of them. This project models the parts of `app93.py` that hold logic and proves properties about them:

- **Renderer** (`generate_pdf`). The canvas is an operation log: `Title(y)`, `Draw(page, y, text)` and `ShowPage`. `PdfLayout.Render` specifies the whole log, built from the per-line step `PdfLayout.LayoutLine` and the fold `PdfLayout.Layout`. `PdfRenderer.GeneratePdf` is the program's own loop over a `Canvas` object: an outer loop over `text.split("\n")` and an inner wrap loop. It is proved equal to `Render`. The cursor is an `int` because LETTER's height, 792, is a whole number.
- **Text extractor** (`pdf_to_text`). The method `TextExtractor.PdfToText` accumulates the page texts in a loop. It is proved equal to the specification `TextExtractor.PdfText`. Rasterising and OCR are passed in as functions that either return or raise.
- **LLM clients** (`groq_fill_missing`, `groq_answer_question`). `LlmClient.Reply` is the status/exception dispatch both clients share. The HTTP post is a parameter that returns a `HttpOutcome`.
- **Session** (`st.session_state`). `SessionState.Session` is a class with the three slots. Its `Run` method applies one script run: upload and OCR, fill, render, ask, then show the history. It is proved equal to the pure transition `SessionState.RunStep`, and the guards and the append-only history are proved about `RunStep` and about `Runs`, a sequence of runs in which each run sees the services as they answer at that moment (a call that raised may succeed on a rerun, and a question asked again may get another answer).

Quirks of the renderer that are modelled as written and proved:

- The page check happens only after a non-blank line. It never happens inside the wrap loop or after blank lines.
- Only the last piece of a wrapped line is stripped.
- Text can be drawn below the bottom margin, and even off the page. `PdfLayout.TextCanLeaveThePage` shows 62 blank lines followed by `A`: the `A` is drawn at y = -22.

Two consequences of the code that are easy to miss, both proved:

- A failed extraction leaves `ocr_text` empty, so extraction runs again on every rerun while the file stays in the uploader (`SessionState.FailedExtractionRetried`).
- The final wrapped segment is `strip()`ped, so the drawn segments rebuild the line only with that segment unstripped (`PdfLayout.WrapRebuildsLine`).

## Model

| member | source | states |
|---|---|---|
| TextOps.Split | app93.py:85 | `text.split("\n")` yields at least one line, and no line contains a newline |
| TextOps.JoinSplit | app93.py:85 | splitting loses nothing: joining the lines with newlines gives the text back |
| TextOps.SplitJoin | app93.py:85 | joining lines that contain no newline and then splitting gives the same lines back |
| TextOps.StripLeftFacts | app93.py:86 | the left half of `strip()` drops exactly the leading whitespace: the result is a suffix of the input, everything before it is whitespace, and it does not start with whitespace |
| TextOps.StripRightFacts | app93.py:86 | the right half of `strip()` drops exactly the trailing whitespace |
| TextOps.StripSlice | app93.py:93 | `strip()` splits a line into leading whitespace, a core that neither starts nor ends with whitespace, and trailing whitespace, and the three parts concatenate back to the line |
| TextOps.StripEmpty | app93.py:86 | `not line.strip()` holds exactly when the line is all whitespace (in Python's `isspace` sense) |
| PdfLayout.FullChunks | app93.py:89-91 | the pieces the wrap loop draws before the last one are each exactly 110 characters, and a line of at most 110 characters has none |
| PdfLayout.Remainder | app93.py:89-91 | what is left when the wrap loop stops has at most 110 characters and is no longer than the line |
| PdfLayout.ChunkCount | app93.py:89-92 | a non-empty line goes through the wrap loop (len-1) div 110 times and leaves a non-empty remainder, so the loop terminates |
| PdfLayout.ChunksRebuildLine | app93.py:89-91 | the 110-character pieces followed by the unstripped remainder concatenate to the original line |
| PdfLayout.WrapWidths | app93.py:89-93 | every body string drawn for a line has at most 110 characters, and every piece except the last has exactly 110 |
| PdfLayout.WrapCount | app93.py:89-93 | a non-empty line is drawn as ceil(len/110) strings |
| PdfLayout.WrapRebuildsLine | app93.py:90-93 | only the last drawn piece is stripped: with the unstripped remainder in its place, the drawn pieces concatenate to the line |
| PdfLayout.ShortLineVerbatim | app93.py:85-93 | a line of at most 110 characters with no surrounding whitespace is drawn as exactly itself |
| PdfLayout.LineLayoutFacts | app93.py:85-98 | a blank line draws nothing and lowers y by 12; a non-blank line draws its pieces on the current page at y, y-12, …; a page break follows exactly when y has fallen below 40; afterwards the cursor is at 752 on the next page after a break, and otherwise 12 points below the last piece on the same page |
| PdfLayout.LayoutAppend | app93.py:85 | lines are processed in sequence: laying out a+b is laying out a, then b from where a left the cursor |
| PdfLayout.BlankRun | app93.py:85-88 | any run of k blank lines (empty or whitespace only, such as a `\r` left by CRLF text) draws nothing, never breaks the page, and lowers y by 12k, however low that takes it |
| PdfLayout.TextCanLeaveThePage | app93.py:79-98 | the full log for 62 blank lines followed by `A` is: the title at 752, `A` drawn at y = -22 on page 0, then a page break |
| PdfLayout.LayoutDrawsBody | app93.py:85-94 | the drawn strings are exactly the wrapped pieces of the non-blank lines, line by line and in order |
| PdfLayout.LayoutNarrow | app93.py:89-93 | in the whole document, every drawn body string has at most 110 characters |
| PdfLayout.LayoutPages | app93.py:90-97 | each drawn line carries the number of page breaks before it, and the final page number counts all the breaks |
| PdfLayout.RenderStart | app93.py:78-82 | the title is drawn at y = 752 (792 - 40); a non-blank first line is drawn at y = 722 on page 0 |
| PdfRenderer.Canvas.constructor | app93.py:77 | a fresh canvas has an empty log and is on page 0 |
| PdfRenderer.Canvas.DrawTitle | app93.py:81 | appends the title at y; the page is unchanged |
| PdfRenderer.Canvas.DrawString | app93.py:90 | appends one drawn string at y on the current page; the page is unchanged |
| PdfRenderer.Canvas.ShowPage | app93.py:96 | appends a page break and moves to the next page |
| PdfRenderer.DrawWrapped | app93.py:89-94 | the wrap loop appends exactly the pieces of the line, 12 points apart from the current cursor on the current page, and lowers the cursor by 12 per piece |
| PdfRenderer.DrawLine | app93.py:86-98 | one pass of the loop over lines changes the canvas and the cursor exactly as the specification step `LayoutLine` |
| PdfRenderer.GeneratePdf | app93.py:75-102 | the loops leave on the canvas exactly the log `Render(text)`, about which the layout lemmas above are proved |
| TextExtractor.OcrPagesPointwise | app93.py:40-45 | OCR of the document succeeds exactly when every page's OCR succeeds, and then it yields one text per page, text i being page i's OCR result |
| TextExtractor.OcrErrorStops | app93.py:40-45 | once a page's OCR raises, the later pages change nothing: the first error decides the outcome |
| TextExtractor.PdfToText | app93.py:36-45 | returns the page texts, each followed by a newline, in page order, with no report; if rasterising or any OCR raises, returns the empty string and the `❌ PDF processing error:` report |
| TextExtractor.PageTextEmpty | app93.py:39-42 | the extracted text is empty exactly when the document has no pages |
| TextExtractor.PageTextAppend | app93.py:40-41 | the text of two runs of pages is the text of the first run followed by the text of the second |
| TextExtractor.PageTextIsJoin | app93.py:39-42 | the extracted text is the pages joined by newlines, plus one trailing newline |
| TextExtractor.PagesRecoverable | app93.py:39-42 | when no page text holds a newline, splitting the extracted text gives back the pages plus one empty line |
| LlmClient.Reply | app93.py:66-73 | on status 200 with a readable first choice, returns its content unchanged; on any other status, `❌ Groq API error: ` followed by the body verbatim; when reading the response or the transport raises, `❌ Request failed: ` followed by the message |
| LlmClient.ErrorReplyNonEmpty | app93.py:68-73 | an error reply is longer than its detail, so it is never empty |
| LlmClient.FillReply | app93.py:47-73 | filling sends the form at temperature 0.3 with at most 1500 tokens; the content on success, the marked body on a non-200 status, the marked message when the transport raises, never empty on failure |
| LlmClient.AnswerReply | app93.py:104-131 | answering sends the form and the question at temperature 0.4 with at most 600 tokens, with the same replies |
| SessionState.Session.constructor | app93.py:134-136 | the three slots start empty |
| SessionState.Session.Run | app93.py:138-176 | one script run changes the slots and produces the calls, report, PDF and displayed history exactly as `RunStep` |
| SessionState.OcrGuard | app93.py:140-143 | OCR is called exactly when a file is uploaded and `ocr_text` is empty; otherwise `ocr_text` is unchanged and no error is reported |
| SessionState.FillGuard | app93.py:150-152 | the fill service is called exactly when the button is clicked and `ocr_text` is non-empty, so never on empty text; only `filled_text` changes |
| SessionState.PdfOffered | app93.py:155-161 | a PDF is offered exactly when `filled_text` is non-empty, and it is that text rendered |
| SessionState.AskAppends | app93.py:163-169 | a question is answered exactly when it and `filled_text` are both non-empty; exactly one entry (question, answer) is appended; earlier entries, `ocr_text` and `filled_text` are unchanged |
| SessionState.CallOrder | app93.py:138-169 | a run makes at most three external calls, each at most once and in the order OCR, fill, answer |
| SessionState.NewestIsReverse | app93.py:174 | the displayed history has the same length as the history, and entry i is history entry n-1-i |
| SessionState.RunConsistent | app93.py:134-152 | every run keeps the invariant that filled text never exists without extracted text |
| SessionState.FailedExtractionRetried | app93.py:140-143 | when extraction raises, `ocr_text` stays empty and an error is reported, so the next run with the file still uploaded calls OCR again, whatever the services answer then; if that attempt succeeds, its text is stored |
| SessionState.FailedFillEnablesAsk | app93.py:150-169 | a failed fill request leaves non-empty error text in `filled_text`, so that text is rendered as the PDF and questions are answered against it |
| SessionState.HistoryAppendOnly | app93.py:166-169 | over any sequence of runs, the old history is a prefix of the new one, and it grows by exactly the number of runs that answered a question (each rerun with a question in the box answers it again) |
| SessionState.OcrOnce | app93.py:140-143 | once text has been extracted, no later run calls OCR or changes `ocr_text` |

## Left out

- Streamlit presentation is not modelled: page config, CSS, titles, subheaders, text areas, spinners, the download button and the markdown of the history display. A run's output is reduced to a `View`: the calls made, the extraction error, the offered PDF and the history in display order.
- `pdf2image.convert_from_bytes` and `pytesseract.image_to_string` are opaque libraries. They are the function parameters `convert` and `ocr`, which return a value or raise with a message.
- `requests.post` and `response.json()` are network I/O and JSON decoding. They are one `HttpOutcome` per request: a status, a body and the outcome of reading the first choice's content, or a transport exception. A JSON content that is not a string is not modelled.
- The prompt template texts are plain string formatting. A request carries a `Prompt` tag holding the form (and the question) instead of the formatted text.
- The API key, the headers and the `GROQ_MODEL` name come from the environment and are configuration. Requests do not carry them.
- reportlab internals are a foreign library: the title string "AI-Filled Form" (a `Title` op records only its y), fonts and `setFont`, the x coordinate 40 of every string, PDF bytes, `c.save()` and `buffer.seek(0)`. The canvas is the operation log.
- LETTER's floating-point dimensions are not modelled as reals. The height is the integer 792.
