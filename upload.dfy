/**
 * `analyze_sentiment`: the view that checks an uploaded review spreadsheet,
 * hands at most fifty reviews to `analyze_reviews` and renders either the
 * scores or one error message. The request, the spreadsheet readers and the
 * analysis are values and parameters; rendering is the `Page` returned.
 */
module Upload {
  import opened Wrappers
  import opened Strings
  import opened JsonValue
  import ScoreParser

  const NoFileError: string := "No file uploaded"
  const InvalidFormatError: string := "Invalid file format. Please upload CSV or XLSX file."
  const ReadErrorPrefix: string := "Error reading file: "
  /** The message names the column in lower case although the check is for `Review`. */
  const MissingColumnError: string := "The file does not contain a \"review\" column"
  const AnalysisErrorPrefix: string := "Error during sentiment analysis: "

  const ReviewColumn: string := "Review"
  const BatchLimit: nat := 50

  /** What the view sees of the HTTP request: whether it is a POST, and the
      name of the uploaded `file` field when there is one. */
  datatype Request = Request(isPost: bool, fileName: Option<string>)

  /** Which pandas reader the extension selects. */
  datatype Format = Csv | Excel

  /** A data frame as far as the view uses it: its column labels, and the
      values of its `Review` column in row order (meaningful only when that
      label is present). */
  datatype Table<C> = Table(columns: seq<string>, review: seq<C>)

  /** `read_csv` or `read_excel` on the uploaded file: a table, or the text of
      the exception it raises. */
  type Reader<C> = Format -> Result<Table<C>>

  /** `analyze_reviews` on a batch: the scores, or the text of what it raises. */
  type Analysis<-C> = seq<C> -> Result<Json>

  /** The rendered page: the empty form, the form with an error, or the
      result page with the scores. */
  datatype Page = AnalyzeForm | AnalyzeFormError(error: string) | ResultPage(scores: Json)

  /** `file.name.split('.')[-1].lower()`. */
  function Extension(name: string): (e: string)
    ensures '.' !in e
    ensures '.' !in name ==> e == Lower(name)
  {
    LastPieceIsFinal(name, '.');
    LowerKeepsDotFree(LastPiece(name, '.'));
    Lower(LastPiece(name, '.'))
  }

  /** The extension chain at lines 27-32: `csv` selects the CSV reader,
      `xlsx` and `xls` the Excel reader, anything else is refused. */
  function FormatOf(extension: string): (f: Option<Format>)
    ensures f == Some(Csv) <==> extension == "csv"
    ensures f == Some(Excel) <==> extension in ["xlsx", "xls"]
  {
    if extension == "csv" then Some(Csv)
    else if extension in ["xlsx", "xls"] then Some(Excel)
    else None
  }

  /** `df['Review'].tolist()[:50]`: the first fifty reviews, in order, or all
      of them when there are fewer. */
  function ReviewBatch<C>(column: seq<C>): (batch: seq<C>)
    ensures |batch| == if |column| < BatchLimit then |column| else BatchLimit
    ensures forall i :: 0 <= i < |batch| ==> batch[i] == column[i]
  {
    if |column| <= BatchLimit then column else column[..BatchLimit]
  }

  /** Where the checks at lines 19-39 leave a request: not a form submission,
      refused with a message, or accepted with the batch to analyse. */
  datatype Checked<C> = NotSubmitted | Refused(error: string) | Accepted(batch: seq<C>)

  /** The validation chain, in source order; the first failing check decides
      the message, and `read` is consulted only with a known format. */
  function Validate<C>(req: Request, read: Reader<C>): (r: Checked<C>)
    ensures r.NotSubmitted? <==> !req.isPost
    ensures r.Accepted? <==>
              && req.isPost && req.fileName.Some?
              && FormatOf(Extension(req.fileName.value)).Some?
              && read(FormatOf(Extension(req.fileName.value)).value).Ok?
              && ReviewColumn in read(FormatOf(Extension(req.fileName.value)).value).value.columns
    ensures r.Accepted? ==>
              r.batch == ReviewBatch(read(FormatOf(Extension(req.fileName.value)).value).value.review)
  {
    if !req.isPost then NotSubmitted
    else match req.fileName
      case None => Refused(NoFileError)
      case Some(name) =>
        match FormatOf(Extension(name))
        case None => Refused(InvalidFormatError)
        case Some(format) =>
          match read(format)
          case Err(detail) => Refused(ReadErrorPrefix + detail)
          case Ok(table) =>
            if ReviewColumn !in table.columns then Refused(MissingColumnError)
            else Accepted(ReviewBatch(table.review))
  }

  /** `analyze_sentiment(request)`: the checks, then the analysis, whose
      scores go to the result page unchanged and whose failure is reported
      with a fixed prefix. */
  function AnalyzeSentiment<C>(req: Request, read: Reader<C>, analyze: Analysis<C>): (page: Page)
    ensures page == AnalyzeForm <==> !req.isPost
    ensures page.ResultPage? <==> Validate(req, read).Accepted? && analyze(Validate(req, read).batch).Ok?
    ensures page.ResultPage? ==> analyze(Validate(req, read).batch) == Ok(page.scores)
  {
    match Validate(req, read)
    case NotSubmitted => AnalyzeForm
    case Refused(error) => AnalyzeFormError(error)
    case Accepted(batch) =>
      match analyze(batch)
      case Ok(scores) => ResultPage(scores)
      case Err(message) => AnalyzeFormError(AnalysisErrorPrefix + message)
  }

  /** The view wired to the real `analyze_reviews`. */
  function HandleUpload<C>(req: Request, read: Reader<C>, dumps: seq<C> -> Result<string>,
                           complete: ScoreParser.Prompt -> Result<string>,
                           loads: ScoreParser.Loads): (page: Page)
    ensures page.ResultPage? ==> ScoreParser.HasScores(page.scores)
  {
    AnalyzeSentiment(req, read, batch => ScoreParser.AnalyzeReviews(batch, dumps, complete, loads))
  }

  // ---------------------------------------------------------------------
  // The file extension
  // ---------------------------------------------------------------------

  /** The extension is the final dot-separated piece, lower-cased. */
  lemma ExtensionIsFinalPiece(name: string)
    ensures Extension(name) == Lower(Split(name, '.')[|Split(name, '.')| - 1])
  {
    LastPieceOfSplit(name, '.');
  }

  /** Whatever precedes the last dot is ignored. */
  lemma ExtensionAfterLastDot(stem: string, e: string)
    requires '.' !in e
    ensures Extension(stem + "." + e) == Lower(e)
  {
    var s := stem + "." + e;
    FinalPieceAfterDot(stem, e);
    FinalPieceIsLastPiece(s, '.', e);
  }

  lemma FinalPieceAfterDot(stem: string, e: string)
    requires '.' !in e
    ensures IsFinalPiece(stem + "." + e, '.', e)
  {
    var s := stem + "." + e;
    assert s[|s| - |e|..] == e;
    assert s[|s| - |e| - 1] == '.';
  }

  /** Only the extensions `csv`, `xlsx` and `xls`, in any letter case, are
      accepted. */
  lemma AcceptedExtensions(stem: string, e: string)
    requires '.' !in e
    ensures FormatOf(Extension(stem + "." + e)).Some? <==> Lower(e) in ["csv", "xlsx", "xls"]
  {
    ExtensionAfterLastDot(stem, e);
  }

  /** Upper-case letters in the extension make no difference. */
  lemma UpperCaseCsvAccepted(stem: string)
    ensures FormatOf(Extension(stem + ".CSV")) == Some(Csv)
  {
    assert stem + ".CSV" == stem + "." + "CSV";
    ExtensionAfterLastDot(stem, "CSV");
    LowerCsv();
  }

  lemma LowerCsv()
    ensures Lower("CSV") == "csv"
  {
    var l := Lower("CSV");
    assert l[0] == 'c' && l[1] == 's' && l[2] == 'v';
  }

  /** A name without a dot is its own extension: a file called `csv` is read
      as CSV. */
  lemma BareCsvNameAccepted()
    ensures FormatOf(Extension("csv")) == Some(Csv)
  {
    assert '.' !in "csv";
    assert Lower("csv") == "csv";
  }

  /** Only the last piece counts: `reviews.csv.bak` is refused. */
  lemma InnerExtensionIgnored()
    ensures FormatOf(Extension("reviews.csv" + "." + "bak")) == None
  {
    ExtensionAfterLastDot("reviews.csv", "bak");
    var l := Lower("bak");
    assert l[0] == 'b';
  }

  // ---------------------------------------------------------------------
  // The order of the checks
  // ---------------------------------------------------------------------

  /** Anything but a POST renders the empty form. */
  lemma GetRendersForm<C>(req: Request, read: Reader<C>, analyze: Analysis<C>)
    requires !req.isPost
    ensures AnalyzeSentiment(req, read, analyze) == AnalyzeForm
  {
  }

  /** First check: a POST without a file is refused, and neither a reader
      nor the analysis is used. */
  lemma MissingFileRefused<C>(req: Request, read1: Reader<C>, read2: Reader<C>,
                              analyze1: Analysis<C>, analyze2: Analysis<C>)
    requires req.isPost && req.fileName.None?
    ensures AnalyzeSentiment(req, read1, analyze1) == AnalyzeFormError(NoFileError)
    ensures AnalyzeSentiment(req, read1, analyze1) == AnalyzeSentiment(req, read2, analyze2)
  {
  }

  /** Second check: an extension other than `csv`, `xlsx`, `xls` is refused
      before any reader runs, so the outcome does not depend on the file's
      contents or on the analysis. */
  lemma BadExtensionRefused<C>(req: Request, read1: Reader<C>, read2: Reader<C>,
                               analyze1: Analysis<C>, analyze2: Analysis<C>)
    requires req.isPost && req.fileName.Some?
    requires FormatOf(Extension(req.fileName.value)).None?
    ensures AnalyzeSentiment(req, read1, analyze1) == AnalyzeFormError(InvalidFormatError)
    ensures AnalyzeSentiment(req, read1, analyze1) == AnalyzeSentiment(req, read2, analyze2)
  {
  }

  /** Third check: a reader that raises is reported with its message, and
      the analysis is not used. `csv` selects the CSV reader and `xlsx` and
      `xls` the Excel one. */
  lemma ReadFailureReported<C>(req: Request, read: Reader<C>, format: Format,
                               analyze1: Analysis<C>, analyze2: Analysis<C>, detail: string)
    requires req.isPost && req.fileName.Some?
    requires FormatOf(Extension(req.fileName.value)) == Some(format)
    requires read(format) == Err(detail)
    ensures AnalyzeSentiment(req, read, analyze1) == AnalyzeFormError(ReadErrorPrefix + detail)
    ensures AnalyzeSentiment(req, read, analyze1) == AnalyzeSentiment(req, read, analyze2)
  {
  }

  /** Fourth check: a table without a column labelled exactly `Review` is
      refused, and the analysis is not used. */
  lemma MissingColumnRefused<C>(req: Request, read: Reader<C>, format: Format,
                                analyze1: Analysis<C>, analyze2: Analysis<C>, table: Table<C>)
    requires req.isPost && req.fileName.Some?
    requires FormatOf(Extension(req.fileName.value)) == Some(format)
    requires read(format) == Ok(table) && ReviewColumn !in table.columns
    ensures AnalyzeSentiment(req, read, analyze1) == AnalyzeFormError(MissingColumnError)
    ensures AnalyzeSentiment(req, read, analyze1) == AnalyzeSentiment(req, read, analyze2)
  {
  }

  /** Whenever a check fails the analysis is never run: the page is the same
      whatever the analysis would have done. */
  lemma RefusalIgnoresAnalysis<C>(req: Request, read: Reader<C>, analyze1: Analysis<C>, analyze2: Analysis<C>)
    requires !Validate(req, read).Accepted?
    ensures AnalyzeSentiment(req, read, analyze1) == AnalyzeSentiment(req, read, analyze2)
  {
  }

  /** When every check passes, the analysis decides the page: its scores are
      shown unchanged, its failure message behind a fixed prefix. */
  lemma AnalysisDecides<C>(req: Request, read: Reader<C>, analyze: Analysis<C>, format: Format, table: Table<C>)
    requires req.isPost && req.fileName.Some?
    requires FormatOf(Extension(req.fileName.value)) == Some(format)
    requires read(format) == Ok(table) && ReviewColumn in table.columns
    ensures AnalyzeSentiment(req, read, analyze)
            == match analyze(ReviewBatch(table.review))
               case Ok(scores) => ResultPage(scores)
               case Err(message) => AnalyzeFormError(AnalysisErrorPrefix + message)
  {
  }

  // ---------------------------------------------------------------------
  // The batch
  // ---------------------------------------------------------------------

  /** The batch is the column itself when it has at most fifty entries, and
      otherwise its first fifty. */
  lemma {:induction false} BatchIsPrefix<C>(column: seq<C>)
    ensures |column| <= BatchLimit ==> ReviewBatch(column) == column
    ensures |column| > BatchLimit ==> ReviewBatch(column) == column[..BatchLimit]
    ensures |ReviewBatch(column)| <= BatchLimit
  {
    var b := ReviewBatch(column);
    assert b == column[..|b|];
  }

  /** A column of 120 reviews yields exactly its first 50. */
  lemma LongColumnTruncated<C>(column: seq<C>)
    requires |column| == 120
    ensures |ReviewBatch(column)| == 50
    ensures ReviewBatch(column) + column[50..] == column
  {
    BatchIsPrefix(column);
  }

  // ---------------------------------------------------------------------
  // The whole request
  // ---------------------------------------------------------------------

  /** A spreadsheet missing the `Review` column never reaches the completion
      service: the page is the same for every service and every decoder. */
  lemma MissingColumnNeverCallsService<C>(req: Request, read: Reader<C>, format: Format, table: Table<C>,
                                          dumps: seq<C> -> Result<string>,
                                          complete1: ScoreParser.Prompt -> Result<string>,
                                          complete2: ScoreParser.Prompt -> Result<string>,
                                          loads1: ScoreParser.Loads, loads2: ScoreParser.Loads)
    requires req.isPost && req.fileName.Some?
    requires FormatOf(Extension(req.fileName.value)) == Some(format)
    requires read(format) == Ok(table) && ReviewColumn !in table.columns
    ensures HandleUpload(req, read, dumps, complete1, loads1) == AnalyzeFormError(MissingColumnError)
    ensures HandleUpload(req, read, dumps, complete1, loads1) == HandleUpload(req, read, dumps, complete2, loads2)
  {
  }

  /** A completion that decodes to an object without a score key is shown
      as a doubly wrapped missing-key error. */
  lemma MissingKeyPage<C>(req: Request, read: Reader<C>, format: Format, table: Table<C>,
                          dumps: seq<C> -> Result<string>,
                          complete: ScoreParser.Prompt -> Result<string>,
                          loads: ScoreParser.Loads, content: string, members: map<string, Json>)
    requires req.isPost && req.fileName.Some?
    requires FormatOf(Extension(req.fileName.value)) == Some(format)
    requires read(format) == Ok(table) && ReviewColumn in table.columns
    requires dumps(ReviewBatch(table.review)).Ok?
    requires complete(ScoreParser.Prompt(dumps(ReviewBatch(table.review)).value)) == Ok(content)
    requires loads(Trim(content)) == Some(JObject(members))
    requires !("positive" in members && "negative" in members && "neutral" in members)
    ensures HandleUpload(req, read, dumps, complete, loads)
            == AnalyzeFormError(AnalysisErrorPrefix + (ScoreParser.ApiErrorPrefix + ScoreParser.MissingKeysError))
  {
    var batch := ReviewBatch(table.review);
    assert Validate(req, read) == Accepted(batch);
    ScoreParser.MissingKeysMessage(batch, dumps, complete, loads, content, members);
  }

}
