/**
 * The standalone template-string rule: a `gql` tagged template without
 * interpolations is parsed as GraphQL, and a syntax error is reported at
 * the corresponding place of the JavaScript file. The GraphQL parser is a
 * parameter (`parse`); only its outcome on the template text matters.
 */
module TemplateString {
  import opened Common
  import opened Location

  /** The tag of a tagged template: a bare identifier, or any other expression. */
  datatype Tag = IdentifierTag(name: string) | OtherTag

  /**
   * A tagged template expression: its tag, the cooked text of each quasi
   * (one more than the interpolations) and where the expression starts.
   */
  datatype TaggedTemplate = TaggedTemplate(tag: Tag, quasis: seq<string>, start: Position)

  /** What the GraphQL parser does with a text: parse it, or throw a syntax error at a location. */
  datatype ParseOutcome = Parsed | SyntaxError(message: string, location: Position)

  /** A report of the rule: its message and, for syntax errors, an explicit location. */
  datatype Report = Report(message: string, loc: Option<Position>)

  const InterpolationMessage := "Unexpected interpolation in GraphQL template string."

  /** `message.split('\n')[0]`: the text before the first line feed. */
  function FirstLine(message: string): (r: string)
    ensures |r| <= |message| && r == message[..|r|]
    ensures '\n' !in r
    ensures r == message || message[|r|] == '\n'
  {
    if message == [] || message[0] == '\n' then []
    else [message[0]] + FirstLine(message[1..])
  }

  // ---------------------------------------------------------------------
  // The reported location, as written and corrected
  // ---------------------------------------------------------------------

  /** A value JavaScript arithmetic may meet here: a number, `undefined` or `NaN`. */
  datatype JsValue = Num(n: int) | Undefined | NaN

  /** A plain JavaScript object with numeric properties. */
  type JsObject = map<string, int>

  /** A property read: a missing property reads as `undefined`. */
  function Get(obj: JsObject, key: string): (v: JsValue)
    ensures v.Undefined? <==> key !in obj
  {
    if key in obj then Num(obj[key]) else Undefined
  }

  /** `a + b` on numbers: anything added to `undefined` or `NaN` is `NaN`. */
  function JsAdd(a: JsValue, b: JsValue): (r: JsValue)
    ensures r.Num? <==> a.Num? && b.Num?
    ensures r.Num? ==> r.n == a.n + b.n
  {
    if a.Num? && b.Num? then Num(a.n + b.n) else NaN
  }

  /**
   * Both the parser's error location and the node's start position are
   * objects with the properties `line` and `column`.
   */
  function PositionObject(p: Position): JsObject
  {
    map["line" := p.line, "column" := p.column]
  }

  /** A reported location whose column is whatever the arithmetic produced. */
  datatype JsLocation = JsLocation(line: int, col: JsValue)

  /** The location the rule reports, as written: it reads the property `col`. */
  function ReportLocationAsWritten(start: Position, error: Position): (r: JsLocation)
    ensures r.line == (if error.line == 1 then start.line else start.line + error.line - 1)
  {
    var startObj := PositionObject(start);
    var errObj := PositionObject(error);
    if error.line == 1 then
      JsLocation(start.line, JsAdd(JsAdd(Get(startObj, "col"), Get(errObj, "col")), Num(1)))
    else
      JsLocation(start.line + error.line - 1, Get(errObj, "col"))
  }

  /** As written, the reported column is never a number, whatever the error's location. */
  lemma AsWrittenColumnIsNeverANumber(start: Position, error: Position)
    ensures !ReportLocationAsWritten(start, error).col.Num?
    ensures error.line == 1 ==> ReportLocationAsWritten(start, error).col == NaN
    ensures error.line != 1 ==> ReportLocationAsWritten(start, error).col == Undefined
  {
    assert "col" !in PositionObject(start) && "col" !in PositionObject(error);
  }

  /** A syntax error at line 1, column 4 of a template whose expression starts at 3:10. */
  lemma AsWrittenExample()
    ensures ReportLocationAsWritten(Position(3, 10), Position(1, 4)) == JsLocation(3, NaN)
  {
    AsWrittenColumnIsNeverANumber(Position(3, 10), Position(1, 4));
  }

  /** The `loc` object passed to the report as written: its properties are `line` and `col`. */
  function ReportedLocAsWritten(r: JsLocation): map<string, JsValue>
  {
    map["line" := Num(r.line), "col" := r.col]
  }

  /**
   * A reported position is read through its `line` and `column` properties;
   * the object as written carries the line but has no `column` at all, so
   * even a numeric `col` would be lost.
   */
  lemma ReportedColumnIsMissing(start: Position, error: Position)
    ensures "column" !in ReportedLocAsWritten(ReportLocationAsWritten(start, error))
    ensures ReportedLocAsWritten(ReportLocationAsWritten(start, error))["line"]
      == Num(if error.line == 1 then start.line else start.line + error.line - 1)
  {
  }

  /**
   * The location as intended: on the template's first line the error column
   * is shifted past the start column, on later lines the column is kept, and
   * the line is offset from the start line.
   */
  function ReportLocation(start: Position, error: Position): (r: Position)
    ensures error.line == 1 ==> r == Position(start.line, start.column + error.column + 1)
    ensures error.line != 1 ==> r == Position(start.line + error.line - 1, error.column)
  {
    TransformLocation(error, Position(1, 0), Position(start.line, start.column + 1))
  }

  /**
   * The intended mapping is a move between coordinate spaces, so the error
   * location can be recovered from the reported one.
   */
  lemma ReportLocationRoundTrip(start: Position, error: Position)
    ensures TransformLocation(ReportLocation(start, error), Position(start.line, start.column + 1), Position(1, 0)) == error
  {
    TransformInverse(error, Position(1, 0), Position(start.line, start.column + 1));
  }

  /** The corrected location keeps the written one's line; only the column differs. */
  lemma ReportLocationKeepsLine(start: Position, error: Position)
    ensures ReportLocation(start, error).line == ReportLocationAsWritten(start, error).line
  {
  }

  // ---------------------------------------------------------------------
  // The rule
  // ---------------------------------------------------------------------

  /** The TaggedTemplateExpression visitor: the reports it makes for one node. */
  function TemplateStringRule(node: TaggedTemplate, parse: string -> ParseOutcome): (reports: seq<Report>)
    requires |node.quasis| >= 1
    ensures |reports| <= 1
    ensures node.tag != IdentifierTag("gql") ==> reports == []
    ensures node.tag == IdentifierTag("gql") && |node.quasis| > 1 ==> reports == [Report(InterpolationMessage, None)]
    ensures node.tag == IdentifierTag("gql") && |node.quasis| == 1 ==>
      (reports != [] <==> parse(node.quasis[0]).SyntaxError?)
    ensures reports != [] && |node.quasis| == 1 ==>
      var e := parse(node.quasis[0]);
      e.SyntaxError? && reports[0] == Report(FirstLine(e.message), Some(ReportLocation(node.start, e.location)))
  {
    if node.tag != IdentifierTag("gql") then []
    else if |node.quasis| > 1 then [Report(InterpolationMessage, None)]
    else
      match parse(node.quasis[0])
      case SyntaxError(message, location) => [Report(FirstLine(message), Some(ReportLocation(node.start, location)))]
      case Parsed => []
  }

  /** Only the first quasi's text reaches the parser: parsers that agree on it give the same reports. */
  lemma OnlyFirstQuasiIsParsed(node: TaggedTemplate, p1: string -> ParseOutcome, p2: string -> ParseOutcome)
    requires |node.quasis| >= 1
    requires p1(node.quasis[0]) == p2(node.quasis[0])
    ensures TemplateStringRule(node, p1) == TemplateStringRule(node, p2)
  {
  }

  /** A template with interpolations is never parsed: the parser makes no difference. */
  lemma InterpolationIsNotParsed(node: TaggedTemplate, p1: string -> ParseOutcome, p2: string -> ParseOutcome)
    requires |node.quasis| > 1
    ensures TemplateStringRule(node, p1) == TemplateStringRule(node, p2)
  {
  }
}
