/**
  The error wrapper of `src/exception.py`: a formatter that turns an error's
  text and the location of the frame that caught it into a one-line message, and the
  `CustomException` class that fixes that message at construction and renders
  it, followed by its context dictionary when that is not empty.

  The traceback the source reads from the interpreter is an explicit
  `Option<Location>` here, and an error object is given by its text.
 */
module Exception {
  import opened Wrappers
  import opened Decimal
  import opened DictDisplay

  /**
    File name and line number of the frame that caught the error: the first
    entry of the active traceback, whose line is the one in its `try` body.
   */
  datatype Location = Location(fileName: string, lineNo: nat)

  const PLAIN_PREFIX := "Error: "
  const LOCATED_HEAD := "Error occurred in Python script ["
  const LINE_TAG := "] at line ["
  const SEPARATOR := "] : "
  const CONTEXT_TAG := " | context="

  predicate StartsWith(s: string, p: string) {
    |p| <= |s| && s[..|p|] == p
  }

  predicate EndsWith(s: string, x: string) {
    |x| <= |s| && s[|s| - |x|..] == x
  }

  /** Everything the detailed form puts before the error text. */
  function LocationPrefix(loc: Location): string {
    LOCATED_HEAD + loc.fileName + LINE_TAG + NatToString(loc.lineNo) + SEPARATOR
  }

  /**
    The message of `build_detailed_error_message`: the plain form when no
    traceback is active, the detailed form naming file and line otherwise.
   */
  function BuildDetailedErrorMessage(errText: string, location: Option<Location>): (msg: string)
    ensures StartsWith(msg, "Error") && EndsWith(msg, errText) && |msg| > |errText|
    ensures StartsWith(msg, PLAIN_PREFIX) <==> location.None?
    ensures location.None? ==> msg == PLAIN_PREFIX + errText
    ensures location.Some? ==> msg == LocationPrefix(location.value) + errText
  {
    match location
    case None => PLAIN_PREFIX + errText
    case Some(loc) =>
      var p := LocationPrefix(loc);
      assert p[..|LOCATED_HEAD|] == LOCATED_HEAD;
      assert (p + errText)[..5] == LOCATED_HEAD[..5] == "Error";
      assert p[5] == LOCATED_HEAD[5] == ' ';
      p + errText
  }

  /**
    Reads the location back from a message, knowing the error text it ends
    with: `Some(None)` for the plain form, `Some(Some(loc))` for the detailed
    form, `None` for a string of neither form.
   */
  function ReadLocation(msg: string, errText: string): Option<Option<Location>> {
    if EndsWith(msg, errText) then ReadHead(msg[..|msg| - |errText|]) else None
  }

  /** Reads the location from what a message puts before the error text. */
  function ReadHead(head: string): Option<Option<Location>> {
    if head == PLAIN_PREFIX then Some(None)
    else if |head| >= |LOCATED_HEAD| + |SEPARATOR| && StartsWith(head, LOCATED_HEAD) && EndsWith(head, SEPARATOR) then
      match ReadBody(head[|LOCATED_HEAD|..|head| - |SEPARATOR|])
      case Some(loc) => Some(Some(loc))
      case None => None
    else None
  }

  /** Reads `<file>] at line [<digits>` as a location. */
  function ReadBody(body: string): Option<Location> {
    var k := TrailingDigits(body);
    if 0 < k && EndsWith(body[..|body| - k], LINE_TAG) then
      Some(Location(body[..|body| - k - |LINE_TAG|], DigitsToNat(body[|body| - k..])))
    else None
  }

  lemma ReadBodyInverts(loc: Location)
    ensures ReadBody(loc.fileName + LINE_TAG + NatToString(loc.lineNo)) == Some(loc)
  {
    var digits := NatToString(loc.lineNo);
    var fileAndTag := loc.fileName + LINE_TAG;
    var body := fileAndTag + digits;
    assert fileAndTag[|fileAndTag| - 1] == LINE_TAG[|LINE_TAG| - 1] == '[';
    TrailingDigitsAfter(fileAndTag, digits);
    assert TrailingDigits(body) == |digits| > 0;
    assert body[..|body| - |digits|] == fileAndTag;
    assert body[|body| - |digits|..] == digits;
    assert fileAndTag[|fileAndTag| - |LINE_TAG|..] == LINE_TAG;
    assert body[..|body| - |digits| - |LINE_TAG|] == loc.fileName;
    NatToStringRoundTrip(loc.lineNo);
  }

  /** A string framed by `a` and `b` starts with `a`, ends with `b` and holds `body` between them. */
  lemma Framed(a: string, body: string, b: string)
    ensures StartsWith(a + body + b, a) && EndsWith(a + body + b, b)
    ensures (a + body + b)[|a|..|a + body + b| - |b|] == body
  {
  }

  lemma ReadHeadInverts(loc: Location)
    ensures ReadHead(LocationPrefix(loc)) == Some(Some(loc))
  {
    var body := loc.fileName + LINE_TAG + NatToString(loc.lineNo);
    var head := LocationPrefix(loc);
    assert head == LOCATED_HEAD + body + SEPARATOR;
    Framed(LOCATED_HEAD, body, SEPARATOR);
    assert |head| > |PLAIN_PREFIX|;
    ReadBodyInverts(loc);
  }

  /** The location, file name and line number alike, is recoverable from the message. */
  lemma ReadLocationInverts(errText: string, location: Option<Location>)
    ensures ReadLocation(BuildDetailedErrorMessage(errText, location), errText) == Some(location)
  {
    var msg := BuildDetailedErrorMessage(errText, location);
    var head := if location.Some? then LocationPrefix(location.value) else PLAIN_PREFIX;
    assert msg == head + errText;
    assert msg[..|msg| - |errText|] == head;
    if location.Some? {
      ReadHeadInverts(location.value);
    }
  }

  /** For a given error text, different locations give different messages. */
  lemma MessageDeterminesLocation(errText: string, a: Option<Location>, b: Option<Location>)
    requires BuildDetailedErrorMessage(errText, a) == BuildDetailedErrorMessage(errText, b)
    ensures a == b
  {
    ReadLocationInverts(errText, a);
    ReadLocationInverts(errText, b);
  }

  /** For a given location, different error texts give different messages. */
  lemma MessageDeterminesErrorText(a: string, b: string, location: Option<Location>)
    requires BuildDetailedErrorMessage(a, location) == BuildDetailedErrorMessage(b, location)
    ensures a == b
  {
  }

  /**
    Without the error text the message does not determine the location: a
    file name may itself contain the line tag.
   */
  lemma LocationAmbiguousWithoutErrorText()
    ensures BuildDetailedErrorMessage("x] at line [2] : y", Some(Location("a", 1)))
         == BuildDetailedErrorMessage("y", Some(Location("a] at line [1] : x", 2)))
  {
    assert NatToString(1) == "1" && NatToString(2) == "2" by {
      assert DigitChar(1) == '1' && DigitChar(2) == '2';
    }
    assert LocationPrefix(Location("a", 1)) == "Error occurred in Python script [" + "a" + "] at line [" + "1" + "] : ";
    assert LocationPrefix(Location("a] at line [1] : x", 2))
        == "Error occurred in Python script [" + "a] at line [1] : x" + "] at line [" + "2" + "] : ";
    assert "Error occurred in Python script [" + "a" + "] at line [" + "1" + "] : " + "x] at line [2] : y"
        == "Error occurred in Python script [" + "a] at line [1] : x" + "] at line [" + "2" + "] : " + "y" by {}
  }

  /** The detailed prefix for line 42 of `calc.py`. */
  lemma CalcPrefix()
    ensures LocationPrefix(Location("calc.py", 42)) == "Error occurred in Python script [calc.py] at line [42] : "
  {
  }

  /** The message of an error caught at line 42 of `calc.py`. */
  lemma DivisionByZeroScenario()
    ensures BuildDetailedErrorMessage("division by zero", Some(Location("calc.py", 42)))
         == "Error occurred in Python script [calc.py] at line [42] : division by zero"
  {
    var loc := Location("calc.py", 42);
    assert BuildDetailedErrorMessage("division by zero", Some(loc)) == LocationPrefix(loc) + "division by zero";
    CalcPrefix();
  }

  /**
    The wrapper exception. `args` is what the base exception keeps; `location`
    records the traceback active at construction, which the source does not keep.
   */
  class CustomException {
    var args: seq<string>
    var context: Dict
    var errorMessage: string
    ghost var location: Option<Location>

    /** The message is the one built from the wrapped error and the traceback read at construction. */
    ghost predicate Valid()
      reads this
    {
      |args| == 1 && errorMessage == BuildDetailedErrorMessage(args[0], location)
    }

    /**
      Wraps the error whose text is `errText`; `context` is `None` when the
      caller omits it, and `traceback` is the location active at the call.
     */
    constructor (errText: string, context: Option<Dict>, traceback: Option<Location>)
      ensures Valid()
      ensures args == [errText] && location == traceback
      ensures this.context == if context.None? || context.value == [] then [] else context.value
      ensures errorMessage == BuildDetailedErrorMessage(errText, traceback)
    {
      args := [errText];
      this.context := if context.None? || context.value == [] then [] else context.value;
      errorMessage := BuildDetailedErrorMessage(errText, traceback);
      location := traceback;
    }

    /** The string conversion of the exception: it reads two fields and changes none. */
    function ToString(): (s: string)
      reads this`context, this`errorMessage
      ensures StartsWith(s, errorMessage)
      ensures s == errorMessage <==> context == []
      ensures context != [] ==> s == errorMessage + CONTEXT_TAG + RenderContext(context)
    {
      if context != [] then errorMessage + CONTEXT_TAG + RenderContext(context) else errorMessage
    }
  }

  /** A valid exception's text is never empty, starts with "Error" and carries the wrapped error's text. */
  lemma ToStringDescribesError(e: CustomException)
    requires e.Valid()
    ensures StartsWith(e.ToString(), "Error")
    ensures ReadLocation(e.errorMessage, e.args[0]) == Some(e.location)
    ensures e.context == [] ==> EndsWith(e.ToString(), e.args[0])
  {
    ReadLocationInverts(e.args[0], e.location);
    var s := e.ToString();
    assert s[..5] == e.errorMessage[..5];
  }

  /**
    The context law: with a non-empty context the text is the context-free
    text followed by the context suffix; with an empty one they are the same.
   */
  lemma ContextInclusionLaw(withContext: CustomException, without: CustomException)
    requires withContext.errorMessage == without.errorMessage && without.context == []
    ensures withContext.context == [] ==> withContext.ToString() == without.ToString()
    ensures withContext.context != [] ==>
      withContext.ToString() == without.ToString() + CONTEXT_TAG + RenderContext(withContext.context)
  {
  }
}
