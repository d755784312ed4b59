/**
 * Middleware/ExceptionHandlingMiddleware.cs of the book service: an exception
 * thrown further down the pipeline becomes a JSON error response whose status
 * depends on the exception's type. The downstream delegate is represented by
 * its outcome; the logger is not modelled.
 */
module ExceptionHandling {
  import opened Wrappers

  const KeyNotFoundExceptionType := "System.Collections.Generic.KeyNotFoundException"
  const ArgumentExceptionType := "System.ArgumentException"

  const Status400BadRequest := 400
  const Status404NotFound := 404
  const Status500InternalServerError := 500

  /** The content type the catch block assigns. */
  const JsonContentType := "application/json"
  /** The content type WriteAsJsonAsync sets when it is given none: JSON in UTF-8. */
  const JsonContentTypeWithCharset := "application/json; charset=utf-8"

  /**
   * A thrown exception: its runtime type followed by every base class, from
   * the most derived up to System.Exception, and its Message.
   */
  datatype Exception = Exception(typeChain: seq<string>, message: string)

  /** `ex is T`: T is the runtime type or one of its base classes. */
  predicate IsOfType(ex: Exception, typeName: string) {
    typeName in ex.typeChain
  }

  /** The switch expression: first matching arm wins. */
  function StatusFor(ex: Exception): (status: int)
    ensures status in {Status400BadRequest, Status404NotFound, Status500InternalServerError}
  {
    if IsOfType(ex, KeyNotFoundExceptionType) then Status404NotFound
    else if IsOfType(ex, ArgumentExceptionType) then Status400BadRequest
    else Status500InternalServerError
  }

  /** The status of each class of exception, each direction stated. */
  lemma StatusTable(ex: Exception)
    ensures StatusFor(ex) == Status404NotFound <==> IsOfType(ex, KeyNotFoundExceptionType)
    ensures StatusFor(ex) == Status400BadRequest <==>
      IsOfType(ex, ArgumentExceptionType) && !IsOfType(ex, KeyNotFoundExceptionType)
    ensures StatusFor(ex) == Status500InternalServerError <==>
      !IsOfType(ex, KeyNotFoundExceptionType) && !IsOfType(ex, ArgumentExceptionType)
  {
  }

  /** ArgumentNullException and ArgumentOutOfRangeException derive from ArgumentException, so they are 400 too. */
  lemma ArgumentSubtypesAreBadRequest(message: string)
    ensures StatusFor(Exception(["System.ArgumentNullException", ArgumentExceptionType, "System.SystemException", "System.Exception"], message)) == Status400BadRequest
    ensures StatusFor(Exception(["System.ArgumentOutOfRangeException", ArgumentExceptionType, "System.SystemException", "System.Exception"], message)) == Status400BadRequest
  {
    assert ArgumentExceptionType in ["System.ArgumentNullException", ArgumentExceptionType, "System.SystemException", "System.Exception"];
    assert ArgumentExceptionType in ["System.ArgumentOutOfRangeException", ArgumentExceptionType, "System.SystemException", "System.Exception"];
  }

  /** The status depends on the type alone, never on the message. */
  lemma StatusIgnoresMessage(ex: Exception, message: string)
    ensures StatusFor(ex.(message := message)) == StatusFor(ex)
  {
  }

  /** The JSON text of `new { error = message }`. */
  function ErrorJson(message: string): string {
    "{\"error\":\"" + message + "\"}"
  }

  /** What the downstream delegate did: completed, or threw. */
  datatype NextOutcome = Completed | Threw(exception: Exception)

  /** The parts of HttpResponse the middleware sets. */
  class HttpResponse {
    var contentType: Option<string>
    var statusCode: int
    var body: string

    constructor()
      ensures contentType == None && statusCode == 200 && body == ""
    {
      contentType := None;
      statusCode := 200;
      body := "";
    }
  }

  /**
   * HttpResponse.WriteAsJsonAsync(value) with no content type argument: the
   * content type becomes JSON with the UTF-8 charset and the JSON text is
   * written to the body.
   */
  method WriteAsJson(response: HttpResponse, json: string)
    modifies response
    ensures response.contentType == Some(JsonContentTypeWithCharset)
    ensures response.statusCode == old(response.statusCode)
    ensures response.body == old(response.body) + json
  {
    response.contentType := Some(JsonContentTypeWithCharset);
    response.body := response.body + json;
  }

  /**
   * InvokeAsync after `_next(context)` has returned or thrown: on a throw the
   * catch block sets the JSON content type and the mapped status, and then
   * WriteAsJsonAsync replaces the content type by its own and appends the
   * message as JSON; the exception goes no further (the method returns).
   */
  method InvokeAsync(response: HttpResponse, next: NextOutcome)
    modifies response
    ensures next.Completed? ==>
      && response.contentType == old(response.contentType)
      && response.statusCode == old(response.statusCode)
      && response.body == old(response.body)
    ensures next.Threw? ==>
      && response.contentType == Some(JsonContentTypeWithCharset)
      && response.statusCode == StatusFor(next.exception)
      && response.body == old(response.body) + ErrorJson(next.exception.message)
  {
    if next.Threw? {
      var ex := next.exception;
      response.contentType := Some(JsonContentType);
      response.statusCode := StatusFor(ex);
      WriteAsJson(response, ErrorJson(ex.message));
    }
  }


  /** The error body carries the message between fixed JSON delimiters. */
  lemma ErrorJsonCarriesMessage(message: string)
    ensures var j := ErrorJson(message);
      && |j| == |message| + 12
      && j[10..10 + |message|] == message
  {
  }
}
