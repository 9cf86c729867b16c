/**
 * The default error responses of the embedded HTTP server: one plain-text
 * response per status code, built on first request and kept in a table so
 * that every later request for the same code gets the very same response.
 */
module ErrorResponses {
  import opened Wrappers

  /** An HTTP header line. */
  datatype Header = Header(name: string, value: string)

  /** An HTTP status line: protocol version and status code. */
  datatype StatusLine = StatusLine(version: string, code: int)

  /** A response as the server writes it: optional status line, headers in order, optional body text. */
  datatype SimpleResponse = SimpleResponse(statusLine: Option<StatusLine>, headers: seq<Header>, body: Option<string>)

  const Http10: string := "HTTP/1.0"

  /** A fresh response: no status line, no headers, no body. */
  const EmptyResponse: SimpleResponse := SimpleResponse(None, [], None)

  // ---------------------------------------------------------------------------
  // Decimal text of an integer
  // ---------------------------------------------------------------------------

  function DigitChar(d: nat): char
    requires d < 10
  {
    "0123456789"[d]
  }

  function DigitValue(c: char): nat
  {
    if '0' <= c <= '9' then (c - '0') as nat else 0
  }

  predicate IsDigits(s: string)
  {
    |s| > 0 && forall i :: 0 <= i < |s| ==> '0' <= s[i] <= '9'
  }

  /** The decimal digits of n, most significant first, without leading zeros. */
  function Digits(n: nat): (s: string)
    ensures IsDigits(s)
    ensures |s| > 1 ==> s[0] != '0'
  {
    if n < 10 then [DigitChar(n)] else Digits(n / 10) + [DigitChar(n % 10)]
  }

  /** Integer.toString: the decimal text of n, with a leading minus sign when n is negative. */
  function DecimalString(n: int): string
  {
    if n < 0 then "-" + Digits(-n) else Digits(n)
  }

  /** The value of a string of decimal digits. */
  function DigitsValue(s: string): nat
    requires IsDigits(s)
  {
    if |s| == 1 then DigitValue(s[0])
    else DigitsValue(s[..|s| - 1]) * 10 + DigitValue(s[|s| - 1])
  }

  /** Reading decimal text back: an optional minus sign and at least one digit. */
  function DecimalValue(s: string): Option<int>
  {
    if |s| > 0 && s[0] == '-' then
      if IsDigits(s[1..]) then Some(-(DigitsValue(s[1..]) as int)) else None
    else if IsDigits(s) then Some(DigitsValue(s) as int)
    else None
  }

  lemma {:induction false} DigitsRoundTrip(n: nat)
    ensures DigitsValue(Digits(n)) == n
  {
    if n >= 10 {
      var s := Digits(n);
      assert s[..|s| - 1] == Digits(n / 10);
      DigitsRoundTrip(n / 10);
    }
  }

  /** The decimal text of every integer reads back as that integer. */
  lemma DecimalRoundTrip(n: int)
    ensures DecimalValue(DecimalString(n)) == Some(n)
  {
    var s := DecimalString(n);
    if n < 0 {
      assert s[0] == '-' && s[1..] == Digits(-n);
      DigitsRoundTrip(-n);
    } else {
      assert '0' <= s[0] <= '9';
      DigitsRoundTrip(n);
    }
  }

  // ---------------------------------------------------------------------------
  // Building a response
  // ---------------------------------------------------------------------------

  /** The value of the first header called name, None when there is none. */
  function HeaderValue(hs: seq<Header>, name: string): Option<string>
  {
    if hs == [] then None
    else if hs[0].name == name then Some(hs[0].value)
    else HeaderValue(hs[1..], name)
  }

  /** Headers minus every one called name. */
  function WithoutHeader(hs: seq<Header>, name: string): (r: seq<Header>)
    ensures HeaderValue(r, name) == None
  {
    if hs == [] then []
    else if hs[0].name == name then WithoutHeader(hs[1..], name)
    else [hs[0]] + WithoutHeader(hs[1..], name)
  }

  /** setHeader: the header replaces every header of the same name. */
  function SetHeader(r: SimpleResponse, h: Header): SimpleResponse
  {
    r.(headers := WithoutHeader(r.headers, h.name) + [h])
  }

  /** addHeader: the header is added after the others. */
  function AddHeader(r: SimpleResponse, h: Header): SimpleResponse
  {
    r.(headers := r.headers + [h])
  }

  /** The body text: the standard reason phrase of the code, or "Error " and the code when there is none. */
  function StatusBody(code: int, statusText: int -> Option<string>): string
  {
    match statusText(code)
    case Some(text) => text
    case None => "Error " + DecimalString(code)
  }

  /** The default error response for a status code. */
  function StandardResponse(code: int, statusText: int -> Option<string>): SimpleResponse
  {
    var body := StatusBody(code, statusText);
    SimpleResponse(
      Some(StatusLine(Http10, code)),
      [Header("Content-Type", "text/plain; charset=US-ASCII"),
       Header("Connection", "close"),
       Header("Content-Length", DecimalString(|body|))],
      Some(body))
  }

  /**
   * The default response has the status line HTTP/1.0 with exactly the
   * requested code, is plain US-ASCII text, closes the connection, and its
   * Content-Length, read as a decimal number, is the length of the body text.
   */
  lemma StandardResponseHeaders(code: int, statusText: int -> Option<string>)
    ensures var r := StandardResponse(code, statusText);
      && r.statusLine == Some(StatusLine(Http10, code))
      && HeaderValue(r.headers, "Content-Type") == Some("text/plain; charset=US-ASCII")
      && HeaderValue(r.headers, "Connection") == Some("close")
      && r.body.Some?
      && HeaderValue(r.headers, "Content-Length").Some?
      && DecimalValue(HeaderValue(r.headers, "Content-Length").value) == Some(|r.body.value|)
  {
    var hs := StandardResponse(code, statusText).headers;
    assert |hs[0].name| != |"Content-Length"| && |hs[1].name| != |"Content-Length"|;
    assert hs[1..][1..] == [hs[2]];
    assert HeaderValue(hs, "Content-Length") == HeaderValue(hs[1..][1..], "Content-Length");
    DecimalRoundTrip(|StatusBody(code, statusText)|);
  }

  /**
   * The body is the standard text when the code has one; otherwise it is
   * "Error " followed by text that reads back as the code itself.
   */
  lemma BodyFallsBackToCode(code: int, statusText: int -> Option<string>)
    ensures statusText(code).Some? ==> StandardResponse(code, statusText).body == statusText(code)
    ensures statusText(code).None? ==>
      var b := StandardResponse(code, statusText).body.value;
      |b| > 6 && b[..6] == "Error " && DecimalValue(b[6..]) == Some(code)
  {
    if statusText(code).None? {
      var b := StandardResponse(code, statusText).body.value;
      assert b == "Error " + DecimalString(code);
      assert b[..6] == "Error " && b[6..] == DecimalString(code);
      DecimalRoundTrip(code);
    }
  }

  // ---------------------------------------------------------------------------
  // The table of responses
  // ---------------------------------------------------------------------------

  /** The shared table of default error responses, keyed by status code. */
  class ErrorResponse {
    /** The standard reason phrase of a status code, when it has one. */
    const statusText: int -> Option<string>
    var responses: map<int, SimpleResponse>

    /** Every response in the table is the default response of its code. */
    ghost predicate Valid()
      reads this
    {
      forall c :: c in responses ==> responses[c] == StandardResponse(c, statusText)
    }

    constructor (statusText: int -> Option<string>)
      ensures Valid() && this.statusText == statusText && responses == map[]
    {
      this.statusText := statusText;
      responses := map[];
    }

    /**
     * getResponse: the response in the table for the code, unchanged; or,
     * the first time the code is asked for, a newly built default response,
     * stored under the code with every other entry left as it was.
     */
    method GetResponse(statusCode: int) returns (r: SimpleResponse)
      requires Valid()
      modifies this
      ensures Valid()
      ensures r == StandardResponse(statusCode, statusText) && statusCode in responses
      ensures statusCode in old(responses) ==> r == old(responses)[statusCode] && responses == old(responses)
      ensures statusCode !in old(responses) ==> responses == old(responses)[statusCode := r]
    {
      if statusCode in responses {
        return responses[statusCode];
      }
      var response := EmptyResponse;
      response := response.(statusLine := Some(StatusLine(Http10, statusCode)));
      response := SetHeader(response, Header("Content-Type", "text/plain; charset=US-ASCII"));
      var s := statusText(statusCode);
      if s.None? {
        s := Some("Error " + DecimalString(statusCode));
      }
      response := response.(body := Some(s.value));
      response := AddHeader(response, Header("Connection", "close"));
      response := AddHeader(response, Header("Content-Length", DecimalString(|s.value|)));
      responses := responses[statusCode := response];
      return response;
    }
  }
}
