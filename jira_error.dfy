/** The client's error type: an HTTP failure carrying its request and
    response, rendered to a message in which headers and bodies have been
    through the sanitizers. */
module JiraErrors {
  import opened Text
  import opened HeaderSanitizer
  import opened BodySanitizer

  /** A request or a response as rendering sees it: its `headers` and `text`
      attributes, None where the object has no such attribute. */
  datatype Context = Context(headers: Option<HeadersArg>, text: Option<BodyArg>)

  /** The code rendering calls but that is not modelled here: the JSON codec
      and `str()` of a dict. */
  datatype Runtime = Runtime(codec: JsonCodec, dictRepr: seq<Header> -> string)

  /** How a value returned by `_sanitize_headers` appears in an f-string. */
  function HeadersShown(rt: Runtime, h: HeadersArg): string {
    match h
    case Mapping(items) => rt.dictRepr(items)
    case NotMapping(shown) => shown
  }

  /** How a value returned by `_sanitize_body` appears in an f-string. */
  function BodyShown(b: BodyArg): string {
    match b
    case Str(s) => s
    case NotStr(shown) => shown
  }

  /** One line of the details block. */
  function Line(name: string, value: string): string {
    "\n\t" + name + " = " + value
  }

  /** The details lines of one context: its sanitized headers, then its
      sanitized text, each only when the context has that attribute;
      nothing for an absent context. */
  function ContextLines(rt: Runtime, side: string, c: Option<Context>): string {
    if c.None? then ""
    else
      (if c.value.headers.Some?
       then Line(side + " headers", HeadersShown(rt, SanitizedHeaders(c.value.headers.value)))
       else "")
      + (if c.value.text.Some?
         then Line(side + " text", BodyShown(SanitizedBody(rt.codec, c.value.text.value)))
         else "")
  }

  /** Python truthiness of an optional str: present and non-empty. */
  predicate Truthy(s: Option<string>) {
    s.Some? && s.value != ""
  }

  /** `f"{status_code}"`: the decimal number, or `None`. */
  function StatusText(status: Option<int>): string {
    if status.None? then "None" else IntText(status.value)
  }

  /** The summary line: the status, then the URL when it is non-empty. */
  function Summary(status: Option<int>, url: Option<string>): string {
    "JiraError HTTP " + StatusText(status) + (if Truthy(url) then " url: " + url.value else "")
  }

  /** Reads back how long the status is at the start of a message tail:
      `None`, or an optional sign followed by the longest run of digits. */
  function StatusLength(s: string): nat
    requires s != []
  {
    if s[0] == 'N' then 4 else 1 + Run(s[1..], IsDigit)
  }

  /** Reading the status back from the status followed by a non-digit finds
      exactly the status. */
  lemma StatusLengthOf(a: Option<int>, x: string)
    requires x != [] && !IsDigit(x[0])
    ensures StatusLength(StatusText(a) + x) == |StatusText(a)|
  {
    if a.Some? {
      var t := IntText(a.value);
      var s := t + x;
      assert s[0] == t[0];
      assert AllIn(s, 1, |t|, IsDigit) by {
        forall k | 1 <= k < |t| ensures IsDigit(s[k]) {
          assert s[k] == t[k];
        }
      }
      assert s[|t|] == x[0];
      RunFrom(s, 1, |t|, IsDigit);
    }
  }

  /** str() of a status code is never a proper prefix of another one that is
      followed by something that is not a digit, so the status can be read
      back from a message. */
  lemma StatusTextPrefixFree(a: Option<int>, b: Option<int>, x: string, y: string)
    requires x != [] && y != [] && !IsDigit(x[0]) && !IsDigit(y[0])
    requires StatusText(a) + x == StatusText(b) + y
    ensures a == b
  {
    var (ta, tb) := (StatusText(a), StatusText(b));
    StatusLengthOf(a, x);
    StatusLengthOf(b, y);
    assert ta == (ta + x)[..|ta|];
    assert tb == (tb + y)[..|tb|];
    if a.Some? && b.Some? {
      IntTextInjective(a.value, b.value);
    }
  }

  /** A client error, fixed at construction and only read afterwards. */
  class JiraError {
    const statusCode: Option<int>
    const text: Option<string>
    const url: Option<string>
    const request: Option<Context>
    const response: Option<Context>
    /** The `headers` keyword argument: kept, never rendered. */
    const headers: Option<HeadersArg>
    /** Whether the details go to a temporary file instead of the message. */
    const logToTempfile: bool
    /** Whether the process runs in CI: kept, never rendered. */
    const ciRun: bool

    /** `JIRAError.__init__`; the two environment checks are passed in. */
    constructor(text: Option<string>, statusCode: Option<int>, url: Option<string>,
                request: Option<Context>, response: Option<Context>,
                kwargs: map<string, HeadersArg>, logToTempfile: bool, ciRun: bool)
      ensures this.statusCode == statusCode && this.text == text && this.url == url
      ensures this.request == request && this.response == response
      ensures this.headers == (if "headers" in kwargs then Some(kwargs["headers"]) else None)
      ensures this.logToTempfile == logToTempfile && this.ciRun == ciRun
    {
      this.statusCode := statusCode;
      this.text := text;
      this.url := url;
      this.request := request;
      this.response := response;
      this.headers := if "headers" in kwargs then Some(kwargs["headers"]) else None;
      this.logToTempfile := logToTempfile;
      this.ciRun := ciRun;
    }

    /** The details block: request lines, then response lines. */
    function Details(rt: Runtime): string {
      ContextLines(rt, "request", request) + ContextLines(rt, "response", response)
    }

    /** The message `__str__` returns when the temporary file gets `path`. */
    function Rendered(rt: Runtime, path: string): string {
      if logToTempfile then Summary(statusCode, url) + " details: " + path
      else
        Summary(statusCode, url)
        + (if Truthy(text) then "\n\ttext: " + text.value else "")
        + "\n\t" + Details(rt)
    }

    /** Appends the lines of one context to the details block: its
        sanitized headers, then its sanitized text, each when present. */
    static method AppendContext(rt: Runtime, side: string, c: Option<Context>, details: string)
      returns (d: string)
      ensures d == details + ContextLines(rt, side, c)
    {
      d := details;
      if c.Some? {
        if c.value.headers.Some? {
          var h := SanitizeHeaders(c.value.headers.value);
          d := d + Line(side + " headers", HeadersShown(rt, h));
        }
        if c.value.text.Some? {
          var b := SanitizeBody(rt.codec, c.value.text.value);
          d := d + Line(side + " text", BodyShown(b));
        }
      }
    }

    /** The details block, built by appending: request lines, then response
        lines. */
    method BuildDetails(rt: Runtime) returns (details: string)
      ensures details == Details(rt)
    {
      details := AppendContext(rt, "request", request, "");
      details := AppendContext(rt, "response", response, details);
      assert ContextLines(rt, "request", request) == "" + ContextLines(rt, "request", request);
    }

    /** `JIRAError.__str__`: builds the summary and the details block by
        appending, sanitizing each header mapping and body on the way. In
        file mode `written` is what goes to the temporary file at `tempPath`;
        otherwise nothing is written. */
    method ToString(rt: Runtime, tempPath: string) returns (t: string, written: Option<string>)
      ensures t == Rendered(rt, tempPath)
      ensures written == if logToTempfile then Some(Details(rt)) else None
    {
      t := "JiraError HTTP " + StatusText(statusCode);
      if Truthy(url) {
        t := t + " url: " + url.value;
      }
      assert t == Summary(statusCode, url);
      var details := BuildDetails(rt);
      if logToTempfile {
        t := t + " details: " + tempPath;
        written := Some(details);
      } else {
        if Truthy(text) {
          t := t + "\n\ttext: " + text.value;
        }
        assert t == Summary(statusCode, url) + (if Truthy(text) then "\n\ttext: " + text.value else "");
        t := t + "\n\t" + details;
        written := None;
      }
    }
  }

  /** The message always opens with the status, and two messages that are
      equal carry the same status code. */
  lemma StatusCodeRecoverable(e1: JiraError, e2: JiraError, rt: Runtime, p1: string, p2: string)
    requires e1.Rendered(rt, p1) == e2.Rendered(rt, p2)
    ensures e1.statusCode == e2.statusCode
  {
    var x := RenderedAfterStatus(e1, rt, p1);
    var y := RenderedAfterStatus(e2, rt, p2);
    DropPrefix("JiraError HTTP ", StatusText(e1.statusCode), x);
    DropPrefix("JiraError HTTP ", StatusText(e2.statusCode), y);
    StatusTextPrefixFree(e1.statusCode, e2.statusCode, x, y);
  }

  /** Dropping the common prefix of a message. */
  lemma DropPrefix(p: string, a: string, x: string)
    ensures (p + a + x)[|p|..] == a + x
  {
  }

  /** What follows the status in a message starts with a blank or a newline. */
  lemma RenderedAfterStatus(e: JiraError, rt: Runtime, path: string) returns (x: string)
    ensures e.Rendered(rt, path) == "JiraError HTTP " + StatusText(e.statusCode) + x
    ensures x != [] && (x[0] == ' ' || x[0] == '\n')
  {
    var head := "JiraError HTTP " + StatusText(e.statusCode);
    var urlPart := if Truthy(e.url) then " url: " + e.url.value else "";
    var tail :=
      if e.logToTempfile then " details: " + path
      else (if Truthy(e.text) then "\n\ttext: " + e.text.value else "") + "\n\t" + e.Details(rt);
    x := urlPart + tail;
    assert e.Rendered(rt, path) == head + x;
    assert tail[0] == ' ' || tail[0] == '\n';
  }

  /** In file mode the message is the summary and the path only: the text
      and every detail stay out of it, and the details go to the file. */
  lemma FileModeKeepsDetailsOut(e1: JiraError, e2: JiraError, rt: Runtime, path: string)
    requires e1.logToTempfile && e2.logToTempfile
    requires e1.statusCode == e2.statusCode && e1.url == e2.url
    ensures e1.Rendered(rt, path) == e2.Rendered(rt, path)
    ensures e1.Rendered(rt, path) == Summary(e1.statusCode, e1.url) + " details: " + path
  {
  }

  /** Neither the `headers` keyword argument nor the CI flag affects the
      message. */
  lemma StoredOnlyFieldsIgnored(e1: JiraError, e2: JiraError, rt: Runtime, path: string)
    requires e1.statusCode == e2.statusCode && e1.text == e2.text && e1.url == e2.url
    requires e1.request == e2.request && e1.response == e2.response
    requires e1.logToTempfile == e2.logToTempfile
    ensures e1.Rendered(rt, path) == e2.Rendered(rt, path)
  {
  }

  /** Two contexts that expose the same attributes and differ at most in
      the values of deny-listed headers and of deny-listed members of JSON
      object bodies. */
  ghost predicate ContextsAgree(codec: JsonCodec, c1: Option<Context>, c2: Option<Context>) {
    && c1.None? == c2.None?
    && (c1.Some? ==>
          && HeadersAgree(c1.value.headers, c2.value.headers)
          && c1.value.text.None? == c2.value.text.None?
          && (c1.value.text.Some? ==>
                BodySanitizer.BodiesAgreeOutsideSensitive(codec, c1.value.text.value, c2.value.text.value)))
  }

  /** Two optional header arguments that are the same, or mappings that
      differ at most in the values of deny-listed headers. */
  predicate HeadersAgree(h1: Option<HeadersArg>, h2: Option<HeadersArg>) {
    || h1 == h2
    || (&& h1.Some? && h2.Some? && h1.value.Mapping? && h2.value.Mapping?
        && HeaderSanitizer.SameOutsideSensitive(h1.value.items, h2.value.items))
  }

  /** The lines of a context do not depend on secret values. */
  lemma ContextLinesHideSecrets(rt: Runtime, side: string, c1: Option<Context>, c2: Option<Context>)
    requires ContextsAgree(rt.codec, c1, c2)
    ensures ContextLines(rt, side, c1) == ContextLines(rt, side, c2)
  {
    if c1.Some? {
      var (h1, h2) := (c1.value.headers, c2.value.headers);
      if h1 != h2 {
        SensitiveHeaderValuesHidden(h1.value.items, h2.value.items);
      }
      if c1.value.text.Some? {
        SensitiveBodyValuesHidden(rt.codec, c1.value.text.value, c2.value.text.value);
      }
    }
  }

  /** No secret reaches the message: two errors that differ only in the
      values of deny-listed headers and deny-listed JSON members, in their
      request or their response, render to the same message and write the
      same details. */
  lemma SecretsNeverRendered(e1: JiraError, e2: JiraError, rt: Runtime, path: string)
    requires e1.statusCode == e2.statusCode && e1.text == e2.text && e1.url == e2.url
    requires e1.logToTempfile == e2.logToTempfile
    requires ContextsAgree(rt.codec, e1.request, e2.request)
    requires ContextsAgree(rt.codec, e1.response, e2.response)
    ensures e1.Details(rt) == e2.Details(rt)
    ensures e1.Rendered(rt, path) == e2.Rendered(rt, path)
  {
    ContextLinesHideSecrets(rt, "request", e1.request, e2.request);
    ContextLinesHideSecrets(rt, "response", e1.response, e2.response);
  }

  /** Inline, the message ends with the details block, separated from what
      precedes it by a newline and a tab. */
  lemma InlineEndsWithDetails(e: JiraError, rt: Runtime, path: string)
    requires !e.logToTempfile
    ensures var r := e.Rendered(rt, path);
            var d := "\n\t" + e.Details(rt);
            |d| <= |r| && r[|r| - |d|..] == d
  {
    var d := "\n\t" + e.Details(rt);
    var head := Summary(e.statusCode, e.url) + (if Truthy(e.text) then "\n\ttext: " + e.text.value else "");
    assert e.Rendered(rt, path) == head + d;
    EndsWith(head, d);
  }

  /** The last |d| characters of head + d are d. */
  lemma EndsWith(head: string, d: string)
    ensures (head + d)[|head + d| - |d|..] == d
  {
    assert (head + d)[|head|..] == d;
  }

  /** The header line of the example below shows the mask. */
  lemma AuthorizationShownMasked(rt: Runtime)
    ensures HeadersShown(rt, SanitizedHeaders(Mapping([("Authorization", "Bearer xyz")])))
            == rt.dictRepr([("Authorization", Mask)])
  {
    assert IsSensitiveHeader("Authorization");
    var m := MaskedHeaders([("Authorization", "Bearer xyz")]);
    assert m == [("Authorization", Mask)] by {
      assert |m| == 1 && m[0] == ("Authorization", Mask);
    }
  }

  /** The response lines of the example below. */
  lemma NotFoundDetails(rt: Runtime, c: Option<Context>, body: string)
    requires c == Some(Context(Some(Mapping([("Authorization", "Bearer xyz")])), Some(Str(body))))
    requires rt.codec.loads(body) == Some(JsonScrub.JObject([("password", JsonScrub.JString("secret"))]))
    ensures ContextLines(rt, "response", c) ==
              "\n\tresponse headers = " + rt.dictRepr([("Authorization", Mask)])
              + "\n\tresponse text = " + rt.codec.dumps(JsonScrub.JObject([("password", JsonScrub.Masked)]))
  {
    var hv := rt.dictRepr([("Authorization", Mask)]);
    var bv := rt.codec.dumps(JsonScrub.JObject([("password", JsonScrub.Masked)]));
    var h := Mapping([("Authorization", "Bearer xyz")]);
    ContextLinesOfFull(rt, "response", h, Str(body));
    AuthorizationShownMasked(rt);
    PasswordBodyMasked(rt.codec, body);
    ResponseLines(hv, bv);
  }

  /** The lines of a context that has both attributes. */
  lemma ContextLinesOfFull(rt: Runtime, side: string, h: HeadersArg, b: BodyArg)
    ensures ContextLines(rt, side, Some(Context(Some(h), Some(b))))
            == Line(side + " headers", HeadersShown(rt, SanitizedHeaders(h)))
               + Line(side + " text", BodyShown(SanitizedBody(rt.codec, b)))
  {
  }

  /** The two response lines written out. */
  lemma ResponseLines(hv: string, bv: string)
    ensures Line("response" + " headers", hv) + Line("response" + " text", bv)
            == "\n\tresponse headers = " + hv + "\n\tresponse text = " + bv
  {
    var h, t := "\n\tresponse headers = ", "\n\tresponse text = ";
    LineOf("response" + " headers", hv, h);
    LineOf("response" + " text", bv, t);
    ConcatAssoc(h + hv, t, bv);
  }

  /** A line whose opening text is known. */
  lemma LineOf(name: string, value: string, opening: string)
    requires opening == "\n\t" + name + " = "
    ensures Line(name, value) == opening + value
  {
  }

  /** A 404 whose response carries an Authorization header and the body
      `{"password":"secret"}`: inline, the message names the status and the
      URL and shows the header and the password only as the mask. */
  lemma NotFoundExample(e: JiraError, rt: Runtime, u: string, body: string, path: string)
    requires e.statusCode == Some(404) && e.url == Some(u) && u != []
    requires e.text == None && e.request == None
    requires e.response == Some(Context(Some(Mapping([("Authorization", "Bearer xyz")])), Some(Str(body))))
    requires !e.logToTempfile
    requires rt.codec.loads(body) == Some(JsonScrub.JObject([("password", JsonScrub.JString("secret"))]))
    ensures e.Rendered(rt, path) ==
              "JiraError HTTP 404 url: " + u + "\n\t"
              + "\n\tresponse headers = " + rt.dictRepr([("Authorization", Mask)])
              + "\n\tresponse text = " + rt.codec.dumps(JsonScrub.JObject([("password", JsonScrub.Masked)]))
  {
    var sm := Summary(e.statusCode, e.url);
    NotFoundSummary(u);
    NotFoundDetails(rt, e.response, body);
    var hv := rt.dictRepr([("Authorization", Mask)]);
    var bv := rt.codec.dumps(JsonScrub.JObject([("password", JsonScrub.Masked)]));
    var d := "\n\tresponse headers = " + hv + "\n\tresponse text = " + bv;
    assert e.Details(rt) == d;
    assert e.Rendered(rt, path) == sm + "\n\t" + d;
    InlineMessage(u, hv, bv);
  }

  /** The summary line of the example above. */
  lemma NotFoundSummary(u: string)
    requires u != []
    ensures Summary(Some(404), Some(u)) == "JiraError HTTP 404 url: " + u
  {
    assert IntText(404) == "404" by {
      assert NatText(40) == "40";
    }
  }

  /** The message of the example above written out. */
  lemma InlineMessage(u: string, hv: string, bv: string)
    ensures var d := "\n\tresponse headers = " + hv + "\n\tresponse text = " + bv;
            ("JiraError HTTP 404 url: " + u) + "\n\t" + d
            == "JiraError HTTP 404 url: " + u + "\n\t"
               + "\n\tresponse headers = " + hv + "\n\tresponse text = " + bv
  {
  }
}
