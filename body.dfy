/** The body sanitizer: a string body that parses as a JSON object is
    scrubbed and serialised again; a string that does not parse goes through
    the two `password` substitutions; anything else is returned as it is. */
module BodySanitizer {
  import opened Text
  import opened JsonScrub
  import opened PasswordRegex

  /** What the sanitizer may be handed: a str, or some other object, kept as
      the text `str()` shows for it. */
  datatype BodyArg = Str(s: string) | NotStr(shown: string)

  /** `json.loads` and `json.dumps`, whose concrete text format is not part of
      this model: `loads` is None exactly when it raises JSONDecodeError.
      Its other exceptions are not modelled. */
  datatype JsonCodec = JsonCodec(loads: string -> Option<Json>, dumps: Json -> string)

  /** What `_sanitize_body` returns for `body`. */
  function SanitizedBody(codec: JsonCodec, body: BodyArg): BodyArg {
    match body
    case NotStr(_) => body
    case Str(s) =>
      match codec.loads(s)
      case None => Str(Redact(s))
      case Some(data) =>
        if data.JObject? then Str(codec.dumps(Scrubbed(data))) else body
  }

  /** `_sanitize_body`: parse; scrub and serialise an object; fall back to
      the substitutions when parsing fails. */
  method SanitizeBody(codec: JsonCodec, body: BodyArg) returns (r: BodyArg)
    ensures r == SanitizedBody(codec, body)
  {
    if body.NotStr? {
      return body;
    }
    var text := body.s;
    var parsed := codec.loads(text);
    if parsed.None? {
      text := Redact(text);
      return Str(text);
    }
    var data := parsed.value;
    if data.JObject? {
      var clean := Scrub(data);
      return Str(codec.dumps(clean));
    }
    r := body;
  }

  /** The four outcomes. Input that is not a str, and a str holding JSON whose
      top level is not an object, come back unchanged. A JSON object comes
      back as the serialisation of a tree that hides every deny-listed value
      and agrees with the parsed one everywhere else. Only text that does
      not parse goes through the substitutions. */
  lemma SanitizedBodySpec(codec: JsonCodec, body: BodyArg)
    ensures body.NotStr? ==> SanitizedBody(codec, body) == body
    ensures body.Str? && codec.loads(body.s).Some? && !codec.loads(body.s).value.JObject? ==>
              SanitizedBody(codec, body) == body
    ensures body.Str? && codec.loads(body.s).Some? && codec.loads(body.s).value.JObject? ==>
              var data := codec.loads(body.s).value;
              && SanitizedBody(codec, body) == Str(codec.dumps(Scrubbed(data)))
              && Clean(Scrubbed(data))
              && AgreesOutsideSensitive(data, Scrubbed(data))
    ensures body.Str? && codec.loads(body.s).None? ==> SanitizedBody(codec, body) == Str(Redact(body.s))
  {
    if body.Str? && codec.loads(body.s).Some? {
      ScrubbedIsClean(codec.loads(body.s).value);
      ScrubbedAgrees(codec.loads(body.s).value);
    }
  }

  /** When `loads` reads back the scrubbed object that `dumps` wrote,
      sanitizing a body that parses a second time changes nothing. */
  lemma SanitizedBodyIdempotent(codec: JsonCodec, body: BodyArg)
    requires body.Str? ==> codec.loads(body.s).Some?
    requires body.Str? && codec.loads(body.s).Some? && codec.loads(body.s).value.JObject? ==>
               var clean := Scrubbed(codec.loads(body.s).value);
               codec.loads(codec.dumps(clean)) == Some(clean)
    ensures SanitizedBody(codec, SanitizedBody(codec, body)) == SanitizedBody(codec, body)
  {
    if body.Str? {
      var data := codec.loads(body.s).value;
      if data.JObject? {
        ScrubbedIdempotent(data);
      }
    }
  }

  /** Two bodies that are the same, or that both parse as JSON objects
      differing only in the values of deny-listed members. */
  ghost predicate BodiesAgreeOutsideSensitive(codec: JsonCodec, a: BodyArg, b: BodyArg) {
    || a == b
    || (&& a.Str? && b.Str?
        && codec.loads(a.s).Some? && codec.loads(a.s).value.JObject?
        && codec.loads(b.s).Some? && codec.loads(b.s).value.JObject?
        && AgreesOutsideSensitive(codec.loads(a.s).value, codec.loads(b.s).value))
  }

  /** The sanitized body of a JSON object does not depend on the values of
      its deny-listed members. */
  lemma SensitiveBodyValuesHidden(codec: JsonCodec, a: BodyArg, b: BodyArg)
    requires BodiesAgreeOutsideSensitive(codec, a, b)
    ensures SanitizedBody(codec, a) == SanitizedBody(codec, b)
  {
    if a != b {
      SensitiveValuesHidden(codec.loads(a.s).value, codec.loads(b.s).value);
    }
  }

  /** The password in `{"password": "secret"}` is masked once the body is
      parsed: what is serialised holds the mask in its place. */
  lemma PasswordBodyMasked(codec: JsonCodec, text: string)
    requires codec.loads(text) == Some(JObject([("password", JString("secret"))]))
    ensures SanitizedBody(codec, Str(text)) == Str(codec.dumps(JObject([("password", Masked)])))
  {
    var data := JObject([("password", JString("secret"))]);
    assert IsSensitiveKey("password");
    assert Scrubbed(data).members == [("password", Masked)];
  }
}
