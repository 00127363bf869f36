/** The header sanitizer: a copy of a header mapping in which the values of
    deny-listed headers are replaced by the mask. */
module HeaderSanitizer {
  import opened Text

  /** One header as (name, value); a mapping is the sequence of its items in
      insertion order. */
  type Header = (string, string)

  /** What the sanitizer may be handed: a mapping (a dict, or anything with
      `items`), or some other object, kept as the text `str()` shows for it. */
  datatype HeadersArg = Mapping(items: seq<Header>) | NotMapping(shown: string)

  /** `key.lower() in sensitive_headers`: the name is one of the five
      deny-listed header names, matched ignoring case. */
  predicate IsSensitiveHeader(key: string) {
    var name := Folded(key);
    || name == "authorization"
    || name == "cookie"
    || name == "set-cookie"
    || name == "x-atlassian-token"
    || name == "proxy-authorization"
  }

  /** The items of the sanitized copy: every name kept, in order and with its
      own casing; the value masked exactly when the name is deny-listed. */
  function MaskedHeaders(items: seq<Header>): (r: seq<Header>)
    ensures |r| == |items|
    ensures forall i :: 0 <= i < |items| ==> r[i].0 == items[i].0
    ensures forall i :: 0 <= i < |items| ==>
              r[i].1 == if IsSensitiveHeader(items[i].0) then Mask else items[i].1
  {
    if items == [] then []
    else
      var (key, value) := items[0];
      [(key, if IsSensitiveHeader(key) then Mask else value)] + MaskedHeaders(items[1..])
  }

  /** What `_sanitize_headers` returns for `h`. */
  function SanitizedHeaders(h: HeadersArg): HeadersArg {
    match h
    case NotMapping(_) => h
    case Mapping(items) => Mapping(MaskedHeaders(items))
  }

  /** `_sanitize_headers`: objects that are not mappings come back as they
      are; for a mapping, a copy is made and the deny-listed entries of the
      copy are overwritten one by one. The argument is a value, so the
      caller's mapping cannot change. */
  method SanitizeHeaders(headers: HeadersArg) returns (r: HeadersArg)
    ensures r == SanitizedHeaders(headers)
  {
    if headers.NotMapping? {
      return headers;
    }
    var sanitized := headers.items;
    var i := 0;
    while i < |sanitized|
      invariant i <= |sanitized| == |headers.items|
      invariant forall k :: 0 <= k < i ==> sanitized[k] == MaskedHeaders(headers.items)[k]
      invariant forall k :: i <= k < |sanitized| ==> sanitized[k] == headers.items[k]
    {
      var key := sanitized[i].0;
      if IsSensitiveHeader(key) {
        sanitized := sanitized[i := (key, Mask)];
      }
      i := i + 1;
    }
    r := Mapping(sanitized);
  }

  /** A mapping in which no deny-listed header shows anything but the mask. */
  predicate NoSensitiveValue(items: seq<Header>) {
    forall i :: 0 <= i < |items| && IsSensitiveHeader(items[i].0) ==> items[i].1 == Mask
  }

  /** Sanitizing hides every deny-listed value, changes nothing else, and keeps
      names, their casing and their order; input that is not a mapping passes
      through untouched. */
  lemma SanitizedHeadersSpec(h: HeadersArg)
    ensures h.NotMapping? ==> SanitizedHeaders(h) == h
    ensures h.Mapping? ==> SanitizedHeaders(h).Mapping?
    ensures h.Mapping? ==> NoSensitiveValue(SanitizedHeaders(h).items)
    ensures h.Mapping? ==> |SanitizedHeaders(h).items| == |h.items|
    ensures h.Mapping? ==> forall i :: 0 <= i < |h.items| ==>
              && SanitizedHeaders(h).items[i].0 == h.items[i].0
              && (!IsSensitiveHeader(h.items[i].0) ==> SanitizedHeaders(h).items[i].1 == h.items[i].1)
  {
  }

  /** A mapping that already shows no deny-listed value is left as it is. */
  lemma {:induction false} MaskedHeadersFixpoint(items: seq<Header>)
    requires NoSensitiveValue(items)
    ensures MaskedHeaders(items) == items
  {
    var r := MaskedHeaders(items);
    assert forall i :: 0 <= i < |items| ==> r[i] == items[i];
  }

  /** Sanitizing twice is sanitizing once. */
  lemma SanitizedHeadersIdempotent(h: HeadersArg)
    ensures SanitizedHeaders(SanitizedHeaders(h)) == SanitizedHeaders(h)
  {
    if h.Mapping? {
      MaskedHeadersFixpoint(MaskedHeaders(h.items));
    }
  }

  /** Two mappings with the same names in the same order whose values
      differ at most where the name is deny-listed. */
  predicate SameOutsideSensitive(a: seq<Header>, b: seq<Header>) {
    && |a| == |b|
    && forall i :: 0 <= i < |a| ==>
         a[i].0 == b[i].0 && (!IsSensitiveHeader(a[i].0) ==> a[i].1 == b[i].1)
  }

  /** The sanitized copy does not depend on the values of deny-listed
      headers: nothing of a secret header value survives. */
  lemma SensitiveHeaderValuesHidden(a: seq<Header>, b: seq<Header>)
    requires SameOutsideSensitive(a, b)
    ensures MaskedHeaders(a) == MaskedHeaders(b)
  {
    var (ra, rb) := (MaskedHeaders(a), MaskedHeaders(b));
    assert forall i :: 0 <= i < |a| ==> ra[i] == rb[i];
  }

  /** Matching ignores case: any spelling of a deny-listed name is caught. */
  lemma AuthorizationIsSensitive()
    ensures IsSensitiveHeader("Authorization")
  {

  }

  /** An ordinary header is not masked. */
  lemma ContentTypeIsNotSensitive()
    ensures !IsSensitiveHeader("Content-Type")
  {

  }
}
