# Redaction core of the Jira client's error type

This project models `jira/exceptions.py`, the part of the Python Jira client
that turns a failed HTTP call into a printable error without leaking
credentials. The modelled pieces are:

- `_sanitize_headers`: a copy of a header mapping in which the values of
  `Authorization`, `Cookie`, `Set-Cookie`, `X-Atlassian-Token` and
  `Proxy-Authorization` (any casing) become `********`.
- `_sanitize_body`:
  - a body that parses as a JSON object has every `password`, `token`,
    `secret` or `access_token` member masked, at any depth, and is
    serialised again;
  - a body that does not parse goes through two fixed `password`
    substitutions;
  - anything else comes back unchanged.
- `JIRAError.__init__` and `JIRAError.__str__`: the summary line
  (`JiraError HTTP <status>`, the URL), the details block built from the
  sanitized request and response, and the two output shapes (details inline,
  or written to a temporary file whose path is named in the message).

Modules, one file each:

| file | module | content |
|---|---|---|
| `text.dfy` | `Text` | `Option`, the mask, Python's `lower()` as far as the ASCII deny-lists can tell, `str()` of an int, runs of characters from a class |
| `headers.dfy` | `HeaderSanitizer` | `_sanitize_headers` |
| `json_scrub.dfy` | `JsonScrub` | the JSON tree and the nested `scrub` |
| `password_regex.dfy` | `PasswordRegex` | the two regular-expression substitutions of the fallback |
| `body.dfy` | `BodySanitizer` | `_sanitize_body` |
| `jira_error.dfy` | `JiraErrors` | `JIRAError` as a class with its constructor and `ToString` |

Each method is proved against a function that specifies it:

| method | specification function |
|---|---|
| `SanitizeHeaders` | `SanitizedHeaders` |
| `Scrub` | `Scrubbed` |
| `SanitizeBody` | `SanitizedBody` |
| `ToString` | `Rendered` |

Each specification function is then characterised by lemmas that do not
mention how it is computed:

- masking and preservation;
- uniqueness of the scrubbed tree;
- idempotence;
- independence from secret values;
- recovering the status code from a message.

How the model stands in for things outside the file:

- Python `dict`s are sequences of (key, value) pairs in insertion order.
- `json.loads`/`json.dumps` are the two functions of a `JsonCodec` value.
- `repr` of a dict is the function `Runtime.dictRepr`.
- `hasattr` checks become `Option` fields of `Context`.
- The two `os.environ` lookups become constructor parameters.
- The temporary file becomes an input path, and the details written to it
  become an output of `ToString`.

Python semantics the model writes out explicitly:

- **`key.lower()`** is modelled for every character whose lower-case form is
  ASCII: `A`–`Z`, and KELVIN SIGN, which lower-cases to `k`. That is exact
  for membership in the ASCII deny-lists.
- **`re.I` on the word `password`** matches each letter in either case. The
  letter `s` also matches LATIN SMALL LETTER LONG S (U+017F).
- **`\s`** is the set of characters for which `str.isspace()` holds.
- **`re.sub`** scans left to right for non-overlapping matches.

Three behaviours of the source are easy to misread. The model follows the
code in each:

- **A string body that is valid JSON but not an object** (an array, a
  number, a string) is returned unchanged. It does not go through the regex
  fallback (`jira/exceptions.py:38`, `jira/exceptions.py:60`).
- **The URL and the message text** are appended only when they are truthy,
  that is, present and non-empty, rather than whenever they are present.
- **Inline, the message appends `"\n\t"` before the details block.** Every
  details line already starts with `"\n\t"`, so the message holds a line
  that is only a tab. When there are no details, it ends in a newline and a
  tab.

## Model

| member | source | states |
|---|---|---|
| HeaderSanitizer.MaskedHeaders | jira/exceptions.py:24-27 | the copy has the input's length; every name is kept with its casing and position; a value is the mask exactly when its name, lower-cased, is one of the five deny-listed names, and is the input's value otherwise |
| HeaderSanitizer.SanitizeHeaders | jira/exceptions.py:12-28 | the loop that copies the mapping and overwrites deny-listed entries returns exactly the specified sanitized copy; an argument that is not a mapping is returned as it is |
| HeaderSanitizer.SanitizedHeadersSpec | jira/exceptions.py:14-28 | non-mapping input is unchanged; for a mapping, no deny-listed header shows anything but the mask, names and order are kept, and every other value is unchanged |
| HeaderSanitizer.MaskedHeadersFixpoint | jira/exceptions.py:25-27 | a mapping that already shows only the mask for deny-listed headers is returned equal |
| HeaderSanitizer.SanitizedHeadersIdempotent | jira/exceptions.py:24-28 | sanitizing twice equals sanitizing once |
| HeaderSanitizer.SensitiveHeaderValuesHidden | jira/exceptions.py:24-27 | two mappings that differ only in the values of deny-listed headers have the same sanitized copy |
| HeaderSanitizer.AuthorizationIsSensitive | jira/exceptions.py:17-26 | matching ignores case: `Authorization` is deny-listed |
| HeaderSanitizer.ContentTypeIsNotSensitive | jira/exceptions.py:17-26 | an ordinary header such as `Content-Type` is not masked |
| JsonScrub.Scrub | jira/exceptions.py:41-52 | the recursive walk over objects and arrays, with its loops over members and items, produces the specified scrubbed tree |
| JsonScrub.ScrubbedIsClean | jira/exceptions.py:41-50 | after scrubbing, every deny-listed member reachable through objects and arrays holds the mask |
| JsonScrub.ScrubbedAgrees | jira/exceptions.py:41-50 | scrubbing keeps node kinds, scalars, array lengths, keys and key order, and changes nothing outside deny-listed values |
| JsonScrub.ScrubbedUnique | jira/exceptions.py:41-50 | a tree that agrees with the input outside deny-listed values and hides every one of them is the scrubbed tree |
| JsonScrub.ScrubbedCharacterization | jira/exceptions.py:41-50 | a tree is the scrubbed tree if and only if it agrees with the input outside deny-listed values and hides them all |
| JsonScrub.CleanIsFixpoint | jira/exceptions.py:41-50 | a tree that already hides every deny-listed value is left unchanged |
| JsonScrub.ScrubbedIdempotent | jira/exceptions.py:41-50 | scrubbing a scrubbed tree changes nothing |
| JsonScrub.AgreesTransitive | jira/exceptions.py:41-50 | agreeing outside deny-listed values is transitive |
| JsonScrub.SensitiveValuesHidden | jira/exceptions.py:41-50 | two documents that differ only under deny-listed keys scrub to the same tree |
| JsonScrub.NestedPasswordMasked | jira/exceptions.py:41-47 | in `{"user": "a", "credentials": {"password": "p"}}` the nested password is masked and its siblings are kept |
| JsonScrub.ArrayElementsScrubbed | jira/exceptions.py:48-50 | each object in an array is scrubbed on its own, including a key spelled `Secret` |
| PasswordRegex.MatchQuoted | jira/exceptions.py:57 | the scanner for the first pattern at the start of a text; a match it reports is never empty and never runs past the text, and `MatchQuotedSound` and `MatchQuotedComplete` tie it to the pattern both ways |
| PasswordRegex.MatchForm | jira/exceptions.py:58 | the scanner for the second pattern at the start of a text; a match it reports is never empty and never runs past the text, and `MatchFormSpec` ties it to the pattern both ways |
| PasswordRegex.MatchQuotedSound | jira/exceptions.py:57 | when the scanner for `("password"\s*:\s*")[^"]+(")` reports a match, the pattern does match the text up to that end, and the returned split point is where its first group ends, so the replacement keeps that group as written |
| PasswordRegex.MatchQuotedComplete | jira/exceptions.py:57 | when the pattern matches at the start of a text, the scanner reports that match and the replacement keeps group 1, writes the mask and closes the quote |
| PasswordRegex.ScanQuoted | jira/exceptions.py:57 | a quoted key, blanks, a colon, blanks, an opening quote, a non-empty quote-free value and a closing quote make the scanner report a match ending after the closing quote |
| PasswordRegex.MatchFormSpec | jira/exceptions.py:58 | the scanner for `(password=[^&\s]+)` reports a match ending at `e` if and only if the pattern, with its greedy value, matches exactly up to `e` |
| PasswordRegex.SubstituteCopiesUnmatched | jira/exceptions.py:57-58 | `re.sub` copies the text before the first position where the pattern matches |
| PasswordRegex.SubstituteLeftmost | jira/exceptions.py:57-58 | the leftmost match is replaced, and the scan resumes after it |
| PasswordRegex.Substitute | jira/exceptions.py:57-58 | `re.sub` as a left-to-right scan; a text in which the pattern matches at no position comes back unchanged, and `SubstituteCopiesUnmatched` and `SubstituteLeftmost` give the copy-then-replace-then-resume shape of every other case |
| PasswordRegex.FormNeedsPassword | jira/exceptions.py:58 | the second substitution changes nothing in text without the word `password` |
| PasswordRegex.Redact | jira/exceptions.py:57-58 | the two substitutions in order; text without the word `password` in any casing passes through unchanged, and `QuotedValueMasked`, `FormValueMasked` and `EmptyFormValueKept` give what it does to each pattern's matches |
| PasswordRegex.NoQuoteNoQuotedMatch | jira/exceptions.py:57 | the first substitution changes nothing in text without a double quote |
| PasswordRegex.NoEqualsNoFormMatch | jira/exceptions.py:58 | the second substitution changes nothing in text without `=` |
| PasswordRegex.FormValueMasked | jira/exceptions.py:57-58 | anywhere in a text, `password=v` with `v` non-empty and running up to `&`, a blank or the end becomes the lower-case `password=********`, with the text before and after kept; e.g. `username=bob&password=abc123&x=1` becomes `username=bob&password=********&x=1` |
| PasswordRegex.EmptyFormValueKept | jira/exceptions.py:57-58 | anywhere in a text, `password=` with an empty value is left untouched, e.g. `user=bob&password=&x=1` |
| PasswordRegex.QuotedHit | jira/exceptions.py:57 | the first pattern matches `"key"`, any blanks, a colon, any blanks and a non-empty quote-free quoted value, up to and including the closing quote; the replacement keeps the key's casing and the blanks |
| PasswordRegex.QuotedSplice | jira/exceptions.py:57 | a match between two quote-free stretches is the only replacement made by the first substitution |
| PasswordRegex.QuotedValueMasked | jira/exceptions.py:57-58 | in non-JSON text, a quoted password value is replaced by the mask whatever the blanks around the colon (`"password":"v"`, `"Password" : "v"`), with the quotes, the blanks and the key's casing kept; the text around it holds no other quote or `=` |
| BodySanitizer.SanitizeBody | jira/exceptions.py:31-60 | parsing, scrubbing with the `Scrub` method and serialising, or falling back to the substitutions, produces exactly the specified sanitized body |
| BodySanitizer.SanitizedBodySpec | jira/exceptions.py:33-60 | there are four outcomes. Non-str input is unchanged. Valid JSON that is not an object is unchanged. An object is serialised after masking every deny-listed member and keeping everything else. Only unparseable text goes through the substitutions |
| BodySanitizer.SanitizedBodyIdempotent | jira/exceptions.py:36-53 | when `loads` reads back the scrubbed object that `dumps` wrote (a premise about that one tree only, not about every tree), sanitizing a body that parses twice equals sanitizing it once |
| BodySanitizer.SensitiveBodyValuesHidden | jira/exceptions.py:36-53 | two JSON object bodies that differ only in deny-listed values sanitize to the same text |
| BodySanitizer.PasswordBodyMasked | jira/exceptions.py:36-53 | `{"password": "secret"}` is serialised with the mask in place of the secret |
| Text.NatTextRoundTrip | jira/exceptions.py:95 | reading back the decimal digits of a status code gives the code |
| Text.IntTextInjective | jira/exceptions.py:95 | different status codes render differently |
| JiraErrors.JiraError.constructor | jira/exceptions.py:66-92 | every argument is stored; `headers` is the `headers` keyword argument, or None when it is absent; the two environment flags are stored as given |
| JiraErrors.JiraError.AppendContext | jira/exceptions.py:100-111 | appends a context's sanitized-headers line, then its sanitized-text line, each only when the context has that attribute, and nothing for an absent context |
| JiraErrors.JiraError.BuildDetails | jira/exceptions.py:99-111 | the details block is the request lines followed by the response lines |
| JiraErrors.JiraError.ToString | jira/exceptions.py:94-125 | the message built by appending equals the specified rendering. In file mode the details block is what is written to the file; inline, nothing is written |
| JiraErrors.StatusLengthOf | jira/exceptions.py:95 | the status can be read back from the front of a message: `None`, or a sign and the longest run of digits |
| JiraErrors.StatusTextPrefixFree | jira/exceptions.py:95 | a rendered status followed by a non-digit determines the status |
| JiraErrors.RenderedAfterStatus | jira/exceptions.py:95-123 | every message is `JiraError HTTP <status>` followed by a blank or a newline |
| JiraErrors.StatusCodeRecoverable | jira/exceptions.py:95-123 | two equal messages carry the same status code, whichever modes and paths produced them |
| JiraErrors.FileModeKeepsDetailsOut | jira/exceptions.py:113-118 | in file mode the message is the summary and ` details: <path>` only; the text, request and response do not affect it |
| JiraErrors.StoredOnlyFieldsIgnored | jira/exceptions.py:90-125 | neither the `headers` keyword argument nor the CI flag affects the message |
| JiraErrors.ContextLinesHideSecrets | jira/exceptions.py:100-111 | the lines of a context do not depend on the values of deny-listed headers or deny-listed JSON members |
| JiraErrors.SecretsNeverRendered | jira/exceptions.py:94-125 | two errors that differ only in deny-listed header values and deny-listed JSON values render the same message and write the same details |
| JiraErrors.InlineEndsWithDetails | jira/exceptions.py:119-123 | inline, the message ends with a newline, a tab and the details block |
| JiraErrors.AuthorizationShownMasked | jira/exceptions.py:108 | a response header `Authorization: Bearer xyz` is shown only as the mask |
| JiraErrors.NotFoundDetails | jira/exceptions.py:106-111 | the response lines of the 404 example show the masked header and the masked password |
| JiraErrors.NotFoundExample | jira/exceptions.py:94-125 | a 404 with a URL, an `Authorization` response header and the body `{"password":"secret"}` renders inline. The message shows `JiraError HTTP 404`, the URL, the masked header and the masked password, and nothing of the secrets |

## Left out

- `NotJIRAInstanceError` (`jira/exceptions.py:128-136`): it only formats a fixed message with a class name.
- **Creating and writing the temporary file** (`tempfile.mkstemp`, `open`, `write`) is file-system I/O:
  - the path is an input of `ToString`;
  - the content written is its `written` output;
  - a failing file system, which makes the Python method raise, is not modelled.
- **The `os.environ` lookups** are not modelled: `logToTempfile` and `ciRun` are constructor parameters.
- **The text format of `json.loads` and `json.dumps`** is abstract:
  - whitespace, escaping, number printing and duplicate-key handling are not modelled;
  - `JsonCodec.loads` returning None stands for `JSONDecodeError`;
  - other exceptions `json.loads` can raise are not modelled. Examples are `RecursionError` on a deeply nested body and `ValueError` on an integer literal longer than the interpreter's digit limit. `_sanitize_body` does not catch these (`jira/exceptions.py:54`), so they propagate out of `__str__`, where the model renders a message;
  - the `TypeError` branch cannot be reached with a str and is not modelled separately.
- `repr` of a dict inside the f-strings is the abstract function `Runtime.dictRepr`.
- **Python's `str.lower()`** is modelled only for the characters whose lower-case form is ASCII. No other character can change whether a name is in the ASCII deny-lists.
- **Duck typing** is not modelled:
  - "has `items`" becomes the `Mapping` case of `HeadersArg`;
  - "has `headers`" and "has `text`" become `Option` fields of `Context`;
  - an object that is not a mapping, or a body that is not a str, is kept only as the text `str()` gives for it.
- **Header values are strings** in the model. A header mapping's names are not required to be distinct.
- **`scrub` mutates the freshly parsed tree in place; the model rebuilds it as a value.** `json.loads` never shares nodes, so the two agree; aliasing is not modelled.
- PasswordRegex.FormValueMasked: states the fallback's result for one `password=v` in text without a double quote and without the word anywhere else; several occurrences are covered step by step by `SubstituteLeftmost`.
- PasswordRegex.EmptyFormValueKept: states it for one `password=` in text without a double quote and without the word anywhere else.
- PasswordRegex.QuotedValueMasked: states the whole fallback's result for one quoted password pair in text holding no other double quote or `=`; a text with several matches is covered step by step by `SubstituteLeftmost`, not by a closed formula.
- **`PasswordRegex.Redact`** is not proved idempotent, and is not proved independent of the password values it masks. The fallback is best-effort in the source as well.
- **The regex substitutions are not general regular-expression semantics.** Each of the two fixed patterns has its own scanner, proved equal to a statement of what that pattern matches.
