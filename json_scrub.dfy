/** The recursive scrub applied to a request or response body that parses as
    a JSON object: every member whose key is deny-listed has its whole value
    replaced by the mask, at any depth reachable through objects and arrays. */
module JsonScrub {
  import opened Text

  /** A parsed JSON document, the value `json.loads` returns. An object's
      members are in insertion order, one per key; a number is held as the
      text `json.dumps` prints for the parsed int or float (`1E2` is held as
      `100.0`). */
  datatype Json =
    | JNull
    | JBool(b: bool)
    | JNumber(printed: string)
    | JString(s: string)
    | JArray(items: seq<Json>)
    | JObject(members: seq<(string, Json)>)

  /** The value a deny-listed member ends up with. */
  const Masked: Json := JString(Mask)

  /** `key.lower() in sensitive_keys`. */
  predicate IsSensitiveKey(key: string) {
    var name := Folded(key);
    name == "password" || name == "token" || name == "secret" || name == "access_token"
  }

  /** The tree `scrub` leaves behind. */
  function Scrubbed(j: Json): Json
    decreases j
  {
    match j
    case JArray(items) =>
      JArray(seq(|items|, i requires 0 <= i < |items| => Scrubbed(items[i])))
    case JObject(ms) =>
      JObject(seq(|ms|, i requires 0 <= i < |ms| =>
        (ms[i].0, if IsSensitiveKey(ms[i].0) then Masked else Scrubbed(ms[i].1))))
    case _ => j
  }

  /** `scrub`: walks objects and arrays; a deny-listed member is overwritten
      and not descended into, every other member and every array element is
      scrubbed in turn. Python mutates the freshly parsed tree in place; a
      parsed tree shares no nodes, so rebuilding each visited node is the
      same thing. */
  method Scrub(j: Json) returns (r: Json)
    ensures r == Scrubbed(j)
    decreases j
  {
    match j {
      case JObject(ms) =>
        var obj := ms;
        var i := 0;
        while i < |obj|
          invariant i <= |obj| == |ms|
          invariant forall k :: 0 <= k < i ==> obj[k] == Scrubbed(j).members[k]
          invariant forall k :: i <= k < |obj| ==> obj[k] == ms[k]
        {
          var (key, value) := obj[i];
          if IsSensitiveKey(key) {
            obj := obj[i := (key, Masked)];
          } else {
            assert ms[i] in ms;
            var clean := Scrub(value);
            obj := obj[i := (key, clean)];
          }
          i := i + 1;
        }
        r := JObject(obj);
      case JArray(items) =>
        var list := items;
        var i := 0;
        while i < |list|
          invariant i <= |list| == |items|
          invariant forall k :: 0 <= k < i ==> list[k] == Scrubbed(j).items[k]
          invariant forall k :: i <= k < |list| ==> list[k] == items[k]
        {
          var clean := Scrub(list[i]);
          list := list[i := clean];
          i := i + 1;
        }
        r := JArray(list);
      case _ =>
        r := j;
    }
  }

  /** No deny-listed member anywhere reachable shows anything but the mask. */
  ghost predicate Clean(j: Json)
    decreases j
  {
    match j
    case JArray(items) => forall i :: 0 <= i < |items| ==> Clean(items[i])
    case JObject(ms) =>
      forall i :: 0 <= i < |ms| ==>
        if IsSensitiveKey(ms[i].0) then ms[i].1 == Masked else Clean(ms[i].1)
    case _ => true
  }

  /** `r` equals `j` everywhere except inside the values of deny-listed
      members: same kind of node, same scalars, same array lengths, same keys
      in the same order. */
  ghost predicate AgreesOutsideSensitive(j: Json, r: Json)
    decreases j
  {
    match j
    case JArray(items) =>
      && r.JArray? && |r.items| == |items|
      && forall i :: 0 <= i < |items| ==> AgreesOutsideSensitive(items[i], r.items[i])
    case JObject(ms) =>
      && r.JObject? && |r.members| == |ms|
      && forall i :: 0 <= i < |ms| ==>
           && r.members[i].0 == ms[i].0
           && (!IsSensitiveKey(ms[i].0) ==> AgreesOutsideSensitive(ms[i].1, r.members[i].1))
    case _ => r == j
  }

  /** Scrubbing leaves no deny-listed value visible, at any depth. */
  lemma {:induction false} ScrubbedIsClean(j: Json)
    ensures Clean(Scrubbed(j))
    decreases j
  {
    match j
    case JArray(items) =>
      forall i | 0 <= i < |items| ensures Clean(Scrubbed(j).items[i]) {
        ScrubbedIsClean(items[i]);
      }
    case JObject(ms) =>
      forall i | 0 <= i < |ms| && !IsSensitiveKey(ms[i].0)
        ensures Clean(Scrubbed(j).members[i].1)
      {
        assert ms[i] in ms;
        ScrubbedIsClean(ms[i].1);
      }
    case _ =>
  }

  /** Scrubbing changes nothing outside deny-listed values. */
  lemma {:induction false} ScrubbedAgrees(j: Json)
    ensures AgreesOutsideSensitive(j, Scrubbed(j))
    decreases j
  {
    match j
    case JArray(items) =>
      forall i | 0 <= i < |items| ensures AgreesOutsideSensitive(items[i], Scrubbed(j).items[i]) {
        ScrubbedAgrees(items[i]);
      }
    case JObject(ms) =>
      forall i | 0 <= i < |ms| && !IsSensitiveKey(ms[i].0)
        ensures AgreesOutsideSensitive(ms[i].1, Scrubbed(j).members[i].1)
      {
        assert ms[i] in ms;
        ScrubbedAgrees(ms[i].1);
      }
    case _ =>
  }

  /** The scrubbed tree is the only one that both agrees with the input
      outside deny-listed values and hides every deny-listed value. */
  lemma {:induction false} ScrubbedUnique(j: Json, r: Json)
    requires AgreesOutsideSensitive(j, r) && Clean(r)
    ensures r == Scrubbed(j)
    decreases j
  {
    match j
    case JArray(items) =>
      forall i | 0 <= i < |items| ensures r.items[i] == Scrubbed(j).items[i] {
        ScrubbedUnique(items[i], r.items[i]);
      }
    case JObject(ms) =>
      forall i | 0 <= i < |ms| ensures r.members[i] == Scrubbed(j).members[i] {
        if !IsSensitiveKey(ms[i].0) {
          assert ms[i] in ms;
          ScrubbedUnique(ms[i].1, r.members[i].1);
        }
      }
    case _ =>
  }

  /** The scrub, characterised without reference to how it is computed. */
  lemma ScrubbedCharacterization(j: Json, r: Json)
    ensures r == Scrubbed(j) <==> AgreesOutsideSensitive(j, r) && Clean(r)
  {
    if r == Scrubbed(j) {
      ScrubbedIsClean(j);
      ScrubbedAgrees(j);
    } else if AgreesOutsideSensitive(j, r) && Clean(r) {
      ScrubbedUnique(j, r);
    }
  }

  /** Every tree agrees with itself. */
  lemma {:induction false} AgreesReflexive(j: Json)
    ensures AgreesOutsideSensitive(j, j)
    decreases j
  {
    match j
    case JArray(items) =>
      forall i | 0 <= i < |items| ensures AgreesOutsideSensitive(items[i], items[i]) {
        AgreesReflexive(items[i]);
      }
    case JObject(ms) =>
      forall i | 0 <= i < |ms| ensures AgreesOutsideSensitive(ms[i].1, ms[i].1) {
        assert ms[i] in ms;
        AgreesReflexive(ms[i].1);
      }
    case _ =>
  }

  /** A tree that already hides every deny-listed value is left as it is. */
  lemma CleanIsFixpoint(j: Json)
    requires Clean(j)
    ensures Scrubbed(j) == j
  {
    AgreesReflexive(j);
    ScrubbedUnique(j, j);
  }

  /** Scrubbing an already scrubbed tree changes nothing. */
  lemma ScrubbedIdempotent(j: Json)
    ensures Scrubbed(Scrubbed(j)) == Scrubbed(j)
  {
    ScrubbedIsClean(j);
    CleanIsFixpoint(Scrubbed(j));
  }

  /** Agreeing outside deny-listed values is transitive. */
  lemma {:induction false} AgreesTransitive(a: Json, b: Json, c: Json)
    requires AgreesOutsideSensitive(a, b) && AgreesOutsideSensitive(b, c)
    ensures AgreesOutsideSensitive(a, c)
    decreases a
  {
    match a
    case JArray(items) =>
      forall i | 0 <= i < |items| ensures AgreesOutsideSensitive(items[i], c.items[i]) {
        AgreesTransitive(items[i], b.items[i], c.items[i]);
      }
    case JObject(ms) =>
      forall i | 0 <= i < |ms| && !IsSensitiveKey(ms[i].0)
        ensures AgreesOutsideSensitive(ms[i].1, c.members[i].1)
      {
        assert ms[i] in ms;
        AgreesTransitive(ms[i].1, b.members[i].1, c.members[i].1);
      }
    case _ =>
  }

  /** The scrubbed tree does not depend on what deny-listed members held:
      two documents that differ only there scrub to the same tree. */
  lemma SensitiveValuesHidden(a: Json, b: Json)
    requires AgreesOutsideSensitive(a, b)
    ensures Scrubbed(a) == Scrubbed(b)
  {
    ScrubbedAgrees(b);
    AgreesTransitive(a, b, Scrubbed(b));
    ScrubbedIsClean(b);
    ScrubbedUnique(a, Scrubbed(b));
  }

  /** A nested deny-listed member is masked while its siblings are kept:
      {"user": "a", "credentials": {"password": "p"}}. */
  lemma NestedPasswordMasked()
    ensures
      var doc := JObject([("user", JString("a")),
                          ("credentials", JObject([("password", JString("p"))]))]);
      Scrubbed(doc) == JObject([("user", JString("a")),
                                ("credentials", JObject([("password", Masked)]))])
  {
    var inner := JObject([("password", JString("p"))]);
    assert IsSensitiveKey("password");
    assert Scrubbed(inner).members == [("password", Masked)];
    var doc := JObject([("user", JString("a")), ("credentials", inner)]);
    assert !IsSensitiveKey("user") && !IsSensitiveKey("credentials");
    assert Scrubbed(doc).members[0] == ("user", JString("a"));
    assert Scrubbed(doc).members[1] == ("credentials", JObject([("password", Masked)]));
  }

  /** Each element of an array is scrubbed on its own:
      [{"token": "t1"}, {"id": 7}, {"Secret": "s"}]. */
  lemma ArrayElementsScrubbed()
    ensures
      var doc := JArray([JObject([("token", JString("t1"))]),
                         JObject([("id", JNumber("7"))]),
                         JObject([("Secret", JString("s"))])]);
      Scrubbed(doc) == JArray([JObject([("token", Masked)]),
                               JObject([("id", JNumber("7"))]),
                               JObject([("Secret", Masked)])])
  {
    var a := JObject([("token", JString("t1"))]);
    var b := JObject([("id", JNumber("7"))]);
    var c := JObject([("Secret", JString("s"))]);
    assert IsSensitiveKey("token") && !IsSensitiveKey("id") && IsSensitiveKey("Secret");
    assert Scrubbed(a).members == [("token", Masked)];
    assert Scrubbed(b).members == [("id", JNumber("7"))];
    assert Scrubbed(c).members == [("Secret", Masked)];
    assert Scrubbed(JArray([a, b, c])).items == [Scrubbed(a), Scrubbed(b), Scrubbed(c)];
  }
}
