/** Request templates: collecting the placeholders of every field and filling them in. Headers
    are a hash map, so both walks visit them in an arbitrary order of their own. */
module Template {
  import opened Wrappers
  import opened Scanner
  import opened Substitution
  import opened Residue
  import opened Text

  datatype RequestTemplate = RequestTemplate(
    httpMethod: string, url: string, headers: map<string, string>, body: Option<string>)

  ghost predicate Mentions(t: RequestTemplate, n: string) {
    || n in Names(t.url)
    || (exists k :: k in t.headers && (n in Names(k) || n in Names(t.headers[k])))
    || (t.body.Some? && n in Names(t.body.value))
  }

  /** A template mentions the names of the grammar that occur in braces in its URL, in the name or value
      of a header, or in its body. */
  lemma MentionsExactly(t: RequestTemplate, n: string)
    ensures var token := "{" + n + "}";
            Mentions(t, n) <==>
              && Grammatical(n)
              && (|| Contains(t.url, token)
                  || (exists k :: k in t.headers && (Contains(k, token) || Contains(t.headers[k], token)))
                  || (t.body.Some? && Contains(t.body.value, token)))
  {
    ScannerExact(t.url);
    forall k | k in t.headers
      ensures n in Names(k) <==> Grammatical(n) && Contains(k, "{" + n + "}")
      ensures n in Names(t.headers[k]) <==> Grammatical(n) && Contains(t.headers[k], "{" + n + "}")
    {
      ScannerExact(k);
      ScannerExact(t.headers[k]);
    }
    if t.body.Some? {
      ScannerExact(t.body.value);
    }
  }

  method AddNew(all: seq<string>, text: string) returns (grown: seq<string>)
    requires NoDuplicates(all)
    ensures NoDuplicates(grown) && all <= grown
    ensures forall n :: n in grown <==> n in all || n in Names(text)
    ensures all == [] ==> grown == Names(text)
  {
    var found, _ := ParsePlaceholders(text);
    NamesExact(text);
    grown := all;
    for i := 0 to |found|
      invariant NoDuplicates(grown) && all <= grown
      invariant forall n :: n in grown <==> n in all || n in found[..i]
      invariant all == [] ==> grown == found[..i]
    {
      assert found[..i + 1] == found[..i] + [found[i]] && found[i] !in found[..i];
      if found[i] !in grown {
        grown := grown + [found[i]];
      }
    }
    assert found[..|found|] == found;
  }

  /** Every name that occurs in some field, once, those of the URL first. */
  method CollectAllPlaceholders(t: RequestTemplate) returns (all: seq<string>)
    ensures NoDuplicates(all)
    ensures forall n :: n in all <==> Mentions(t, n)
    ensures Names(t.url) <= all
  {
    all := AddNew([], t.url);
    var rest := t.headers.Keys;
    while rest != {}
      invariant rest <= t.headers.Keys && NoDuplicates(all) && Names(t.url) <= all
      invariant forall n :: n in all <==>
                            n in Names(t.url) || exists k :: k in t.headers.Keys - rest &&
                                                             (n in Names(k) || n in Names(t.headers[k]))
      decreases rest
    {
      var key :| key in rest;
      all := AddNew(all, key);
      all := AddNew(all, t.headers[key]);
      rest := rest - {key};
    }
    if t.body.Some? {
      all := AddNew(all, t.body.value);
    }
  }

  function Filled(s: string, f: Secrets): string
    requires Covers(f, Names(s))
  {
    ReplaceEach(s, Names(s), f)
  }

  ghost predicate CoversTemplate(f: Secrets, t: RequestTemplate) {
    forall n :: Mentions(t, n) ==> n in f
  }

  /** `r` is `t` with every field filled in. Header names that become equal share one entry,
      which holds the value of one of them. */
  ghost predicate Hydrates(t: RequestTemplate, f: Secrets, r: RequestTemplate)
    requires CoversTemplate(f, t)
  {
    && r.httpMethod == t.httpMethod
    && r.url == Filled(t.url, f)
    && (forall k :: k in t.headers ==> Filled(k, f) in r.headers)
    && (forall h :: h in r.headers ==>
          exists k :: k in t.headers && h == Filled(k, f) && r.headers[h] == Filled(t.headers[k], f))
    && r.body == match t.body case Some(b) => Some(Filled(b, f)) case None => None
  }

  ghost predicate CoversHeader(f: Secrets, headers: map<string, string>, k: string)
    requires k in headers
  {
    Covers(f, Names(k)) && Covers(f, Names(headers[k]))
  }

  /** `filled` holds the filled-in headers of these names, and nothing else. */
  ghost predicate FillsHeaders(headers: map<string, string>, names: set<string>, f: Secrets,
                               filled: map<string, string>)
    requires names <= headers.Keys
  {
    && (forall k :: k in names ==> CoversHeader(f, headers, k) && Filled(k, f) in filled)
    && (forall h :: h in filled ==>
          exists k :: k in names && h == Filled(k, f) && filled[h] == Filled(headers[k], f))
  }

  method SubstituteHeaders(headers: map<string, string>, secrets: Secrets)
    returns (r: Result<map<string, string>, string>)
    ensures r.Ok? <==> forall k :: k in headers ==> CoversHeader(secrets, headers, k)
    ensures r.Ok? ==> FillsHeaders(headers, headers.Keys, secrets, r.value)
    ensures r.Ok? ==> forall k :: k in headers ==> Covers(secrets, Names(k)) && Filled(k, secrets) in r.value
    ensures r.Ok? ==> forall h :: h in r.value ==>
              exists k :: k in headers && Covers(secrets, Names(k)) && Covers(secrets, Names(headers[k])) &&
                          h == Filled(k, secrets) && r.value[h] == Filled(headers[k], secrets)
    ensures r.Err? ==> r.error !in secrets &&
                       exists k :: k in headers && (r.error in Names(k) || r.error in Names(headers[k]))
  {
    var filled: map<string, string> := map[];
    var rest := headers.Keys;
    while rest != {}
      invariant rest <= headers.Keys
      invariant FillsHeaders(headers, headers.Keys - rest, secrets, filled)
      decreases rest
    {
      var key :| key in rest;
      var newKey := Substitute(key, secrets);
      if newKey.Err? {
        return Err(newKey.error);
      }
      var newValue := Substitute(headers[key], secrets);
      if newValue.Err? {
        return Err(newValue.error);
      }
      filled := filled[newKey.value := newValue.value];
      rest := rest - {key};
    }
    r := Ok(filled);
  }

  method SubstituteTemplate(t: RequestTemplate, secrets: Secrets) returns (r: Result<RequestTemplate, string>)
    ensures r.Ok? <==> CoversTemplate(secrets, t)
    ensures r.Ok? ==> Hydrates(t, secrets, r.value)
    ensures r.Ok? ==> Covers(secrets, Names(t.url)) && r.value.url == Filled(t.url, secrets) &&
                      r.value.httpMethod == t.httpMethod && (r.value.body.Some? <==> t.body.Some?)
    ensures r.Ok? && t.body.Some? ==>
              Covers(secrets, Names(t.body.value)) && r.value.body.value == Filled(t.body.value, secrets)
    ensures r.Err? ==> Mentions(t, r.error) && r.error !in secrets
  {
    var url := Substitute(t.url, secrets);
    if url.Err? {
      return Err(url.error);
    }
    var headers := SubstituteHeaders(t.headers, secrets);
    if headers.Err? {
      return Err(headers.error);
    }
    var body: Option<string> := None;
    if t.body.Some? {
      var filled := Substitute(t.body.value, secrets);
      if filled.Err? {
        return Err(filled.error);
      }
      body := Some(filled.value);
    }
    r := Ok(RequestTemplate(t.httpMethod, url.value, headers.value, body));
  }

  /** With inert secrets, the hydrated request mentions no placeholder in any field. */
  lemma HydratedMentionsNothing(t: RequestTemplate, f: Secrets, r: RequestTemplate, n: string)
    requires CoversTemplate(f, t) && Hydrates(t, f, r) && AllInert(f)
    ensures !Mentions(r, n)
  {
    ResultHasNoPlaceholder(t.url, f);
    if t.body.Some? {
      ResultHasNoPlaceholder(t.body.value, f);
    }
    forall h | h in r.headers
      ensures Names(h) == [] && Names(r.headers[h]) == []
    {
      var k :| k in t.headers && h == Filled(k, f) && r.headers[h] == Filled(t.headers[k], f);
      ResultHasNoPlaceholder(k, f);
      ResultHasNoPlaceholder(t.headers[k], f);
    }
  }
}
