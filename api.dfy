/**
 * Request construction in src/api/index.tsx.  callApi turns an endpoint, an
 * optional method, an API version, an optional query and a language into the
 * method, URL and headers that it hands to `fetch`; getVersion and
 * logOutFromServer are two fixed uses of it.  The model stops where `fetch`
 * is called: the Request value is what `fetch` would receive.  The defaults
 * that come from the build environment (API version and language) are plain
 * inputs here.
 */
module Api {

  import opened Wrappers
  import opened Strings

  datatype HttpMethod = DELETE | GET | PATCH | POST | PUT

  /** The part of the api reducer's state that callApi reads; `null` is None. */
  datatype ApiState = ApiState(authToken: Option<string>)

  /** A query object as its keys in insertion order, each with its value. */
  type Query = seq<(string, string)>

  /** What callApi passes to `fetch`: the method, the URL and the headers. */
  datatype Request = Request(httpMethod: HttpMethod, url: string, headers: map<string, string>)

  /** JavaScript truthiness of an optional string: present and not empty. */
  predicate Truthy(s: Option<string>)
  {
    s.Some? && s.value != ""
  }

  // ---------------------------------------------------------------------------
  // The endpoint

  /** The endpoint with one '/' put in front and one behind when missing. */
  function NormalizeEndpoint(endpoint: string): (r: string)
    ensures StartsWith(r, '/') && EndsWith(r, '/')
    ensures StartsWith(endpoint, '/') && EndsWith(endpoint, '/') ==> r == endpoint
    ensures var k := if StartsWith(endpoint, '/') then 0 else 1;
      k + |endpoint| <= |r| && r[k..k + |endpoint|] == endpoint
    ensures |r| == |endpoint| + (if StartsWith(endpoint, '/') then 0 else 1)
                              + (if EndsWith(endpoint, '/') || endpoint == "" then 0 else 1)
  {
    var withLead := if StartsWith(endpoint, '/') then endpoint else "/" + endpoint;
    if EndsWith(withLead, '/') then withLead else withLead + "/"
  }

  lemma NormalizeEndpointIdempotent(endpoint: string)
    ensures NormalizeEndpoint(NormalizeEndpoint(endpoint)) == NormalizeEndpoint(endpoint)
  {
  }

  /** An endpoint with no slashes at its ends gains exactly one on each side. */
  lemma NormalizeBareEndpoint(endpoint: string)
    requires endpoint != [] && endpoint[0] != '/' && endpoint[|endpoint| - 1] != '/'
    ensures NormalizeEndpoint(endpoint) == "/" + endpoint + "/"
  {
  }

  // ---------------------------------------------------------------------------
  // The query

  function Keys(q: Query): (ks: seq<string>)
    ensures |ks| == |q| && forall i :: 0 <= i < |q| ==> ks[i] == q[i].0
  {
    if q == [] then [] else [q[0].0] + Keys(q[1..])
  }

  /** No key occurs twice, as in any JavaScript object. */
  predicate DistinctKeys(q: Query)
  {
    forall i, j :: 0 <= i < j < |q| ==> q[i].0 != q[j].0
  }

  /** The value stored under `k`. */
  function Lookup(q: Query, k: string): (r: Option<string>)
    ensures r.None? <==> k !in Keys(q)
    ensures r.Some? ==> exists i :: 0 <= i < |q| && q[i] == (k, r.value)
  {
    if q == [] then None
    else if q[0].0 == k then Some(q[0].1)
    else Lookup(q[1..], k)
  }

  /**
   * `{ ...q, [k]: v }`: an existing key keeps its place and takes the new
   * value; a new key goes at the end.
   */
  function SetKey(q: Query, k: string, v: string): (r: Query)
    ensures k in Keys(r)
    ensures |r| == |q| + (if k in Keys(q) then 0 else 1)
  {
    if q == [] then [(k, v)]
    else if q[0].0 == k then [(k, v)] + q[1..]
    else [q[0]] + SetKey(q[1..], k, v)
  }

  /** After SetKey the key holds the new value and every other key its old one. */
  lemma {:induction false} SetKeyLookup(q: Query, k: string, v: string, k': string)
    ensures Lookup(SetKey(q, k, v), k') == if k' == k then Some(v) else Lookup(q, k')
  {
    if q != [] && q[0].0 != k {
      SetKeyLookup(q[1..], k, v, k');
      assert SetKey(q, k, v)[1..] == SetKey(q[1..], k, v);
    }
  }

  /** SetKey keeps the key order, adding a new key at the end. */
  lemma {:induction false} SetKeyKeys(q: Query, k: string, v: string)
    ensures Keys(SetKey(q, k, v)) == if k in Keys(q) then Keys(q) else Keys(q) + [k]
  {
    if q != [] {
      assert Keys(q) == [q[0].0] + Keys(q[1..]);
      if q[0].0 != k {
        var rest := SetKey(q[1..], k, v);
        SetKeyKeys(q[1..], k, v);
        assert Keys([q[0]] + rest) == [q[0].0] + Keys(rest);
      } else {
        assert Keys([(k, v)] + q[1..]) == [k] + Keys(q[1..]);
      }
    }
  }

  lemma SetKeyDistinct(q: Query, k: string, v: string)
    requires DistinctKeys(q)
    ensures DistinctKeys(SetKey(q, k, v))
  {
    var r := SetKey(q, k, v);
    SetKeyKeys(q, k, v);
    assert Keys(r) == if k in Keys(q) then Keys(q) else Keys(q) + [k];
    forall i, j | 0 <= i < j < |r| ensures r[i].0 != r[j].0 {
      assert Keys(r)[i] == r[i].0 && Keys(r)[j] == r[j].0;
      if j == |q| {
        assert k !in Keys(q);
        assert Keys(q)[i] == q[i].0;
      } else {
        assert Keys(q)[i] == q[i].0 && Keys(q)[j] == q[j].0;
      }
    }
  }

  /** `{ ...query, lang }`: always has a `lang` key, and only adds one when the query has none. */
  function WithLang(query: Query, lang: string): (r: Query)
    ensures "lang" in Keys(r)
    ensures |r| == |query| + (if "lang" in Keys(query) then 0 else 1)
  {
    SetKey(query, "lang", lang)
  }

  /** `lang` wins over a `lang` key of the query and keeps its position. */
  lemma WithLangProperties(query: Query, lang: string)
    ensures Lookup(WithLang(query, lang), "lang") == Some(lang)
    ensures forall k :: k != "lang" ==> Lookup(WithLang(query, lang), k) == Lookup(query, k)
    ensures Keys(WithLang(query, lang)) == if "lang" in Keys(query) then Keys(query) else Keys(query) + ["lang"]
  {
    SetKeyLookup(query, "lang", lang, "lang");
    forall k | k != "lang" ensures Lookup(WithLang(query, lang), k) == Lookup(query, k) {
      SetKeyLookup(query, "lang", lang, k);
    }
    SetKeyKeys(query, "lang", lang);
  }

  /** `${k}=${v}`, with nothing escaped. */
  function Pair(kv: (string, string)): string
  {
    kv.0 + "=" + kv.1
  }

  function Pairs(q: Query): (ps: seq<string>)
    ensures |ps| == |q| && forall i :: 0 <= i < |q| ==> ps[i] == Pair(q[i])
  {
    if q == [] then [] else [Pair(q[0])] + Pairs(q[1..])
  }

  /** The query string: every pair, joined by '&', in key order; it starts with the first pair. */
  function QueryString(q: Query): (s: string)
    ensures q == [] ==> s == ""
    ensures q != [] ==> Pair(q[0]) <= s
  {
    Join(Pairs(q), '&')
  }

  /** Reading one `k=v` back: the key ends at the first '='. */
  function ParsePair(s: string): (string, string)
  {
    var parts := Split(s, '=');
    (parts[0], Join(parts[1..], '='))
  }

  function ParsePairs(ps: seq<string>): (q: Query)
    ensures |q| == |ps| && forall i :: 0 <= i < |ps| ==> q[i] == ParsePair(ps[i])
  {
    if ps == [] then [] else [ParsePair(ps[0])] + ParsePairs(ps[1..])
  }

  /** Reading a query string back into its pairs. */
  function ParseQuery(s: string): Query
  {
    ParsePairs(Split(s, '&'))
  }

  /** Keys free of '&' and '=', and values free of '&', survive the query string. */
  predicate Unambiguous(q: Query)
  {
    forall i :: 0 <= i < |q| ==> '&' !in q[i].0 && '=' !in q[i].0 && '&' !in q[i].1
  }

  lemma ParsePairOfPair(kv: (string, string))
    requires '=' !in kv.0
    ensures ParsePair(Pair(kv)) == kv
  {
    assert Pair(kv) == kv.0 + ['='] + kv.1;
    SplitSepConcat(kv.0, '=', kv.1);
    var parts := Split(Pair(kv), '=');
    assert parts[1..] == Split(kv.1, '=');
    JoinSplit(kv.1, '=');
  }

  /** A non-empty unambiguous query is read back from its query string unchanged. */
  lemma QueryStringRoundTrip(q: Query)
    requires |q| >= 1 && Unambiguous(q)
    ensures ParseQuery(QueryString(q)) == q
  {
    var ps := Pairs(q);
    forall i | 0 <= i < |ps|
      ensures '&' !in ps[i]
    {
      assert ps[i] == q[i].0 + "=" + q[i].1;
    }
    SplitJoin(ps, '&');
    forall i | 0 <= i < |q|
      ensures ParsePairs(ps)[i] == q[i]
    {
      ParsePairOfPair(q[i]);
    }
  }

  // ---------------------------------------------------------------------------
  // callApi

  /** The URL callApi fetches: under `/api/<version>/`, with a query string after a '?'. */
  function RequestUrl(version: string, endpoint: string, query: Query, lang: string): (url: string)
    ensures "/api/" + version + "/" <= url
    ensures '?' in url
  {
    "/api/" + version + (NormalizeEndpoint(endpoint) + "?" + QueryString(WithLang(query, lang)))
  }

  /** The headers: a bearer Authorization header exactly when there is a token. */
  function AuthHeaders(apiState: ApiState): (h: map<string, string>)
    ensures "Authorization" in h <==> Truthy(apiState.authToken)
    ensures "Authorization" in h ==> h["Authorization"] == "Bearer " + apiState.authToken.value
    ensures forall name :: name in h ==> name == "Authorization"
  {
    if Truthy(apiState.authToken) then map["Authorization" := "Bearer " + apiState.authToken.value]
    else map[]
  }

  /**
   * callApi up to the `fetch` call.  `httpMethod` and `query` are None when the
   * caller leaves them out; they then default to GET and the empty query.
   */
  method CallApi(apiState: ApiState, endpoint: string, httpMethod: Option<HttpMethod>, version: string,
                 query: Option<Query>, lang: string) returns (req: Request)
    requires query.Some? ==> DistinctKeys(query.value)
    ensures req.httpMethod == if httpMethod.Some? then httpMethod.value else GET
    ensures req.url == RequestUrl(version, endpoint, if query.Some? then query.value else [], lang)
    ensures req.headers == AuthHeaders(apiState)
  {
    var m := if httpMethod.Some? then httpMethod.value else GET;
    var q := if query.Some? then query.value else [];
    var adjustedEndpoint := endpoint;
    if !StartsWith(adjustedEndpoint, '/') {
      adjustedEndpoint := "/" + adjustedEndpoint;
    }
    if !EndsWith(adjustedEndpoint, '/') {
      adjustedEndpoint := adjustedEndpoint + "/";
    }
    assert adjustedEndpoint == NormalizeEndpoint(endpoint);
    var headers: map<string, string> := map[];
    if Truthy(apiState.authToken) {
      headers := headers["Authorization" := "Bearer " + apiState.authToken.value];
    }
    var queryWithLang := SetKey(q, "lang", lang);
    var queryString := Join(Pairs(queryWithLang), '&');
    adjustedEndpoint := adjustedEndpoint + "?" + queryString;
    req := Request(m, "/api/" + version + adjustedEndpoint, headers);
  }

  /**
   * The URL splits at its first '?' into the path and the query string, and
   * the query string reads back as the caller's query with `lang` set.
   */
  lemma RequestUrlRoundTrip(version: string, endpoint: string, query: Query, lang: string)
    requires '?' !in version && '?' !in endpoint
    requires Unambiguous(query) && '&' !in lang
    ensures var parts := Split(RequestUrl(version, endpoint, query, lang), '?');
      parts[0] == "/api/" + version + NormalizeEndpoint(endpoint) &&
      ParseQuery(Join(parts[1..], '?')) == WithLang(query, lang)
    ensures Lookup(ParseQuery(QueryString(WithLang(query, lang))), "lang") == Some(lang)
  {
    var path := "/api/" + version + NormalizeEndpoint(endpoint);
    var qs := QueryString(WithLang(query, lang));
    PathAvoidsQuestionMark(version, endpoint);
    RequestUrlShape(version, endpoint, query, lang);
    SplitAtFirst(path, qs);
    LangQueryRoundTrip(query, lang);
  }

  lemma RequestUrlShape(version: string, endpoint: string, query: Query, lang: string)
    ensures RequestUrl(version, endpoint, query, lang)
         == ("/api/" + version + NormalizeEndpoint(endpoint)) + ['?'] + QueryString(WithLang(query, lang))
  {
    var base, ep, qs := "/api/" + version, NormalizeEndpoint(endpoint), QueryString(WithLang(query, lang));
    assert RequestUrl(version, endpoint, query, lang) == base + (ep + "?" + qs);
    Regroup(base, ep, qs);
  }

  /** Regrouping of the string concatenations in a URL. */
  lemma RegroupLang(prefix: string, fileQuery: string, lang: string)
    ensures prefix + (fileQuery + "lang=" + lang) == prefix + fileQuery + "lang=" + lang
  {
  }

  lemma Regroup(base: string, ep: string, qs: string)
    ensures base + (ep + "?" + qs) == (base + ep) + ['?'] + qs
  {
  }

  lemma SplitAtFirst(path: string, qs: string)
    requires '?' !in path
    ensures var parts := Split(path + ['?'] + qs, '?');
      parts[0] == path && Join(parts[1..], '?') == qs
  {
    SplitSepConcat(path, '?', qs);
    JoinSplit(qs, '?');
  }

  lemma LangQueryRoundTrip(query: Query, lang: string)
    requires Unambiguous(query) && '&' !in lang
    ensures ParseQuery(QueryString(WithLang(query, lang))) == WithLang(query, lang)
    ensures Lookup(ParseQuery(QueryString(WithLang(query, lang))), "lang") == Some(lang)
  {
    var w := WithLang(query, lang);
    UnambiguousSetKey(query, "lang", lang);
    assert Unambiguous(w) && |w| >= 1;
    QueryStringRoundTrip(w);
    WithLangProperties(query, lang);
  }

  /** The path part of the URL holds no '?' when neither the version nor the endpoint does. */
  lemma PathAvoidsQuestionMark(version: string, endpoint: string)
    requires '?' !in version && '?' !in endpoint
    ensures '?' !in "/api/" + version + NormalizeEndpoint(endpoint)
  {
    var head := "/api/" + version;
    var e := NormalizeEndpoint(endpoint);
    NormalizeAvoids(endpoint, '?');
    assert '?' !in head by {
      forall i | 0 <= i < |head| ensures head[i] != '?' {
        if i >= 5 {
          assert head[i] == version[i - 5];
        }
      }
    }
    forall i | 0 <= i < |head + e| ensures (head + e)[i] != '?' {
      if i < |head| {
        assert (head + e)[i] == head[i];
      } else {
        assert (head + e)[i] == e[i - |head|];
      }
    }
  }

  lemma NormalizeAvoids(endpoint: string, c: char)
    requires c != '/' && c !in endpoint
    ensures c !in NormalizeEndpoint(endpoint)
  {
  }

  lemma {:induction false} UnambiguousSetKey(q: Query, k: string, v: string)
    requires Unambiguous(q) && '&' !in k && '=' !in k && '&' !in v
    ensures Unambiguous(SetKey(q, k, v))
  {
    if q != [] && q[0].0 != k {
      UnambiguousSetKey(q[1..], k, v);
    }
  }

  // ---------------------------------------------------------------------------
  // getVersion and logOutFromServer

  /**
   * `reviewers/addon/${addonId}/versions/${versionId}`: no '?' that would start
   * a query, and no '/' at either end, so callApi wraps it in one on each side.
   */
  function VersionEndpoint(addonId: int, versionId: int): (e: string)
    ensures '?' !in e
    ensures e != [] && e[0] != '/' && e[|e| - 1] != '/'
  {
    var v := IntToDecimal(versionId);
    DecimalHasNoSlash(addonId);
    DecimalHasNoSlash(versionId);
    assert v[|v| - 1] in v;
    "reviewers/addon/" + IntToDecimal(addonId) + "/versions/" + v
  }

  lemma DecimalHasNoSlash(n: int)
    ensures '/' !in IntToDecimal(n) && '?' !in IntToDecimal(n)
  {
    var s := IntToDecimal(n);
    if n < 0 {
      assert s == "-" + NatToDecimal(-n);
      assert forall i :: 1 <= i < |s| ==> s[i] == NatToDecimal(-n)[i - 1];
    }
  }

  lemma VersionEndpointPieces(addonId: int, versionId: int)
    ensures VersionEndpoint(addonId, versionId) == Join(["reviewers", "addon", IntToDecimal(addonId), "versions", IntToDecimal(versionId)], '/')
  {
    var a, v := IntToDecimal(addonId), IntToDecimal(versionId);
    assert "reviewers/addon/" == "reviewers" + ['/'] + "addon" + ['/'];
    assert "/versions/" == ['/'] + "versions" + ['/'];
    JoinFive("reviewers", "addon", a, "versions", v, '/');
  }

  lemma JoinFive(x1: string, x2: string, x3: string, x4: string, x5: string, sep: char)
    ensures Join([x1, x2, x3, x4, x5], sep) == (x1 + [sep] + x2 + [sep]) + x3 + ([sep] + x4 + [sep]) + x5
  {
    JoinCons(x4, [x5], sep);
    assert [x4, x5] == [x4] + [x5];
    JoinCons(x3, [x4, x5], sep);
    assert [x3, x4, x5] == [x3] + [x4, x5];
    JoinCons(x2, [x3, x4, x5], sep);
    assert [x2, x3, x4, x5] == [x2] + [x3, x4, x5];
    JoinCons(x1, [x2, x3, x4, x5], sep);
    assert [x1, x2, x3, x4, x5] == [x1] + [x2, x3, x4, x5];
  }

  /** The endpoint names the add-on and the version, and both read back. */
  lemma VersionEndpointRoundTrip(addonId: int, versionId: int)
    ensures var parts := Split(VersionEndpoint(addonId, versionId), '/');
      parts == ["reviewers", "addon", IntToDecimal(addonId), "versions", IntToDecimal(versionId)] &&
      ParseInt(parts[2]) == Some(addonId) && ParseInt(parts[4]) == Some(versionId)
  {
    var parts := ["reviewers", "addon", IntToDecimal(addonId), "versions", IntToDecimal(versionId)];
    VersionEndpointPieces(addonId, versionId);
    DecimalHasNoSlash(addonId);
    DecimalHasNoSlash(versionId);
    assert '/' !in "reviewers" && '/' !in "addon" && '/' !in "versions";
    SplitJoin(parts, '/');
    IntToDecimalRoundTrip(addonId);
    IntToDecimalRoundTrip(versionId);
  }

  /** getVersion: a `file` query key, holding the path, only when the path is truthy. */
  function VersionQuery(path: Option<string>): (q: Option<Query>)
    ensures q.Some? <==> Truthy(path)
    ensures q.Some? ==> Keys(q.value) == ["file"] && Lookup(q.value, "file") == Some(path.value)
  {
    if Truthy(path) then Some([("file", path.value)]) else None
  }

  /**
   * getVersion up to the `fetch` call.  `version` and `lang` are callApi's
   * defaults, which getVersion does not override.
   */
  method GetVersion(apiState: ApiState, path: Option<string>, addonId: int, versionId: int,
                    version: string, lang: string) returns (req: Request)
    ensures req.httpMethod == GET
    ensures req.url == "/api/" + version + "/" + VersionEndpoint(addonId, versionId) + "/?"
      + (if Truthy(path) then "file=" + path.value + "&" else "") + "lang=" + lang
    ensures req.headers == AuthHeaders(apiState)
  {
    req := CallApi(apiState, VersionEndpoint(addonId, versionId), None, version, VersionQuery(path), lang);
    VersionUrl(path, addonId, versionId, version, lang);
  }

  lemma VersionUrl(path: Option<string>, addonId: int, versionId: int, version: string, lang: string)
    ensures var q := VersionQuery(path);
      RequestUrl(version, VersionEndpoint(addonId, versionId), if q.Some? then q.value else [], lang)
      == "/api/" + version + "/" + VersionEndpoint(addonId, versionId) + "/?"
         + (if Truthy(path) then "file=" + path.value + "&" else "") + "lang=" + lang
  {
    PathQueryUrl(version, VersionEndpoint(addonId, versionId), path, lang);
  }

  lemma PathQueryUrl(version: string, endpoint: string, path: Option<string>, lang: string)
    requires endpoint != [] && endpoint[0] != '/' && endpoint[|endpoint| - 1] != '/'
    ensures var q := VersionQuery(path);
      RequestUrl(version, endpoint, if q.Some? then q.value else [], lang)
      == "/api/" + version + "/" + endpoint + "/?"
         + (if Truthy(path) then "file=" + path.value + "&" else "") + "lang=" + lang
  {
    var q := VersionQuery(path);
    var query := if q.Some? then q.value else [];
    var prefix := "/api/" + version + "/" + endpoint + "/?";
    var fileQuery := if Truthy(path) then "file=" + path.value + "&" else "";
    BareUrl(version, endpoint, query, lang);
    PathQueryString(path, lang);
    assert RequestUrl(version, endpoint, query, lang) == prefix + (fileQuery + "lang=" + lang);
    RegroupLang(prefix, fileQuery, lang);
  }

  /** getVersion's query string: the file, when there is one, then the language. */
  lemma PathQueryString(path: Option<string>, lang: string)
    ensures var q := VersionQuery(path);
      QueryString(WithLang(if q.Some? then q.value else [], lang))
      == (if Truthy(path) then "file=" + path.value + "&" else "") + "lang=" + lang
  {
    if Truthy(path) {
      QueryWithFile(path.value, lang);
    } else {
      QueryLangOnly(lang);
      assert "" + "lang=" + lang == "lang=" + lang;
    }
  }

  /** An endpoint without slashes at its ends is wrapped in one slash on each side. */
  lemma BareUrl(version: string, endpoint: string, query: Query, lang: string)
    requires endpoint != [] && endpoint[0] != '/' && endpoint[|endpoint| - 1] != '/'
    ensures RequestUrl(version, endpoint, query, lang)
      == "/api/" + version + "/" + endpoint + "/?" + QueryString(WithLang(query, lang))
  {
    NormalizeBareEndpoint(endpoint);
    assert "/?" == "/" + "?";
  }

  /** With no query, the query string is just the language. */
  lemma QueryLangOnly(lang: string)
    ensures QueryString(WithLang([], lang)) == "lang=" + lang
  {
    var lp := ("lang", lang);
    assert WithLang([], lang) == [lp];
    assert Pairs([lp]) == [Pair(lp)];
  }

  /** A `file` key comes first and `lang` is added after it. */
  lemma QueryWithFile(path: string, lang: string)
    ensures QueryString(WithLang([("file", path)], lang)) == "file=" + path + "&" + "lang=" + lang
  {
    var lp := ("lang", lang);
    var fp := ("file", path);
    assert "file"[0] != "lang"[0];
    assert [fp][1..] == [];
    assert SetKey([fp], "lang", lang) == [fp] + SetKey([], "lang", lang);
    assert WithLang([fp], lang) == [fp, lp];
    assert [fp, lp][1..] == [lp];
    assert Pairs([fp, lp]) == [Pair(fp), Pair(lp)];
    JoinCons(Pair(fp), [Pair(lp)], '&');
  }

  /** logOutFromServer up to the `fetch` call: DELETE on the session endpoint. */
  method LogOutFromServer(apiState: ApiState, version: string, lang: string) returns (req: Request)
    ensures req.httpMethod == DELETE
    ensures req.url == "/api/" + version + "/accounts/session/?lang=" + lang
    ensures req.headers == AuthHeaders(apiState)
  {
    req := CallApi(apiState, "accounts/session", Some(DELETE), version, None, lang);
    SessionUrl(version, lang);
  }

  lemma SessionUrl(version: string, lang: string)
    ensures RequestUrl(version, "accounts/session", [], lang) == "/api/" + version + "/accounts/session/?lang=" + lang
  {
    var e := "accounts/session";
    assert e[0] == 'a' && e[|e| - 1] == 'n';
    BareLangOnlyUrl(version, e, lang);
    SessionPath(version, lang);
  }

  /** An endpoint without slashes at its ends and no query: only the language follows '?'. */
  lemma BareLangOnlyUrl(version: string, endpoint: string, lang: string)
    requires endpoint != [] && endpoint[0] != '/' && endpoint[|endpoint| - 1] != '/'
    ensures RequestUrl(version, endpoint, [], lang) == "/api/" + version + "/" + endpoint + "/?" + "lang=" + lang
  {
    BareUrl(version, endpoint, [], lang);
    QueryLangOnly(lang);
  }

  lemma SessionPath(version: string, lang: string)
    ensures "/api/" + version + "/" + "accounts/session" + "/?" + "lang=" + lang
      == "/api/" + version + "/accounts/session/?lang=" + lang
  {
    var x := "/api/" + version;
    assert "/" + "accounts/session" + "/?" + "lang=" == "/accounts/session/?lang=";
    assert x + "/" + "accounts/session" + "/?" + "lang=" == x + ("/" + "accounts/session" + "/?" + "lang=");
  }
}
