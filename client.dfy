/** The `NewsReader` client of the news API: the allow-lists and the
    headline-argument check, the URL joiner, the API-key appender, and the
    URL that a request is sent to. The HTTP call itself, JSON decoding,
    logging and process exit are outside the model. */
module Client {
  import opened Strings

  /** The sentinel meaning "no filter for this parameter". */
  const All: string := "ALL"

  /** The base URL every `NewsReader` is created with. */
  const BaseUrl: string := "https://newsapi.org/v2"

  const AllowedCountry: set<string> := {
    "ae", "ar", "at", "au", "be", "bg", "br", "ca", "ch", "cn", "co", "cu",
    "cz", "de", "eg", "fr", "gb", "gr", "hk", "hu", "id", "ie", "il", "in",
    "it", "jp", "kr", "lt", "lv", "ma", "mx", "my", "ng", "nl", "no", "nz",
    "ph", "pl", "pt", "ro", "rs", "ru", "sa", "se", "sg", "si", "sk", "th",
    "tr", "tw", "ua", "us", "ve", "za"
  }

  /** The category literal has no comma between "sports" and "technology",
      so the two adjacent literals form one token; "healt" is spelled as in
      the literal. Both are kept as written. */
  const AllowedCategory: set<string> := {
    "business", "entertainment", "general", "healt", "science", "sportstechnology"
  }

  const AllowedLanguage: set<string> := {
    "ar", "de", "en", "es", "fr", "he", "it", "nl", "no", "pt", "ru", "se",
    "ud", "zh"
  }

  lemma CategoryTokens()
    ensures "sportstechnology" in AllowedCategory
    ensures "sports" !in AllowedCategory && "technology" !in AllowedCategory
    ensures |AllowedCategory| == 6
  {
  }

  // ---------------------------------------------------------------------
  // get_headlines argument check

  datatype HeadlinesError =
    | NotAllowed(param: string, allowed: set<string>)  // the assertion fails
    | UndefinedName(name: string)                      // a bare name is looked up

  datatype Outcome = Pass | Fail(error: HeadlinesError)

  /** The check `get_headlines` performs as written: its assertions name
      `ALLOWED_COUNTRY` and `ALLOWED_CATEGORY` without the class prefix, and no
      module-level name of that spelling exists. `or` short-circuits, so the
      lookup happens exactly when the argument is not the sentinel, and it
      fails before any membership test is made. */
  function HeadlinesCheckAsWritten(country: string, category: string): (r: Outcome)
    ensures r == Pass <==> country == All && category == All
    ensures country != All ==> r == Fail(UndefinedName("ALLOWED_COUNTRY"))
    ensures country == All && category != All ==> r == Fail(UndefinedName("ALLOWED_CATEGORY"))
  {
    if country != All then Fail(UndefinedName("ALLOWED_COUNTRY"))
    else if category != All then Fail(UndefinedName("ALLOWED_CATEGORY"))
    else Pass
  }

  /** The intended check: each argument is the sentinel or a member of its
      class-level allow-list; the country is checked first. */
  function ValidateHeadlines(country: string, category: string): (r: Outcome)
    ensures r == Pass <==>
      (country == All || country in AllowedCountry) &&
      (category == All || category in AllowedCategory)
    ensures r.Fail? ==> r.error.NotAllowed?
    ensures country != All && country !in AllowedCountry ==>
      r == Fail(NotAllowed("country", AllowedCountry))
    ensures (country == All || country in AllowedCountry) && category != All && category !in AllowedCategory ==>
      r == Fail(NotAllowed("category", AllowedCategory))
  {
    if !(country == All || country in AllowedCountry) then Fail(NotAllowed("country", AllowedCountry))
    else if !(category == All || category in AllowedCategory) then Fail(NotAllowed("category", AllowedCategory))
    else Pass
  }

  /** The sentinel always passes, in both versions of the check. */
  lemma AllAlwaysPasses(country: string, category: string)
    ensures ValidateHeadlines(All, All) == Pass && HeadlinesCheckAsWritten(All, All) == Pass
    ensures ValidateHeadlines(All, category) == Pass <==> category == All || category in AllowedCategory
    ensures ValidateHeadlines(country, All) == Pass <==> country == All || country in AllowedCountry
  {
  }

  /** A listed country: the intended check accepts it, the code as written
      fails on the undefined name instead. */
  lemma AsWrittenRejectsListedCountry()
    ensures "us" in AllowedCountry
    ensures ValidateHeadlines("us", All) == Pass
    ensures HeadlinesCheckAsWritten("us", All) == Fail(UndefinedName("ALLOWED_COUNTRY"))
  {
  }

  /** Whatever the code as written lets through, the intended check does too. */
  lemma AsWrittenStricter(country: string, category: string)
    ensures HeadlinesCheckAsWritten(country, category) == Pass ==> ValidateHeadlines(country, category) == Pass
  {
  }

  // ---------------------------------------------------------------------
  // _url_join

  /** The prefix with a `/` added unless it already ends with one. */
  function NormalizePrefix(prefix: string): (r: string)
    ensures |r| == |prefix| + (if EndsWith(prefix, '/') then 0 else 1)
    ensures EndsWith(r, '/')
    ensures forall k :: 0 <= k < |prefix| ==> r[k] == prefix[k]
  {
    if EndsWith(prefix, '/') then prefix else prefix + "/"
  }

  /** A path part with at most one leading `/` removed. */
  function StripLeadingSlash(part: string): string {
    if StartsWith(part, '/') then part[1..] else part
  }

  /** Exactly one leading `/` is dropped when there is one, and the part is
      otherwise unchanged: putting back what was dropped restores it. */
  lemma StripLeadingSlashInverse(part: string)
    ensures StartsWith(part, '/') ==> "/" + StripLeadingSlash(part) == part
    ensures !StartsWith(part, '/') ==> StripLeadingSlash(part) == part
    ensures StripLeadingSlash("//" + part) == "/" + part
  {
  }

  /** The stripped parts concatenated in order, with no separator. */
  function JoinParts(parts: seq<string>): string {
    JoinFirst(parts, |parts|)
  }

  /** The join of the first `n` parts: what the joining loop has
      accumulated after `n` rounds. */
  function JoinFirst(parts: seq<string>, n: nat): string
    requires n <= |parts|
  {
    if n == 0 then "" else JoinFirst(parts, n - 1) + StripLeadingSlash(parts[n - 1])
  }

  /** What is appended for the query: nothing for an empty query, otherwise
      the query with a `?` in front unless it already has one. */
  function QuerySuffix(query: string): (r: string)
    ensures query == "" ==> r == ""
    ensures |r| == |query| + (if query != "" && !StartsWith(query, '?') then 1 else 0)
    ensures query != "" ==> StartsWith(r, '?')
    ensures forall k :: 0 <= k < |query| ==> r[|r| - |query| + k] == query[k]
  {
    if query == "" then ""
    else if StartsWith(query, '?') then query
    else "?" + query
  }

  /** The URL `_url_join` returns. */
  function UrlJoinSpec(prefix: string, parts: seq<string>, query: string): string {
    NormalizePrefix(prefix) + JoinParts(parts) + QuerySuffix(query)
  }

  /** `_url_join(prefix, *parts, query_string=query)`. */
  method UrlJoin(prefix: string, parts: seq<string>, query: string) returns (url: string)
    ensures url == UrlJoinSpec(prefix, parts, query)
  {
    var head := prefix;
    if !EndsWith(head, '/') {
      head := head + "/";
    }
    var allParts := "";
    for i := 0 to |parts|
      invariant allParts == JoinFirst(parts, i)
    {
      var part := parts[i];
      if StartsWith(part, '/') {
        part := part[1..];
      }
      allParts := allParts + part;
    }
    var q := query;
    if q != "" {
      if !StartsWith(q, '?') {
        q := "?" + q;
      }
      allParts := allParts + q;
    }
    url := head + allParts;
  }

  /** The join of the first `n` parts depends on those parts only. */
  lemma {:induction false} JoinFirstPrefix(p: seq<string>, q: seq<string>, n: nat)
    requires n <= |p| && n <= |q| && p[..n] == q[..n]
    ensures JoinFirst(p, n) == JoinFirst(q, n)
  {
    if n > 0 {
      assert p[..n - 1] == p[..n][..n - 1] == q[..n][..n - 1] == q[..n - 1];
      assert p[n - 1] == p[..n][n - 1] == q[..n][n - 1] == q[n - 1];
      JoinFirstPrefix(p, q, n - 1);
    }
  }

  lemma {:induction false} JoinFirstAppend(a: seq<string>, b: seq<string>, k: nat)
    requires k <= |b|
    ensures JoinFirst(a + b, |a| + k) == JoinParts(a) + JoinFirst(b, k)
  {
    var ab := a + b;
    if k == 0 {
      assert ab[..|a|] == a[..|a|];
      JoinFirstPrefix(ab, a, |a|);
    } else {
      JoinFirstAppend(a, b, k - 1);
      var m := |a| + k;
      assert ab[m - 1] == b[k - 1];
      var x, y, z := JoinParts(a), JoinFirst(b, k - 1), StripLeadingSlash(b[k - 1]);
      assert JoinFirst(ab, m) == (x + y) + z;
      assert JoinFirst(b, k) == y + z;
      Regroup(x, y, z);
    }
  }

  /** Joining the parts of a concatenation joins each half and concatenates. */
  lemma JoinPartsAppend(a: seq<string>, b: seq<string>)
    ensures JoinParts(a + b) == JoinParts(a) + JoinParts(b)
  {
    JoinFirstAppend(a, b, |b|);
  }

  /** Every part appears, stripped, at its place in the input order. */
  lemma JoinPartsAt(parts: seq<string>, i: nat)
    requires i < |parts|
    ensures JoinParts(parts) ==
      JoinParts(parts[..i]) + StripLeadingSlash(parts[i]) + JoinParts(parts[i + 1..])
  {
    var left := parts[..i + 1];
    assert left + parts[i + 1..] == parts;
    JoinPartsAppend(left, parts[i + 1..]);
    JoinFirstPrefix(left, parts[..i], i);
  }

  /** Where the URL starts: the prefix, then a `/` only when the prefix
      lacks one, then the stripped parts. */
  lemma UrlJoinPrefix(prefix: string, parts: seq<string>, query: string)
    ensures !EndsWith(prefix, '/') ==>
      IsPrefix(prefix + "/" + JoinParts(parts), UrlJoinSpec(prefix, parts, query))
    ensures EndsWith(prefix, '/') ==>
      IsPrefix(prefix + JoinParts(parts), UrlJoinSpec(prefix, parts, query))
  {
  }

  /** With an empty query nothing follows the parts, and no `?` is added. */
  lemma UrlJoinEmptyQuery(prefix: string, parts: seq<string>)
    ensures UrlJoinSpec(prefix, parts, "") ==
      (if EndsWith(prefix, '/') then prefix else prefix + "/") + JoinParts(parts)
    ensures Count(UrlJoinSpec(prefix, parts, ""), '?') ==
      Count(prefix, '?') + Count(JoinParts(parts), '?')
  {
    assert UrlJoinSpec(prefix, parts, "") == NormalizePrefix(prefix) + JoinParts(parts);
    CountAppend(NormalizePrefix(prefix), JoinParts(parts), '?');
    CountAppend(prefix, "/", '?');
    assert "/"[..0] == [];
  }

  /** A non-empty query ends the URL, behind one added `?` when it does not
      start with one; exactly one `?` is added in that case and none otherwise. */
  lemma UrlJoinQuery(prefix: string, parts: seq<string>, query: string)
    requires query != ""
    ensures StartsWith(query, '?') ==>
      UrlJoinSpec(prefix, parts, query) == NormalizePrefix(prefix) + JoinParts(parts) + query
    ensures !StartsWith(query, '?') ==>
      UrlJoinSpec(prefix, parts, query) == NormalizePrefix(prefix) + JoinParts(parts) + "?" + query
    ensures IsSuffix(query, UrlJoinSpec(prefix, parts, query))
    ensures Count(UrlJoinSpec(prefix, parts, query), '?') ==
      Count(prefix, '?') + Count(JoinParts(parts), '?') + Count(query, '?') +
      (if StartsWith(query, '?') then 0 else 1)
  {
    var head := NormalizePrefix(prefix) + JoinParts(parts);
    CountAppend(head, QuerySuffix(query), '?');
    CountAppend(NormalizePrefix(prefix), JoinParts(parts), '?');
    CountAppend(prefix, "/", '?');
    assert "/"[..0] == [];
    if !StartsWith(query, '?') {
      CountAppend("?", query, '?');
      assert "?"[..0] == [];
      assert head + ("?" + query) == head + "?" + query;
    }
  }

  /** The worked example of the joiner: no separator is put between the
      parts, and the missing `?` is supplied. */
  lemma UrlJoinExample()
    ensures UrlJoinSpec("https://x.com", ["a", "/b"], "k=v") == "https://x.com/ab?k=v"
  {
    var parts := ["a", "/b"];
    assert JoinFirst(parts, 1) == "a";
    assert JoinParts(parts) == "a" + "b";
  }

  /** The segments of the doc-comment's example run together: nothing puts
      a `/` between them. */
  lemma UrlJoinNoSeparator()
    ensures UrlJoinSpec("https://foo.bar/", ["foo", "bar", "def"], "") == "https://foo.bar/foobardef"
  {
    var parts := ["foo", "bar", "def"];
    assert JoinFirst(parts, 1) == "foo";
    assert JoinFirst(parts, 2) == "foo" + "bar";
    assert JoinParts(parts) == "foo" + "bar" + "def";
  }

  /** Only one of two leading slashes is dropped, and a query that brings
      its own `?` gets no second one. */
  lemma UrlJoinOneSlashDropped()
    ensures UrlJoinSpec("https://x.com/", ["//b"], "?q") == "https://x.com//b?q"
  {
  }

  // ---------------------------------------------------------------------
  // _add_apikey_param

  /** `_add_apikey_param(query)` for a reader holding `key`; the test
      `query is ''` is taken as string equality. */
  function AddApikeyParam(key: string, query: string): string {
    if query == "" then "apikey=" + key
    else query + "&apikey=" + key
  }

  /** Every result ends with the key parameter; an empty query leaves
      nothing in front of it, and a non-empty one is kept in front of it,
      followed by one `&`. The three facts together fix the result. */
  lemma AddApikeyParamLayout(key: string, query: string)
    ensures IsSuffix("apikey=" + key, AddApikeyParam(key, query))
    ensures query == "" ==> |AddApikeyParam(key, query)| == |"apikey=" + key|
    ensures query != "" ==>
      IsPrefix(query + "&", AddApikeyParam(key, query)) &&
      |AddApikeyParam(key, query)| == |query| + 1 + |"apikey=" + key|
  {
  }

  /** The key parameter adds one `&` exactly when there was a query before. */
  lemma AddApikeyParamSeparators(key: string, query: string)
    ensures Count(AddApikeyParam(key, query), '&') ==
      Count(query, '&') + Count(key, '&') + (if query == "" then 0 else 1)
  {
    CountAppend("apikey=", key, '&');
    CountZero("apikey=", '&');
    if query != "" {
      assert query + "&apikey=" + key == query + ("&" + ("apikey=" + key));
      CountAppend(query, "&" + ("apikey=" + key), '&');
      CountAppend("&", "apikey=" + key, '&');
      assert "&"[..0] == [];
    }
  }

  // ---------------------------------------------------------------------
  // Query serialisation in _request

  /** `"{}={}".format(name, value)`. */
  function FormatParam(param: (string, string)): string {
    param.0 + "=" + param.1
  }

  /** `map(lambda x: "{}={}".format(x[0], x[1]), params)`, in order. */
  function FormatParams(params: seq<(string, string)>): seq<string> {
    seq(|params|, i requires 0 <= i < |params| => FormatParam(params[i]))
  }

  /** `"&".join(...)` of the formatted pairs: nothing is filtered or escaped. */
  function SerializeParams(params: seq<(string, string)>): string {
    JoinWith('&', FormatParams(params))
  }

  predicate AmpersandFree(params: seq<(string, string)>) {
    forall i :: 0 <= i < |params| ==> '&' !in params[i].0 && '&' !in params[i].1
  }

  lemma FormatParamsAmpersandFree(params: seq<(string, string)>)
    requires AmpersandFree(params)
    ensures forall i :: 0 <= i < |params| ==> '&' !in FormatParams(params)[i]
  {
  }

  /** The serialised query is empty exactly when there are no parameters. */
  lemma SerializeParamsEmpty(params: seq<(string, string)>)
    ensures SerializeParams(params) == "" <==> params == []
  {
  }

  /** Splitting the serialised query on `&` gives back every parameter as
      `name=value`, in the given order, when no name or value holds a `&`;
      there are then exactly `n - 1` separators. */
  lemma SerializeParamsRoundTrip(params: seq<(string, string)>)
    requires params != []
    requires AmpersandFree(params)
    ensures |Split('&', SerializeParams(params))| == |params|
    ensures forall i :: 0 <= i < |params| ==>
      Split('&', SerializeParams(params))[i] == params[i].0 + "=" + params[i].1
    ensures Count(SerializeParams(params), '&') == |params| - 1
  {
    FormatParamsAmpersandFree(params);
    SplitJoin('&', FormatParams(params));
    JoinWithCount('&', FormatParams(params));
  }

  // ---------------------------------------------------------------------
  // The URL built by _request

  /** The URL `_request(endpoint, **params)` sends its GET to, for a reader
      whose base URL is `base` and whose key is `key`. */
  function BuildRequestUrl(base: string, key: string, endpoint: string,
                           params: seq<(string, string)>): string
  {
    UrlJoinSpec(base, [endpoint], AddApikeyParam(key, SerializeParams(params)))
  }

  /** The layout of the request URL without parameters: base, one `/`, the
      endpoint, one `?` and the key. It holds whenever the base has no
      trailing and the endpoint no leading `/`. */
  lemma BuildRequestUrlNoParams(base: string, key: string, endpoint: string)
    requires !EndsWith(base, '/') && !StartsWith(endpoint, '/')
    ensures BuildRequestUrl(base, key, endpoint, []) == base + "/" + endpoint + "?apikey=" + key
  {
    SerializeParamsEmpty([]);
    var query := "apikey=" + key;
    assert AddApikeyParam(key, SerializeParams([])) == query;
    UrlJoinSinglePart(base, endpoint, query);
    KeyOnlyQuery(base + "/" + endpoint, key);
  }

  lemma KeyOnlyQuery(h: string, key: string)
    ensures h + ("?" + ("apikey=" + key)) == h + "?apikey=" + key
  {
    var mark, field := "?", "apikey=";
    assert mark + field == "?apikey=";
    Regroup(mark, field, key);
    Regroup(h, mark + field, key);
  }

  /** The layout of the request URL with parameters: base, one `/`, the
      endpoint, one `?`, the pairs, one `&` and the key. It holds whenever
      the base has no trailing and the endpoint no leading `/`, and the
      first name does not itself begin with `?`. */
  lemma BuildRequestUrlWithParams(base: string, key: string, endpoint: string,
                                  params: seq<(string, string)>)
    requires !EndsWith(base, '/') && !StartsWith(endpoint, '/')
    requires params != [] && !StartsWith(params[0].0, '?')
    ensures BuildRequestUrl(base, key, endpoint, params) ==
      base + "/" + endpoint + "?" + SerializeParams(params) + "&apikey=" + key
  {
    var s := SerializeParams(params);
    SerializeParamsHead(params);
    assert s[0] != '?';
    var query := s + "&apikey=" + key;
    assert AddApikeyParam(key, s) == query;
    UrlJoinSinglePart(base, endpoint, query);
    var h := base + "/" + endpoint;
    var t := "&apikey=";
    // h + ("?" + ((s + t) + key)), regrouped to the left one step at a time
    Regroup(s, t, key);
    Regroup("?", s, t + key);
    Regroup(h, "?", s + (t + key));
    Regroup(h + "?", s, t + key);
    Regroup((h + "?") + s, t, key);
  }

  /** The serialised query opens with the first parameter's name. */
  lemma SerializeParamsHead(params: seq<(string, string)>)
    requires params != []
    ensures SerializeParams(params) != [] && IsPrefix(params[0].0, SerializeParams(params))
  {
  }

  lemma JoinPartsSingle(part: string)
    ensures JoinParts([part]) == StripLeadingSlash(part)
  {
    assert JoinFirst([part], 0) == "";
    assert "" + StripLeadingSlash(part) == StripLeadingSlash(part);
  }

  /** One path part and a query that brings no `?` of its own. */
  lemma UrlJoinSinglePart(prefix: string, part: string, query: string)
    requires !EndsWith(prefix, '/') && !StartsWith(part, '/')
    requires query != "" && !StartsWith(query, '?')
    ensures UrlJoinSpec(prefix, [part], query) == prefix + "/" + part + ("?" + query)
  {
    JoinPartsSingle(part);
  }

  /** No `?` in the endpoint, the parameters or the key: the URL is the
      base, the endpoint and the untouched query, behind the one `?` the
      joiner adds. */
  lemma RequestUrlOnBase(key: string, endpoint: string, params: seq<(string, string)>)
    requires !StartsWith(endpoint, '/') && '?' !in key
    requires forall i :: 0 <= i < |params| ==> '?' !in params[i].0 && '?' !in params[i].1
    ensures '?' !in AddApikeyParam(key, SerializeParams(params))
    ensures BuildRequestUrl(BaseUrl, key, endpoint, params) ==
      (BaseUrl + "/" + endpoint) + ("?" + AddApikeyParam(key, SerializeParams(params)))
  {
    QueryQuestionFree(params);
    ApikeyQuestionFree(key, SerializeParams(params));
    UrlJoinSinglePart(BaseUrl, endpoint, AddApikeyParam(key, SerializeParams(params)));
  }

  /** The base URL carries neither query mark and no trailing `/`. */
  lemma BaseUrlMarks()
    ensures !EndsWith(BaseUrl, '/')
    ensures '?' !in BaseUrl && '&' !in BaseUrl
    ensures '?' !in BaseUrl + "/" && '&' !in BaseUrl + "/"
  {
  }

  /** A part loses no character other than a leading `/`. */
  lemma StripLeadingSlashCount(part: string, c: char)
    requires c != '/'
    ensures Count(StripLeadingSlash(part), c) == Count(part, c)
  {
    if StartsWith(part, '/') {
      assert part == "/" + part[1..];
      CountAppend("/", part[1..], c);
      assert "/"[..0] == [];
    }
  }

  /** With one path part, a character other than `/` and `?` is neither
      added nor removed: the URL holds as many as the prefix, the part and
      the query together. */
  lemma UrlJoinSinglePartCount(prefix: string, part: string, query: string, c: char)
    requires c != '/' && c != '?'
    ensures Count(UrlJoinSpec(prefix, [part], query), c) ==
      Count(prefix, c) + Count(part, c) + Count(query, c)
  {
    JoinPartsSingle(part);
    StripLeadingSlashCount(part, c);
    var n, t, q := NormalizePrefix(prefix), StripLeadingSlash(part), QuerySuffix(query);
    CountAppend(n + t, q, c);
    CountAppend(n, t, c);
    if !EndsWith(prefix, '/') {
      CountAppend(prefix, "/", c);
      assert "/"[..0] == [];
    }
    if query != "" && !StartsWith(query, '?') {
      CountAppend("?", query, c);
      assert "?"[..0] == [];
    }
  }

  /** For the reader's fixed base URL, with no `?` in the endpoint, the
      parameters or the key, the URL holds exactly one `?`, the one the
      joiner adds. */
  lemma RequestUrlQuestionMarks(key: string, endpoint: string, params: seq<(string, string)>)
    requires '?' !in endpoint && '?' !in key
    requires forall i :: 0 <= i < |params| ==> '?' !in params[i].0 && '?' !in params[i].1
    ensures Count(BuildRequestUrl(BaseUrl, key, endpoint, params), '?') == 1
  {
    var query := AddApikeyParam(key, SerializeParams(params));
    QueryQuestionFree(params);
    ApikeyQuestionFree(key, SerializeParams(params));
    AddApikeyParamLayout(key, SerializeParams(params));
    assert query != "" && !StartsWith(query, '?');
    UrlJoinQuery(BaseUrl, [endpoint], query);
    JoinPartsSingle(endpoint);
    StripLeadingSlashCount(endpoint, '?');
    BaseUrlMarks();
    CountZero(BaseUrl, '?');
    CountZero(endpoint, '?');
    CountZero(query, '?');
  }

  /** For the reader's fixed base URL, with no `&` in the endpoint, the
      parameters or the key, the URL holds exactly one `&` per parameter:
      `n - 1` between the pairs and one before the key. */
  lemma RequestUrlSeparators(key: string, endpoint: string, params: seq<(string, string)>)
    requires '&' !in endpoint && '&' !in key && AmpersandFree(params)
    ensures Count(BuildRequestUrl(BaseUrl, key, endpoint, params), '&') == |params|
  {
    var query := AddApikeyParam(key, SerializeParams(params));
    UrlJoinSinglePartCount(BaseUrl, endpoint, query, '&');
    BaseUrlMarks();
    CountZero(BaseUrl, '&');
    CountZero(endpoint, '&');
    QuerySeparators(key, params);
  }

  /** The query after the key is appended holds one `&` per parameter. */
  lemma QuerySeparators(key: string, params: seq<(string, string)>)
    requires '&' !in key && AmpersandFree(params)
    ensures Count(AddApikeyParam(key, SerializeParams(params)), '&') == |params|
  {
    var s := SerializeParams(params);
    AddApikeyParamSeparators(key, s);
    CountZero(key, '&');
    SerializeParamsEmpty(params);
    if params != [] {
      SerializeParamsRoundTrip(params);
    } else {
      CountZero(s, '&');
    }
  }

  lemma ApikeyQuestionFree(key: string, query: string)
    requires '?' !in key && '?' !in query
    ensures '?' !in AddApikeyParam(key, query)
  {
  }

  /** No `?` in any name or value means none in the serialised query. */
  lemma QueryQuestionFree(params: seq<(string, string)>)
    requires forall i :: 0 <= i < |params| ==> '?' !in params[i].0 && '?' !in params[i].1
    ensures '?' !in SerializeParams(params)
  {
    var items := FormatParams(params);
    forall i | 0 <= i < |params|
      ensures '?' !in items[i]
    {
      var p := params[i];
      assert items[i] == p.0 + "=" + p.1;
      assert forall k :: 0 <= k < |p.0 + "=" + p.1| ==>
        (p.0 + "=" + p.1)[k] in p.0 || (p.0 + "=" + p.1)[k] == '=' || (p.0 + "=" + p.1)[k] in p.1;
    }
    JoinWithFree('?', '&', items);
  }

  // ---------------------------------------------------------------------
  // The reader

  /** A reader holds its key and the fixed base URL; neither changes after
      construction. */
  class NewsReader {
    const apikey: string
    const url: string := BaseUrl

    constructor (apikey: string)
      ensures this.apikey == apikey
    {
      this.apikey := apikey;
    }

    /** The URL-building steps of `_request`, in the order the source takes
        them: serialise, append the key, join against the base URL. */
    method RequestUrl(endpoint: string, params: seq<(string, string)>) returns (u: string)
      ensures u == BuildRequestUrl(BaseUrl, apikey, endpoint, params)
      ensures !StartsWith(endpoint, '/') && params == [] ==>
        u == BaseUrl + "/" + endpoint + "?apikey=" + apikey
      ensures !StartsWith(endpoint, '/') && params != [] && !StartsWith(params[0].0, '?') ==>
        u == BaseUrl + "/" + endpoint + "?" + SerializeParams(params) + "&apikey=" + apikey
    {
      var getParams := SerializeParams(params);
      getParams := AddApikeyParam(apikey, getParams);
      u := UrlJoin(url, [endpoint], getParams);
      if !StartsWith(endpoint, '/') {
        if params == [] {
          BuildRequestUrlNoParams(BaseUrl, apikey, endpoint);
        } else if !StartsWith(params[0].0, '?') {
          BuildRequestUrlWithParams(BaseUrl, apikey, endpoint, params);
        }
      }
    }
  }
}
