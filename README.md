# NewsReader URL building and argument checks

A Dafny model of the string-building core of the `NewsReader` client for the
newsapi.org REST API (`src/client.py`). The client holds an API key and the
fixed base URL `https://newsapi.org/v2`. Before any network call it turns
the keyword parameters of a request into a query string, appends
`apikey=<key>`, and joins the base URL, the endpoint and the query into one
URL. `get_headlines` is meant to check its `country` and `category`
arguments against class-level allow-lists, with `ALL` as the "no filter" sentinel.

Files:

- `strings.dfy` (module `Strings`): prefix and suffix tests, character
  counting, and `JoinWith` / `Split`, the `sep.join(items)` / `s.split(sep)`
  pair. The query-string layout is stated through them.
- `client.dfy` (module `Client`):
  - the allow-lists and the sentinel;
  - the headline-argument check, both as written and as intended;
  - `_url_join` as the method `UrlJoin`, with its loop, proved against the
    function `UrlJoinSpec`;
  - `_add_apikey_param` as `AddApikeyParam`;
  - the query serialisation of `_request` as `SerializeParams`;
  - the request URL as `BuildRequestUrl`;
  - the `NewsReader` class. Its `apikey` and `url` are constants, because
    the source sets them once in `__init__` and never changes them.

Behaviour that is kept exactly as the code has it:

- `_url_join` puts no separator between path parts. `"a", "/b"` gives `ab`
  (`UrlJoinExample`), and the doc-comment's `foo`, `bar`, `def` give
  `foobardef`, even though the doc-comment describes `/`-separated segments
  (`UrlJoinNoSeparator`).
- A part loses at most one leading `/`. A non-empty query gets a `?` in
  front only when it does not start with one.
- Parameters are serialised in the given order as `name=value` joined by `&`.
  Nothing is filtered and nothing is percent-encoded.
- The category literal has no comma between `'sports'` and `'technology'`.
  Python joins adjacent literals, so the set holds the single token
  `sportstechnology`. `healt` is also spelled as in the literal.
- The `query_string is ''` test of `_add_apikey_param` is modelled as string
  equality.
- The country allow-list literal has 54 entries.
- No parameter is dropped from the query, whatever its value, including
  `ALL` and the empty string.

## Model

| member | source | states |
|---|---|---|
| `Client.CategoryTokens` | src/client.py:27-30 | the category allow-list has six tokens; it contains `sportstechnology` and neither `sports` nor `technology` |
| `Client.HeadlinesCheckAsWritten` | src/client.py:48-51 | as written, the check passes exactly when both arguments are `ALL`; any other country fails on the undefined name `ALLOWED_COUNTRY`, and otherwise any other category fails on `ALLOWED_CATEGORY` |
| `Client.ValidateHeadlines` | src/client.py:48-51 | intended check: passes iff each argument is `ALL` or in its allow-list; the country is checked first, and every failure names the offending parameter and its allowed set |
| `Client.AllAlwaysPasses` | src/client.py:48-51 | `ALL` passes in both versions; with one argument `ALL`, the other passes iff it is `ALL` or listed |
| `Client.AsWrittenRejectsListedCountry` | src/client.py:48-49 | `us` is listed and passes the intended check, but the code as written fails on the undefined name |
| `Client.AsWrittenStricter` | src/client.py:48-51 | whatever the code as written accepts, the intended check accepts too |
| `Client.NormalizePrefix` | src/client.py:76-77 | the prefix is kept unchanged in front and gains exactly one character, a `/`, when it does not already end with `/`; the result always ends with `/` |
| `Client.StripLeadingSlashInverse` | src/client.py:80-81 | a part starting with `/` loses exactly that one `/` (putting it back restores the part); any other part is unchanged; `//b` becomes `/b` |
| `Client.QuerySuffix` | src/client.py:83-86 | an empty query adds nothing; otherwise what is appended starts with `?`, ends with the query unchanged, and is one character longer than the query exactly when the query does not start with `?` |
| `Client.UrlJoin` | src/client.py:57-87 | the loop over the parts builds the normalised prefix, then the stripped parts in order, then the query suffix (`UrlJoinSpec`) |
| `Client.JoinPartsAppend` | src/client.py:79-82 | joining a concatenation of part lists is the concatenation of their joins, with no separator in between |
| `Client.JoinPartsAt` | src/client.py:79-82 | every part appears, stripped, at its input position between the join of the parts before it and the join of the parts after it |
| `Client.UrlJoinPrefix` | src/client.py:76-87 | the URL starts with `prefix + "/"` plus the joined parts when the prefix lacks a trailing `/`, and with `prefix` plus the joined parts (no second slash) when it has one |
| `Client.UrlJoinEmptyQuery` | src/client.py:83-87 | with an empty query the URL is exactly the normalised prefix followed by the joined parts, and no `?` is added |
| `Client.UrlJoinQuery` | src/client.py:83-87 | a non-empty query ends the URL; it is appended unchanged if it starts with `?` and behind one added `?` otherwise; the count of `?` grows by exactly that one |
| `Client.UrlJoinExample` | src/client.py:57-87 | `https://x.com`, parts `a`, `/b`, query `k=v` give `https://x.com/ab?k=v` |
| `Client.UrlJoinNoSeparator` | src/client.py:66-82 | the doc-comment's parts `foo`, `bar`, `def` are run together as `foobardef`, not `/`-separated |
| `Client.UrlJoinOneSlashDropped` | src/client.py:79-86 | part `//b` keeps one slash, and a query `?q` gets no second `?` |
| `Client.AddApikeyParamLayout` | src/client.py:89-95 | every result ends with `apikey=<key>`; for an empty query it is exactly as long as `apikey=<key>`; a non-empty query is kept in front, followed by one `&`, and the result is exactly as long as the three pieces together |
| `Client.AddApikeyParamSeparators` | src/client.py:93-95 | the result holds the `&`s of the query and of the key, plus exactly one more when the query was non-empty and none when it was empty |
| `Client.SerializeParamsEmpty` | src/client.py:104-106 | the serialised query is empty iff there are no parameters |
| `Client.SerializeParamsHead` | src/client.py:104-106 | the serialised query is non-empty and starts with the first parameter's name |
| `Client.SerializeParamsRoundTrip` | src/client.py:104-106 | for at least one parameter, when no name or value contains `&`, splitting on `&` gives back exactly `name_i=value_i` for every parameter, in order and with none dropped, and there are exactly n-1 `&` |
| `Strings.SplitJoin` | src/client.py:106 | splitting a `sep`-join of at least one item on `sep` returns the items when no item contains `sep` (no items join to `""`, which splits into one empty piece) |
| `Strings.JoinWithCount` | src/client.py:106 | a join of n >= 1 separator-free items contains exactly n-1 separators |
| `Client.QuerySeparators` | src/client.py:93-106 | when no name, value or key contains `&`, the query with the key appended holds exactly one `&` per parameter |
| `Client.BuildRequestUrlNoParams` | src/client.py:104-108 | for a base with no trailing `/` and an endpoint with no leading `/`, with no parameters the URL is `base + "/" + endpoint + "?apikey=" + key` |
| `Client.BuildRequestUrlWithParams` | src/client.py:104-108 | for a base with no trailing `/`, an endpoint with no leading `/` and a first parameter name that does not start with `?`, the URL is `base + "/" + endpoint + "?" + serialised + "&apikey=" + key` |
| `Client.BaseUrlMarks` | src/client.py:44 | the fixed base URL has no trailing `/`, and neither it nor the added `/` contains `?` or `&` |
| `Client.RequestUrlOnBase` | src/client.py:104-108 | against the fixed base URL, if the endpoint has no leading `/` and the names, values and key contain no `?`, the URL is base, `/`, endpoint, one `?` and the query, which itself contains no `?` |
| `Client.StripLeadingSlashCount` | src/client.py:80-81 | stripping a part removes no character other than a leading `/`: every other character occurs as often as before |
| `Client.UrlJoinSinglePartCount` | src/client.py:76-87 | with one path part, a character other than `/` and `?` occurs in the URL exactly as often as in the prefix, the part and the query together |
| `Client.RequestUrlQuestionMarks` | src/client.py:104-108 | for the fixed base URL and any endpoint (a leading `/` included), if the endpoint, names, values and key contain no `?`, the URL contains exactly one `?` |
| `Client.RequestUrlSeparators` | src/client.py:104-108 | for the fixed base URL and any endpoint, if the endpoint, names, values and key contain no `&`, the URL contains exactly one `&` per parameter; `?`s anywhere do not matter |
| `Client.NewsReader.constructor` | src/client.py:37-44 | a reader stores the given key; its URL is the fixed base `https://newsapi.org/v2` |
| `Client.NewsReader.RequestUrl` | src/client.py:97-108 | serialising, appending the key and calling the joining method yields `BuildRequestUrl` on the reader's base URL and key, with the exact layouts above when the endpoint has no leading `/` and, with parameters, the first parameter name does not start with `?` |

## Left out

- The HTTP GET, decoding the JSON body, branching on the status code,
  logging, and `sys.exit(1)` in `_request` (src/client.py:111-120). These
  are network I/O, a foreign library and process termination. The model
  stops at the URL the request would be sent to.
- `get_sources` (src/client.py:54-55) and the statement after the checks in
  `get_headlines` (src/client.py:52). Both are `pass`: they issue no request
  and return nothing.
- `Client.ValidateHeadlines` and `Client.HeadlinesCheckAsWritten` only
  model the checks. The unused `sources`, `q`, `pageSize` and `pageNo`
  arguments have nothing to model.
- `Client.HeadlinesCheckAsWritten` models Python with assertions enabled.
  Under `python -O` the `assert` statements are removed, and the check
  then passes everything.
- `Client.AllowedLanguage` is carried only as a constant. No code in the
  file validates against it.
- Parameter values and the API key are strings already. `"{}".format` on a
  non-string value, such as the integer `pageSize`, and
  `"apikey={}".format(self.apikey)` on a non-string key
  (src/client.py:94-95) are not modelled.
- Keyword-argument order is the order of the parameter sequence, which
  matches Python's keyword-dictionary insertion order.
- `Client.NewsReader.RequestUrl` accepts any sequence of name/value pairs.
  `**kwargs` cannot repeat a name or use the names `endpoint` or `self`:
  Python raises `TypeError` at the call (src/client.py:97). The model does
  not reject those sequences.
- Percent-encoding is not modelled, because the code does none: names and
  values are copied into the query as they are. The `&`-counting and
  round-trip lemmas require that no name, value or key contains `&`.
  `RequestUrlOnBase` and `RequestUrlQuestionMarks` require that none
  contains `?`; `BuildRequestUrlWithParams` only requires that the first
  name does not start with `?`. No lemma speaks about `=`.
- `query_string is ''` relies on CPython's single empty-string object. The
  model treats it as equality.

## Findings

| source | as written | input that shows it | evidently intended | confidence | as-written member | corrected member |
|---|---|---|---|---|---|---|
| src/client.py:48-51 | the assertions name `ALLOWED_COUNTRY` and `ALLOWED_CATEGORY` bare. Only class attributes of that name exist, so any non-`ALL` argument raises `NameError` | `get_headlines(country='us')` | membership in `NewsReader.ALLOWED_COUNTRY` / `NewsReader.ALLOWED_CATEGORY`, with `ALL` as a bypass | high (not executed) | `Client.HeadlinesCheckAsWritten`, shown by `Client.AsWrittenRejectsListedCountry` | `Client.ValidateHeadlines`, with `Client.AllAlwaysPasses` |
