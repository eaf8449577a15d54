# trello-export comment exporter, modelled in Dafny

`export.php` exports every comment on a Trello board to a tab-separated file.
It pages through the board's comment actions, newest first, using the REST API
at `https://api.trello.com`. Each request carries the configured `key` and
`token` as query arguments. The `before` argument holds the id of the last
comment the previous page returned. The loop stops at the first page with
fewer than 1000 records.

The project models three parts of that script:

- `php_text.dfy` (`PhpText`): PHP byte strings. It defines `implode`/`explode`
  on a one-byte separator (`Join`, `Split`), `strpos` for one byte
  (`IndexOf`) and the decimal text of an integer.
- `url_codec.dfy` (`UrlCodec`): PHP's `urlencode` and `urldecode`, byte by
  byte. It proves the round trip, injectivity, and that an encoding never
  holds `&`, `=` or `?`.
- `query_args.dfy` (`QueryArgs`): `add_query_args`, both as a function
  (`WithQueryArgs`) and as the step-by-step method that collects the parts in
  a loop (`AddQueryArgs`). It also has a reader for the resulting URLs
  (`ParseUrl`), so that "the arguments end up in the URL" is stated as
  "reading the URL back gives exactly these arguments, in this order".
- `request.dfy` (`TrelloApi`): the URL `request` builds. It is the API host,
  then the endpoint, then every configuration entry.
- `export_comments.dfy` (`CommentExport`): the export loop.
  - The remote API is a sequence of responses: the n-th request receives the
    n-th response, which is a decoded page or a failing HTTP status.
  - The writer is a `TsvWriter` object whose row list only grows.
  - The pure function `Run`/`Export` defines what a run does: the cursor of
    each request, the rows written, and how the run ends. Lemmas state the
    properties of that function.
  - The methods `ExportComments`/`ExportPages` are the imperative loop. Their
    contracts tie the file, the logged request URLs and the outcome to
    `Export`.

## Model

| member | source | states |
|---|---|---|
| PhpText.Split | export.php:62 | `explode` gives at least one piece, no piece holds the separator, and joining the pieces gives the string back |
| PhpText.Join | export.php:62 | `implode('&', parts)`: the parts in order with one separator between neighbours, the single part itself, or the empty string for no parts |
| PhpText.IndexOf | export.php:61 | the position `strpos` reports is in range and holds the byte; it equals the length exactly when the byte is absent |
| PhpText.IndexOfIsFirst | export.php:61 | no earlier position holds the byte, so `strpos` finds the first occurrence |
| PhpText.SplitJoin | export.php:62 | when no part holds the separator, `explode` undoes `implode` and gives back exactly the parts, in order |
| PhpText.JoinAppend | export.php:62 | imploding two non-empty part lists one after the other puts exactly one separator between them |
| PhpText.DecimalText | export.php:92 | the integer limit becomes a non-empty string of decimal digits |
| PhpText.DecimalTextValue | export.php:92 | the text PHP gives an integer stands for exactly that integer, read most significant digit first, and has no leading zero |
| PhpText.DecimalTextInjective | export.php:92 | two integers have the same text exactly when they are equal |
| UrlCodec.UrlEncodeAlphabet | export.php:58 | `urlencode` output holds only letters, digits, `-_.%+`, so it never holds `&`, `=` or `?` |
| UrlCodec.DecodeEncode | export.php:58 | `urldecode(urlencode(s)) == s` for every byte string |
| UrlCodec.EncodeInjective | export.php:58 | two keys or values share an encoding exactly when they are equal |
| UrlCodec.EncodeByte | export.php:58 | how `urlencode` writes one byte: letters, digits, `-`, `_` and `.` as themselves, a space as `+`, any other byte as `%` and two upper-case hexadecimal digits |
| UrlCodec.UrlEncode | export.php:58 | `urlencode`: the encodings of the bytes, in order |
| QueryArgs.PartsAt | export.php:56-59 | there is one `urlencode(key)=urlencode(value)` part per entry, the k-th from the k-th entry, and none holds `&` |
| QueryArgs.WithQueryArgs | export.php:51-68 | the value of `add_query_args`: the URL unchanged for an empty map, and otherwise the URL, then `&` if `strpos` finds a `?` in it and `?` if not, then the `&`-joined parts |
| QueryArgs.WithQueryArgsShape | export.php:51-68 | the result starts with the URL. It equals the URL exactly when the arguments are empty. Otherwise the next byte is `&` when the URL already holds `?` and `?` when it does not, and the rest splits at `&` into exactly the parts, in order. The result holds a `?` exactly when the URL does or there are arguments |
| QueryArgs.AddQueryArgs | export.php:51-68 | the loop that collects the parts and then appends them returns exactly `WithQueryArgs(url, args)` |
| QueryArgs.ParseQueryOfQuery | export.php:56-64 | the query string of a non-empty map reads back as exactly that map, in iteration order |
| QueryArgs.ParseUrlOfWithQueryArgs | export.php:51-68 | for a URL without `?`, reading the result back gives the URL and exactly the arguments, in order |
| QueryArgs.WithQueryArgsTwice | export.php:61-65 | a second call appends with `&` after the first, so two calls equal one call with the concatenated maps |
| QueryArgs.PrefixWithQueryArgs | export.php:38-39 | putting a `?`-free host in front of the URL does not change where the arguments go |
| TrelloApi.RequestCarriesConfig | export.php:37-39 | for a path without `?`, reading the request URL back with `ParseUrl` (cut at the first `?`) gives the host plus path, then the endpoint's own arguments followed by every configuration entry (the key and the token among them), in order |
| TrelloApi.Request | export.php:37-39 | the URL sent is `add_query_args(API_BASE . endpoint, config)` |
| TrelloApi.RequestUrl | export.php:38-39 | the URL `request` sends: `API_BASE` followed by the endpoint, with the whole configuration added by `add_query_args` |
| CommentExport.FlattenUnderHeader | export.php:79-86 | each cell of a record's row holds the field its header names, in header order. The User cell is `UNKNOWN_USER` exactly when the creator is missing or carries that very name |
| CommentExport.Flatten | export.php:113-120 | the row of one record: id, card id, card name, date, the creator's username or `UNKNOWN_USER` when there is no creator, and text, in that order |
| CommentExport.FlattenAll | export.php:112-122 | a page gives one row per record |
| CommentExport.FlattenAllAt | export.php:112-122 | the k-th row of a page is the row of its k-th record |
| CommentExport.FlattenAllAppend | export.php:112-122 | the rows of two record lists, one after the other, are the rows of the concatenated list |
| CommentExport.PageUrlArgs | export.php:88-106 | a page endpoint is the actions path with `filter`, `limit` and, when there is a cursor, `before` |
| CommentExport.PageRequestArgs | export.php:88-108 | for a board id without `?`, reading the request URL back with `ParseUrl` gives `/1/boards/{id}/actions` with `filter=commentCard`, `limit=1000`, `before` exactly when there is a cursor, and then the configuration |
| CommentExport.ActionsPath | export.php:88 | `/1/boards/{id}/actions`, with the id inserted as it is |
| CommentExport.PageArgs | export.php:89-93 | the arguments `filter=commentCard` and `limit` with the decimal text of 1000, in that order |
| CommentExport.BaseUrl | export.php:88-94 | the actions path with the page arguments added by `add_query_args` |
| CommentExport.PageUrl | export.php:100-106 | the base URL itself without a cursor, and with `before` set to the cursor added by `add_query_args` otherwise |
| CommentExport.IsFullPage | export.php:109-130 | a response makes the loop go on exactly when the request succeeded and the page holds at least 1000 records |
| CommentExport.LastId | export.php:133 | the next cursor: the id of the page's last record, `count($data) - 1` |
| CommentExport.Run | export.php:98-134 | the loop from a cursor and a running total. A failed request aborts with its status and writes nothing. A page is written whole. A page shorter than 1000 ends the run with the grown total. Otherwise the next request carries the id of the page's last record, and an empty response list ends the run as out of responses |
| CommentExport.Export | export.php:96-97 | a whole export: the loop started with no cursor and a total of 0 |
| CommentExport.StopIndex | export.php:127-130 | every response before the stop index is a full page and the one at it is not |
| CommentExport.AnsweredIsPrefix | export.php:98-134 | the responses a run consumes are the full pages up to and including the first response that is not a full page |
| CommentExport.AllRecords | export.php:112-124 | the records of the answered pages number exactly the sum of their sizes |
| CommentExport.RunCursors | export.php:97-133 | there is one request per full page plus the one that stops the run. The first has no cursor, and each later one carries the id of the last record of the page before it, an index that is in range because a full page is not empty |
| CommentExport.RunRows | export.php:112-122 | the rows written are one per record of every answered page, in order, including the short page that ends the run |
| CommentExport.RunOutcome | export.php:108-130 | a failed request aborts with its status. Otherwise the run completes at the first short page, with the total equal to the sum of the answered page sizes |
| CommentExport.CompletedTotalIsRowCount | export.php:112-124 | the total of a completed export equals the number of data rows written |
| CommentExport.StopIndexAt | export.php:127-130 | the first response that is not a full page is where the run stops |
| CommentExport.ThreePageExport | export.php:98-134 | pages of 1000, 1000 and 400 records give three requests, the third with the last id of the second page, and 2400 rows and a total of 2400 |
| CommentExport.EmptyFirstPage | export.php:124-130 | an empty first page gives one request without a cursor, no data rows and a total of 0 |
| CommentExport.FullPageFetchesAgain | export.php:127-133 | a page of exactly 1000 records is always followed by another request, whose cursor is that page's last id |
| CommentExport.FailedRequestIsLast | export.php:108-109 | after a failed request no further request is issued and the run aborts with its status |
| CommentExport.ResumeStart | export.php:96-97 | the loop starts with no cursor, a total of zero and nothing written |
| CommentExport.ResumeOut | export.php:98-108 | with no response left, the next request is the last one |
| CommentExport.ResumeAborted | export.php:108-109 | a failed request is the last one, writes nothing and aborts the run |
| CommentExport.ResumeCompleted | export.php:112-130 | a short page is written whole and ends the run with the grown total |
| CommentExport.ResumeFullPage | export.php:112-133 | a full page is written whole and the run goes on from its last id with the grown total |
| CommentExport.TsvWriter.constructor | export.php:77 | a new output file holds no rows |
| CommentExport.TsvWriter.InsertOne | export.php:121 | `insertOne` appends exactly one row and keeps the earlier ones |
| CommentExport.WritePage | export.php:112-122 | the `foreach` appends exactly one row per record of the page, in order |
| CommentExport.PageRequest | export.php:100-108 | the URL sent for a page is `request` of the base URL, with `before` added when there is a cursor |
| CommentExport.SendRequest | export.php:100-108 | after a request, the log holds the page request of every cursor so far, this one last |
| CommentExport.ExportPages | export.php:96-134 | the loop appends exactly the rows of `Export`, issues the n-th request with the n-th cursor of `Export`, and ends as `Export` does |
| CommentExport.ExportComments | export.php:76-134 | the file holds the header row followed by exactly the rows of `Export`. The n-th request is the page request of the board's base URL with the n-th cursor, and the outcome is that of `Export` |

## Left out

- The HTTP transport (`Requests::request`, export.php:41) is not part of this model. A response is a given decoded page or a failing status. `throw_for_status` is modelled only as the `HttpError` response that aborts the run.
- The request parameters `headers`, `data`, `type` and `options` of `request` are always left at their defaults by the script, so they are not modelled.
- `json_decode` (export.php:111) is not part of this model. Pages arrive as decoded record lists, so a malformed body, or a JSON value that is not a list, is not modelled.
- `! empty($row->memberCreator)` is modelled as "the record has a creator" (`Option`). PHP's other empty values for that field are not distinguished.
- The League CSV `Writer` is modelled only as its appended row list. Not modelled: file creation, the tab delimiter, field quoting and `getPathname` (export.php:77-78, 136).
- `get_config` loads `config.php` once and caches it (export.php:18-24). The model takes the configuration as a given ordered map. The script itself does not check that `key`, `token` or `id` are present, so the model does not check either and raises no configuration error.
- Not modelled: the progress and summary `printf` lines, `date_default_timezone_set` and the top-level invocation (export.php:99, 136, 139-143). They are output and setup with no data contract.
- The response sequence is finite. A run that uses every response without meeting a short page or a failure ends with `OutOfResponses`, which the script, fetching forever, does not have.
- The board id is put into the path as it is, without encoding (export.php:88). An id holding `?` makes `add_query_args` append the page arguments after `&` (as `QueryArgs.WithQueryArgsShape` states), and the lemmas that read a request back assume an id without `?`. `ParseUrl` knows no `#` fragment: for an id holding `#`, a real client would send nothing after it, so `filter`, `limit`, `before`, `key` and `token` would not reach the server. The model does not capture this.
- `limit` is the PHP integer 1000. `urlencode` turns it into its decimal text, modelled as `DecimalText(1000)`, whose digits `PhpText.DecimalTextValue` shows stand for 1000.
- The script has no timeouts or retries, so neither does the model.
