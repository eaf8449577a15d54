/**
 * `export_comments` (export.php): fetch a board's comment actions page by
 * page, newest first, write one tab-separated row per comment, and stop at
 * the first page holding fewer than `PerPage` records.
 *
 * The remote API is a sequence of responses: the n-th request the loop
 * issues receives the n-th response. The output file is a `TsvWriter`
 * whose rows only ever grow.
 */
module CommentExport {
  import opened PhpText
  import opened QueryArgs
  import opened TrelloApi

  datatype Option<T> = None | Some(value: T)

  /** Records requested per page (the `limit` argument). */
  const PerPage: nat := 1000

  /** The User column of a comment whose creator is missing. */
  const UnknownUser: PhpString := "UNKNOWN_USER"

  type Row = seq<PhpString>

  const Header: Row := ["ID", "CardID", "CardName", "Date", "User", "Text"]

  /**
   * A decoded comment action: its id, the id and name of its card, its date,
   * the username of its creator when the action has one, and its text.
   */
  datatype Record = Record(
    id: PhpString,
    cardId: PhpString,
    cardName: PhpString,
    date: PhpString,
    creator: Option<PhpString>,
    text: PhpString)

  /** What one request gives back: a decoded page, or a failing HTTP status. */
  datatype Response = Ok(records: seq<Record>) | HttpError(status: int)

  /** How an export run ends: done with its total, aborted by a failed request,
      or past the last response the model was given. */
  datatype Outcome = Completed(total: nat) | Aborted(status: int) | OutOfResponses

  /**
   * Everything a run does: the cursor of each request it issues (`None` for
   * the first), the data rows it writes, and how it ends.
   */
  datatype Trace = Trace(cursors: seq<Option<PhpString>>, rows: seq<Row>, outcome: Outcome)

  /** The value of `rec` that belongs under the header `column`. */
  function Field(rec: Record, column: PhpString): PhpString
  {
    if column == "ID" then rec.id
    else if column == "CardID" then rec.cardId
    else if column == "CardName" then rec.cardName
    else if column == "Date" then rec.date
    else if column == "User" then (if rec.creator.Some? then rec.creator.value else UnknownUser)
    else if column == "Text" then rec.text
    else []
  }

  /** The row written for one record. */
  function Flatten(rec: Record): Row
  {
    [rec.id, rec.cardId, rec.cardName, rec.date,
     if rec.creator.Some? then rec.creator.value else UnknownUser,
     rec.text]
  }

  /**
   * Each cell of a record's row holds the field its header names, so the
   * User cell is the sentinel exactly when the creator is missing or is
   * itself called by the sentinel's name.
   */
  lemma FlattenUnderHeader(rec: Record)
    ensures |Flatten(rec)| == |Header|
    ensures forall k :: 0 <= k < |Header| ==> Flatten(rec)[k] == Field(rec, Header[k])
    ensures Flatten(rec)[4] == UnknownUser <==> rec.creator == None || rec.creator == Some(UnknownUser)
  {
  }

  /** The rows of a page, one per record, in order. */
  function FlattenAll(records: seq<Record>): (rows: seq<Row>)
    ensures |rows| == |records|
  {
    if records == [] then [] else [Flatten(records[0])] + FlattenAll(records[1..])
  }

  /** The k-th row of a page is the row of its k-th record. */
  lemma {:induction false} FlattenAllAt(records: seq<Record>)
    ensures forall k :: 0 <= k < |records| ==> FlattenAll(records)[k] == Flatten(records[k])
  {
    if records != [] {
      FlattenAllAt(records[1..]);
      forall k | 0 < k < |records|
        ensures FlattenAll(records)[k] == Flatten(records[k])
      {
        assert FlattenAll(records)[k] == FlattenAll(records[1..])[k - 1];
        assert records[1..][k - 1] == records[k];
      }
    }
  }

  lemma {:induction false} FlattenAllAppend(a: seq<Record>, b: seq<Record>)
    ensures FlattenAll(a + b) == FlattenAll(a) + FlattenAll(b)
  {
    if a == [] {
      assert a + b == b;
    } else {
      assert (a + b)[1..] == a[1..] + b;
      FlattenAllAppend(a[1..], b);
    }
  }

  /** The endpoint path of a board's actions. */
  function ActionsPath(id: PhpString): PhpString
  {
    "/1/boards/" + id + "/actions"
  }

  /** The fixed arguments of every page request: comment actions only, `PerPage` of them. */
  function PageArgs(): Args
  {
    [("filter", "commentCard"), ("limit", DecimalText(PerPage))]
  }

  /** The name of the cursor argument. */
  const BeforeKey: PhpString := "before"

  /** The `before` argument a cursor adds; none before the first page. */
  function CursorArgs(cursor: Option<PhpString>): Args
  {
    match cursor
    case None => []
    case Some(c) => [(BeforeKey, c)]
  }

  /** The endpoint every page request starts from: the actions path with the page arguments. */
  function BaseUrl(id: PhpString): PhpString
  {
    WithQueryArgs(ActionsPath(id), PageArgs())
  }

  /** The endpoint of the page request made with `cursor` from `baseUrl`. */
  function PageUrl(baseUrl: PhpString, cursor: Option<PhpString>): PhpString
  {
    match cursor
    case None => baseUrl
    case Some(c) => WithQueryArgs(baseUrl, [(BeforeKey, c)])
  }

  /** The actions path has no query of its own when the board id has no `?`. */
  lemma ActionsPathHasNoQuery(id: PhpString)
    requires '?' !in id
    ensures '?' !in ActionsPath(id)
  {
    assert '?' !in "/1/boards/" && '?' !in "/actions";
  }

  /** A page endpoint is the actions path with the page arguments and the cursor argument. */
  lemma PageUrlArgs(id: PhpString, cursor: Option<PhpString>)
    ensures PageUrl(BaseUrl(id), cursor) == WithQueryArgs(ActionsPath(id), PageArgs() + CursorArgs(cursor))
  {
    if cursor.Some? {
      WithQueryArgsTwice(ActionsPath(id), PageArgs(), CursorArgs(cursor));
    } else {
      assert PageArgs() + CursorArgs(cursor) == PageArgs();
    }
  }

  /**
   * For a board id with no `?`, `ParseUrl` reads back from a page request
   * the board's actions path, then `filter` and `limit`, then `before`
   * exactly when there is a cursor, then every configuration entry.
   */
  lemma PageRequestArgs(id: PhpString, config: Args, cursor: Option<PhpString>)
    requires '?' !in id
    ensures ParseUrl(RequestUrl(PageUrl(BaseUrl(id), cursor), config))
         == (ApiBase + ActionsPath(id), PageArgs() + CursorArgs(cursor) + config)
  {
    ActionsPathHasNoQuery(id);
    PageUrlArgs(id, cursor);
    RequestCarriesConfig(ActionsPath(id), PageArgs() + CursorArgs(cursor), config);
  }

  /** A response that makes the loop ask for another page. */
  predicate IsFullPage(r: Response)
  {
    r.Ok? && |r.records| >= PerPage
  }

  /** The id of the last record of a page: the next cursor. */
  function LastId(page: seq<Record>): PhpString
    requires page != []
  {
    page[|page| - 1].id
  }

  /** The index of the first response that is not a full page, or `|rs|` if all are. */
  function StopIndex(rs: seq<Response>): (i: nat)
    ensures i <= |rs|
    ensures forall k :: 0 <= k < i ==> IsFullPage(rs[k])
    ensures i < |rs| ==> !IsFullPage(rs[i])
  {
    if rs == [] then 0
    else if IsFullPage(rs[0]) then 1 + StopIndex(rs[1..])
    else 0
  }

  /** The responses a run consumes: every full page and the response that stops it. */
  function Answered(rs: seq<Response>): seq<Response>
  {
    if rs == [] then []
    else if IsFullPage(rs[0]) then [rs[0]] + Answered(rs[1..])
    else [rs[0]]
  }

  /** The answered responses are the prefix of `rs` that ends at the stopping one. */
  lemma {:induction false} AnsweredIsPrefix(rs: seq<Response>)
    ensures Answered(rs) == rs[..if StopIndex(rs) < |rs| then StopIndex(rs) + 1 else |rs|]
  {
    if rs != [] && IsFullPage(rs[0]) {
      AnsweredIsPrefix(rs[1..]);
      assert rs == [rs[0]] + rs[1..];
    }
  }

  /** The sum of the page sizes among `rs`; a failed request contributes none. */
  function TotalRecords(rs: seq<Response>): nat
  {
    if rs == [] then 0
    else (if rs[0].Ok? then |rs[0].records| else 0) + TotalRecords(rs[1..])
  }

  /** The records of all pages among `rs`, page after page. */
  function AllRecords(rs: seq<Response>): (recs: seq<Record>)
    ensures |recs| == TotalRecords(rs)
  {
    if rs == [] then []
    else (if rs[0].Ok? then rs[0].records else []) + AllRecords(rs[1..])
  }

  /**
   * The export loop from a given cursor and running total, one response per
   * request: a failed request aborts, a page is written whole, and a page
   * shorter than `PerPage` ends the run.
   */
  function Run(rs: seq<Response>, cursor: Option<PhpString>, total: nat): Trace
    decreases |rs|
  {
    if rs == [] then Trace([cursor], [], OutOfResponses)
    else match rs[0]
      case HttpError(status) => Trace([cursor], [], Aborted(status))
      case Ok(page) =>
        if |page| < PerPage then Trace([cursor], FlattenAll(page), Completed(total + |page|))
        else
          var rest := Run(rs[1..], Some(page[|page| - 1].id), total + |page|);
          Trace([cursor] + rest.cursors, FlattenAll(page) + rest.rows, rest.outcome)
  }

  /** A whole export: no cursor and a total of zero at the start. */
  function Export(rs: seq<Response>): Trace
  {
    Run(rs, None, 0)
  }

  /**
   * The requests of a run: one per full page plus the one that stops it;
   * the first carries the starting cursor, and each later one the id of
   * the last record of the page before it.
   */
  lemma {:induction false} RunCursors(rs: seq<Response>, cursor: Option<PhpString>, total: nat)
    ensures var t := Run(rs, cursor, total);
      && |t.cursors| == StopIndex(rs) + 1
      && t.cursors[0] == cursor
      && forall k :: 0 <= k < StopIndex(rs) ==> t.cursors[k + 1] == Some(LastId(rs[k].records))
    decreases |rs|
  {
    if rs != [] && IsFullPage(rs[0]) {
      var page := rs[0].records;
      var t, t' := Run(rs, cursor, total), Run(rs[1..], Some(LastId(page)), total + |page|);
      RunCursors(rs[1..], Some(LastId(page)), total + |page|);
      assert t.cursors == [cursor] + t'.cursors;
      assert StopIndex(rs) == 1 + StopIndex(rs[1..]);
      forall k | 0 <= k < StopIndex(rs)
        ensures t.cursors[k + 1] == Some(LastId(rs[k].records))
      {
        if k > 0 {
          assert rs[1..][k - 1] == rs[k];
        }
      }
    }
  }

  /** A full page is answered, and so is whatever the rest of the responses answer. */
  lemma AnsweredRecordsFull(rs: seq<Response>)
    requires rs != [] && IsFullPage(rs[0])
    ensures AllRecords(Answered(rs)) == rs[0].records + AllRecords(Answered(rs[1..]))
  {
    assert Answered(rs)[1..] == Answered(rs[1..]);
  }

  /** The response that stops the run is the last one answered. */
  lemma AnsweredRecordsStop(rs: seq<Response>)
    requires rs != [] && !IsFullPage(rs[0])
    ensures AllRecords(Answered(rs)) == if rs[0].Ok? then rs[0].records else []
  {
    assert Answered(rs)[1..] == [];
    if rs[0].Ok? {
      assert rs[0].records + [] == rs[0].records;
    }
  }

  /** A full page puts its own rows before those of the rest of the run. */
  lemma RunRowsFullPage(rs: seq<Response>, cursor: Option<PhpString>, total: nat)
    requires rs != [] && IsFullPage(rs[0])
    requires Run(rs[1..], Some(LastId(rs[0].records)), total + |rs[0].records|).rows
          == FlattenAll(AllRecords(Answered(rs[1..])))
    ensures Run(rs, cursor, total).rows == FlattenAll(AllRecords(Answered(rs)))
  {
    var page := rs[0].records;
    var t' := Run(rs[1..], Some(LastId(page)), total + |page|);
    assert Run(rs, cursor, total).rows == FlattenAll(page) + t'.rows;
    AnsweredRecordsFull(rs);
    FlattenAllAppend(page, AllRecords(Answered(rs[1..])));
  }

  /** The rows of a run: one per record of every answered page, in order. */
  lemma {:induction false} RunRows(rs: seq<Response>, cursor: Option<PhpString>, total: nat)
    ensures Run(rs, cursor, total).rows == FlattenAll(AllRecords(Answered(rs)))
    decreases |rs|
  {
    if rs != [] && IsFullPage(rs[0]) {
      var page := rs[0].records;
      RunRows(rs[1..], Some(LastId(page)), total + |page|);
      RunRowsFullPage(rs, cursor, total);
    } else if rs != [] {
      AnsweredRecordsStop(rs);
      if rs[0].Ok? {
        assert Run(rs, cursor, total).rows == FlattenAll(rs[0].records);
      } else {
        assert Run(rs, cursor, total).rows == [] == FlattenAll([]);
      }
    } else {
      assert AllRecords(Answered(rs)) == [];
    }
  }

  /**
   * How a run ends: past the responses when every one was a full page;
   * aborted with the status of the first failed request; otherwise completed,
   * with the running total grown by the sizes of all answered pages.
   */
  lemma {:induction false} RunOutcome(rs: seq<Response>, cursor: Option<PhpString>, total: nat)
    ensures var t := Run(rs, cursor, total);
      && (t.outcome == OutOfResponses <==> StopIndex(rs) == |rs|)
      && (StopIndex(rs) < |rs| && rs[StopIndex(rs)].HttpError? ==>
            t.outcome == Aborted(rs[StopIndex(rs)].status))
      && (StopIndex(rs) < |rs| && rs[StopIndex(rs)].Ok? ==>
            t.outcome == Completed(total + TotalRecords(Answered(rs))))
    decreases |rs|
  {
    if rs != [] && IsFullPage(rs[0]) {
      var page := rs[0].records;
      var t' := Run(rs[1..], Some(LastId(page)), total + |page|);
      RunOutcome(rs[1..], Some(LastId(page)), total + |page|);
      assert Run(rs, cursor, total).outcome == t'.outcome;
      assert StopIndex(rs) == 1 + StopIndex(rs[1..]);
      if StopIndex(rs) < |rs| {
        assert rs[StopIndex(rs)] == rs[1..][StopIndex(rs[1..])];
      }
      assert TotalRecords(Answered(rs)) == |page| + TotalRecords(Answered(rs[1..])) by {
        assert Answered(rs)[1..] == Answered(rs[1..]);
      }
    } else if rs != [] {
      assert Answered(rs)[1..] == [];
    }
  }

  /** Every row written by a completed run is counted in its total. */
  lemma CompletedTotalIsRowCount(rs: seq<Response>)
    ensures Export(rs).outcome.Completed? ==> Export(rs).outcome.total == |Export(rs).rows|
  {
    RunOutcome(rs, None, 0);
    RunRows(rs, None, 0);
  }

  /** The first response that is not a full page is where the run stops. */
  lemma {:induction false} StopIndexAt(rs: seq<Response>, k: nat)
    requires k < |rs| && !IsFullPage(rs[k])
    requires forall j :: 0 <= j < k ==> IsFullPage(rs[j])
    ensures StopIndex(rs) == k
  {
    if k > 0 {
      StopIndexAt(rs[1..], k - 1);
    }
  }

  /**
   * Pages of 1000, 1000 and 400 records: three requests, the third with
   * the last id of the second page as `before`, and 2400 rows, whatever
   * responses would follow.
   */
  lemma ThreePageExport(p1: seq<Record>, p2: seq<Record>, p3: seq<Record>, later: seq<Response>)
    requires |p1| == 1000 && |p2| == 1000 && |p3| == 400
    ensures var t := Export([Ok(p1), Ok(p2), Ok(p3)] + later);
      && |t.cursors| == 3
      && t.cursors[2] == Some(LastId(p2))
      && |t.rows| == 2400
      && t.outcome == Completed(2400)
  {
    var rs := [Ok(p1), Ok(p2), Ok(p3)] + later;
    StopIndexAt(rs, 2);
    RunCursors(rs, None, 0);
    RunRows(rs, None, 0);
    RunOutcome(rs, None, 0);
    AnsweredIsPrefix(rs);
    assert Answered(rs) == [Ok(p1), Ok(p2), Ok(p3)];
    assert TotalRecords(Answered(rs)) == 2400 by {
      var a := [Ok(p1), Ok(p2), Ok(p3)];
      assert a[1..] == [Ok(p2), Ok(p3)];
      assert a[1..][1..] == [Ok(p3)];
      assert a[1..][1..][1..] == [];
      assert TotalRecords([Ok(p3)]) == 400;
      assert TotalRecords([Ok(p2), Ok(p3)]) == 1400;
    }
  }

  /** An empty first page: one request, without a cursor, and no data rows. */
  lemma EmptyFirstPage(later: seq<Response>)
    ensures var t := Export([Ok([])] + later);
      t.cursors == [None] && t.rows == [] && t.outcome == Completed(0)
  {
  }

  /** A page of exactly `PerPage` records is always followed by one more request. */
  lemma FullPageFetchesAgain(rs: seq<Response>)
    requires rs != [] && rs[0].Ok? && |rs[0].records| == PerPage
    ensures |Export(rs).cursors| >= 2
    ensures Export(rs).cursors[1] == Some(LastId(rs[0].records))
  {
    RunCursors(rs, None, 0);
  }

  /** After a failed request the run aborts and issues nothing more. */
  lemma FailedRequestIsLast(rs: seq<Response>, k: nat)
    requires k < |rs| && rs[k].HttpError?
    requires forall j :: 0 <= j < k ==> IsFullPage(rs[j])
    ensures |Export(rs).cursors| == k + 1
    ensures Export(rs).outcome == Aborted(rs[k].status)
  {
    StopIndexAt(rs, k);
    RunCursors(rs, None, 0);
    RunOutcome(rs, None, 0);
  }

  /**
   * A run resumed after some requests: the cursors and rows so far, then
   * whatever the remaining responses make of the run.
   */
  function Resume(cursors: seq<Option<PhpString>>, written: seq<Row>,
                  rs: seq<Response>, cursor: Option<PhpString>, total: nat): Trace
  {
    var t := Run(rs, cursor, total);
    Trace(cursors + t.cursors, written + t.rows, t.outcome)
  }

  /** A whole export is a run resumed before any request. */
  lemma ResumeStart(rs: seq<Response>)
    ensures Export(rs) == Resume([], [], rs, None, 0)
  {
    var t := Run(rs, None, 0);
    assert [] + t.cursors == t.cursors;
    assert [] + t.rows == t.rows;
  }

  /** With no response left the next request is the last, and the run is out of responses. */
  lemma ResumeOut(cursors: seq<Option<PhpString>>, written: seq<Row>,
                  rs: seq<Response>, cursor: Option<PhpString>, total: nat)
    requires rs == []
    ensures Resume(cursors, written, rs, cursor, total) == Trace(cursors + [cursor], written, OutOfResponses)
  {
    assert written + [] == written;
  }

  /** A failed request is the last one, and the run aborts with its status. */
  lemma ResumeAborted(cursors: seq<Option<PhpString>>, written: seq<Row>,
                      rs: seq<Response>, cursor: Option<PhpString>, total: nat)
    requires rs != [] && rs[0].HttpError?
    ensures Resume(cursors, written, rs, cursor, total) == Trace(cursors + [cursor], written, Aborted(rs[0].status))
  {
    assert written + [] == written;
  }

  /** A short page is the last one: it is written, and the run completes with the new total. */
  lemma ResumeCompleted(cursors: seq<Option<PhpString>>, written: seq<Row>,
                        rs: seq<Response>, cursor: Option<PhpString>, total: nat)
    requires rs != [] && rs[0].Ok? && |rs[0].records| < PerPage
    ensures Resume(cursors, written, rs, cursor, total) ==
      Trace(cursors + [cursor], written + FlattenAll(rs[0].records), Completed(total + |rs[0].records|))
  {
  }

  /** A full page is written and the run resumes from its last id, one response further on. */
  lemma ResumeFullPage(cursors: seq<Option<PhpString>>, written: seq<Row>,
                       rs: seq<Response>, cursor: Option<PhpString>, total: nat)
    requires rs != [] && IsFullPage(rs[0])
    ensures Resume(cursors, written, rs, cursor, total) ==
      Resume(cursors + [cursor], written + FlattenAll(rs[0].records), rs[1..],
             Some(LastId(rs[0].records)), total + |rs[0].records|)
  {
  }

  /** Regroups a concatenation; the loop below needs the step spelled out. */
  lemma Associative<T>(a: seq<T>, b: seq<T>, c: seq<T>)
    ensures (a + b) + c == a + (b + c)
  {
  }

  /** The tab-separated output file; `insertOne` appends one row. */
  class TsvWriter {
    var rows: seq<Row>

    constructor ()
      ensures rows == []
    {
      rows := [];
    }

    method InsertOne(row: Row)
      modifies this
      ensures rows == old(rows) + [row]
    {
      rows := rows + [row];
    }
  }

  /** The `foreach` over a page: one row per record, appended in order. */
  method WritePage(file: TsvWriter, data: seq<Record>)
    modifies file
    ensures file.rows == old(file.rows) + FlattenAll(data)
  {
    for j := 0 to |data|
      invariant file.rows == old(file.rows) + FlattenAll(data[..j])
    {
      assert data[..j + 1] == data[..j] + [data[j]];
      FlattenAllAppend(data[..j], [data[j]]);
      file.InsertOne(Flatten(data[j]));
    }
    assert data[..|data|] == data;
  }

  /**
   * The URL of the next page request: `before` is added to the base URL
   * when there is a cursor, then `request` adds the configuration.
   */
  method PageRequest(baseUrl: PhpString, config: Args, cursor: Option<PhpString>)
    returns (sent: PhpString)
    ensures sent == RequestUrl(PageUrl(baseUrl, cursor), config)
  {
    var url;
    if cursor.Some? {
      url := AddQueryArgs(baseUrl, [(BeforeKey, cursor.value)]);
    } else {
      url := baseUrl;
    }
    sent := Request(url, config);
  }

  /**
   * Issues the next page request and logs its URL: if the log so far holds
   * the page request of each earlier cursor, it then also holds this one's.
   */
  method SendRequest(baseUrl: PhpString, config: Args, ghost cursors: seq<Option<PhpString>>,
                     cursor: Option<PhpString>, requests: seq<PhpString>)
    returns (requests': seq<PhpString>)
    requires |requests| == |cursors|
    requires forall k :: 0 <= k < |requests| ==> requests[k] == RequestUrl(PageUrl(baseUrl, cursors[k]), config)
    ensures |requests'| == |cursors + [cursor]|
    ensures forall k :: 0 <= k < |requests'| ==> requests'[k] == RequestUrl(PageUrl(baseUrl, (cursors + [cursor])[k]), config)
  {
    var sent := PageRequest(baseUrl, config, cursor);
    requests' := requests + [sent];
  }

  /**
   * The `while (true)` loop of `export_comments`, from the base URL on:
   * it appends exactly the rows of `Export` to the file, requests the
   * n-th page with the n-th cursor of `Export`, and ends as `Export` does.
   */
  method ExportPages(file: TsvWriter, baseUrl: PhpString, config: Args, responses: seq<Response>)
    returns (requests: seq<PhpString>, outcome: Outcome)
    modifies file
    ensures file.rows == old(file.rows) + Export(responses).rows
    ensures |requests| == |Export(responses).cursors|
    ensures forall k :: 0 <= k < |requests| ==>
      requests[k] == RequestUrl(PageUrl(baseUrl, Export(responses).cursors[k]), config)
    ensures outcome == Export(responses).outcome
  {
    var total: nat := 0;
    var cursor: Option<PhpString> := None;
    var next := 0;
    requests := [];
    ghost var cursors: seq<Option<PhpString>> := [];
    ghost var written: seq<Row> := [];
    ResumeStart(responses);

    while true
      invariant next <= |responses|
      invariant file.rows == old(file.rows) + written
      invariant |requests| == |cursors|
      invariant forall k :: 0 <= k < |requests| ==> requests[k] == RequestUrl(PageUrl(baseUrl, cursors[k]), config)
      invariant Export(responses) == Resume(cursors, written, responses[next..], cursor, total)
      decreases |responses| - next
    {
      requests := SendRequest(baseUrl, config, cursors, cursor, requests);

      if next == |responses| {
        ResumeOut(cursors, written, responses[next..], cursor, total);
        cursors := cursors + [cursor];
        outcome := OutOfResponses;
        break;
      }
      var response := responses[next];
      if response.HttpError? {
        ResumeAborted(cursors, written, responses[next..], cursor, total);
        cursors := cursors + [cursor];
        outcome := Aborted(response.status);
        break;
      }

      var data := response.records;
      WritePage(file, data);
      Associative(old(file.rows), written, FlattenAll(data));
      if |data| < PerPage {
        ResumeCompleted(cursors, written, responses[next..], cursor, total);
        cursors, written := cursors + [cursor], written + FlattenAll(data);
        total := total + |data|;
        outcome := Completed(total);
        break;
      }
      ResumeFullPage(cursors, written, responses[next..], cursor, total);
      assert responses[next..][1..] == responses[next + 1..];
      cursors, written := cursors + [cursor], written + FlattenAll(data);
      total := total + |data|;
      cursor := Some(LastId(data));
      next := next + 1;
    }
  }

  /**
   * `export_comments`: a fresh file with the header row, then the page
   * loop from the board's base URL. The file holds the header and exactly
   * the rows of `Export`; the n-th URL requested is the page request for
   * the n-th cursor of `Export`, and the run ends as `Export` does.
   */
  method ExportComments(id: PhpString, config: Args, responses: seq<Response>)
    returns (file: TsvWriter, requests: seq<PhpString>, outcome: Outcome)
    ensures fresh(file)
    ensures file.rows == [Header] + Export(responses).rows
    ensures |requests| == |Export(responses).cursors|
    ensures forall k :: 0 <= k < |requests| ==>
      requests[k] == RequestUrl(PageUrl(BaseUrl(id), Export(responses).cursors[k]), config)
    ensures outcome == Export(responses).outcome
  {
    file := new TsvWriter();
    file.InsertOne(Header);
    assert file.rows == [Header];
    var baseUrl := AddQueryArgs(ActionsPath(id), PageArgs());
    requests, outcome := ExportPages(file, baseUrl, config, responses);
  }
}
