/** Pagination (`auth_harness/services/example_orders_api.py`) against an arbitrary server. */
module Orders {
  import opened Wrappers
  import opened Arithmetic

  const SUCCESS_CODE := 0

  /** A response body, as far as the client looks at it. */
  datatype ListField<T> = NoList | NotAList | Rows(rows: seq<T>)
  datatype Data<T> = NoData | NotAPage | Page(list: ListField<T>, total: Option<int>)
  datatype Response<T> = HttpError | Body(code: int, data: Data<T>)

  datatype Failure = RequestFailed | WrongCode(code: int) | DataIsNoPage | ListIsNoArray

  /**
   The server by page index.  Its answers are arbitrary: every index is requested at most once, so
   this also covers a server whose rows change between requests.
   */
  type Server<!T> = nat -> Response<T>

  /** `fetch_example_order_page`: the rows of a page and the total it reports. */
  function ReadPage<T>(response: Response<T>): Result<(seq<T>, int), Failure> {
    match response
    case HttpError => Err(RequestFailed)
    case Body(code, data) =>
      if code != SUCCESS_CODE then Err(WrongCode(code))
      else
        match data
        case NoData => Ok(([], 0))
        case NotAPage => Err(DataIsNoPage)
        case Page(NotAList, _) => Err(ListIsNoArray)
        case Page(NoList, total) => Ok(([], if total.Some? then total.value else 0))
        case Page(Rows(rows), total) => Ok((rows, if total.Some? then total.value else |rows|))
  }

  /** The rows of page `k`; a page that cannot be read contributes none. */
  function PageRows<T>(server: Server<T>, k: nat): seq<T> {
    match ReadPage(server(k))
    case Ok(page) => page.0
    case Err(_) => []
  }

  /** The total of the first page, the only one the loop looks at. */
  function FirstTotal<T>(server: Server<T>): int {
    match ReadPage(server(1))
    case Ok(page) => page.1
    case Err(_) => 0
  }

  /** The rows of the first `n` pages. */
  function Collected<T>(server: Server<T>, n: nat): seq<T> {
    if n == 0 then [] else Collected(server, n - 1) + PageRows(server, n)
  }

  /** The loop ends with page `n`: enough rows, or an empty page. */
  predicate StopsAt<T>(server: Server<T>, n: nat) {
    |Collected(server, n)| >= FirstTotal(server) || PageRows(server, n) == []
  }

  /** Pages 1 to `n - 1` were read and did not end the loop. */
  ghost predicate ReachesPage<T>(server: Server<T>, n: nat) {
    n >= 1 && forall k: nat :: 1 <= k < n ==> ReadPage(server(k)).Ok? && !StopsAt(server, k)
  }

  /** What `requests` page requests ending in `r` mean. */
  ghost predicate FetchSpec<T>(server: Server<T>, requests: nat, r: Result<seq<T>, Failure>) {
    && ReachesPage(server, requests)
    && match r
       case Ok(rows) => ReadPage(server(requests)).Ok? && StopsAt(server, requests) && rows == Collected(server, requests)
       case Err(failure) => ReadPage(server(requests)) == Err(failure)
  }

  /** Every page before the last brought a row and the total was not reached: the loop is bounded. */
  lemma {:induction false} RowsKeepComing<T>(server: Server<T>, n: nat)
    requires ReachesPage(server, n + 1)
    ensures n <= |Collected(server, n)|
    ensures n >= 1 ==> |Collected(server, n)| < FirstTotal(server)
  {
    if n > 0 {
      assert ReachesPage(server, n);
      RowsKeepComing(server, n - 1);
      assert !StopsAt(server, n);
    }
  }

  /** `fetch_all_example_orders`: it ends against every server, within max(1, first total) requests. */
  method FetchAllExampleOrders<T>(server: Server<T>) returns (r: Result<seq<T>, Failure>)
    ensures exists requests: nat :: FetchSpec(server, requests, r) && requests <= Max(1, FirstTotal(server))
  {
    var rows: seq<T> := [];
    var pageIndex := 1;
    var total := 0;
    while true
      invariant ReachesPage(server, pageIndex)
      invariant rows == Collected(server, pageIndex - 1)
      invariant pageIndex > 1 ==> total == FirstTotal(server) && |rows| < total
      decreases if pageIndex == 1 then 1 else 0, if pageIndex == 1 then 0 else total - |rows|
    {
      RowsKeepComing(server, pageIndex - 1);
      var page := ReadPage(server(pageIndex));
      if page.Err? {
        r := Err(page.error);
        assert FetchSpec(server, pageIndex, r);
        return;
      }
      var (pageRows, pageTotal) := page.value;
      if pageIndex == 1 {
        total := pageTotal;
      }
      rows := rows + pageRows;
      if |rows| >= total || pageRows == [] {
        break;
      }
      pageIndex := pageIndex + 1;
    }
    r := Ok(rows);
    assert FetchSpec(server, pageIndex, r);
  }

  // ---------------------------------------------------------------------------------------
  // A stable server
  // ---------------------------------------------------------------------------------------

  function SliceOf<T>(all: seq<T>, low: int, high: int): seq<T> {
    if 0 <= low <= high then all[Min(|all|, low)..Min(|all|, high)] else []
  }

  /** The server answers with the rows of `all` in pages of `size`, and reports `total` on the first page. */
  ghost predicate Slices<T>(server: Server<T>, all: seq<T>, size: nat, total: int) {
    && size > 0
    && server(1) == Body(0, Page(Rows(SliceOf(all, 0, size)), Some(total)))
    && forall k: nat :: k >= 1 ==>
         var response := server(k);
         && response.Body? && response.code == 0 && response.data.Page?
         && response.data.list == Rows(SliceOf(all, (k - 1) * size, k * size))
  }

  /** The rows of the k-th page. */
  lemma SliceOfPage<T>(all: seq<T>, k: nat, size: nat)
    requires k >= 1
    ensures 0 <= (k - 1) * size <= k * size
    ensures SliceOf(all, (k - 1) * size, k * size) == all[Min(|all|, (k - 1) * size)..Min(|all|, k * size)]
  {
    assert k * size == (k - 1) * size + size;
  }

  function SlicedAnswer<T>(all: seq<T>, size: nat, total: int, k: nat): Response<T> {
    if k == 0 then HttpError
    else Body(0, Page(Rows(SliceOf(all, (k - 1) * size, k * size)), if k == 1 then Some(total) else None))
  }

  /** Such a server exists for every list, page size and total. */
  lemma SlicingServerExists<T>(all: seq<T>, size: nat, total: int) returns (server: Server<T>)
    requires size > 0
    ensures Slices(server, all, size, total)
  {
    server := (k: nat) => SlicedAnswer(all, size, total, k);
    assert (1 - 1) * size == 0 && 1 * size == size;
  }

  /** What the client makes of such answers. */
  ghost predicate ReadsSlices<T>(server: Server<T>, all: seq<T>, size: nat, total: int) {
    && size > 0
    && (forall k: nat :: k >= 1 ==> ReadPage(server(k)).Ok? && PageRows(server, k) == SliceOf(all, (k - 1) * size, k * size))
    && FirstTotal(server) == total
  }

  lemma SlicesAreRead<T>(server: Server<T>, all: seq<T>, size: nat, total: int)
    requires Slices(server, all, size, total)
    ensures ReadsSlices(server, all, size, total)
  {
    forall k: nat | k >= 1 ensures ReadPage(server(k)).Ok? && PageRows(server, k) == SliceOf(all, (k - 1) * size, k * size) {
      assert server(k).Body?;
    }
  }

  lemma {:induction false} CollectedIsPrefix<T>(server: Server<T>, all: seq<T>, size: nat, total: int, n: nat)
    requires ReadsSlices(server, all, size, total)
    ensures n * size >= 0 && Collected(server, n) == all[..Min(|all|, n * size)]
  {
    if n > 0 {
      CollectedIsPrefix(server, all, size, total, n - 1);
      assert n * size == (n - 1) * size + size;
      SlicesJoin(all, (n - 1) * size, n * size);
    }
  }

  lemma SlicesJoin<T>(all: seq<T>, low: nat, high: nat)
    requires low <= high
    ensures all[..Min(|all|, low)] + SliceOf(all, low, high) == all[..Min(|all|, high)]
  {
  }

  /** The number of rows on all pages before the last nonempty one. */
  function RowsBeforeLastPage(rows: nat, size: nat): nat
    requires size > 0
  {
    if rows == 0 then 0 else (rows - 1) / size * size
  }

  lemma PagesByRows(rows: nat, size: nat, n: nat)
    requires size > 0
    ensures n * size < rows ==> n * size <= RowsBeforeLastPage(rows, size)
    ensures rows > 0 ==> RowsBeforeLastPage(rows, size) < rows
    ensures n * size >= rows > 0 ==> (rows - 1) / size < n
  {
    if rows > 0 {
      var last := (rows - 1) / size;
      assert last * size <= rows - 1 < last * size + size;
      if n <= last {
        MultiplyMonotone(n, last, size);
      } else {
        MultiplyMonotone(last + 1, n, size);
        assert (last + 1) * size == last * size + size;
      }
    }
  }

  /** A loop that ended before the last page had reached the total. */
  lemma ShortReadHasLowTotal<T>(server: Server<T>, all: seq<T>, size: nat, total: int, n: nat)
    requires ReadsSlices(server, all, size, total) && n >= 1 && StopsAt(server, n)
    requires n * size < |all|
    ensures 0 < n * size <= RowsBeforeLastPage(|all|, size) && total <= n * size
  {
    CollectedIsPrefix(server, all, size, total, n);
    PagesByRows(|all|, size, n);
    PagesArePositive(n, size);
    var low, high := (n - 1) * size, n * size;
    assert low == high - size;
    assert PageRows(server, n) == SliceOf(all, low, high) == all[low..high];
  }

  /** A loop that got to the last page had not reached the total before it. */
  lemma FullReadHasTotal<T>(server: Server<T>, all: seq<T>, size: nat, total: int, n: nat)
    requires ReadsSlices(server, all, size, total) && ReachesPage(server, n)
    requires n * size >= |all|
    ensures RowsBeforeLastPage(|all|, size) > 0 ==> total > RowsBeforeLastPage(|all|, size)
  {
    if RowsBeforeLastPage(|all|, size) > 0 {
      var last := (|all| - 1) / size;
      PagesByRows(|all|, size, n);
      LastIsPositive(|all| - 1, size);
      CollectedIsPrefix(server, all, size, total, last);
      assert !StopsAt(server, last);
    }
  }

  /**
   All rows are read exactly when the reported total exceeds the rows before the last page, or
   there is no second page.  In particular a total of `|all|` always suffices.
   */
  lemma AllRowsAreReadIff<T>(server: Server<T>, all: seq<T>, size: nat, total: int, requests: nat, r: Result<seq<T>, Failure>)
    requires Slices(server, all, size, total) && FetchSpec(server, requests, r)
    ensures r.Ok? && r.value <= all
    ensures var before := RowsBeforeLastPage(|all|, size);
            r == Ok(all) <==> before == 0 || total > before
  {
    SlicesAreRead(server, all, size, total);
    CollectedIsPrefix(server, all, size, total, requests);
    assert r == Ok(Collected(server, requests));
    if requests * size < |all| {
      ShortReadHasLowTotal(server, all, size, total, requests);
      assert |Collected(server, requests)| < |all|;
    } else {
      FullReadHasTotal(server, all, size, total, requests);
      assert all[..|all|] == all;
    }
  }

  lemma PagesArePositive(n: nat, size: nat)
    requires n >= 1 && size > 0
    ensures n * size >= size
  {
  }

  lemma LastIsPositive(rows: nat, size: nat)
    requires size > 0 && rows / size * size > 0
    ensures rows / size >= 1
  {
  }

  /** The ordinary case: a stable server that reports its true total is read completely, in order. */
  lemma StableServerIsReadCompletely<T>(server: Server<T>, all: seq<T>, size: nat, requests: nat, r: Result<seq<T>, Failure>)
    requires Slices(server, all, size, |all|) && FetchSpec(server, requests, r)
    ensures r == Ok(all)
  {
    AllRowsAreReadIff(server, all, size, |all|, requests, r);
    PagesByRows(|all|, size, requests);
  }

  /** The pages before the last request were good answers, and a bad one ends the call with its failure. */
  lemma BadAnswerEndsTheCall<T>(server: Server<T>, requests: nat, r: Result<seq<T>, Failure>)
    requires FetchSpec(server, requests, r)
    ensures server(requests).HttpError? <==> r == Err(RequestFailed)
    ensures forall code :: (server(requests).Body? && server(requests).code == code != 0) <==> r == Err(WrongCode(code))
    ensures (server(requests).Body? && server(requests).code == 0 && server(requests).data.NotAPage?) <==> r == Err(DataIsNoPage)
    ensures (server(requests).Body? && server(requests).code == 0 && server(requests).data.Page? && server(requests).data.list.NotAList?)
       <==> r == Err(ListIsNoArray)
    ensures forall k: nat :: 1 <= k < requests ==>
              server(k).Body? && server(k).code == 0 && server(k).data.Page? && server(k).data.list.Rows? && server(k).data.list.rows != []
  {
  }

  /** An answer without a list ends the call with the rows read so far. */
  lemma EmptyAnswerEndsTheCall<T>(server: Server<T>, requests: nat, r: Result<seq<T>, Failure>)
    requires FetchSpec(server, requests, r) && r.Ok?
    ensures var data := server(requests).data;
            (data.NoData? || data.list.NoList? || data.list.rows == []) ==> r == Ok(Collected(server, requests - 1))
    ensures forall k: nat :: 1 <= k <= requests && server(k).Body? && server(k).data.Page? && server(k).data.list.Rows? ==>
              Collected(server, k) == Collected(server, k - 1) + server(k).data.list.rows
  {
    assert Collected(server, requests) == Collected(server, requests - 1) + PageRows(server, requests);
    assert Collected(server, requests - 1) + [] == Collected(server, requests - 1);
  }

  /** A first page without a total is taken for the whole list. */
  lemma MissingTotalEndsTheLoop<T>(server: Server<T>, rows: seq<T>, requests: nat, r: Result<seq<T>, Failure>)
    requires server(1) == Body(SUCCESS_CODE, Page(Rows(rows), None)) && FetchSpec(server, requests, r)
    ensures requests == 1 && r == Ok(rows)
  {
    assert Collected(server, 1) == Collected(server, 0) + rows == rows;
    assert StopsAt(server, 1);
  }
}
