/**
 * The client of the point-of-sale HTTP API: the records it decodes, the
 * classification of a response envelope, request parameters and URLs,
 * and the pagination loop over transaction pages.
 */
module Api {
  import opened Outcomes
  import opened Calendar

  /** A closed sale; `closedAt` is an instant. */
  datatype Transaction = Transaction(clientId: int, id: int, closedAt: int)

  /** A customer; `activatedAt` is an instant. */
  datatype ClientInfo = ClientInfo(id: int, activatedAt: int)

  /** Pagination metadata echoed by the server. */
  datatype PageInfo = PageInfo(count: int, page: int, perPage: int)

  datatype Page<T> = Page(data: seq<T>, page: PageInfo)

  /** A decoded JSON value. */
  datatype Json =
    | JNull
    | JBool(b: bool)
    | JInt(i: int)
    | JStr(s: string)
    | JList(items: seq<Json>)
    | JObject(fields: map<string, Json>)

  // ---------------------------------------------------------------------------
  // Response envelopes

  /** Building an `ApiError` from an error envelope: a string `message` and an integer `error` code. */
  function ParseApiError(data: map<string, Json>): (e: Error)
    ensures e.ApiError? <==> "message" in data && data["message"].JStr? && "error" in data && data["error"].JInt?
    ensures e.ApiError? ==> e.message == data["message"].s && e.code == data["error"].i
    ensures !e.ApiError? ==> e == InvalidResponse
  {
    if "message" in data && data["message"].JStr? && "error" in data && data["error"].JInt?
    then ApiError(data["message"].s, data["error"].i)
    else InvalidResponse
  }

  /** `json_response`: a payload, the service's error, or an unexpected shape. */
  function JsonResponse(data: map<string, Json>): (r: Result<Json>)
    ensures "response" in data ==> r == Ok(data["response"])
    ensures "response" !in data && "error" in data ==> r == Err(ParseApiError(data))
    ensures "response" !in data && "error" !in data ==> r == Err(UnexpectedResponse)
  {
    if "response" in data then Ok(data["response"])
    else if "error" in data then Err(ParseApiError(data))
    else Err(UnexpectedResponse)
  }

  /** The envelope the service sends for an error. */
  function ErrorEnvelope(message: string, code: int): map<string, Json> {
    map["error" := JInt(code), "message" := JStr(message)]
  }

  /** Classifying an error envelope gives back its message and code. */
  lemma ErrorEnvelopeRoundTrip(message: string, code: int)
    ensures JsonResponse(ErrorEnvelope(message, code)) == Err(ApiError(message, code))
  {
  }

  /** A payload is returned whatever else the envelope holds, an error included. */
  lemma PayloadWins(data: map<string, Json>, payload: Json)
    ensures JsonResponse(data["response" := payload]) == Ok(payload)
  {
  }

  // ---------------------------------------------------------------------------
  // The API object

  const DefaultBaseUrl := "https://joinposter.com/api/"

  /** The API handle; its token and base URL never change after construction. */
  datatype Api = Api(token: string, baseUrl: string) {

    /** `url_for`: the base URL followed by the method name. */
    function UrlFor(rpcMethod: string): (u: string)
      ensures |u| == |baseUrl| + |rpcMethod|
      ensures u[..|baseUrl|] == baseUrl && u[|baseUrl|..] == rpcMethod
    {
      baseUrl + rpcMethod
    }

    /** `params`: the caller's parameters with the token added, replacing any `token` given. */
    function Params(kwargs: map<string, Json>): (p: map<string, Json>)
      ensures p.Keys == kwargs.Keys + {"token"}
      ensures p["token"] == JStr(token)
      ensures forall k :: k in kwargs && k != "token" ==> p[k] == kwargs[k]
    {
      kwargs["token" := JStr(token)]
    }
  }

  /** `API(token)` with the default base URL. */
  function NewApi(token: string): (a: Api)
    ensures a.token == token && a.baseUrl == DefaultBaseUrl
  {
    Api(token, DefaultBaseUrl)
  }

  /** `get_client`: a lookup by id must answer with exactly one client. */
  function GetClient(data: seq<ClientInfo>): (r: Result<ClientInfo>)
    ensures r.Ok? <==> |data| == 1
    ensures r.Ok? ==> r.value == data[0]
    ensures r.Err? ==> r.error == UnexpectedResponse
  {
    if |data| == 1 then Ok(data[0]) else Err(UnexpectedResponse)
  }

  // ---------------------------------------------------------------------------
  // Pagination

  /** One call of `get_transactions_page`. */
  datatype Request = Request(dateFrom: When, dateTo: When, page: int, perPage: int)

  /** The outcome of one page request, as the remote side answers it. */
  type Response = Result<Page<Transaction>>

  /** After this answer the loop asks for another page: the echoed count equals the echoed page size. */
  predicate Continues(resp: Response) {
    resp.Ok? && resp.value.page.count == resp.value.page.perPage
  }

  /** Some answer ends the loop; without one `iter_transactions` requests pages forever. */
  predicate Terminates(remote: seq<Response>) {
    exists i :: 0 <= i < |remote| && !Continues(remote[i])
  }

  /** The position of the first answer that ends the loop. */
  function FirstStop(remote: seq<Response>): (n: nat)
    requires Terminates(remote)
    ensures n < |remote| && !Continues(remote[n])
    ensures forall i :: 0 <= i < n ==> Continues(remote[i])
  {
    if !Continues(remote[0]) then 0
    else
      assert Terminates(remote[1..]) by {
        var i :| 0 <= i < |remote| && !Continues(remote[i]);
        assert remote[1..][i - 1] == remote[i];
      }
      1 + FirstStop(remote[1..])
  }

  /** The request the loop makes as its `i`-th call. */
  function RequestAt(dateFrom: When, dateTo: When, fromPage: int, perPage: int, remote: seq<Response>, i: nat): Request
    requires i <= |remote|
    requires i > 0 ==> remote[i - 1].Ok?
  {
    if i == 0 then Request(dateFrom, dateTo, fromPage, perPage)
    else Request(dateFrom, dateTo, remote[i - 1].value.page.page + 1, remote[i - 1].value.page.perPage)
  }

  /** The items of the first `n` pages, page after page. */
  function Yielded(remote: seq<Response>, n: nat): seq<Transaction>
    requires n <= |remote|
    requires forall i :: 0 <= i < n ==> remote[i].Ok?
  {
    if n == 0 then [] else Yielded(remote, n - 1) + remote[n - 1].value.data
  }

  /** Everything `iter_transactions` delivers before it ends, or the error it raises. */
  function FetchAll(remote: seq<Response>): Result<seq<Transaction>>
    requires Terminates(remote)
  {
    var n := FirstStop(remote);
    if remote[n].Err? then Err(remote[n].error) else Ok(Yielded(remote, n + 1))
  }

  /**
   * `iter_transactions`: request pages until an answer's echoed count differs
   * from its echoed page size. `remote` holds the answer to each request in
   * turn; `items` is what the generator yields, `requests` the calls it makes.
   */
  method IterTransactions(dateFrom: When, dateTo: When, fromPage: int, perPage: int, remote: seq<Response>)
    returns (items: seq<Transaction>, requests: seq<Request>, failure: Option<Error>)
    requires Terminates(remote)
    ensures |requests| == FirstStop(remote) + 1
    ensures forall i :: 0 <= i < |requests| ==> requests[i] == RequestAt(dateFrom, dateTo, fromPage, perPage, remote, i)
    ensures failure.Some? <==> remote[FirstStop(remote)].Err?
    ensures failure.Some? ==> failure.value == remote[FirstStop(remote)].error
    ensures failure.None? ==> items == Yielded(remote, |requests|)
    ensures failure.Some? ==> items == Yielded(remote, |requests| - 1)
  {
    ghost var stop := FirstStop(remote);
    var count := perPage;
    var size := perPage;
    var page := fromPage;
    var k := 0;
    items, requests, failure := [], [], None;
    while size == count
      invariant 0 <= k <= stop + 1
      invariant |requests| == k
      invariant forall i :: 0 <= i < k ==> remote[i].Ok?
      invariant forall i :: 0 <= i < k ==> requests[i] == RequestAt(dateFrom, dateTo, fromPage, perPage, remote, i)
      invariant items == Yielded(remote, k)
      invariant k == 0 ==> size == perPage && count == perPage && page == fromPage
      invariant k > 0 ==> size == remote[k - 1].value.page.perPage && count == remote[k - 1].value.page.count
      invariant k > 0 ==> page == remote[k - 1].value.page.page + 1
      decreases |remote| - k
    {
      requests := requests + [Request(dateFrom, dateTo, page, size)];
      var resp := remote[k];
      if resp.Err? {
        failure := Some(resp.error);
        return;
      }
      items := items + resp.value.data;
      size := resp.value.page.perPage;
      count := resp.value.page.count;
      page := resp.value.page.page + 1;
      k := k + 1;
    }
  }

  /** A source whose first `n - 1` pages are full and whose page `n` is short is asked exactly `n` times. */
  lemma {:induction false} ShortPageStops(remote: seq<Response>, n: nat)
    requires 1 <= n <= |remote|
    requires forall i :: 0 <= i < n - 1 ==> Continues(remote[i])
    requires remote[n - 1].Ok? && remote[n - 1].value.page.count != remote[n - 1].value.page.perPage
    ensures Terminates(remote) && FirstStop(remote) == n - 1
  {
    assert !Continues(remote[n - 1]);
  }

  /**
   * When the server echoes the page number it was asked for, the requests walk
   * the pages `fromPage, fromPage + 1, ...` one after the other.
   */
  lemma ConsecutivePages(dateFrom: When, dateTo: When, fromPage: int, perPage: int, remote: seq<Response>, n: nat)
    requires n <= |remote|
    requires forall i :: 0 <= i < n ==> remote[i].Ok? && remote[i].value.page.page == fromPage + i
    ensures forall i :: 0 <= i <= n ==> RequestAt(dateFrom, dateTo, fromPage, perPage, remote, i).page == fromPage + i
  {
  }

  /** Every item of every delivered page is yielded, pages in order, items in their order. */
  lemma {:induction false} YieldedPages(remote: seq<Response>, n: nat, i: nat, j: nat)
    requires n <= |remote|
    requires forall p :: 0 <= p < n ==> remote[p].Ok?
    requires i < n && j < |remote[i].value.data|
    ensures |Yielded(remote, i)| + j < |Yielded(remote, n)|
    ensures Yielded(remote, n)[|Yielded(remote, i)| + j] == remote[i].value.data[j]
    decreases n
  {
    if i < n - 1 {
      YieldedPages(remote, n - 1, i, j);
    }
  }
}
