/**
 * The payment-history query use case (`QueryPaymentsService.query`): it
 * normalises the free-text status, decodes the cursor, asks the storage port
 * for one page and for the summary of the whole filtered set, and assembles
 * the response with a freshly encoded next cursor.
 *
 * The storage port `PaymentOutPort` is a value holding its two operations;
 * their implementation (ordering, the cursor bound, filtering, summation) is
 * not part of this model, so every property below holds for every port.
 */
module PaymentQuery {
  import opened Wrappers
  import opened JavaNumbers
  import opened CursorCodec

  /** `PaymentStatus`, with the constant names `Enum.valueOf` matches. */
  datatype PaymentStatus = Approved | Failed | Cancelled

  /** The declared name of a constant, as `name()` returns it. */
  function StatusName(status: PaymentStatus): string {
    match status
    case Approved => "APPROVED"
    case Failed => "FAILED"
    case Cancelled => "CANCELLED"
  }

  lemma StatusNamesDistinct(a: PaymentStatus, b: PaymentStatus)
    ensures StatusName(a) == StatusName(b) ==> a == b
  {
  }

  /**
   * `runCatching { PaymentStatus.valueOf(it) }.getOrNull()`: the constant whose
   * name is exactly `name` (case-sensitive, nothing trimmed), otherwise `None`
   * in place of the `IllegalArgumentException`.
   */
  function StatusValueOf(name: string): (r: Option<PaymentStatus>)
    ensures r.Some? ==> StatusName(r.value) == name
    ensures r.None? ==> forall status: PaymentStatus :: StatusName(status) != name
  {
    if name == "APPROVED" then Some(Approved)
    else if name == "FAILED" then Some(Failed)
    else if name == "CANCELLED" then Some(Cancelled)
    else None
  }

  /** The status filter of a query: absent text, or text that names no constant, means no status filter. */
  function NormalizeStatus(status: Option<string>): (r: Option<PaymentStatus>)
    ensures r.Some? <==> exists s: PaymentStatus :: status == Some(StatusName(s))
    ensures forall s: PaymentStatus :: status == Some(StatusName(s)) ==> r == Some(s)
  {
    if status.None? then None else StatusValueOf(status.value)
  }

  /** Text that differs from every name only in case or surrounding blanks selects no status. */
  lemma StatusMatchIsExact()
    ensures NormalizeStatus(Some("approved")) == None
    ensures NormalizeStatus(Some(" APPROVED")) == None
    ensures NormalizeStatus(Some("APPROVED ")) == None
    ensures NormalizeStatus(Some("APPROVED")) == Some(Approved)
  {
  }

  /** A payment record, as the port returns it; the query only copies it. */
  datatype Payment = Payment(
    id: Long,
    partnerId: Long,
    status: PaymentStatus,
    amount: Decimal,
    netAmount: Decimal,
    createdAt: Long)

  /** The caller's `QueryFilter`; `from`, `to` are epoch milliseconds. */
  datatype QueryFilter = QueryFilter(
    partnerId: Long,
    status: Option<string>,
    from: Option<Long>,
    to: Option<Long>,
    cursor: Option<string>,
    limit: int)

  /** The page request `PaymentQuery` handed to `findBy`. */
  datatype PageRequest = PageRequest(
    partnerId: Long,
    status: Option<PaymentStatus>,
    from: Option<Long>,
    to: Option<Long>,
    limit: int,
    cursorCreatedAt: Option<Long>,
    cursorId: Option<Long>)

  /** The `PaymentSummaryFilter` handed to `summary`: the selection without any pagination. */
  datatype SummaryFilter = SummaryFilter(
    partnerId: Long,
    status: Option<PaymentStatus>,
    from: Option<Long>,
    to: Option<Long>)

  /** What `findBy` returns: the items, whether more follow, and the key of the last item. */
  datatype Page = Page(
    items: seq<Payment>,
    hasNext: bool,
    nextCursorCreatedAt: Option<Long>,
    nextCursorId: Option<Long>)

  /** What `summary` returns. */
  datatype SummaryProjection = SummaryProjection(count: Long, totalAmount: Decimal, totalNetAmount: Decimal)

  /** The `PaymentSummary` of the response. */
  datatype PaymentSummary = PaymentSummary(count: Long, totalAmount: Decimal, totalNetAmount: Decimal)

  /** The response `QueryResult`. */
  datatype QueryResult = QueryResult(
    items: seq<Payment>,
    summary: PaymentSummary,
    nextCursor: Option<string>,
    hasNext: bool)

  /** The storage port `PaymentOutPort`: its two read operations, whatever they compute. */
  datatype PaymentOutPort = PaymentOutPort(
    findBy: PageRequest -> Page,
    summary: SummaryFilter -> SummaryProjection)

  /** The selection a page request makes, with its pagination dropped. */
  function SelectionOf(request: PageRequest): SummaryFilter {
    SummaryFilter(request.partnerId, request.status, request.from, request.to)
  }

  /** The page request of `query`: normalised status, decoded cursor, the caller's limit. */
  function PageRequestOf(filter: QueryFilter): (request: PageRequest)
    ensures request.partnerId == filter.partnerId && request.from == filter.from && request.to == filter.to
    ensures request.status == NormalizeStatus(filter.status)
    ensures request.limit == filter.limit
    ensures request.cursorCreatedAt.Some? <==> request.cursorId.Some?
    ensures CursorKey(request.cursorCreatedAt, request.cursorId) == DecodeCursor(filter.cursor)
  {
    var statusEnum := NormalizeStatus(filter.status);
    var cursor := DecodeCursor(filter.cursor);
    PageRequest(filter.partnerId, statusEnum, filter.from, filter.to, filter.limit, cursor.createdAt, cursor.id)
  }

  /** The summary filter of `query`: the same partner, status and date range as the page request. */
  function SummaryFilterOf(filter: QueryFilter): (selection: SummaryFilter)
    ensures selection == SelectionOf(PageRequestOf(filter))
  {
    SummaryFilter(filter.partnerId, NormalizeStatus(filter.status), filter.from, filter.to)
  }

  /**
   * `query`: items and `hasNext` from the page, counts and totals from the
   * summary of the same selection, and a next cursor exactly when the page
   * reports both parts of its last key.
   */
  function Query(paymentRepo: PaymentOutPort, filter: QueryFilter): (result: QueryResult)
    ensures var page := paymentRepo.findBy(PageRequestOf(filter));
      && result.items == page.items
      && result.hasNext == page.hasNext
      && (result.nextCursor.None? <==> page.nextCursorCreatedAt.None? || page.nextCursorId.None?)
    ensures var projection := paymentRepo.summary(SelectionOf(PageRequestOf(filter)));
      && result.summary.count == projection.count
      && result.summary.totalAmount == projection.totalAmount
      && result.summary.totalNetAmount == projection.totalNetAmount
  {
    var page := paymentRepo.findBy(PageRequestOf(filter));
    var projection := paymentRepo.summary(SummaryFilterOf(filter));
    var summary := PaymentSummary(projection.count, projection.totalAmount, projection.totalNetAmount);
    var nextCursor := EncodeCursor(page.nextCursorCreatedAt, page.nextCursorId);
    QueryResult(page.items, summary, nextCursor, page.hasNext)
  }

  /**
   * Paging on: a request that carries the cursor of the previous response
   * asks the port for the rows after exactly the key the previous page
   * reported, and a response without a next cursor makes the following request
   * start from the most recent row.
   */
  lemma NextCursorResumesAtPageKey(paymentRepo: PaymentOutPort, filter: QueryFilter, next: QueryFilter)
    requires next.cursor == Query(paymentRepo, filter).nextCursor
    ensures var page := paymentRepo.findBy(PageRequestOf(filter));
      var request := PageRequestOf(next);
      if page.nextCursorCreatedAt.Some? && page.nextCursorId.Some? then
        request.cursorCreatedAt == page.nextCursorCreatedAt && request.cursorId == page.nextCursorId
      else
        request.cursorCreatedAt.None? && request.cursorId.None?
  {
    var page := paymentRepo.findBy(PageRequestOf(filter));
    if page.nextCursorCreatedAt.Some? && page.nextCursorId.Some? {
      CursorRoundTrip(page.nextCursorCreatedAt.value, page.nextCursorId.value);
    }
  }

  /** The summary does not depend on the cursor or the limit: only the selection reaches it. */
  lemma SummaryIgnoresPagination(paymentRepo: PaymentOutPort, a: QueryFilter, b: QueryFilter)
    requires a.partnerId == b.partnerId && a.status == b.status && a.from == b.from && a.to == b.to
    ensures Query(paymentRepo, a).summary == Query(paymentRepo, b).summary
  {
  }

  /** Two status texts that select the same constant (or none) give the same response. */
  lemma EquivalentStatusesQueryAlike(paymentRepo: PaymentOutPort, filter: QueryFilter, status: Option<string>)
    requires NormalizeStatus(status) == NormalizeStatus(filter.status)
    ensures Query(paymentRepo, filter.(status := status)) == Query(paymentRepo, filter)
  {
    assert PageRequestOf(filter.(status := status)) == PageRequestOf(filter);
  }

  /** A status that names no constant degrades to no status filter: the same page and summary as no status. */
  lemma UnknownStatusMeansNoFilter(paymentRepo: PaymentOutPort, filter: QueryFilter)
    ensures Query(paymentRepo, filter.(status := Some("NOT_A_REAL_STATUS"))) ==
      Query(paymentRepo, filter.(status := None))
  {
    EquivalentStatusesQueryAlike(paymentRepo, filter.(status := None), Some("NOT_A_REAL_STATUS"));
  }

  /** A corrupt cursor degrades to no cursor: the same response as a request without one. */
  lemma CorruptCursorMeansFirstPage(paymentRepo: PaymentOutPort, filter: QueryFilter)
    requires DecodeCursor(filter.cursor) == NoCursor
    ensures Query(paymentRepo, filter) == Query(paymentRepo, filter.(cursor := None))
  {
    assert PageRequestOf(filter) == PageRequestOf(filter.(cursor := None));
  }
}
