/** The key transaction history report: a query narrowed by key, status and checkout
    dates, then, on the page it returned, a filter on the key's type and a search on
    the names of the people who took and returned the key. */
module KeyHistoryView {
  import opened Common
  import opened Records

  /** A transaction row as the report fetches it, with the type of its key and the
      names of the people it joins; a name is missing when there is no such person. */
  datatype KeyTxRow = KeyTxRow(tx: KeyTransaction, keyType: KeyType, personOutName: Option<string>,
                               personInName: Option<string>)

  /** The query's filters; a missing one is "all". The date bounds are instants in
      milliseconds, the upper one already at the end of its day. */
  datatype KeyTxQuery = KeyTxQuery(key: Option<int>, status: Option<TxStatus>, from: Option<int>, to: Option<int>)

  predicate MatchesQuery(q: KeyTxQuery, tx: KeyTransaction) {
    (q.key.None? || tx.keyId == q.key.value) &&
    (q.status.None? || tx.status == q.status.value) &&
    (q.from.None? || tx.checkoutTime >= q.from.value) &&
    (q.to.None? || tx.checkoutTime <= q.to.value)
  }

  /** The sort key of newest first. */
  function Recency(x: KeyTxRow): int {
    -x.tx.checkoutTime
  }

  /** The rows the query returns from the transaction rows listed newest first: at
      most a page, each matching every filter, newest first still. */
  function AnswerTxs(rows: seq<KeyTxRow>, q: KeyTxQuery): (r: seq<KeyTxRow>)
    ensures |r| <= PageLimit && IsSubsequence(r, rows)
    ensures forall x :: x in r ==> x in rows && MatchesQuery(q, x.tx)
    ensures SortedAscending(rows, Recency) ==> SortedAscending(r, Recency)
  {
    var p := (x: KeyTxRow) => MatchesQuery(q, x.tx);
    if SortedAscending(rows, Recency) then
      QueryPageKeepsOrder(rows, p, Recency);
      QueryPage(rows, p)
    else QueryPage(rows, p)
  }

  /** The key-type filter, applied to the page the query returned; `None` keeps every
      row. */
  function TypeFilter(rows: seq<KeyTxRow>, keyType: Option<KeyType>): (r: seq<KeyTxRow>)
    ensures forall x :: x in r <==> x in rows && (keyType.None? || x.keyType == keyType.value)
    ensures |r| <= |rows| && IsSubsequence(r, rows)
    ensures SortedAscending(rows, Recency) ==> SortedAscending(r, Recency)
    ensures keyType.None? ==> r == rows
  {
    if keyType.None? then
      FilterAllKept(rows, (x: KeyTxRow) => true);
      FilterIsSubsequence(rows, (x: KeyTxRow) => true);
      rows
    else
      var p := (x: KeyTxRow) => x.keyType == keyType.value;
      FilterIsSubsequence(rows, p);
      if SortedAscending(rows, Recency) then
        FilterKeepsAscending(rows, p, Recency);
        Filter(rows, p)
      else Filter(rows, p)
  }

  /** The search keeps a row when the name of the person who took the key, or of the
      one who returned it, contains the search text, ignoring case. */
  predicate PersonMatches(row: KeyTxRow, search: string) {
    (row.personOutName.Some? && IncludesIgnoringCase(row.personOutName.value, search)) ||
    (row.personInName.Some? && IncludesIgnoringCase(row.personInName.value, search))
  }

  /** The person search, skipped when the search text is empty. */
  function PersonSearch(rows: seq<KeyTxRow>, search: string): (r: seq<KeyTxRow>)
    ensures forall x :: x in r <==> x in rows && (search == "" || PersonMatches(x, search))
    ensures |r| <= |rows| && IsSubsequence(r, rows)
    ensures SortedAscending(rows, Recency) ==> SortedAscending(r, Recency)
    ensures search == "" ==> r == rows
  {
    if search == "" then
      FilterAllKept(rows, (x: KeyTxRow) => true);
      FilterIsSubsequence(rows, (x: KeyTxRow) => true);
      rows
    else
      var p := (x: KeyTxRow) => PersonMatches(x, search);
      FilterIsSubsequence(rows, p);
      if SortedAscending(rows, Recency) then
        FilterKeepsAscending(rows, p, Recency);
        Filter(rows, p)
      else Filter(rows, p)
  }

  /** The report's rows: the page the query returned, filtered by type, then searched
      by person; newest first when the rows are. */
  function Report(rows: seq<KeyTxRow>, q: KeyTxQuery, keyType: Option<KeyType>, search: string): (r: seq<KeyTxRow>)
    ensures |r| <= PageLimit
    ensures SortedAscending(rows, Recency) ==> SortedAscending(r, Recency)
    ensures forall x :: x in r <==>
              x in AnswerTxs(rows, q) && (keyType.None? || x.keyType == keyType.value) &&
              (search == "" || PersonMatches(x, search))
  {
    PersonSearch(TypeFilter(AnswerTxs(rows, q), keyType), search)
  }

  /** The type filter runs on the page, not in the query: a row of the chosen type is
      shown only when it is among the first page of rows matching the query, even when
      fewer than a page of rows are shown. */
  lemma TypeFilterAfterPage(rows: seq<KeyTxRow>, q: KeyTxQuery, keyType: KeyType, search: string, x: KeyTxRow)
    requires x in Report(rows, q, Some(keyType), search)
    ensures x in Take(Filter(rows, (y: KeyTxRow) => MatchesQuery(q, y.tx)), PageLimit)
    ensures x.keyType == keyType
  {
    var p := (y: KeyTxRow) => MatchesQuery(q, y.tx);
    assert AnswerTxs(rows, q) == QueryPage(rows, p);
  }

  /** The report's filters and rows. */
  class KeyHistoryReport {
    var selectedKey: Option<int>
    var selectedType: Option<KeyType>
    var selectedStatus: Option<TxStatus>
    var dateFrom: Option<int>
    var dateTo: Option<int>
    var searchPerson: string
    var transactions: seq<KeyTxRow>
    var loading: bool

    constructor ()
      ensures selectedKey == None && selectedType == None && selectedStatus == None
      ensures dateFrom == None && dateTo == None && searchPerson == "" && transactions == [] && !loading
    {
      selectedKey := None;
      selectedType := None;
      selectedStatus := None;
      dateFrom := None;
      dateTo := None;
      searchPerson := "";
      transactions := [];
      loading := false;
    }

    /** The query `fetchTransactions` builds: one filter for each selection that is
        not "all". */
    method BuildQuery() returns (query: KeyTxQuery)
      ensures query == KeyTxQuery(selectedKey, selectedStatus, dateFrom, dateTo)
    {
      query := KeyTxQuery(None, None, None, None);
      if selectedKey.Some? {
        query := query.(key := selectedKey);
      }
      if selectedStatus.Some? {
        query := query.(status := selectedStatus);
      }
      if dateFrom.Some? {
        query := query.(from := dateFrom);
      }
      if dateTo.Some? {
        query := query.(to := dateTo);
      }
    }

    /** `fetchTransactions`: the query is run against the transaction rows listed
        newest first; its answer is filtered by key type and searched by person. A
        failed query leaves the rows shown as they were. */
    method Fetch(rows: seq<KeyTxRow>, queryFailed: bool) returns (query: KeyTxQuery)
      modifies this
      ensures query == KeyTxQuery(selectedKey, selectedStatus, dateFrom, dateTo)
      ensures selectedKey == old(selectedKey) && selectedType == old(selectedType)
      ensures selectedStatus == old(selectedStatus) && dateFrom == old(dateFrom) && dateTo == old(dateTo)
      ensures searchPerson == old(searchPerson)
      ensures queryFailed ==> transactions == old(transactions)
      ensures !queryFailed ==> transactions == Report(rows, query, selectedType, searchPerson)
      ensures !loading
    {
      loading := true;
      query := BuildQuery();
      if !queryFailed {
        var page := AnswerTxs(rows, query);
        var filtered := page;
        if selectedType.Some? {
          filtered := TypeFilter(filtered, selectedType);
        }
        assert filtered == TypeFilter(page, selectedType);
        var typed := filtered;
        if searchPerson != "" {
          filtered := PersonSearch(filtered, searchPerson);
        }
        assert filtered == PersonSearch(typed, searchPerson);
        transactions := filtered;
      }
      loading := false;
    }
  }
}
