/**
 Page tokens, and the sweep over a paginated endpoint they drive.
 */
module Paging {
  import opened Account
  import opened Json
  import opened Text

  const PAGE_SIZE: nat := 50

  /** The paging metadata of a response; a field the server leaves out reads as 0. */
  datatype ResultInfo = ResultInfo(perPage: int, totalPages: int, total: int)

  function ParsePageToken(token: string): (page: Result<nat, Error>)
    ensures page.Ok? ==> 1 <= page.value <= MAX_INT64
  {
    if token == "" then Ok(1)
    else match ParseInt(token)
      case None => Err(BadPageToken)
      case Some(page) => if page < 1 then Err(BadPageToken) else Ok(page)
  }

  function NextPageToken(page: nat, info: Option<ResultInfo>, received: nat): string {
    var totalPages := TotalPages(info);
    if totalPages > 0 && page < totalPages then Itoa(page + 1)
    else if totalPages == 0 && received == PAGE_SIZE then Itoa(page + 1)
    else ""
  }

  function TotalPages(info: Option<ResultInfo>): int {
    match info
    case None => 0
    case Some(i) =>
      if i.totalPages == 0 && i.total > 0 && i.perPage > 0 then (i.total + i.perPage - 1) / i.perPage else i.totalPages
  }

  // ----- the server: a fixed list cut into pages -----

  datatype Listing<T> = Listing(items: seq<T>, size: nat, info: nat -> Option<ResultInfo>)

  function Min(a: int, b: int): int {
    if a < b then a else b
  }

  /** How many items the earlier pages have room for. */
  function Before<T>(l: Listing<T>, page: nat): nat {
    if page <= 1 then 0 else Before(l, page - 1) + l.size
  }

  /** Where a page starts, the end of the list if it lies beyond. */
  function Start<T>(l: Listing<T>, page: nat): (start: nat)
    ensures start <= |l.items|
  {
    Min(Before(l, page), |l.items|)
  }

  function PageOf<T>(l: Listing<T>, page: nat): seq<T> {
    l.items[Start(l, page)..Start(l, page + 1)]
  }

  /** One list request. */
  function ListPage<T>(l: Listing<T>, token: string): Result<(seq<T>, string), Error> {
    match ParsePageToken(token)
    case Err(e) => Err(e)
    case Ok(page) =>
      var items := PageOf(l, page);
      Ok((items, NextPageToken(page, l.info(page), |items|)))
  }

  /** How many pages n items fill; an empty list still has one. */
  function Pages(n: nat, size: nat): (count: nat)
    requires size >= 1
    ensures 1 <= count <= n + 1
  {
    if n <= size then 1 else Pages(n - size, size) + 1
  }

  function PageCount<T>(l: Listing<T>): nat
    requires l.size >= 1
  {
    Pages(|l.items|, l.size)
  }

  /** Whether a response says how many pages there are, by either route. */
  predicate SaysPageCount(info: Option<ResultInfo>) {
    info.Some? && (info.value.totalPages != 0 || (info.value.total > 0 && info.value.perPage > 0))
  }

  /** What the metadata says is so, if it says anything. */
  predicate TruthfulInfo<T>(l: Listing<T>, info: Option<ResultInfo>)
    requires l.size >= 1
  {
    SaysPageCount(info) ==>
      if info.value.totalPages != 0 then info.value.totalPages == PageCount(l)
      else info.value.total == |l.items| && info.value.perPage == l.size
  }

  /** Truthful on every page, each in its own way; and short enough for its pages to be counted in 64 bits. */
  ghost predicate Truthful<T>(l: Listing<T>) {
    && l.size >= 1
    && |l.items| + 2 < MAX_INT64
    && forall page: nat :: TruthfulInfo(l, l.info(page))
  }

  /** The server honours the page size asked for, or every page with a successor says how many pages there are. */
  ghost predicate Followable<T>(l: Listing<T>)
    requires l.size >= 1
  {
    l.size == PAGE_SIZE || forall page: nat | 1 <= page < PageCount(l) :: SaysPageCount(l.info(page))
  }

  ghost predicate Complete<T>(l: Listing<T>) {
    Truthful(l) && Followable(l)
  }

  // ----- arithmetic of pages -----

  lemma {:induction false} BeforeMonotone<T>(l: Listing<T>, page: nat, later: nat)
    requires page <= later
    ensures Before(l, page) <= Before(l, later)
  {
    if page >= later {
    } else {
      BeforeMonotone(l, page, later - 1);
    }
  }

  lemma {:induction false} PagesExactly<T>(l: Listing<T>, n: nat, page: nat)
    requires l.size >= 1 && page >= 1
    ensures page < Pages(n, l.size) <==> Before(l, page + 1) < n
  {
    BeforeMonotone(l, 2, page + 1);
    if page > 1 && n > l.size {
      PagesExactly(l, n - l.size, page - 1);
    }
  }

  lemma MultiplesApart(a: int, b: int, size: nat)
    requires a < b
    ensures a * size + size <= b * size
  {
    var gap := b - a - 1;
    assert gap * size >= 0;
    assert b * size == (gap + a + 1) * size == gap * size + a * size + size;
  }

  lemma QuotientIs(n: nat, size: nat, q: int)
    requires size >= 1 && q * size <= n < q * size + size
    ensures n / size == q
  {
    var p := n / size;
    assert p * size <= n < p * size + size;
    if p < q {
      MultiplesApart(p, q, size);
    } else if q < p {
      MultiplesApart(q, p, size);
    }
  }

  lemma DivideMore(n: nat, size: nat)
    requires size >= 1
    ensures (n + size) / size == n / size + 1
  {
    var q := n / size;
    assert q * size <= n < q * size + size;
    assert (q + 1) * size == q * size + size;
    QuotientIs(n + size, size, q + 1);
  }

  /** The division that stands in for total_pages counts the pages. */
  lemma {:induction false} PagesIsCeiling(n: nat, size: nat)
    requires n >= 1 && size >= 1
    ensures (n + size - 1) / size == Pages(n, size)
  {
    if n > size {
      PagesIsCeiling(n - size, size);
      DivideMore(n - 1, size);
    } else {
      DivideMore(n - 1, size);
    }
  }

  lemma TotalPagesExactly<T>(l: Listing<T>, info: Option<ResultInfo>)
    requires l.size >= 1 && TruthfulInfo(l, info)
    ensures TotalPages(info) == if SaysPageCount(info) then PageCount(l) else 0
  {
    if SaysPageCount(info) && info.value.totalPages == 0 {
      PagesIsCeiling(|l.items|, l.size);
    }
  }

  /** A page token asks for the first page or for the page it prints, and anything else is refused. */
  lemma PageTokenExactly(token: string, page: nat)
    ensures ParsePageToken(token) == Ok(page) <==>
            if token == "" then page == 1 else ParseInt(token) == Some(page as int) && page >= 1
    ensures ParsePageToken(token).Err? ==> ParsePageToken(token) == Err(BadPageToken)
  {
  }

  /** The rounded-up quotient exceeds a page exactly when the pages up to it do not hold the total. */
  lemma CeilingExceedsExactly(total: int, perPage: int, page: nat)
    requires total > 0 && perPage > 0
    ensures page < (total + perPage - 1) / perPage <==> page * perPage < total
  {
    var q := (total + perPage - 1) / perPage;
    assert q * perPage <= total + perPage - 1 < q * perPage + perPage;
    if page < q {
      MultiplesApart(page, q, perPage);
    } else if q < page {
      MultiplesApart(q, page, perPage);
    }
  }

  /**
   Whatever the metadata says, true or not: the number of pages decides, if it is stated; else the total does, against
   what the pages so far hold; else whether the page was full.
   */
  lemma NextPageTokenReadsExactly(page: nat, info: Option<ResultInfo>, received: nat)
    ensures NextPageToken(page, info, received) == Itoa(page + 1) || NextPageToken(page, info, received) == ""
    ensures NextPageToken(page, info, received) != "" <==>
            match info
            case None => received == 50
            case Some(i) =>
              if i.totalPages != 0 then page < i.totalPages
              else if i.total > 0 && i.perPage > 0 then page * i.perPage < i.total
              else received == 50
  {
    match info {
      case None =>
      case Some(i) =>
        if i.totalPages == 0 && i.total > 0 && i.perPage > 0 {
          CeilingExceedsExactly(i.total, i.perPage, page);
          CeilingExceedsExactly(i.total, i.perPage, 0);
        }
    }
  }

  /** Whether another page is asked for after this one. */
  predicate HasNext<T>(l: Listing<T>, page: nat)
    requires l.size >= 1
  {
    if SaysPageCount(l.info(page)) then page < PageCount(l) else |PageOf(l, page)| == PAGE_SIZE
  }

  /**
   By total_pages, or by total_count and per_page, the token asks for more while there is more; with neither, it does
   after a full page.
   */
  lemma NextPageTokenExactly<T>(l: Listing<T>, page: nat)
    requires Truthful(l)
    ensures NextPageToken(page, l.info(page), |PageOf(l, page)|) == if HasNext(l, page) then Itoa(page + 1) else ""
  {
    assert TruthfulInfo(l, l.info(page));
    TotalPagesExactly(l, l.info(page));
    hide TotalPages, SaysPageCount, PageOf;
  }

  // ----- where a sweep stops -----

  lemma {:induction false} BeforeGrows<T>(l: Listing<T>, page: nat)
    requires l.size >= 1 && page >= 1
    ensures Before(l, page) >= page - 1
  {
    if page == 1 {
    } else {
      BeforeGrows(l, page - 1);
    }
  }

  /** A page with a successor lies within the list, so no sweep goes on for long. */
  lemma NextIsBounded<T>(l: Listing<T>, page: nat)
    requires l.size >= 1 && page >= 1 && HasNext(l, page)
    ensures page <= |l.items|
  {
    BeforeGrows(l, page);
  }

  /** The first page from this one on after which no other is asked for. */
  function LastFrom<T>(l: Listing<T>, page: nat): nat
    requires l.size >= 1 && page >= 1
    decreases |l.items| + 1 - page
  {
    if HasNext(l, page) then
      NextIsBounded(l, page);
      LastFrom(l, page + 1)
    else page
  }

  function LastPage<T>(l: Listing<T>): nat
    requires l.size >= 1
  {
    LastFrom(l, 1)
  }

  /** The items on the pages up to there. */
  function Served<T>(l: Listing<T>): seq<T>
    requires l.size >= 1
  {
    l.items[..Start(l, LastPage(l) + 1)]
  }

  lemma {:induction false} LastFromReads<T>(l: Listing<T>, from: nat, page: nat)
    requires l.size >= 1 && 1 <= from
    ensures from <= LastFrom(l, from) && (from <= |l.items| + 1 ==> LastFrom(l, from) <= |l.items| + 1)
    ensures from <= page <= LastFrom(l, from) ==> (HasNext(l, page) <==> page < LastFrom(l, from))
    decreases |l.items| + 1 - from
  {
    hide HasNext;
    if HasNext(l, from) {
      NextIsBounded(l, from);
      LastFromReads(l, from + 1, page);
    }
  }

  lemma LastPageExactly<T>(l: Listing<T>, page: nat)
    requires l.size >= 1 && 1 <= page <= LastPage(l)
    ensures HasNext(l, page) <==> page < LastPage(l)
  {
    LastFromReads(l, 1, page);
  }

  lemma LastPageBounds<T>(l: Listing<T>)
    requires Truthful(l)
    ensures l.size >= 1
    ensures 1 <= LastPage(l) <= |l.items| + 1 < MAX_INT64
    ensures Start(l, 1) == 0
  {
    LastFromReads(l, 1, 1);
  }

  /** The pages asked for cut up what is served; the last of them reaches its end. */
  lemma PageSlice<T>(l: Listing<T>, page: nat)
    requires Truthful(l) && 1 <= page <= LastPage(l)
    ensures Start(l, page) <= Start(l, page + 1) <= |Served(l)|
    ensures PageOf(l, page) == Served(l)[Start(l, page)..Start(l, page + 1)]
    ensures page == LastPage(l) ==> PageOf(l, page) == Served(l)[Start(l, page)..]
  {
    var from, to, end := Start(l, page), Start(l, page + 1), Start(l, LastPage(l) + 1);
    BeforeMonotone(l, page, page + 1);
    BeforeMonotone(l, page + 1, LastPage(l) + 1);
    hide LastPage, Truthful, Before;
    assert l.items[..end][from..to] == l.items[from..to];
    assert l.items[..end][from..] == l.items[..end][from..end];
  }

  lemma FullBeforeLast<T>(l: Listing<T>, page: nat)
    requires l.size >= 1 && 1 <= page < PageCount(l)
    ensures |PageOf(l, page)| == l.size && Start(l, page + 1) < |l.items|
  {
    PagesExactly(l, |l.items|, page);
    hide Pages;
  }

  /**
   Everything is served exactly when the server honours the page size or every page with a successor carries metadata: a
   page in the middle that says nothing, in another size than asked for, is taken for the last one.
   */
  lemma EverythingServedExactly<T>(l: Listing<T>)
    requires Truthful(l)
    ensures Served(l) == l.items <==> Followable(l)
  {
    LastPageBounds(l);
    var last := LastPage(l);
    LastPageExactly(l, last);
    hide LastPage, Pages;
    if Followable(l) {
      if last < PageCount(l) {
        FullBeforeLast(l, last);
      } else {
        PagesExactly(l, |l.items|, last);
      }
    } else {
      var gap: nat :| 1 <= gap < PageCount(l) && !SaysPageCount(l.info(gap));
      FullBeforeLast(l, gap);
      if gap < last {
        LastPageExactly(l, gap);
      }
      BeforeMonotone(l, last + 1, gap + 1);
    }
  }

  /** The last page asked for is the last there is, or the empty one after it when nothing said that it was. */
  lemma CompleteLastPage<T>(l: Listing<T>)
    requires Complete(l)
    ensures var count := PageCount(l);
            LastPage(l) == if !SaysPageCount(l.info(count)) && |PageOf(l, count)| == PAGE_SIZE then count + 1 else count
  {
    var last, count := LastPage(l), PageCount(l);
    LastPageBounds(l);
    LastPageExactly(l, last);
    PagesExactly(l, |l.items|, count);
    hide LastPage, Pages;
    if last < count {
      FullBeforeLast(l, last);
    } else {
      LastPageExactly(l, count);
      if last > count {
        LastPageExactly(l, count + 1);
      }
    }
  }

  // ----- a whole sweep -----

  datatype Sweep<T> = Sweep(items: seq<T>, requests: nat)

  /** Request pages from token on until a token comes back empty, giving up after so many requests. */
  function Collect<T>(l: Listing<T>, token: string, budget: nat): Option<Sweep<T>>
    decreases budget
  {
    if budget == 0 then None
    else match ListPage(l, token)
      case Err(_) => None
      case Ok((items, next)) =>
        if next == "" then Some(Sweep(items, 1))
        else match Collect(l, next, budget - 1)
          case None => None
          case Some(rest) => Some(Sweep(items + rest.items, rest.requests + 1))
  }

  /** The token that asks for this page. */
  function TokenFor(page: nat): string {
    if page == 1 then "" else Itoa(page)
  }

  lemma TokenRoundTrip(page: nat)
    requires 1 <= page <= MAX_INT64
    ensures ParsePageToken(TokenFor(page)) == Ok(page)
    ensures ParsePageToken(Itoa(page)) == Ok(page)
  {
    ItoaRoundTrip(page);
  }

  lemma ListStep<T>(l: Listing<T>, page: nat, token: string)
    requires Truthful(l) && 1 <= page <= LastPage(l)
    requires ParsePageToken(token) == Ok(page)
    ensures ListPage(l, token) == Ok((PageOf(l, page), if page < LastPage(l) then Itoa(page + 1) else ""))
  {
    hide NextPageToken, ParsePageToken, Itoa, HasNext, LastPage, PageOf;
    LastPageExactly(l, page);
    NextPageTokenExactly(l, page);
  }

  /** One request unfolds a sweep. */
  lemma CollectStep<T>(l: Listing<T>, token: string, budget: nat, items: seq<T>, next: string)
    requires budget > 0 && ListPage(l, token) == Ok((items, next))
    ensures next == "" ==> Collect(l, token, budget) == Some(Sweep(items, 1))
    ensures next != "" && Collect(l, next, budget - 1).Some? ==>
              var rest := Collect(l, next, budget - 1).value;
              Collect(l, token, budget) == Some(Sweep(items + rest.items, rest.requests + 1))
  {
    hide ListPage;
  }

  lemma {:induction false} CollectFrom<T>(l: Listing<T>, page: nat, token: string, budget: nat)
    requires Truthful(l) && 1 <= page <= LastPage(l)
    requires ParsePageToken(token) == Ok(page)
    requires page + budget > LastPage(l)
    ensures Start(l, page) <= |Served(l)|
    ensures Collect(l, token, budget) == Some(Sweep(Served(l)[Start(l, page)..], LastPage(l) - page + 1))
    decreases budget
  {
    hide *;
    LastPageBounds(l);
    ListStep(l, page, token);
    PageSlice(l, page);
    if page < LastPage(l) {
      TokenRoundTrip(page + 1);
      CollectFrom(l, page + 1, Itoa(page + 1), budget - 1);
      CollectStep(l, token, budget, PageOf(l, page), Itoa(page + 1));
      Rejoin(Served(l), Start(l, page), Start(l, page + 1));
    } else {
      CollectStep(l, token, budget, PageOf(l, page), "");
    }
  }

  lemma Rejoin<T>(items: seq<T>, from: nat, mid: nat)
    requires from <= mid <= |items|
    ensures items[from..mid] + items[mid..] == items[from..]
  {
  }

  /** A sweep returns what is served, each item once and in order, and then stops. */
  lemma SweepReturnsServed<T>(l: Listing<T>, budget: nat)
    requires Truthful(l) && LastPage(l) <= budget
    ensures Collect(l, "", budget) == Some(Sweep(Served(l), LastPage(l)))
  {
    hide *;
    LastPageBounds(l);
    TokenRoundTrip(1);
    CollectFrom(l, 1, TokenFor(1), budget);
    FirstToken();
    assert Served(l)[0..] == Served(l);
  }

  lemma FirstToken()
    ensures TokenFor(1) == ""
  {
  }

  /**
   Whatever mixture of pages says how many there are, a sweep ends; and it returns everything exactly when the server
   honours the page size or every page that has a successor carries metadata.
   */
  lemma SweepIsCompleteExactly<T>(l: Listing<T>, budget: nat)
    requires Truthful(l) && |l.items| + 1 <= budget
    ensures Collect(l, "", budget).Some?
    ensures Collect(l, "", budget).value.items == l.items <==> Followable(l)
  {
    hide *;
    LastPageBounds(l);
    SweepReturnsServed(l, budget);
    EverythingServedExactly(l);
  }

  /**
   Then it takes as many requests as there are pages, and one more when the last page is full and nothing said it was
   the last.
   */
  lemma SweepCollectsEverything<T>(l: Listing<T>, budget: nat)
    requires Complete(l) && PageCount(l) + 1 <= budget
    ensures var count := PageCount(l);
            var more := !SaysPageCount(l.info(count)) && |PageOf(l, count)| == PAGE_SIZE;
            Collect(l, "", budget) == Some(Sweep(l.items, if more then count + 1 else count))
  {
    CompleteLastPage(l);
    hide PageCount, LastPage, Served, Collect, SaysPageCount, PageOf, Followable;
    SweepReturnsServed(l, budget);
    EverythingServedExactly(l);
  }

  /** How many requests that is when every page carries metadata, and when none does. */
  lemma RequestCount<T>(l: Listing<T>)
    requires Complete(l)
    ensures (forall page: nat :: SaysPageCount(l.info(page))) ==> LastPage(l) == PageCount(l)
    ensures (forall page: nat :: !SaysPageCount(l.info(page))) && l.size == PAGE_SIZE ==>
              LastPage(l) == |l.items| / PAGE_SIZE + 1
  {
    var n, count := |l.items|, PageCount(l);
    CompleteLastPage(l);
    hide LastPage;
    PagesExactly(l, n, count);
    if count > 1 {
      PagesExactly(l, n, count - 1);
    }
    BeforeIsProduct(l, count);
    if n > 0 {
      PagesIsCeiling(n, PAGE_SIZE);
    }
    hide Pages, Before;
  }

  lemma {:induction false} BeforeIsProduct<T>(l: Listing<T>, page: nat)
    requires page >= 1
    ensures Before(l, page) == (page - 1) * l.size
  {
    if page <= 1 {
    } else {
      BeforeIsProduct(l, page - 1);
      assert (page - 1) * l.size == (page - 2) * l.size + l.size;
    }
  }
}
