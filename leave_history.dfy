// The leave-request history of one employee: their requests, newest id
// first, optionally narrowed to one status, and one page of the result.

module LeaveHistory {
  import opened Domain

  /** C#'s `int`. */
  newtype int32 = x: int | -0x8000_0000 <= x < 0x8000_0000

  /** The value of `x` after unchecked 32-bit two's-complement wrap-around. */
  function Wrap32(x: int): (w: int32)
    ensures -0x8000_0000 <= x < 0x8000_0000 ==> w as int == x
    ensures (w as int - x) % 0x1_0000_0000 == 0
  {
    (((x + 0x8000_0000) % 0x1_0000_0000) - 0x8000_0000) as int32
  }

  datatype HistoryQuery = HistoryQuery(
    employeeId: int,
    leaveStatus: Option<LeaveRequestStatus>,
    pageNumber: int32,
    pageSize: int32)

  /**
   * One row of the history; the leave type and the processing manager are
   * kept as ids, their names being read from other tables.
   */
  datatype LeaveRequestDto = LeaveRequestDto(
    id: int,
    fromDate: int,
    toDate: int,
    applyDate: int,
    typeId: int,
    halfDay: bool,
    description: string,
    processedBy: int,
    status: LeaveRequestStatus)

  /** `TotalPages` carries the number of matching requests, not a number of pages. */
  datatype HistoryResponse = HistoryResponse(leaveRequests: seq<LeaveRequestDto>, totalPages: int)

  // ---------------------------------------------------------------------
  // Paging parameters
  // ---------------------------------------------------------------------

  function PageNumber(q: HistoryQuery): (n: int32)
    ensures n >= 0
    ensures q.pageNumber > 0 ==> n == q.pageNumber
    ensures q.pageNumber <= 0 ==> n == 0
  {
    if q.pageNumber > 0 then q.pageNumber else 0
  }

  function PageSize(q: HistoryQuery): (n: int32)
    ensures n >= 1
    ensures q.pageSize > 0 ==> n == q.pageSize
    ensures q.pageSize <= 0 ==> n == 1
  {
    if q.pageSize > 0 then q.pageSize else 1
  }

  // ---------------------------------------------------------------------
  // Ordering by a key, newest first, as a stable sort
  // ---------------------------------------------------------------------

  predicate Descending<T>(s: seq<T>, key: T -> int) {
    forall i, j :: 0 <= i < j < |s| ==> key(s[i]) >= key(s[j])
  }

  predicate DistinctKeys<T>(s: seq<T>, key: T -> int) {
    forall i, j :: 0 <= i < j < |s| ==> key(s[i]) != key(s[j])
  }

  /** Puts `x` in front of the first element whose key is not above its own. */
  function Insert<T>(x: T, s: seq<T>, key: T -> int): (r: seq<T>)
    ensures multiset(r) == multiset(s) + multiset{x}
  {
    if s == [] then [x]
    else if key(x) >= key(s[0]) then [x] + s
    else
      assert s == [s[0]] + s[1..];
      [s[0]] + Insert(x, s[1..], key)
  }

  lemma {:induction false} InsertKeepsOrder<T>(x: T, s: seq<T>, key: T -> int)
    requires Descending(s, key)
    ensures Descending(Insert(x, s, key), key)
  {
    if s != [] && key(x) < key(s[0]) {
      var rest := Insert(x, s[1..], key);
      InsertKeepsOrder(x, s[1..], key);
      forall k | 0 <= k < |rest| ensures key(s[0]) >= key(rest[k]) {
        assert rest[k] in multiset(s[1..]) + multiset{x};
        if rest[k] != x {
          assert rest[k] in s[1..];
          var j :| 0 <= j < |s[1..]| && s[1..][j] == rest[k];
          assert s[j + 1] == rest[k];
        }
      }
      assert Insert(x, s, key) == [s[0]] + rest;
    }
  }

  /** LINQ `OrderByDescending`: a stable sort, largest key first. */
  function SortDescending<T>(s: seq<T>, key: T -> int): (r: seq<T>)
    ensures multiset(r) == multiset(s)
    ensures Descending(r, key)
  {
    if s == [] then []
    else
      assert s == [s[0]] + s[1..];
      var sorted := SortDescending(s[1..], key);
      InsertKeepsOrder(s[0], sorted, key);
      Insert(s[0], sorted, key)
  }

  // ---------------------------------------------------------------------
  // Skip and Take
  // ---------------------------------------------------------------------

  /** LINQ `Skip`: drops the first `n` elements; a negative count drops none. */
  function Skip<T>(s: seq<T>, n: int): (r: seq<T>)
    ensures n <= 0 ==> r == s
    ensures 0 <= n <= |s| ==> r == s[n..]
    ensures n >= |s| ==> r == []
  {
    if n <= 0 then s else if n >= |s| then [] else s[n..]
  }

  /** LINQ `Take`: keeps the first `n` elements; a negative count keeps none. */
  function Take<T>(s: seq<T>, n: int): (r: seq<T>)
    ensures n <= 0 ==> r == []
    ensures 0 <= n <= |s| ==> r == s[..n]
    ensures n >= |s| ==> r == s
  {
    if n <= 0 then [] else if n >= |s| then s else s[..n]
  }

  // ---------------------------------------------------------------------
  // The query
  // ---------------------------------------------------------------------

  function OfEmployee(employeeId: int): LeaveRequest -> bool {
    (x: LeaveRequest) => x.employeeId == employeeId
  }

  function RequestId(): LeaveRequest -> int {
    (x: LeaveRequest) => x.id
  }

  function DtoId(): LeaveRequestDto -> int {
    (x: LeaveRequestDto) => x.id
  }

  function HasStatus(status: LeaveRequestStatus): LeaveRequestDto -> bool {
    (x: LeaveRequestDto) => x.status == status
  }

  function ToDto(r: LeaveRequest): (d: LeaveRequestDto)
    ensures d.id == r.id && d.status == r.status
  {
    LeaveRequestDto(r.id, r.fromDate, r.toDate, r.applyDate, r.typeId, r.halfDay,
                    r.description, r.processedBy, r.status)
  }

  /** LINQ `Select(ToDto)`. */
  function ToDtos(s: seq<LeaveRequest>): (r: seq<LeaveRequestDto>)
    ensures |r| == |s|
    ensures forall i :: 0 <= i < |s| ==> r[i] == ToDto(s[i])
  {
    if s == [] then [] else [ToDto(s[0])] + ToDtos(s[1..])
  }

  /** The employee's requests, newest id first, narrowed to the status asked for: the list that is paged. */
  function Listing(q: HistoryQuery, requests: seq<LeaveRequest>): seq<LeaveRequestDto> {
    var all := ToDtos(SortDescending(Filter(requests, OfEmployee(q.employeeId)), RequestId()));
    if q.leaveStatus.Some? then Filter(all, HasStatus(q.leaveStatus.value)) else all
  }

  /** Elements `[number * size, number * size + size)` of `s`, the offset computed without overflow. */
  function Page<T>(s: seq<T>, number: int, size: int): (r: seq<T>)
    requires number >= 0 && size >= 1
    ensures |r| <= size
    ensures forall k :: 0 <= k < |r| ==> number * size + k < |s| && r[k] == s[number * size + k]
    ensures number * size + size <= |s| ==> |r| == size
    ensures number * size < |s| ==> |r| >= 1
  {
    MultipleIsNonNegative(number, size);
    Take(Skip(s, number * size), size)
  }

  lemma MultipleIsNonNegative(a: int, b: int)
    requires a >= 0 && b >= 0
    ensures a * b >= 0
  {
  }

  /** The history query, paging with the intended offset. */
  function History(q: HistoryQuery, requests: seq<LeaveRequest>): (r: HistoryResponse)
    // TotalPages is the number of matching requests, not a page count
    ensures r.totalPages == |Filter(requests, Matches(q))|
    ensures |r.leaveRequests| <= PageSize(q) as int
    ensures r.leaveRequests == [] <==> PageNumber(q) as int * PageSize(q) as int >= r.totalPages
  {
    ListingIsSortedSelection(q, requests);
    var list := Listing(q, requests);
    HistoryResponse(Page(list, PageNumber(q) as int, PageSize(q) as int), |list|)
  }

  // ---------------------------------------------------------------------
  // What the history promises
  // ---------------------------------------------------------------------

  /** Whether a request should appear in the history `q` asks for. */
  function Matches(q: HistoryQuery): LeaveRequest -> bool {
    (x: LeaveRequest) => x.employeeId == q.employeeId
                         && (q.leaveStatus.None? || x.status == q.leaveStatus.value)
  }

  /**
   * The listing holds exactly the employee's requests with the asked-for
   * status (each as often as it occurs), in descending id order; the total
   * is their number.
   */
  lemma ListingIsSortedSelection(q: HistoryQuery, requests: seq<LeaveRequest>)
    ensures multiset(Listing(q, requests)) == multiset(ToDtos(Filter(requests, Matches(q))))
    ensures Descending(Listing(q, requests), DtoId())
    ensures |Listing(q, requests)| == |Filter(requests, Matches(q))|
  {
    var mine := Filter(requests, OfEmployee(q.employeeId));
    var sorted := SortDescending(mine, RequestId());
    ToDtosPermutation(sorted, mine);
    ToDtosKeepOrder(sorted);
    var all := ToDtos(sorted);
    if q.leaveStatus.Some? {
      var p := HasStatus(q.leaveStatus.value);
      FilterPermutation(all, ToDtos(mine), p);
      FilterKeepsOrder(all, p, DtoId());
      ToDtosOfFilter(mine, p, (x: LeaveRequest) => p(ToDto(x)));
      FilterOfFilter(requests, OfEmployee(q.employeeId), (x: LeaveRequest) => p(ToDto(x)), Matches(q));
    } else {
      FilterSame(requests, OfEmployee(q.employeeId), Matches(q));
    }
    assert |Listing(q, requests)| == |multiset(Listing(q, requests))|;
    assert |ToDtos(Filter(requests, Matches(q)))| == |multiset(ToDtos(Filter(requests, Matches(q))))|;
  }

  /** Where request ids are unique, as a primary key makes them, the listing's ids strictly descend. */
  lemma ListingIdsStrictlyDescend(q: HistoryQuery, requests: seq<LeaveRequest>)
    requires DistinctKeys(requests, RequestId())
    ensures forall i, j :: 0 <= i < j < |Listing(q, requests)| ==>
              Listing(q, requests)[i].id > Listing(q, requests)[j].id
  {
    ListingIsSortedSelection(q, requests);
    var mine := Filter(requests, OfEmployee(q.employeeId));
    FilterKeepsDistinct(requests, OfEmployee(q.employeeId), RequestId());
    var sorted := SortDescending(mine, RequestId());
    SortKeepsDistinct(mine, RequestId());
    var all := ToDtos(sorted);
    assert DistinctKeys(all, DtoId());
    if q.leaveStatus.Some? {
      FilterKeepsDistinct(all, HasStatus(q.leaveStatus.value), DtoId());
    }
    var l := Listing(q, requests);
    assert Descending(l, DtoId()) && DistinctKeys(l, DtoId());
  }

  /** `x` is the row of one of the employee's requests with the asked-for status. */
  predicate RowOfMatch(q: HistoryQuery, requests: seq<LeaveRequest>, x: LeaveRequestDto) {
    exists i :: 0 <= i < |requests| && Matches(q)(requests[i]) && ToDto(requests[i]) == x
  }

  /** Every row listed is one of the employee's requests with the asked-for status. */
  lemma ListingOnlyMatches(q: HistoryQuery, requests: seq<LeaveRequest>, k: int)
    requires 0 <= k < |Listing(q, requests)|
    ensures RowOfMatch(q, requests, Listing(q, requests)[k])
  {
    ListingIsSortedSelection(q, requests);
    var x := Listing(q, requests)[k];
    var selected := Filter(requests, Matches(q));
    assert x in multiset(Listing(q, requests));
    assert x in multiset(ToDtos(selected));
    var j :| 0 <= j < |selected| && ToDtos(selected)[j] == x;
    assert selected[j] in requests;
    var i :| 0 <= i < |requests| && requests[i] == selected[j];
  }

  /** Every row shown belongs to the employee and has the asked-for status. */
  lemma PageShowsOnlyMatches(q: HistoryQuery, requests: seq<LeaveRequest>, k: int)
    requires 0 <= k < |History(q, requests).leaveRequests|
    ensures RowOfMatch(q, requests, History(q, requests).leaveRequests[k])
  {
    var l := Listing(q, requests);
    var j := PageAt(l, PageNumber(q) as int, PageSize(q) as int, k);
    ListingOnlyMatches(q, requests, j);
  }

  /** The `k`-th row of a page and its index `j` in the whole list. */
  lemma PageAt<T>(s: seq<T>, number: int, size: int, k: int) returns (j: int)
    requires number >= 0 && size >= 1 && 0 <= k < |Page(s, number, size)|
    ensures 0 <= j < |s| && Page(s, number, size)[k] == s[j]
  {
    MultipleIsNonNegative(number, size);
    j := number * size + k;
  }

  /**
   * The pages before page `n` shown one after another are the start of the
   * listing: no row is shown twice and none is skipped.
   */
  function PagesBefore<T>(s: seq<T>, n: nat, size: int): seq<T>
    requires size >= 1
  {
    if n == 0 then [] else PagesBefore(s, n - 1, size) + Page(s, n - 1, size)
  }

  /** The first `m` elements of `s`, all of them when `m` exceeds its length. */
  function Prefix<T>(s: seq<T>, m: int): seq<T> {
    if m <= 0 then [] else if m <= |s| then s[..m] else s
  }

  lemma {:induction false} PagesTileTheList<T>(s: seq<T>, n: nat, size: int)
    requires size >= 1
    ensures PagesBefore(s, n, size) == Prefix(s, n * size)
  {
    if n > 0 {
      PagesTileTheList(s, n - 1, size);
      var lo := NextMultiple(n, size);
      var page := PageSlice(s, n - 1, size);
      TileStep(s, PagesBefore(s, n - 1, size), page, lo, size);
    }
  }

  /** Appending the page that starts at `lo` to the rows before it extends the prefix by one page. */
  lemma TileStep<T>(s: seq<T>, prev: seq<T>, page: seq<T>, lo: int, size: int)
    requires lo >= 0 && size >= 1
    requires prev == Prefix(s, lo)
    requires page == if lo < |s| then s[lo..if lo + size <= |s| then lo + size else |s|] else []
    ensures prev + page == Prefix(s, lo + size)
  {
    if lo < |s| {
      var hi := if lo + size <= |s| then lo + size else |s|;
      assert s[..lo] + s[lo..hi] == s[..hi];
    }
  }

  /** The start of page `n - 1` is one page size before the start of page `n`. */
  lemma NextMultiple(n: int, size: int) returns (lo: int)
    requires n >= 1 && size >= 1
    ensures lo == (n - 1) * size && lo >= 0 && n * size == lo + size
  {
    MultipleIsNonNegative(n - 1, size);
    lo := (n - 1) * size;
  }

  /** A page as a slice of the list: empty past its end, cut short at it. */
  lemma PageSlice<T>(s: seq<T>, number: int, size: int) returns (page: seq<T>)
    requires number >= 0 && size >= 1
    ensures page == Page(s, number, size)
    ensures var lo := number * size;
            page == if lo < |s| then s[lo..if lo + size <= |s| then lo + size else |s|] else []
  {
    MultipleIsNonNegative(number, size);
    var lo := number * size;
    page := Take(Skip(s, lo), size);
  }

  // ---------------------------------------------------------------------
  // The offset as written: an unchecked 32-bit product
  // ---------------------------------------------------------------------

  /** The page the query returns: the offset is the product of two ints, wrapped to 32 bits. */
  function PageAsWritten<T>(s: seq<T>, number: int32, size: int32): seq<T> {
    Take(Skip(s, Wrap32(number as int * size as int) as int), size as int)
  }

  function HistoryAsWritten(q: HistoryQuery, requests: seq<LeaveRequest>): (r: HistoryResponse)
    // the overflow touches only the page: the total and the page's bound are as intended
    ensures r.totalPages == History(q, requests).totalPages
    ensures |r.leaveRequests| <= PageSize(q) as int
  {
    var list := Listing(q, requests);
    HistoryResponse(PageAsWritten(list, PageNumber(q), PageSize(q)), |list|)
  }

  /** While the offset fits in 32 bits, the written page is the intended one. */
  lemma AsWrittenAgreesWithoutOverflow(q: HistoryQuery, requests: seq<LeaveRequest>)
    requires PageNumber(q) as int * PageSize(q) as int < 0x8000_0000
    ensures HistoryAsWritten(q, requests) == History(q, requests)
  {
    MultipleIsNonNegative(PageNumber(q) as int, PageSize(q) as int);
  }

  /**
   * Page 65536 of size 65536 has offset 2^32, which wraps to 0: the written
   * query shows the first row of a one-row history where the page should be empty.
   */
  lemma OverflowingOffsetShowsFirstPage(r: LeaveRequest)
    ensures var q := HistoryQuery(r.employeeId, None, 65536, 65536);
            HistoryAsWritten(q, [r]).leaveRequests == [ToDto(r)]
            && History(q, [r]).leaveRequests == []
  {
    var q := HistoryQuery(r.employeeId, None, 65536, 65536);
    assert Filter([r], OfEmployee(r.employeeId)) == [r];
    assert Listing(q, [r]) == [ToDto(r)];
    assert Wrap32(65536 * 65536) == 0;
  }

  // ---------------------------------------------------------------------
  // Sequence facts the proofs above use
  // ---------------------------------------------------------------------

  lemma {:induction false} FilterKeepsOrder<T>(s: seq<T>, p: T -> bool, key: T -> int)
    requires Descending(s, key)
    ensures Descending(Filter(s, p), key)
  {
    if s != [] {
      var tail := s[1..];
      assert Descending(tail, key);
      FilterKeepsOrder(tail, p, key);
      if p(s[0]) {
        var rest := Filter(tail, p);
        forall k | 0 <= k < |rest| ensures key(s[0]) >= key(rest[k]) {
          HeadBounds(s, key, rest[k]);
        }
        ConsDescending(s[0], rest, key);
        assert Filter(s, p) == [s[0]] + rest;
      }
    }
  }

  /** The head of a descending sequence bounds every later element. */
  lemma HeadBounds<T>(s: seq<T>, key: T -> int, x: T)
    requires s != [] && Descending(s, key) && x in s[1..]
    ensures key(s[0]) >= key(x)
  {
    var j :| 0 <= j < |s[1..]| && s[1..][j] == x;
    assert s[j + 1] == x;
  }

  lemma ConsDescending<T>(x: T, rest: seq<T>, key: T -> int)
    requires Descending(rest, key)
    requires forall k :: 0 <= k < |rest| ==> key(x) >= key(rest[k])
    ensures Descending([x] + rest, key)
  {
    var s := [x] + rest;
    forall i, j | 0 <= i < j < |s| ensures key(s[i]) >= key(s[j]) {
      assert s[j] == rest[j - 1];
      if i > 0 {
        assert s[i] == rest[i - 1];
      }
    }
  }

  lemma {:induction false} FilterKeepsDistinct<T>(s: seq<T>, p: T -> bool, key: T -> int)
    requires DistinctKeys(s, key)
    ensures DistinctKeys(Filter(s, p), key)
  {
    if s != [] {
      FilterKeepsDistinct(s[1..], p, key);
      var rest := Filter(s[1..], p);
      forall k | 0 <= k < |rest| ensures key(s[0]) != key(rest[k]) {
        var j :| 0 <= j < |s[1..]| && s[1..][j] == rest[k];
        assert s[j + 1] == rest[k];
      }
    }
  }

  lemma {:induction false} SortKeepsDistinct<T>(s: seq<T>, key: T -> int)
    requires DistinctKeys(s, key)
    ensures DistinctKeys(SortDescending(s, key), key)
  {
    if s != [] {
      SortKeepsDistinct(s[1..], key);
      var sorted := SortDescending(s[1..], key);
      forall k | 0 <= k < |sorted| ensures key(sorted[k]) != key(s[0]) {
        assert sorted[k] in multiset(s[1..]);
        var j :| 0 <= j < |s[1..]| && s[1..][j] == sorted[k];
        assert s[j + 1] == sorted[k];
      }
      InsertKeepsDistinct(s[0], sorted, key);
    }
  }

  lemma {:induction false} InsertKeepsDistinct<T>(x: T, s: seq<T>, key: T -> int)
    requires DistinctKeys(s, key)
    requires forall k :: 0 <= k < |s| ==> key(s[k]) != key(x)
    ensures DistinctKeys(Insert(x, s, key), key)
  {
    if s != [] && key(x) < key(s[0]) {
      InsertKeepsDistinct(x, s[1..], key);
      var rest := Insert(x, s[1..], key);
      forall k | 0 <= k < |rest| ensures key(rest[k]) != key(s[0]) {
        assert rest[k] in multiset(s[1..]) + multiset{x};
        if rest[k] != x {
          var j :| 0 <= j < |s[1..]| && s[1..][j] == rest[k];
          assert s[j + 1] == rest[k];
        }
      }
    }
  }

  lemma {:induction false} ToDtosPermutation(a: seq<LeaveRequest>, b: seq<LeaveRequest>)
    requires multiset(a) == multiset(b)
    ensures multiset(ToDtos(a)) == multiset(ToDtos(b))
    decreases |a|
  {
    if a != [] {
      var i := PickIndex(b, a[0]);
      var b' := RemoveAt(b, i);
      var a' := RemoveAt(a, 0);
      MultisetCancel(multiset(a'), multiset(b'), a[0]);
      ToDtosPermutation(a', b');
    }
  }

  lemma PickIndex<T>(s: seq<T>, x: T) returns (i: int)
    requires x in multiset(s)
    ensures 0 <= i < |s| && s[i] == x
  {
    assert x in s;
    i :| 0 <= i < |s| && s[i] == x;
  }

  /** Taking the `i`-th request out of `b` takes its row out of `ToDtos(b)`. */
  lemma RemoveAt(b: seq<LeaveRequest>, i: int) returns (b': seq<LeaveRequest>)
    requires 0 <= i < |b|
    ensures |b'| == |b| - 1
    ensures multiset(b) == multiset(b') + multiset{b[i]}
    ensures multiset(ToDtos(b)) == multiset(ToDtos(b')) + multiset{ToDto(b[i])}
  {
    b' := b[..i] + b[i + 1..];
    assert b == b[..i] + [b[i]] + b[i + 1..];
    ToDtosAppend(b[..i] + [b[i]], b[i + 1..]);
    ToDtosAppend(b[..i], [b[i]]);
    ToDtosAppend(b[..i], b[i + 1..]);
  }

  lemma MultisetCancel<T>(x: multiset<T>, y: multiset<T>, e: T)
    requires x + multiset{e} == y + multiset{e}
    ensures x == y
  {
    forall z ensures x[z] == y[z] {
      assert (x + multiset{e})[z] == (y + multiset{e})[z];
    }
  }

  lemma ToDtosAppend(a: seq<LeaveRequest>, b: seq<LeaveRequest>)
    ensures ToDtos(a + b) == ToDtos(a) + ToDtos(b)
  {
    assert |ToDtos(a + b)| == |ToDtos(a) + ToDtos(b)|;
    forall k | 0 <= k < |a + b| ensures ToDtos(a + b)[k] == (ToDtos(a) + ToDtos(b))[k] {
      if k < |a| {
        assert (a + b)[k] == a[k];
      } else {
        assert (a + b)[k] == b[k - |a|];
      }
    }
  }

  lemma ToDtosKeepOrder(s: seq<LeaveRequest>)
    requires Descending(s, RequestId())
    ensures Descending(ToDtos(s), DtoId())
  {
  }

  lemma {:induction false} ToDtosOfFilter(s: seq<LeaveRequest>, p: LeaveRequestDto -> bool, pr: LeaveRequest -> bool)
    requires forall k :: 0 <= k < |s| ==> pr(s[k]) == p(ToDto(s[k]))
    ensures Filter(ToDtos(s), p) == ToDtos(Filter(s, pr))
  {
    if s != [] {
      ToDtosOfFilter(s[1..], p, pr);
      assert ToDtos(s) == [ToDto(s[0])] + ToDtos(s[1..]);
      assert ToDtos(s)[1..] == ToDtos(s[1..]);
      if pr(s[0]) {
        ToDtosAppend([s[0]], Filter(s[1..], pr));
      }
    }
  }

  lemma {:induction false} FilterOfFilter<T>(s: seq<T>, p: T -> bool, q: T -> bool, r: T -> bool)
    requires forall k :: 0 <= k < |s| ==> r(s[k]) == (p(s[k]) && q(s[k]))
    ensures Filter(Filter(s, p), q) == Filter(s, r)
  {
    if s != [] {
      FilterOfFilter(s[1..], p, q, r);
      if p(s[0]) {
        assert Filter(s, p) == [s[0]] + Filter(s[1..], p);
        assert ([s[0]] + Filter(s[1..], p))[1..] == Filter(s[1..], p);
      }
    }
  }

  lemma {:induction false} FilterSame<T>(s: seq<T>, p: T -> bool, r: T -> bool)
    requires forall k :: 0 <= k < |s| ==> r(s[k]) == p(s[k])
    ensures Filter(s, p) == Filter(s, r)
  {
    if s != [] {
      FilterSame(s[1..], p, r);
    }
  }
}
