/** What `getUsers` computes from the user table: the records that pass a
    query-string filter, sorted by one field, cut to one page. */
module UserQuery {
  import opened Wrappers
  import opened ApiTypes
  import opened JsText
  import FormUrlencoded

  // ---------------------------------------------------------------- filtering

  /** `user[key]` when that is a string. The other cases (`id` is a number, an absent
      password and an unknown key are `undefined`) have no string value. */
  function FieldString(u: User, key: string): Option<string> {
    if key == "name" then Some(u.name)
    else if key == "email" then Some(u.email)
    else if key == "role" then Some(RoleName(u.role))
    else if key == "status" then Some(StatusName(u.status))
    else if key == "dateJoined" then Some(u.dateJoined)
    else if key == "password" then u.password
    else None
  }

  /** One filter entry: a string field passes when it contains the value, case
      ignored; any other field is compared with `===`, and a number or `undefined`
      is never strictly equal to the string value. */
  predicate EntryMatches(u: User, entry: (string, string)) {
    match FieldString(u, entry.0)
    case Some(text) => Includes(ToLower(text), ToLower(entry.1))
    case None => false
  }

  /** The `every` over the filter's entries. */
  predicate MatchesAll(u: User, entries: seq<(string, string)>) {
    forall i :: 0 <= i < |entries| ==> EntryMatches(u, entries[i])
  }

  /** `users.filter(...)`: the records that pass every entry, in table order. */
  function FilterUsers(users: seq<User>, entries: seq<(string, string)>): (r: seq<User>)
    ensures |r| <= |users|
    ensures forall u :: u in r <==> u in users && MatchesAll(u, entries)
    ensures forall u :: multiset(r)[u] == if MatchesAll(u, entries) then multiset(users)[u] else 0
  {
    if users == [] then []
    else
      var rest := FilterUsers(users[1..], entries);
      assert users == [users[0]] + users[1..];
      assert multiset(users) == multiset{users[0]} + multiset(users[1..]);
      if MatchesAll(users[0], entries) then
        assert multiset([users[0]] + rest) == multiset{users[0]} + multiset(rest);
        [users[0]] + rest
      else
        rest
  }

  /** Filtering distributes over concatenation: the kept records stay in table order. */
  lemma {:induction false} FilterAppend(a: seq<User>, b: seq<User>, entries: seq<(string, string)>)
    ensures FilterUsers(a + b, entries) == FilterUsers(a, entries) + FilterUsers(b, entries)
  {
    if a == [] {
      assert a + b == b;
    } else {
      assert (a + b)[0] == a[0] && (a + b)[1..] == a[1..] + b;
      FilterAppend(a[1..], b, entries);
    }
  }

  /** Whether the `filter` argument of `getUsers` lets the record `u` through. */
  predicate Selects(filter: Option<string>, u: User) {
    filter.None? || filter.value == "" || MatchesAll(u, FormUrlencoded.Parse(filter.value))
  }

  /** The records `getUsers` keeps for its `filter` argument: all of them when the
      filter is absent or empty, otherwise those passing every entry the query
      string parses to. */
  function Matching(users: seq<User>, filter: Option<string>): (r: seq<User>)
    ensures filter.None? || filter.value == "" ==> r == users
    ensures forall u :: multiset(r)[u] == if Selects(filter, u) then multiset(users)[u] else 0
  {
    if filter.None? || filter.value == "" then users
    else FilterUsers(users, FormUrlencoded.Parse(filter.value))
  }

  /** A filter entry on a string field passes exactly when the lower-cased field
      contains the lower-cased value somewhere. */
  lemma EntryMatchesIff(u: User, key: string, value: string)
    ensures EntryMatches(u, (key, value)) <==>
      FieldString(u, key).Some? &&
      exists i :: OccursAt(ToLower(FieldString(u, key).value), ToLower(value), i)
  {
    if FieldString(u, key).Some? {
      var text := FieldString(u, key).value;
      assert EntryMatches(u, (key, value)) == Includes(ToLower(text), ToLower(value));
      IncludesIff(ToLower(text), ToLower(value));
    }
  }

  /** Matching ignores the case of the filter value. */
  lemma EntryMatchesIgnoresCase(u: User, key: string, value: string)
    ensures EntryMatches(u, (key, value)) == EntryMatches(u, (key, ToLower(value)))
  {
    ToLowerIdempotent(value);
  }

  /** A filter with an `id` entry keeps no record (the value is a string, the id a number). */
  lemma IdFilterMatchesNothing(users: seq<User>, entries: seq<(string, string)>, k: nat)
    requires k < |entries| && entries[k].0 == "id"
    ensures FilterUsers(users, entries) == []
  {
    forall u | u in users
      ensures !MatchesAll(u, entries)
    {
      assert !EntryMatches(u, entries[k]);
    }
  }

  /** A filter with no entries keeps every record. */
  lemma {:induction false} FilterNoEntries(users: seq<User>)
    ensures FilterUsers(users, []) == users
  {
    if users != [] {
      FilterNoEntries(users[1..]);
      assert [users[0]] + users[1..] == users;
    }
  }

  // ------------------------------------------------------------------ sorting

  /** The field names `sortBy` can take. */
  datatype SortField = ById | ByName | ByEmail | ByRole | ByStatus | ByDateJoined | ByPassword

  datatype SortOrder = Asc | Desc

  /** `user[sortBy] ?? ''` for a string-valued field; an absent password reads as `''`. */
  function SortText(f: SortField, u: User): string
    requires f != ById
  {
    match f
    case ByName => u.name
    case ByEmail => u.email
    case ByRole => RoleName(u.role)
    case ByStatus => StatusName(u.status)
    case ByDateJoined => u.dateJoined
    case ByPassword => u.password.GetOr("")
  }

  /** JavaScript `<` between the two sort values: numbers for `id`, strings otherwise. */
  predicate KeyLess(f: SortField, a: User, b: User) {
    if f == ById then a.id < b.id else StringLess(SortText(f, a), SortText(f, b))
  }

  /** The comparator returns 1, placing `a` after `b`: `a > b` for `asc`, `a < b`
      for `desc`. On equal values it returns -1 both ways. */
  predicate After(f: SortField, o: SortOrder, a: User, b: User) {
    if o == Asc then KeyLess(f, b, a) else KeyLess(f, a, b)
  }

  lemma AfterAsymmetric(f: SortField, o: SortOrder, a: User, b: User)
    ensures After(f, o, a, b) ==> !After(f, o, b, a)
  {
    if f != ById {
      StringLessAsymmetric(SortText(f, a), SortText(f, b));
    }
  }

  lemma NotAfterTransitive(f: SortField, o: SortOrder, a: User, b: User, c: User)
    requires !After(f, o, a, b) && !After(f, o, b, c)
    ensures !After(f, o, a, c)
  {
    if f != ById {
      if o == Asc {
        StringNotLessTransitive(SortText(f, a), SortText(f, b), SortText(f, c));
      } else {
        StringNotLessTransitive(SortText(f, c), SortText(f, b), SortText(f, a));
      }
    }
  }

  /** No record is placed after one that follows it: non-decreasing for `asc`,
      non-increasing for `desc`. */
  predicate SortedBy(s: seq<User>, f: SortField, o: SortOrder) {
    forall i, j :: 0 <= i < j < |s| ==> !After(f, o, s[i], s[j])
  }

  /** `Array.prototype.sort` with the comparator, in place: an insertion sort. */
  method SortInPlace(a: array<User>, f: SortField, o: SortOrder)
    modifies a
    ensures SortedBy(a[..], f, o)
    ensures multiset(a[..]) == multiset(old(a[..]))
  {
    var i := 0;
    while i < a.Length
      invariant 0 <= i <= a.Length
      invariant forall p, q :: 0 <= p < q < i ==> !After(f, o, a[p], a[q])
      invariant multiset(a[..]) == multiset(old(a[..]))
    {
      Insert(a, i, f, o);
      i := i + 1;
    }
  }

  /** One pass of the insertion sort: `a[i]` moves down into the sorted prefix
      `a[..i]`, which then covers `a[..i + 1]`. */
  method Insert(a: array<User>, i: nat, f: SortField, o: SortOrder)
    requires i < a.Length
    requires forall p, q :: 0 <= p < q < i ==> !After(f, o, a[p], a[q])
    modifies a
    ensures forall p, q :: 0 <= p < q <= i ==> !After(f, o, a[p], a[q])
    ensures multiset(a[..]) == multiset(old(a[..]))
  {
    var j := i;
    assert Moving(a[..], i, j, f, o);
    while j > 0 && After(f, o, a[j - 1], a[j])
      invariant 0 <= j <= i
      invariant Moving(a[..], i, j, f, o)
      invariant multiset(a[..]) == multiset(old(a[..]))
    {
      ghost var s := a[..];
      SwapStep(s, i, j, f, o);
      a[j - 1], a[j] := a[j], a[j - 1];
      assert a[..] == s[j - 1 := s[j]][j := s[j - 1]];
      j := j - 1;
    }
    Settled(a[..], i, j, f, o);
  }

  /** The picture while `s[j]` moves down from `i`: every pair not involving it is
      in order, and it is in order with every later record up to `i`. */
  ghost predicate Moving(s: seq<User>, i: nat, j: nat, f: SortField, o: SortOrder)
    requires j <= i < |s|
  {
    && (forall p, q :: 0 <= p < q <= i && p != j && q != j ==> !After(f, o, s[p], s[q]))
    && (forall q :: j < q <= i ==> !After(f, o, s[j], s[q]))
  }

  /** Swapping the moving record with a predecessor that belongs after it keeps the
      picture, one place further down. */
  lemma SwapStep(s: seq<User>, i: nat, j: nat, f: SortField, o: SortOrder)
    requires 0 < j <= i < |s| && After(f, o, s[j - 1], s[j])
    requires Moving(s, i, j, f, o)
    ensures Moving(s[j - 1 := s[j]][j := s[j - 1]], i, j - 1, f, o)
  {
    AfterAsymmetric(f, o, s[j - 1], s[j]);
  }

  /** Once the moving record stops, after a predecessor that does not belong after
      it, the whole prefix up to `i` is in order. */
  lemma Settled(s: seq<User>, i: nat, j: nat, f: SortField, o: SortOrder)
    requires j <= i < |s| && Moving(s, i, j, f, o)
    requires j > 0 ==> !After(f, o, s[j - 1], s[j])
    ensures forall p, q :: 0 <= p < q <= i ==> !After(f, o, s[p], s[q])
  {
    forall p | 0 <= p < j - 1
      ensures !After(f, o, s[p], s[j])
    {
      NotAfterTransitive(f, o, s[p], s[j - 1], s[j]);
    }
  }

  /** A sorted copy of the records (`[...users].sort(...)`): ordered by the field and
      a permutation of the input. */
  method SortedCopy(users: seq<User>, f: SortField, o: SortOrder) returns (sorted: seq<User>)
    ensures SortedBy(sorted, f, o)
    ensures multiset(sorted) == multiset(users)
  {
    var a := new User[|users|](i requires 0 <= i < |users| => users[i]);
    assert a[..] == users;
    SortInPlace(a, f, o);
    sorted := a[..];
  }

  // --------------------------------------------------------------- pagination

  /** A relative index of `Array.prototype.slice`: negative counts from the end,
      both clamped to [0, len]. */
  function RelativeIndex(k: int, len: nat): (r: nat)
    ensures r <= len
    ensures 0 <= k ==> r == if k < len then k else len
    ensures k < 0 ==> r == if len + k < 0 then 0 else len + k
  {
    if k < 0 then (if len + k < 0 then 0 else len + k)
    else if k < len then k else len
  }

  /** `s.slice(start, end)`. */
  function Slice<T>(s: seq<T>, start: int, end: int): (r: seq<T>)
    ensures var from, to := RelativeIndex(start, |s|), RelativeIndex(end, |s|);
      && |r| == (if from < to then to - from else 0)
      && forall i :: 0 <= i < |r| ==> r[i] == s[from + i]
  {
    var from, to := RelativeIndex(start, |s|), RelativeIndex(end, |s|);
    if from < to then s[from..to] else []
  }

  /** The slice `[(page - 1) * limit, (page - 1) * limit + limit)`. */
  function PageOf<T>(s: seq<T>, page: int, limit: int): (r: seq<T>)
    ensures |r| <= |s|
    ensures var from, to := RelativeIndex((page - 1) * limit, |s|), RelativeIndex((page - 1) * limit + limit, |s|);
      |r| == if from < to then to - from else 0
    ensures forall i :: 0 <= i < |r| ==>
      RelativeIndex((page - 1) * limit, |s|) + i < |s| && r[i] == s[RelativeIndex((page - 1) * limit, |s|) + i]
  {
    var start := (page - 1) * limit;
    Slice(s, start, start + limit)
  }

  /** A slice with `start <= end` is never longer than the sequence nor than
      `end - start`. */
  lemma SliceBounds<T>(s: seq<T>, start: int, end: int)
    requires start <= end
    ensures |Slice(s, start, end)| <= |s|
    ensures |Slice(s, start, end)| <= end - start
  {
  }

  /** With a non-negative `limit`, a page holds at most `limit` records and at
      most as many as the list. */
  lemma PageBounds<T>(s: seq<T>, page: int, limit: int)
    requires limit >= 0
    ensures |PageOf(s, page, limit)| <= |s|
    ensures |PageOf(s, page, limit)| <= limit
  {
    var start := (page - 1) * limit;
    SliceBounds(s, start, start + limit);
  }

  /** A negative `limit` on page 1 is a slice ending before the end of the list, so
      the page drops the last records instead of being empty. */
  lemma NegativeLimitPage<T>(a: T, b: T, c: T)
    ensures PageOf([a, b, c], 1, -1) == [a, b]
  {
  }

  /** In general, page 1 with limit `-k` is the list without its last `k` records,
      and empty only when `k` reaches the list's length. */
  lemma FirstPageNegativeLimit<T>(s: seq<T>, k: int)
    requires k > 0
    ensures PageOf(s, 1, -k) == if k < |s| then s[..|s| - k] else []
  {
    assert (1 - 1) * -k == 0;
  }

  /** The second page of one record out of three is the second record. */
  lemma SecondPageExample<T>(a: T, b: T, c: T)
    ensures PageOf([a, b, c], 2, 1) == [b]
  {
  }

  /** For `page >= 1` and `limit >= 0` the page is the window of the list starting
      at `(page - 1) * limit`, cut at the end of the list. */
  lemma PageWindow<T>(s: seq<T>, page: int, limit: int)
    requires page >= 1 && limit >= 0
    ensures var start := (page - 1) * limit;
      |PageOf(s, page, limit)| == (if start >= |s| then 0 else if start + limit <= |s| then limit else |s| - start) &&
      forall i :: 0 <= i < |PageOf(s, page, limit)| ==> PageOf(s, page, limit)[i] == s[start + i]
  {
    var start := (page - 1) * limit;
    NonNegativeProduct(page - 1, limit);
    assert PageOf(s, page, limit) == Slice(s, start, start + limit);
    Window(s, start, limit);
  }

  lemma NonNegativeProduct(a: int, b: int)
    requires a >= 0 && b >= 0
    ensures a * b >= 0
  {
  }

  /** The slice of `limit` records from a non-negative `start`. */
  lemma Window<T>(s: seq<T>, start: int, limit: int)
    requires start >= 0 && limit >= 0
    ensures var w := Slice(s, start, start + limit);
      && |w| == (if start >= |s| then 0 else if start + limit <= |s| then limit else |s| - start)
      && forall i :: 0 <= i < |w| ==> w[i] == s[start + i]
  {
  }

  // ------------------------------------------------------------------ getUsers

  /** The arguments of `getUsers`; an absent one takes its default. */
  datatype GetUsersParams = GetUsersParams(
    page: Option<int>,
    limit: Option<int>,
    filter: Option<string>,
    sortBy: Option<SortField>,
    sortOrder: Option<SortOrder>)

  /** A page of records and the number of records that passed the filter. */
  datatype UsersPage = UsersPage(users: seq<User>, total: int)

  /** `result` is a correct answer to the query: the page is a slice of some
      ordering of the matching records that is sorted by the field (equal values may
      come in any order), and `total` counts every matching record. */
  ghost predicate Answers(table: seq<User>, params: GetUsersParams, result: UsersPage) {
    var matching := Matching(table, params.filter);
    && result.total == |matching|
    && exists sorted ::
      && SortedBy(sorted, params.sortBy.GetOr(ByName), params.sortOrder.GetOr(Asc))
      && multiset(sorted) == multiset(matching)
      && result.users == PageOf(sorted, params.page.GetOr(1), params.limit.GetOr(20))
  }

  /** The success part of `getUsers`: filter, sort, slice. */
  method QueryUsers(table: seq<User>, params: GetUsersParams) returns (result: UsersPage)
    ensures Answers(table, params, result)
  {
    var matching := Matching(table, params.filter);
    var sorted := SortedCopy(matching, params.sortBy.GetOr(ByName), params.sortOrder.GetOr(Asc));
    result := UsersPage(PageOf(sorted, params.page.GetOr(1), params.limit.GetOr(20)), |sorted|);
    assert |multiset(sorted)| == |multiset(matching)|;
  }
}
