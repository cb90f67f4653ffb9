/** The permission check and the filter-to-query-string builder the views use. */
module Helpers {
  import opened Wrappers
  import opened Sequences
  import opened UriComponent
  import Utf8
  import FormUrlencoded
  import QueryRoundTrip
  import UserQuery
  import Auth
  import ApiTypes

  // -------------------------------------------------------- useHasPermission

  /** The argument of `useHasPermission`: one permission name or a list of them. */
  datatype PermissionQuery = Single(permission: string) | AnyOf(permissions: seq<string>)

  /** What reading a property of the absent snapshot throws. */
  const NoSnapshot := "Cannot read properties of null (reading 'permissions')"
  /** What calling `includes` on absent permissions throws. */
  const NoPermissions := "Cannot read properties of null (reading 'includes')"

  /** `useHasPermission(query)` against the store's persisted snapshot `data`: a
      single name must be held, a list needs one held member. Absent data, or absent
      permissions that the check has to consult, throw. */
  function HasPermission(data: Option<Auth.Snapshot>, query: PermissionQuery): (r: Result<bool>)
    ensures data.None? ==> r == Failure(NoSnapshot)
    ensures data.Some? && data.value.permissions.Some? ==>
      r.Success? && (r.value <==>
        match query
        case Single(p) => p in data.value.permissions.value
        case AnyOf(ps) => exists p :: p in ps && p in data.value.permissions.value)
    ensures data.Some? && data.value.permissions.None? ==>
      r == if query == AnyOf([]) then Success(false) else Failure(NoPermissions)
  {
    match data
    case None => Failure(NoSnapshot)
    case Some(snapshot) =>
      match snapshot.permissions
      case None =>
        // `some` on an empty list never calls its callback
        if query == AnyOf([]) then Success(false) else Failure(NoPermissions)
      case Some(held) =>
        match query
        case Single(p) => Success(p in held)
        case AnyOf(ps) => Success(SomeIn(ps, held))
  }

  /** A one-element list asks the same as the name alone, errors included. */
  lemma SingletonListIsSingle(data: Option<Auth.Snapshot>, p: string)
    ensures HasPermission(data, AnyOf([p])) == HasPermission(data, Single(p))
  {
    if data.Some? && data.value.permissions.Some? {
      assert p in [p];
    }
  }

  /** The empty list is never satisfied. */
  lemma EmptyListIsFalse(data: Option<Auth.Snapshot>)
    requires data.Some?
    ensures HasPermission(data, AnyOf([])) == Success(false)
  {
  }

  /** Holding more permissions never turns a granted check into a refusal. */
  lemma HasPermissionMonotone(snapshot: Auth.Snapshot, more: seq<string>, query: PermissionQuery)
    requires snapshot.permissions.Some?
    requires forall p :: p in snapshot.permissions.value ==> p in more
    ensures HasPermission(Some(snapshot), query) == Success(true) ==>
      HasPermission(Some(snapshot.(permissions := Some(more))), query) == Success(true)
  {
  }

  // ------------------------------------------------- useFiltersToQueryParams

  /** The entries of the filter record with a non-empty value, in entry order. */
  function KeepNonEmpty(filters: seq<(string, string)>): (r: seq<(string, string)>)
    ensures |r| <= |filters|
    ensures forall e :: e in r <==> e in filters && e.1 != ""
  {
    if filters == [] then []
    else
      var rest := KeepNonEmpty(filters[1..]);
      assert forall e :: e in filters <==> e == filters[0] || e in filters[1..];
      if filters[0].1 != "" then [filters[0]] + rest else rest
  }

  /** Filtering distributes over concatenation, so the surviving entries keep their
      relative order. */
  lemma {:induction false} KeepNonEmptyAppend(a: seq<(string, string)>, b: seq<(string, string)>)
    ensures KeepNonEmpty(a + b) == KeepNonEmpty(a) + KeepNonEmpty(b)
  {
    if a == [] {
      assert a + b == b;
    } else {
      assert (a + b)[0] == a[0] && (a + b)[1..] == a[1..] + b;
      KeepNonEmptyAppend(a[1..], b);
    }
  }

  /** `encodeURIComponent(key)=encodeURIComponent(value)`. */
  function EncodeEntry(e: (string, string)): (r: string)
    ensures forall i :: 0 <= i < |r| ==> EncodedChar(r[i]) || r[i] == '='
    ensures '=' in r
  {
    var k, v := EncodeUriComponent(e.0), EncodeUriComponent(e.1);
    assert (k + "=" + v)[|k|] == '=';
    k + "=" + v
  }

  /** `useFiltersToQueryParams(filters)`, the record given as its entry list. */
  function FiltersToQueryParams(filters: seq<(string, string)>): (r: string)
    ensures forall i :: 0 <= i < |r| ==> EncodedChar(r[i]) || r[i] == '=' || r[i] == '&'
  {
    var parts := Map(EncodeEntry, KeepNonEmpty(filters));
    var query := JoinWith(parts, '&');
    assert forall i :: 0 <= i < |query| ==> EncodedChar(query[i]) || query[i] == '=' || query[i] == '&' by {
      forall i | 0 <= i < |query|
        ensures EncodedChar(query[i]) || query[i] == '=' || query[i] == '&'
      {
        JoinElements(parts, '&', query[i]);
        if query[i] != '&' {
          var k :| 0 <= k < |parts| && query[i] in parts[k];
          var j :| 0 <= j < |parts[k]| && parts[k][j] == query[i];
        }
      }
    }
    query
  }

  /** The UTF-8 bytes of a joined list are the joined bytes of its items. */
  lemma {:induction false} EncodeJoin(parts: seq<string>, sep: char, b: Utf8.Byte)
    requires Utf8.Encode([sep]) == [b]
    ensures Utf8.Encode(JoinWith(parts, sep)) == JoinWith<Utf8.Byte>(Map(Utf8.Encode, parts), b)
  {
    var bparts := Map(Utf8.Encode, parts);
    if |parts| > 1 {
      var rest := JoinWith(parts[1..], sep);
      EncodeJoin(parts[1..], sep, b);
      Utf8.EncodeAppend(parts[0] + [sep], rest);
      Utf8.EncodeAppend(parts[0], [sep]);
      assert bparts[1..] == Map(Utf8.Encode, parts[1..]);
    }
  }

  /** The parser reads each encoded entry back as the entry. */
  lemma {:induction false} PiecesRoundTrip(entries: seq<(string, string)>)
    ensures FormUrlencoded.ParsePieces(Map(Utf8.Encode, Map(EncodeEntry, entries))) == entries
  {
    var pieces := Map(Utf8.Encode, Map(EncodeEntry, entries));
    if entries != [] {
      var e := entries[0];
      QueryRoundTrip.PieceRoundTrip(e.0, e.1);
      EntryBytes(e);
      assert pieces[0] == Utf8.Encode(EncodeEntry(e));
      assert pieces[1..] == Map(Utf8.Encode, Map(EncodeEntry, entries[1..]));
      PiecesRoundTrip(entries[1..]);
    }
  }

  /** The query string does not start with `?`, so the parser reads all of it. */
  lemma ParseReadsAll(filters: seq<(string, string)>)
    ensures FormUrlencoded.Parse(FiltersToQueryParams(filters)) ==
      FormUrlencoded.ParseBytes(Utf8.Encode(FiltersToQueryParams(filters)))
  {
    var query := FiltersToQueryParams(filters);
    if |query| > 0 {
      assert query[0] != '?';
    }
  }

  /** The bytes of the query string split on `&` into the encoded entries. */
  lemma QueryPieces(entries: seq<(string, string)>)
    requires entries != []
    ensures SplitOn(Utf8.Encode(JoinWith(Map(EncodeEntry, entries), '&')), FormUrlencoded.Ampersand) ==
      Map(Utf8.Encode, Map(EncodeEntry, entries))
  {
    var parts := Map(EncodeEntry, entries);
    assert Utf8.Encode("&") == [FormUrlencoded.Ampersand];
    EncodeJoin(parts, '&', FormUrlencoded.Ampersand);
    var pieces := Map(Utf8.Encode, parts);
    forall i | 0 <= i < |pieces|
      ensures FormUrlencoded.Ampersand !in pieces[i]
    {
      assert pieces[i] == Utf8.Encode(EncodeEntry(entries[i]));
      EntryBytes(entries[i]);
    }
    SplitJoin(pieces, FormUrlencoded.Ampersand);
  }

  /** The bytes of an encoded entry: not empty, and no `&` among them. */
  lemma EntryBytes(e: (string, string))
    ensures Utf8.Encode(EncodeEntry(e)) != []
    ensures FormUrlencoded.Ampersand !in Utf8.Encode(EncodeEntry(e))
  {
    QueryRoundTrip.EncodedTextBytes(EncodeEntry(e));
  }

  /** Parsing the query string as the service does gives back exactly the entries
      with a non-empty value, in order. */
  lemma FiltersRoundTrip(filters: seq<(string, string)>)
    ensures FormUrlencoded.Parse(FiltersToQueryParams(filters)) == KeepNonEmpty(filters)
  {
    var kept := KeepNonEmpty(filters);
    ParseReadsAll(filters);
    if kept == [] {
      assert FiltersToQueryParams(filters) == [];
      assert FormUrlencoded.ParseBytes(Utf8.Encode([])) == FormUrlencoded.ParsePieces([[]]) == [];
    } else {
      QueryPieces(kept);
      PiecesRoundTrip(kept);
    }
  }

  /** A query string built from the filters selects the records that pass every
      non-empty filter entry. */
  lemma FiltersSelect(table: seq<ApiTypes.User>, filters: seq<(string, string)>)
    ensures UserQuery.Matching(table, Some(FiltersToQueryParams(filters))) ==
      UserQuery.FilterUsers(table, KeepNonEmpty(filters))
  {
    FiltersRoundTrip(filters);
    if FiltersToQueryParams(filters) == "" {
      UserQuery.FilterNoEntries(table);
      assert FormUrlencoded.Parse("") == [];
    }
  }

  /** Lower-case ASCII words are their own encoding. */
  lemma LowerWord(w: string)
    requires forall i :: 0 <= i < |w| ==> 'a' <= w[i] <= 'z'
    ensures EncodeUriComponent(w) == w
  {
    EncodeUnreserved(w);
  }

  /** An entry of lower-case words is written `k=v`. */
  lemma PlainEntry(k: string, v: string)
    requires forall i :: 0 <= i < |k| ==> 'a' <= k[i] <= 'z'
    requires forall i :: 0 <= i < |v| ==> 'a' <= v[i] <= 'z'
    ensures EncodeEntry((k, v)) == k + "=" + v
  {
    LowerWord(k);
    LowerWord(v);
  }

  /** Two entries with non-empty values are both kept; an empty second value is
      dropped. */
  lemma KeepPair(first: (string, string), second: (string, string))
    requires first.1 != ""
    ensures second.1 != "" ==> KeepNonEmpty([first, second]) == [first, second]
    ensures second.1 == "" ==> KeepNonEmpty([first, second]) == [first]
  {
    assert [first, second][1..] == [second];
  }

  /** Entries of lower-case words are written as `k=v` and joined with `&`; an entry
      with an empty value is dropped. */
  lemma PlainQuery(k1: string, v1: string, k2: string, v2: string)
    requires forall i :: 0 <= i < |k1| ==> 'a' <= k1[i] <= 'z'
    requires forall i :: 0 <= i < |v1| ==> 'a' <= v1[i] <= 'z'
    requires forall i :: 0 <= i < |k2| ==> 'a' <= k2[i] <= 'z'
    requires forall i :: 0 <= i < |v2| ==> 'a' <= v2[i] <= 'z'
    requires v1 != ""
    ensures FiltersToQueryParams([(k1, v1), (k2, v2)]) ==
      if v2 == "" then k1 + "=" + v1 else k1 + "=" + v1 + "&" + k2 + "=" + v2
  {
    var first, second := (k1, v1), (k2, v2);
    PlainEntry(k1, v1);
    KeepPair(first, second);
    if v2 == "" {
      assert Map(EncodeEntry, [first]) == [k1 + "=" + v1];
    } else {
      PlainEntry(k2, v2);
      var parts := Map(EncodeEntry, [first, second]);
      assert parts == [k1 + "=" + v1, k2 + "=" + v2];
      assert parts[1..] == [k2 + "=" + v2];
      assert JoinWith(parts[1..], '&') == k2 + "=" + v2;
      assert JoinWith(parts, '&') == (k1 + "=" + v1) + "&" + (k2 + "=" + v2);
    }
  }
}
