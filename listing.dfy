/** GET /api/events: the events whose name contains the search text, ordered
    by name or by date, cut to one page. */
module Listing {
  import opened JsValues
  import opened Text
  import opened Store

  /** The query string; each parameter is absent or the text given. */
  datatype ListQuery = ListQuery(search: Option<string>, sort: Option<string>, page: Option<string>, limit: Option<string>)

  datatype SortKey = ByName | ByDate

  /** Only the exact text "date" sorts by date; anything else sorts by name. */
  function SortKeyOf(sort: Option<string>): SortKey {
    if sort == Some("date") then ByDate else ByName
  }

  /** The text between the wildcards of the LIKE pattern: `%search%` for a
      truthy search, `%%` (which matches every name) otherwise. */
  function SearchText(search: Option<string>): string {
    if TruthyText(search) then search.value else ""
  }

  const DefaultPage := 1
  const DefaultLimit := 5

  function PageOf(q: ListQuery): int {
    ParseIntOr(q.page, DefaultPage)
  }

  function LimitOf(q: ListQuery): int {
    ParseIntOr(q.limit, DefaultLimit)
  }

  /** The order of `ORDER BY name` or `ORDER BY date`, ties allowed. */
  predicate Le(key: SortKey, a: Event, b: Event) {
    match key
    case ByName => StrLe(a.name, b.name)
    case ByDate => a.date <= b.date
  }

  predicate Sorted(key: SortKey, s: seq<Event>) {
    forall i, j :: 0 <= i < j < |s| ==> Le(key, s[i], s[j])
  }

  lemma LeTotal(key: SortKey, a: Event, b: Event)
    ensures Le(key, a, b) || Le(key, b, a)
  {
    if key == ByName { StrLeTotal(a.name, b.name); }
  }

  lemma LeTransitive(key: SortKey, a: Event, b: Event, c: Event)
    requires Le(key, a, b) && Le(key, b, c)
    ensures Le(key, a, c)
  {
    if key == ByName { StrLeTransitive(a.name, b.name, c.name); }
  }

  /** The rows of `events` whose name contains `p`, in table order. */
  function Filter(events: seq<Event>, p: string): (r: seq<Event>)
    ensures forall e :: multiset(r)[e] == if Contains(e.name, p) then multiset(events)[e] else 0
  {
    if events == [] then []
    else
      var rest := Filter(events[1..], p);
      assert events == [events[0]] + events[1..];
      if Contains(events[0].name, p) then [events[0]] + rest else rest
  }

  function Insert(key: SortKey, x: Event, s: seq<Event>): seq<Event> {
    if s == [] then [x]
    else if Le(key, x, s[0]) then [x] + s
    else [s[0]] + Insert(key, x, s[1..])
  }

  /** Insertion sort by the key. */
  function SortBy(key: SortKey, s: seq<Event>): seq<Event> {
    if s == [] then [] else Insert(key, s[0], SortBy(key, s[1..]))
  }

  lemma {:induction false} InsertPermutes(key: SortKey, x: Event, s: seq<Event>)
    ensures multiset(Insert(key, x, s)) == multiset(s) + multiset{x}
  {
    if s != [] && !Le(key, x, s[0]) {
      InsertPermutes(key, x, s[1..]);
      assert Insert(key, x, s) == [s[0]] + Insert(key, x, s[1..]);
      assert s == [s[0]] + s[1..];
    }
  }

  lemma {:induction false} InsertSorted(key: SortKey, x: Event, s: seq<Event>)
    requires Sorted(key, s)
    ensures Sorted(key, Insert(key, x, s))
  {
    if s == [] {
    } else if Le(key, x, s[0]) {
      PrependSorted(key, x, s);
    } else {
      LeTotal(key, x, s[0]);
      assert Sorted(key, s[1..]);
      InsertSorted(key, x, s[1..]);
      InsertPermutes(key, x, s[1..]);
      var rest := Insert(key, x, s[1..]);
      forall j | 0 <= j < |rest| ensures Le(key, s[0], rest[j]) {
        assert rest[j] in multiset(rest);
        if rest[j] != x {
          assert rest[j] in multiset(s[1..]);
          var n :| 0 <= n < |s[1..]| && s[1..][n] == rest[j];
          assert s[n + 1] == rest[j];
        }
      }
      PrependSorted(key, s[0], rest);
    }
  }

  /** A row no greater than the head of a sorted sequence can go in front. */
  lemma PrependSorted(key: SortKey, x: Event, s: seq<Event>)
    requires Sorted(key, s)
    requires s == [] || Le(key, x, s[0]) || forall j :: 0 <= j < |s| ==> Le(key, x, s[j])
    ensures Sorted(key, [x] + s)
  {
    var r := [x] + s;
    forall i, j | 0 <= i < j < |r| ensures Le(key, r[i], r[j]) {
      if i == 0 && j > 1 && Le(key, x, s[0]) { LeTransitive(key, x, s[0], s[j - 1]); }
    }
  }

  /** The sorted order is sorted, and holds the same rows. */
  lemma {:induction false} SortBySorted(key: SortKey, s: seq<Event>)
    ensures Sorted(key, SortBy(key, s))
    ensures multiset(SortBy(key, s)) == multiset(s)
  {
    if s != [] {
      SortBySorted(key, s[1..]);
      InsertSorted(key, s[0], SortBy(key, s[1..]));
      InsertPermutes(key, s[0], SortBy(key, s[1..]));
      assert s == [s[0]] + s[1..];
    }
  }

  /** `LIMIT limit OFFSET offset`. */
  function Window(s: seq<Event>, offset: nat, limit: nat): (r: seq<Event>)
    ensures |r| <= limit
    ensures forall i :: 0 <= i < |r| ==> offset + i < |s| && r[i] == s[offset + i]
  {
    var lo := if offset < |s| then offset else |s|;
    var hi := if offset + limit < |s| then offset + limit else |s|;
    s[lo..hi]
  }

  /** The offset of a page: (page - 1) * limit. */
  function Offset(page: nat, limit: nat): (n: nat)
    requires page >= 1
  {
    (page - 1) * limit
  }

  /** The matching rows in the order of the key. */
  function Matches(events: seq<Event>, p: string, key: SortKey): seq<Event> {
    SortBy(key, Filter(events, p))
  }

  /** One page of the matching rows: `WHERE name LIKE '%p%' ORDER BY key
      LIMIT limit OFFSET (page - 1) * limit`. */
  function Page(events: seq<Event>, p: string, key: SortKey, page: nat, limit: nat): seq<Event>
    requires page >= 1
  {
    Window(Matches(events, p, key), Offset(page, limit), limit)
  }

  /** The handler, for a page and a limit that are positive once parsed. */
  function ListEvents(events: seq<Event>, q: ListQuery): seq<Event>
    requires PageOf(q) >= 1 && LimitOf(q) >= 1
  {
    Page(events, SearchText(q.search), SortKeyOf(q.sort), PageOf(q), LimitOf(q))
  }

  /** The sort key is `date` only for exactly "date"; page and limit are the
      parsed numbers, falling back to 1 and 5 when absent, unparsable or zero;
      an absent or empty search matches every name. */
  lemma QueryDefaults(q: ListQuery)
    ensures SortKeyOf(q.sort) == ByDate <==> q.sort == Some("date")
    ensures q.page.None? || ParseInt(q.page.value) in {None, Some(0)} ==> PageOf(q) == 1
    ensures q.page.Some? && ParseInt(q.page.value).Some? && ParseInt(q.page.value).value != 0 ==>
      PageOf(q) == ParseInt(q.page.value).value
    ensures q.limit.None? || ParseInt(q.limit.value) in {None, Some(0)} ==> LimitOf(q) == 5
    ensures q.limit.Some? && ParseInt(q.limit.value).Some? && ParseInt(q.limit.value).value != 0 ==>
      LimitOf(q) == ParseInt(q.limit.value).value
    ensures !TruthyText(q.search) ==> forall e: Event :: Contains(e.name, SearchText(q.search))
  {
    ParseIntOrCases(q.page, DefaultPage);
    ParseIntOrCases(q.limit, DefaultLimit);
    forall e: Event ensures !TruthyText(q.search) ==> Contains(e.name, SearchText(q.search)) {
      EmptyPatternMatchesAll(e.name);
    }
  }

  /** A page holds at most `limit` rows; each is a row of the table whose
      name contains the search text, cancelled or not; they are in the order
      of the key; and they are the window [(page-1)*limit, (page-1)*limit +
      limit) of the matching rows sorted by the key, which hold each matching
      row as often as the table does. */
  lemma PageSpec(events: seq<Event>, p: string, key: SortKey, page: nat, limit: nat)
    requires page >= 1
    ensures var r := Page(events, p, key, page, limit);
      && |r| <= limit
      && (forall e :: e in r ==> e in events && Contains(e.name, p))
      && Sorted(key, r)
    ensures var m := Matches(events, p, key);
      && Sorted(key, m)
      && (forall e :: multiset(m)[e] == if Contains(e.name, p) then multiset(events)[e] else 0)
      && (forall i :: 0 <= i < |Page(events, p, key, page, limit)| ==>
            Offset(page, limit) + i < |m| && Page(events, p, key, page, limit)[i] == m[Offset(page, limit) + i])
  {
    var m := Matches(events, p, key);
    SortBySorted(key, Filter(events, p));
    WindowSorted(key, m, Offset(page, limit), limit);
    forall e | e in Page(events, p, key, page, limit) ensures e in events && Contains(e.name, p) {
      WindowMember(m, Offset(page, limit), limit, e);
      assert multiset(m)[e] > 0;
    }
  }

  lemma WindowSorted(key: SortKey, s: seq<Event>, offset: nat, limit: nat)
    requires Sorted(key, s)
    ensures Sorted(key, Window(s, offset, limit))
  {
    var r := Window(s, offset, limit);
    forall i, j | 0 <= i < j < |r| ensures Le(key, r[i], r[j]) {
      assert r[i] == s[offset + i] && r[j] == s[offset + j];
    }
  }

  lemma WindowMember(s: seq<Event>, offset: nat, limit: nat, e: Event)
    requires e in Window(s, offset, limit)
    ensures e in multiset(s)
  {
    var r := Window(s, offset, limit);
    var i :| 0 <= i < |r| && r[i] == e;
    assert s[offset + i] == e;
  }

  /** The same for the handler's query. */
  lemma ListEventsSpec(events: seq<Event>, q: ListQuery)
    requires PageOf(q) >= 1 && LimitOf(q) >= 1
    ensures var r := ListEvents(events, q);
      && |r| <= LimitOf(q)
      && (forall e :: e in r ==> e in events && Contains(e.name, SearchText(q.search)))
      && Sorted(SortKeyOf(q.sort), r)
  {
    PageSpec(events, SearchText(q.search), SortKeyOf(q.sort), PageOf(q), LimitOf(q));
  }

  /** The page holding the match at position j: j / limit + 1, the page
      whose window starts at or before j and ends after it. */
  function PageOfMatch(j: nat, limit: nat): (page: nat)
    requires limit >= 1
    ensures page >= 1 && Offset(page, limit) <= j < Offset(page, limit) + limit
  {
    j / limit + 1
  }

  /** Paging reaches every match: the match at position j of the sorted
      matches is on page `PageOfMatch(j, limit)`, at position j minus that
      page's offset. */
  lemma EveryMatchOnItsPage(events: seq<Event>, p: string, key: SortKey, limit: nat, j: nat)
    requires limit >= 1
    requires j < |Matches(events, p, key)|
    ensures var page := PageOfMatch(j, limit);
      var i := j - Offset(page, limit);
      i < |Page(events, p, key, page, limit)| && Page(events, p, key, page, limit)[i] == Matches(events, p, key)[j]
  {
    var page := PageOfMatch(j, limit);
    PageAt(events, p, key, page, limit, j - Offset(page, limit));
  }

  /** Position i of a page is the match at the page's offset plus i. */
  lemma PageAt(events: seq<Event>, p: string, key: SortKey, page: nat, limit: nat, i: nat)
    requires page >= 1 && i < limit
    requires Offset(page, limit) + i < |Matches(events, p, key)|
    ensures i < |Page(events, p, key, page, limit)|
    ensures Page(events, p, key, page, limit)[i] == Matches(events, p, key)[Offset(page, limit) + i]
  {
    WindowAt(Matches(events, p, key), Offset(page, limit), limit, i);
  }

  lemma WindowAt(s: seq<Event>, offset: nat, limit: nat, i: nat)
    requires offset + i < |s| && i < limit
    ensures i < |Window(s, offset, limit)| && Window(s, offset, limit)[i] == s[offset + i]
  {
  }
}
