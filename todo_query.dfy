/** The two paged read queries of the todo repository (`findAllTodo` and
    `searchTodos`), over the tables as values: the optional conditions, the
    sort resolved from the request, the offset/limit window, the parallel
    thumb-up count query zipped onto the rows, and the page built from them. */
module TodoQuery {
  import opened Wrappers
  import opened Text
  import opened UserModel
  import opened TodoModel
  import opened Schema
  import opened Responses

  /** `minusDays` on the integer-second clock of this model. */
  const SecondsPerDay: int := 86400

  function Min(a: int, b: int): int { if a <= b then a else b }

  // ------------------------------------------------------------ the request

  datatype Direction = Asc | Desc
  datatype Order = Order(property: string, direction: Direction)

  /** Spring's page request refuses a size below one. */
  type PageSize = n: int | n >= 1 witness 1

  /** Page number, page size and the requested sort (empty: unsorted). */
  datatype Pageable = Pageable(pageNumber: nat, pageSize: PageSize, sort: seq<Order>)

  function Offset(p: Pageable): nat { p.pageNumber * p.pageSize }

  // ------------------------------------------------------------ sort resolution

  datatype SortKey = CreatedAt | Title
  datatype OrderSpecifier = OrderSpecifier(key: SortKey, ascending: bool)

  /** The default order of both queries: newest first. */
  const NewestFirst := OrderSpecifier(CreatedAt, false)

  /** Only the first requested order is looked at; only `createdAt` and
      `title` are accepted, anything else (or nothing) means newest first. */
  function ResolveSort(sort: seq<Order>): (o: OrderSpecifier)
    ensures o.key == Title <==> |sort| > 0 && sort[0].property == "title"
    ensures o.ascending <==>
      |sort| > 0 && (sort[0].property == "createdAt" || sort[0].property == "title") && sort[0].direction == Asc
  {
    if |sort| == 0 then NewestFirst
    else if sort[0].property == "createdAt" then OrderSpecifier(CreatedAt, sort[0].direction == Asc)
    else if sort[0].property == "title" then OrderSpecifier(Title, sort[0].direction == Asc)
    else NewestFirst
  }

  // ------------------------------------------------------------ conditions

  /** One `where` condition; `CreatedAfter` holds the instant to compare with. */
  datatype Condition =
    | TitleContains(title: string)
    | NameEq(name: string)
    | IsCompletedEq(isCompleted: bool)
    | CreatedAfter(instant: int)

  // Each helper yields no condition for an absent parameter, and `where`
  // ignores absent conditions.
  function TitleContainsCondition(title: Option<string>): Option<Condition> {
    if title.Some? then Some(TitleContains(title.value)) else None
  }

  function NameEqCondition(name: Option<string>): Option<Condition> {
    if name.Some? then Some(NameEq(name.value)) else None
  }

  function IsCompletedEqCondition(isCompleted: Option<bool>): Option<Condition> {
    if isCompleted.Some? then Some(IsCompletedEq(isCompleted.value)) else None
  }

  function CreatedAfterCondition(daysAgo: Option<int>, now: int): Option<Condition> {
    if daysAgo.Some? then Some(CreatedAfter(now - daysAgo.value * SecondsPerDay)) else None
  }

  function SearchConditions(title: Option<string>, name: Option<string>, isCompleted: Option<bool>,
                            daysAgo: Option<int>, now: int): seq<Option<Condition>> {
    [TitleContainsCondition(title), NameEqCondition(name),
     IsCompletedEqCondition(isCompleted), CreatedAfterCondition(daysAgo, now)]
  }

  /** A condition on a todo row; the name is the owner's, reached through the
      owner join (a row whose owner is missing has no name to match). */
  predicate Holds(users: seq<UserRow>, c: Condition, r: TodoRow) {
    match c
    case TitleContains(x) => ContainsIgnoreCase(r.title, x)
    case NameEq(n) => FindUser(users, r.userId).Some? && FindUser(users, r.userId).value.name == n
    case IsCompletedEq(b) => r.isCompleted == b
    case CreatedAfter(instant) => r.createdAt > instant
  }

  predicate MatchesAll(users: seq<UserRow>, conds: seq<Option<Condition>>, r: TodoRow) {
    forall i :: 0 <= i < |conds| && conds[i].Some? ==> Holds(users, conds[i].value, r)
  }

  /** The rows `from(todo).where(conds)` selects, in table order. */
  function Where(t: Tables, conds: seq<Option<Condition>>): seq<TodoRow> {
    Filter(t.todos, (r: TodoRow) => MatchesAll(t.users, conds, r))
  }

  /** A row is selected exactly when it is stored and meets each condition
      that was given. */
  lemma SearchSelects(t: Tables, title: Option<string>, name: Option<string>, isCompleted: Option<bool>,
                      daysAgo: Option<int>, now: int, r: TodoRow)
    ensures r in Where(t, SearchConditions(title, name, isCompleted, daysAgo, now)) <==>
      && r in t.todos
      && (title.Some? ==> ContainsIgnoreCase(r.title, title.value))
      && (name.Some? ==> FindUser(t.users, r.userId).Some? && FindUser(t.users, r.userId).value.name == name.value)
      && (isCompleted.Some? ==> r.isCompleted == isCompleted.value)
      && (daysAgo.Some? ==> r.createdAt > now - daysAgo.value * SecondsPerDay)
  {
    var conds := SearchConditions(title, name, isCompleted, daysAgo, now);
    if MatchesAll(t.users, conds, r) {
      assert conds[0].Some? ==> Holds(t.users, conds[0].value, r);
      assert conds[1].Some? ==> Holds(t.users, conds[1].value, r);
      assert conds[2].Some? ==> Holds(t.users, conds[2].value, r);
      assert conds[3].Some? ==> Holds(t.users, conds[3].value, r);
    }
  }

  /** Without any condition every stored todo is selected, in table order. */
  lemma NoConditionsSelectAll(t: Tables, now: int)
    ensures Where(t, SearchConditions(None, None, None, None, now)) == t.todos
  {
    var conds := SearchConditions(None, None, None, None, now);
    FilterKeepsAll(t.todos, (r: TodoRow) => MatchesAll(t.users, conds, r));
  }

  // ------------------------------------------------------------ ordering

  /** Strictly smaller sort key. */
  predicate KeyLess(a: TodoRow, b: TodoRow, key: SortKey) {
    match key
    case CreatedAt => a.createdAt < b.createdAt
    case Title => StringLess(a.title, b.title)
  }

  predicate KeyEq(a: TodoRow, b: TodoRow, key: SortKey) {
    match key
    case CreatedAt => a.createdAt == b.createdAt
    case Title => a.title == b.title
  }

  /** `a` is listed before `b`: by the sort key in the requested direction,
      rows with equal keys by ascending id. */
  predicate Before(a: TodoRow, b: TodoRow, o: OrderSpecifier) {
    (if o.ascending then KeyLess(a, b, o.key) else KeyLess(b, a, o.key))
    || (KeyEq(a, b, o.key) && a.id < b.id)
  }

  /** No row is listed after a row it should precede. */
  predicate SortedBy(s: seq<TodoRow>, o: OrderSpecifier) {
    forall i, j :: 0 <= i < j < |s| ==> !Before(s[j], s[i], o)
  }

  lemma KeyLessTransitive(a: TodoRow, b: TodoRow, c: TodoRow, key: SortKey)
    requires KeyLess(a, b, key) && KeyLess(b, c, key)
    ensures KeyLess(a, c, key)
  {
    if key == Title { StringLessTransitive(a.title, b.title, c.title); }
  }

  /** Keys are totally ordered, and the three outcomes exclude each other. */
  lemma KeyTrichotomy(a: TodoRow, b: TodoRow, key: SortKey)
    ensures KeyLess(a, b, key) || KeyEq(a, b, key) || KeyLess(b, a, key)
    ensures !(KeyLess(a, b, key) && KeyEq(a, b, key))
    ensures !(KeyLess(a, b, key) && KeyLess(b, a, key))
  {
    if key == Title {
      StringLessTotal(a.title, b.title);
      StringLessIrreflexive(a.title);
      if StringLess(a.title, b.title) && StringLess(b.title, a.title) {
        StringLessTransitive(a.title, b.title, a.title);
      }
    }
  }

  lemma BeforeAsymmetric(a: TodoRow, b: TodoRow, o: OrderSpecifier)
    requires Before(a, b, o)
    ensures !Before(b, a, o)
  {
    KeyTrichotomy(a, b, o.key);
  }

  /** "Not listed before" is transitive. */
  lemma BeforeNegativelyTransitive(a: TodoRow, b: TodoRow, c: TodoRow, o: OrderSpecifier)
    requires !Before(b, a, o) && !Before(c, b, o)
    ensures !Before(c, a, o)
  {
    KeyTrichotomy(a, b, o.key);
    KeyTrichotomy(b, c, o.key);
    KeyTrichotomy(a, c, o.key);
    if KeyLess(a, b, o.key) && KeyLess(b, c, o.key) { KeyLessTransitive(a, b, c, o.key); }
    if KeyLess(c, b, o.key) && KeyLess(b, a, o.key) { KeyLessTransitive(c, b, a, o.key); }
  }

  /** Inserts `x` in front of the first row it is not listed after. */
  function Insert(x: TodoRow, s: seq<TodoRow>, o: OrderSpecifier): (r: seq<TodoRow>)
    ensures multiset(r) == multiset(s) + multiset{x}
  {
    if |s| == 0 then [x]
    else if Before(s[0], x, o) then
      assert s == [s[0]] + s[1..];
      [s[0]] + Insert(x, s[1..], o)
    else [x] + s
  }

  /** `orderBy(o)`, as an insertion sort. */
  function SortRows(s: seq<TodoRow>, o: OrderSpecifier): (r: seq<TodoRow>)
    ensures multiset(r) == multiset(s)
  {
    if |s| == 0 then []
    else
      assert s == [s[0]] + s[1..];
      Insert(s[0], SortRows(s[1..], o), o)
  }

  lemma {:induction false} InsertSorted(x: TodoRow, s: seq<TodoRow>, o: OrderSpecifier)
    requires SortedBy(s, o)
    ensures SortedBy(Insert(x, s, o), o)
  {
    if |s| > 0 {
      var r := Insert(x, s, o);
      if Before(s[0], x, o) {
        var tail := Insert(x, s[1..], o);
        InsertSorted(x, s[1..], o);
        BeforeAsymmetric(s[0], x, o);
        assert r == [s[0]] + tail;
        forall i, j | 0 <= i < j < |r| ensures !Before(r[j], r[i], o) {
          if i == 0 {
            assert r[j] == tail[j - 1];
            assert r[j] in multiset(tail);
            if r[j] != x {
              assert r[j] in multiset(s[1..]);
              var m :| 0 <= m < |s[1..]| && s[1..][m] == r[j];
              assert s[m + 1] == r[j];
            }
          } else {
            assert r[i] == tail[i - 1] && r[j] == tail[j - 1];
          }
        }
      } else {
        assert r == [x] + s;
        forall i, j | 0 <= i < j < |r| ensures !Before(r[j], r[i], o) {
          if i == 0 {
            assert r[j] == s[j - 1];
            if j > 1 { BeforeNegativelyTransitive(x, s[0], s[j - 1], o); }
          } else {
            assert r[i] == s[i - 1] && r[j] == s[j - 1];
          }
        }
      }
    }
  }

  lemma {:induction false} SortRowsSorted(s: seq<TodoRow>, o: OrderSpecifier)
    ensures SortedBy(SortRows(s, o), o)
  {
    if |s| > 0 {
      SortRowsSorted(s[1..], o);
      InsertSorted(s[0], SortRows(s[1..], o), o);
    }
  }

  // ------------------------------------------------------------ window, counts, zip

  /** `offset(offset).limit(limit)` */
  function Window<T>(s: seq<T>, offset: nat, limit: nat): (w: seq<T>)
    ensures |w| == if offset >= |s| then 0 else Min(limit, |s| - offset)
    ensures forall i :: 0 <= i < |w| ==> w[i] == s[offset + i]
  {
    if offset >= |s| then [] else s[offset..Min(offset + limit, |s|)]
  }

  /** The count query: per listed todo, the thumb-ups the left join finds. */
  function ThumbUpCounts(thumbUps: seq<ThumbUp>, rows: seq<TodoRow>): seq<nat> {
    seq(|rows|, i requires 0 <= i < |rows| => CountByTodoId(thumbUps, rows[i].id))
  }

  /** `todoList.zip(countList) { a, b -> TodoResponse.from(a, b) }`: pairs
      by position and stops at the shorter list. */
  function Zip(t: Tables, rows: seq<TodoRow>, counts: seq<nat>): (r: seq<TodoResponse>)
    ensures |r| == Min(|rows|, |counts|)
    ensures forall i :: 0 <= i < |r| ==> r[i] == TodoResponseFrom(t, rows[i], counts[i])
  {
    if |rows| == 0 || |counts| == 0 then []
    else [TodoResponseFrom(t, rows[0], counts[0])] + Zip(t, rows[1..], counts[1..])
  }

  // ------------------------------------------------------------ the page

  datatype Page<T> = Page(content: seq<T>, number: nat, size: PageSize, totalElements: nat)

  /** Spring's `PageImpl(content, pageable, total)`: when the content is not
      empty and the page reaches past `total`, the total is recomputed as the
      offset plus the content size. */
  function PageOf<T>(content: seq<T>, p: Pageable, total: nat): Page<T> {
    var adjusted := if |content| > 0 && Offset(p) + p.pageSize > total then Offset(p) + |content| else total;
    Page(content, p.pageNumber, p.pageSize, adjusted)
  }

  /** The number of pages: the total divided by the size, rounded up. */
  function TotalPages<T>(page: Page<T>): nat {
    (page.totalElements + page.size - 1) / page.size
  }

  predicate IsLast<T>(page: Page<T>) {
    !(page.number + 1 < TotalPages(page))
  }

  lemma MulMonotone(a: nat, b: nat, s: nat)
    requires a <= b
    ensures a * s <= b * s
  {}

  /** A page is the last one exactly when it reaches the total. */
  lemma IsLastIff<T>(page: Page<T>)
    ensures IsLast(page) <==> (page.number + 1) * page.size >= page.totalElements
  {
    var n, s, total := page.number + 1, page.size, page.totalElements;
    var q := (total + s - 1) / s;
    assert q * s <= total + s - 1 < (q + 1) * s;
    if n * s < total {
      assert (n + 1) * s == n * s + s;
      if q <= n { MulMonotone(q + 1, n + 1, s); }
    } else if n < q {
      assert (n + 1) * s == n * s + s;
      MulMonotone(n + 1, q, s);
    }
  }

  // ------------------------------------------------------------ the queries

  /** `searchTodos(pageable, title, name, isCompleted, daysAgo)`: the count,
      the row query and the count query share the conditions, the order and
      the window. */
  function SearchTodos(t: Tables, p: Pageable, title: Option<string>, name: Option<string>,
                       isCompleted: Option<bool>, daysAgo: Option<int>, now: int): Page<TodoResponse> {
    var conds := SearchConditions(title, name, isCompleted, daysAgo, now);
    var totalCount := |Where(t, conds)|;
    var sort := ResolveSort(p.sort);
    var todoList := Window(SortRows(Where(t, conds), sort), Offset(p), p.pageSize);
    var countList := ThumbUpCounts(t.thumbUps, Window(SortRows(Where(t, conds), sort), Offset(p), p.pageSize));
    PageOf(Zip(t, todoList, countList), p, totalCount)
  }

  /** `findAllTodo(pageable)`: every todo, newest first; the requested sort
      is not consulted. */
  function FindAllTodo(t: Tables, p: Pageable): Page<TodoResponse> {
    var totalCount := |t.todos|;
    var todoList := Window(SortRows(t.todos, NewestFirst), Offset(p), p.pageSize);
    var countList := ThumbUpCounts(t.thumbUps, Window(SortRows(t.todos, NewestFirst), Offset(p), p.pageSize));
    PageOf(Zip(t, todoList, countList), p, totalCount)
  }

  // ------------------------------------------------------------ what a page holds

  /** The rows a query lists, in listing order, before the window. */
  function Listed(t: Tables, conds: seq<Option<Condition>>, o: OrderSpecifier): seq<TodoRow> {
    SortRows(Where(t, conds), o)
  }

  /** The window of `rows`, zipped with its counts, is the window of the
      responses: each row with its own thumb-up count. */
  lemma ZippedWindow(t: Tables, rows: seq<TodoRow>, offset: nat, size: nat)
    ensures var w := Window(rows, offset, size);
            var z := Zip(t, w, ThumbUpCounts(t.thumbUps, w));
      && |z| == |w|
      && forall i :: 0 <= i < |z| ==>
           z[i] == TodoResponseFrom(t, rows[offset + i], CountByTodoId(t.thumbUps, rows[offset + i].id))
  {
    var w := Window(rows, offset, size);
    var counts := ThumbUpCounts(t.thumbUps, w);
    assert |counts| == |w|;
    var z := Zip(t, w, counts);
    forall i | 0 <= i < |z|
      ensures z[i] == TodoResponseFrom(t, rows[offset + i], CountByTodoId(t.thumbUps, rows[offset + i].id))
    {
      assert w[i] == rows[offset + i] && counts[i] == CountByTodoId(t.thumbUps, w[i].id);
    }
  }

  /** A page whose content is no longer than what is left after its offset
      keeps the total it was given. */
  lemma PageOfKeepsTotal<T>(content: seq<T>, p: Pageable, total: nat)
    requires |content| == (if Offset(p) >= total then 0 else Min(p.pageSize, total - Offset(p)))
    ensures PageOf(content, p, total) == Page(content, p.pageNumber, p.pageSize, total)
  {
  }

  /** The page built from a window of `rows` against the total `|rows|`:
      the total stands, and the content is the window of the responses. */
  lemma WindowPage(t: Tables, rows: seq<TodoRow>, p: Pageable)
    ensures var w := Window(rows, Offset(p), p.pageSize);
            var page := PageOf(Zip(t, w, ThumbUpCounts(t.thumbUps, w)), p, |rows|);
      && page.totalElements == |rows|
      && page.number == p.pageNumber
      && |page.content| == (if Offset(p) >= |rows| then 0 else Min(p.pageSize, |rows| - Offset(p)))
      && forall i :: 0 <= i < |page.content| ==>
           page.content[i] == TodoResponseFrom(t, rows[Offset(p) + i], CountByTodoId(t.thumbUps, rows[Offset(p) + i].id))
  {
    var off := Offset(p);
    var w := Window(rows, off, p.pageSize);
    var z := Zip(t, w, ThumbUpCounts(t.thumbUps, w));
    ZippedWindow(t, rows, off, p.pageSize);
    assert |z| == (if off >= |rows| then 0 else Min(p.pageSize, |rows| - off));
    PageOfKeepsTotal(z, p, |rows|);
    assert PageOf(z, p, |rows|).content == z;
  }

  /** A search page holds the window of the selected rows in the resolved
      order, each with its own thumb-up count; its total is the number of
      selected rows, whatever the page number. */
  lemma SearchTodosPage(t: Tables, p: Pageable, title: Option<string>, name: Option<string>,
                        isCompleted: Option<bool>, daysAgo: Option<int>, now: int)
    ensures var page := SearchTodos(t, p, title, name, isCompleted, daysAgo, now);
            var rows := Listed(t, SearchConditions(title, name, isCompleted, daysAgo, now), ResolveSort(p.sort));
      && page.totalElements == |Where(t, SearchConditions(title, name, isCompleted, daysAgo, now))|
      && page.number == p.pageNumber
      && |page.content| == (if Offset(p) >= |rows| then 0 else Min(p.pageSize, |rows| - Offset(p)))
      && forall i :: 0 <= i < |page.content| ==>
           page.content[i] == TodoResponseFrom(t, rows[Offset(p) + i], CountByTodoId(t.thumbUps, rows[Offset(p) + i].id))
  {
    var conds := SearchConditions(title, name, isCompleted, daysAgo, now);
    var rows := Listed(t, conds, ResolveSort(p.sort));
    assert |multiset(rows)| == |multiset(Where(t, conds))|;
    WindowPage(t, rows, p);
  }

  /** The same for `findAllTodo`, over every todo, newest first. */
  lemma FindAllTodoPage(t: Tables, p: Pageable)
    ensures var page := FindAllTodo(t, p);
            var rows := SortRows(t.todos, NewestFirst);
      && page.totalElements == |t.todos|
      && page.number == p.pageNumber
      && |page.content| == (if Offset(p) >= |rows| then 0 else Min(p.pageSize, |rows| - Offset(p)))
      && forall i :: 0 <= i < |page.content| ==>
           page.content[i] == TodoResponseFrom(t, rows[Offset(p) + i], CountByTodoId(t.thumbUps, rows[Offset(p) + i].id))
  {
    var rows := SortRows(t.todos, NewestFirst);
    assert |multiset(rows)| == |multiset(t.todos)|;
    WindowPage(t, rows, p);
  }

  /** `findAllTodo` is the search with no condition and no requested sort. */
  lemma FindAllTodoIsUnfilteredSearch(t: Tables, p: Pageable, now: int)
    ensures FindAllTodo(t, p) == SearchTodos(t, p.(sort := []), None, None, None, None, now)
  {
    NoConditionsSelectAll(t, now);
  }

  /** Listed rows come in the resolved order: by creation time or by title,
      ascending or descending as requested. */
  lemma {:induction false} SearchTodosOrdered(t: Tables, p: Pageable, title: Option<string>, name: Option<string>,
                                              isCompleted: Option<bool>, daysAgo: Option<int>, now: int)
    ensures var c := SearchTodos(t, p, title, name, isCompleted, daysAgo, now).content;
            var o := ResolveSort(p.sort);
      forall i, j :: 0 <= i < j < |c| ==>
        && (o == OrderSpecifier(CreatedAt, false) ==> c[i].createdAt >= c[j].createdAt)
        && (o == OrderSpecifier(CreatedAt, true) ==> c[i].createdAt <= c[j].createdAt)
        && (o == OrderSpecifier(Title, false) ==> !StringLess(c[i].title, c[j].title))
        && (o == OrderSpecifier(Title, true) ==> !StringLess(c[j].title, c[i].title))
  {
    var conds := SearchConditions(title, name, isCompleted, daysAgo, now);
    var o := ResolveSort(p.sort);
    var rows := Listed(t, conds, o);
    var c := SearchTodos(t, p, title, name, isCompleted, daysAgo, now).content;
    SortRowsSorted(Where(t, conds), o);
    SearchTodosPage(t, p, title, name, isCompleted, daysAgo, now);
    forall i, j | 0 <= i < j < |c|
      ensures && (o == OrderSpecifier(CreatedAt, false) ==> c[i].createdAt >= c[j].createdAt)
              && (o == OrderSpecifier(CreatedAt, true) ==> c[i].createdAt <= c[j].createdAt)
              && (o == OrderSpecifier(Title, false) ==> !StringLess(c[i].title, c[j].title))
              && (o == OrderSpecifier(Title, true) ==> !StringLess(c[j].title, c[i].title))
    {
      var a, b := rows[Offset(p) + i], rows[Offset(p) + j];
      assert !Before(b, a, o);
      assert c[i].createdAt == a.createdAt && c[j].createdAt == b.createdAt;
      assert c[i].title == a.title && c[j].title == b.title;
      if o.key == Title && a.title == b.title { StringLessIrreflexive(a.title); }
    }
  }

  /** A title filter that exactly one todo matches selects just that todo. */
  lemma TitleFilterSelectsOne(t: Tables, title: string, k: nat, now: int)
    requires k < |t.todos| && ContainsIgnoreCase(t.todos[k].title, title)
    requires forall j :: 0 <= j < |t.todos| && j != k ==> !ContainsIgnoreCase(t.todos[j].title, title)
    ensures Where(t, SearchConditions(Some(title), None, None, None, now)) == [t.todos[k]]
  {
    var conds := SearchConditions(Some(title), None, None, None, now);
    var keep := (r: TodoRow) => MatchesAll(t.users, conds, r);
    forall r: TodoRow ensures keep(r) <==> ContainsIgnoreCase(r.title, title) {
      if ContainsIgnoreCase(r.title, title) {
        assert forall i :: 0 <= i < |conds| && conds[i].Some? ==> i == 0;
      } else {
        assert conds[0].Some? && !Holds(t.users, conds[0].value, r);
      }
    }
    FilterKeepsOnlyOne(t.todos, keep, k);
  }

  /** ... and gives a single-row, single-page result holding that todo and
      its thumb-up count. */
  lemma TitleFilterSingleMatch(t: Tables, title: string, k: nat, now: int)
    requires k < |t.todos| && ContainsIgnoreCase(t.todos[k].title, title)
    requires forall j :: 0 <= j < |t.todos| && j != k ==> !ContainsIgnoreCase(t.todos[j].title, title)
    ensures var page := SearchTodos(t, Pageable(0, 6, []), Some(title), None, None, None, now);
      && |page.content| == 1 && page.totalElements == 1 && page.number == 0
      && page.content[0].id == t.todos[k].id && ContainsIgnoreCase(page.content[0].title, title)
      && page.content[0].thumbUpCount == CountByTodoId(t.thumbUps, t.todos[k].id)
      && TotalPages(page) == 1 && IsLast(page)
  {
    var conds := SearchConditions(Some(title), None, None, None, now);
    var p := Pageable(0, 6, []);
    TitleFilterSelectsOne(t, title, k, now);
    var rows := Listed(t, conds, ResolveSort([]));
    assert rows == [t.todos[k]];
    var page := SearchTodos(t, p, Some(title), None, None, None, now);
    SearchTodosPage(t, p, Some(title), None, None, None, now);
    assert Offset(p) == 0 && |page.content| == 1;
    assert page.content[0] == TodoResponseFrom(t, rows[0], CountByTodoId(t.thumbUps, rows[0].id));
    IsLastIff(page);
  }

  /** Ten todos in pages of six: the first page holds six and is not the
      last of two, the second holds the remaining four and is the last. */
  lemma TenTodosInPagesOfSix(t: Tables)
    requires |t.todos| == 10
    ensures var first := FindAllTodo(t, Pageable(0, 6, []));
      && |first.content| == 6 && first.totalElements == 10 && first.number == 0
      && TotalPages(first) == 2 && !IsLast(first)
    ensures var second := FindAllTodo(t, Pageable(1, 6, []));
      && |second.content| == 4 && second.totalElements == 10 && second.number == 1
      && TotalPages(second) == 2 && IsLast(second)
  {
    FindAllTodoPage(t, Pageable(0, 6, []));
    FindAllTodoPage(t, Pageable(1, 6, []));
    assert |multiset(SortRows(t.todos, NewestFirst))| == |multiset(t.todos)|;
    IsLastIff(FindAllTodo(t, Pageable(0, 6, [])));
    IsLastIff(FindAllTodo(t, Pageable(1, 6, [])));
  }
}
