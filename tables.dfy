/** The four tables as values, the derived queries the repositories declare
    by name (`findByIdOrNull`, `existsByNickname`, `countByTodoId`, ...), the
    integrity the database keeps, and the row-level effect of each delete. */
module Schema {
  import opened Wrappers
  import opened UserModel
  import opened TodoModel
  import opened CommentModel

  datatype Tables = Tables(users: seq<UserRow>, todos: seq<TodoRow>, comments: seq<CommentRow>, thumbUps: seq<ThumbUp>)

  // ---------------------------------------------------------------- lookups

  /** The position of the first element satisfying `p`. */
  function FirstIndex<T>(s: seq<T>, p: T -> bool): (k: Option<nat>)
    ensures k.Some? ==> k.value < |s| && p(s[k.value]) && forall j :: 0 <= j < k.value ==> !p(s[j])
    ensures k.None? ==> forall j :: 0 <= j < |s| ==> !p(s[j])
  {
    if |s| == 0 then None
    else if p(s[0]) then Some(0)
    else match FirstIndex(s[1..], p)
      case None => None
      case Some(k) => Some(k + 1)
  }

  function UserIds(users: seq<UserRow>): set<int> { set u | u in users :: u.id }
  function Nicknames(users: seq<UserRow>): set<string> { set u | u in users :: u.nickname }
  function TodoIds(todos: seq<TodoRow>): set<int> { set r | r in todos :: r.id }

  /** The position of the user `findByIdOrNull(id)` loads. */
  function FindUserIndex(users: seq<UserRow>, id: int): (k: Option<nat>)
    ensures k.Some? ==> k.value < |users| && users[k.value].id == id
    ensures k.None? <==> id !in UserIds(users)
  {
    FirstIndex(users, (u: UserRow) => u.id == id)
  }

  /** `userRepository.findByIdOrNull(id)` */
  function FindUser(users: seq<UserRow>, id: int): (r: Option<UserRow>)
    ensures r.Some? ==> r.value in users && r.value.id == id
    ensures r.None? <==> id !in UserIds(users)
  {
    match FindUserIndex(users, id)
    case Some(k) => Some(users[k])
    case None => None
  }

  /** `userRepository.findByNickname(nickname)` */
  function FindUserByNickname(users: seq<UserRow>, nickname: string): (r: Option<UserRow>)
    ensures r.Some? ==> r.value in users && r.value.nickname == nickname
    ensures r.None? <==> nickname !in Nicknames(users)
  {
    match FirstIndex(users, (u: UserRow) => u.nickname == nickname)
    case Some(k) => Some(users[k])
    case None => None
  }

  /** `userRepository.existsByNickname(nickname)` */
  function ExistsByNickname(users: seq<UserRow>, nickname: string): (b: bool)
    ensures b <==> nickname in Nicknames(users)
  {
    FindUserByNickname(users, nickname).Some?
  }

  /** The position of the todo `findByIdOrNull(id)` loads. */
  function FindTodoIndex(todos: seq<TodoRow>, id: int): (k: Option<nat>)
    ensures k.Some? ==> k.value < |todos| && todos[k.value].id == id
    ensures k.None? <==> id !in TodoIds(todos)
  {
    FirstIndex(todos, (r: TodoRow) => r.id == id)
  }

  /** `todoRepository.findByIdOrNull(id)` */
  function FindTodo(todos: seq<TodoRow>, id: int): (r: Option<TodoRow>)
    ensures r.Some? ==> r.value in todos && r.value.id == id
    ensures r.None? <==> id !in TodoIds(todos)
  {
    match FindTodoIndex(todos, id)
    case Some(k) => Some(todos[k])
    case None => None
  }

  /** The position of the comment `commentRepository.findByIdAndTodoId(id, todoId)` loads. */
  function FindCommentIndex(comments: seq<CommentRow>, id: int, todoId: int): (k: Option<nat>)
    ensures k.Some? ==> k.value < |comments| && comments[k.value].id == id && comments[k.value].todoId == todoId
    ensures k.None? <==> forall c :: c in comments ==> c.id != id || c.todoId != todoId
  {
    var k := FirstIndex(comments, (c: CommentRow) => c.id == id && c.todoId == todoId);
    assert k.None? ==> forall c :: c in comments ==> c.id != id || c.todoId != todoId by {
      if k.None? {
        forall c | c in comments ensures c.id != id || c.todoId != todoId {
          var j :| 0 <= j < |comments| && comments[j] == c;
        }
      }
    }
    k
  }

  /** `commentRepository.findByIdAndTodoId(id, todoId)` */
  function FindByIdAndTodoId(comments: seq<CommentRow>, id: int, todoId: int): (r: Option<CommentRow>)
    ensures r.Some? ==> r.value in comments && r.value.id == id && r.value.todoId == todoId
    ensures r.None? <==> forall c :: c in comments ==> c.id != id || c.todoId != todoId
  {
    match FindCommentIndex(comments, id, todoId)
    case Some(k) => Some(comments[k])
    case None => None
  }

  /** The position of `thumbUpRepository.findByUserIdAndTodoId(userId, todoId)`. */
  function FindThumbUpIndex(thumbUps: seq<ThumbUp>, userId: int, todoId: int): (k: Option<nat>)
    ensures k.Some? ==> k.value < |thumbUps| && thumbUps[k.value].userId == userId && thumbUps[k.value].todoId == todoId
    ensures k.None? <==> forall h :: h in thumbUps ==> h.userId != userId || h.todoId != todoId
  {
    var k := FirstIndex(thumbUps, (h: ThumbUp) => h.userId == userId && h.todoId == todoId);
    assert k.None? ==> forall h :: h in thumbUps ==> h.userId != userId || h.todoId != todoId by {
      if k.None? {
        forall h | h in thumbUps ensures h.userId != userId || h.todoId != todoId {
          var j :| 0 <= j < |thumbUps| && thumbUps[j] == h;
        }
      }
    }
    k
  }

  /** `thumbUpRepository.existsByUserIdAndTodoId(userId, todoId)` */
  function ExistsByUserIdAndTodoId(thumbUps: seq<ThumbUp>, userId: int, todoId: int): (b: bool)
    ensures b <==> exists h :: h in thumbUps && h.userId == userId && h.todoId == todoId
  {
    FindThumbUpIndex(thumbUps, userId, todoId).Some?
  }

  /** `thumbUpRepository.countByTodoId(todoId)`: the thumb-ups that reference the todo. */
  function CountByTodoId(thumbUps: seq<ThumbUp>, todoId: int): (n: nat)
    ensures n <= |thumbUps|
    ensures n == 0 <==> forall h :: h in thumbUps ==> h.todoId != todoId
    ensures n == |thumbUps| <==> forall h :: h in thumbUps ==> h.todoId == todoId
  {
    if |thumbUps| == 0 then 0
    else
      assert forall h :: h in thumbUps <==> h == thumbUps[0] || h in thumbUps[1..];
      (if thumbUps[0].todoId == todoId then 1 else 0) + CountByTodoId(thumbUps[1..], todoId)
  }

  /** The comments of a todo in table order: what loading `todo.comments` yields. */
  function CommentsOf(comments: seq<CommentRow>, todoId: int): (r: seq<CommentRow>)
    ensures forall c :: c in r <==> c in comments && c.todoId == todoId
    ensures |r| <= |comments|
    ensures r == [] <==> forall c :: c in comments ==> c.todoId != todoId
  {
    if |comments| == 0 then []
    else
      assert forall c :: c in comments <==> c == comments[0] || c in comments[1..];
      (if comments[0].todoId == todoId then [comments[0]] else []) + CommentsOf(comments[1..], todoId)
  }

  // ---------------------------------------------------------------- integrity

  // The pairwise rules below are stated through these accessors, so that
  // they are instantiated only where a proof names the accessor.
  function UserIdAt(s: seq<UserRow>, i: nat): int requires i < |s| { s[i].id }
  function NicknameAt(s: seq<UserRow>, i: nat): string requires i < |s| { s[i].nickname }
  function TodoIdAt(s: seq<TodoRow>, i: nat): int requires i < |s| { s[i].id }
  function CommentIdAt(s: seq<CommentRow>, i: nat): int requires i < |s| { s[i].id }
  function ThumbUpIdAt(s: seq<ThumbUp>, i: nat): int requires i < |s| { s[i].id }
  function ThumbUpKeyAt(s: seq<ThumbUp>, i: nat): (int, int) requires i < |s| { (s[i].userId, s[i].todoId) }

  predicate UniqueUserIds(s: seq<UserRow>) { forall i, j :: 0 <= i < j < |s| ==> UserIdAt(s, i) != UserIdAt(s, j) }
  predicate UniqueNicknames(s: seq<UserRow>) { forall i, j :: 0 <= i < j < |s| ==> NicknameAt(s, i) != NicknameAt(s, j) }
  predicate UniqueTodoIds(s: seq<TodoRow>) { forall i, j :: 0 <= i < j < |s| ==> TodoIdAt(s, i) != TodoIdAt(s, j) }
  predicate UniqueCommentIds(s: seq<CommentRow>) { forall i, j :: 0 <= i < j < |s| ==> CommentIdAt(s, i) != CommentIdAt(s, j) }
  predicate UniqueThumbUpIds(s: seq<ThumbUp>) { forall i, j :: 0 <= i < j < |s| ==> ThumbUpIdAt(s, i) != ThumbUpIdAt(s, j) }

  /** At most one thumb-up per (user, todo): the rule `thumbUpTodo` guards. */
  predicate AtMostOneThumbUpPerUserAndTodo(s: seq<ThumbUp>) {
    forall i, j :: 0 <= i < j < |s| ==> ThumbUpKeyAt(s, i) != ThumbUpKeyAt(s, j)
  }

  lemma UserIdsDistinct(s: seq<UserRow>)
    ensures UniqueUserIds(s) <==> forall i, j :: 0 <= i < j < |s| ==> s[i].id != s[j].id
  {
    forall i, j | 0 <= i < j < |s| ensures UserIdAt(s, i) != UserIdAt(s, j) <==> s[i].id != s[j].id {}
  }

  lemma NicknamesDistinct(s: seq<UserRow>)
    ensures UniqueNicknames(s) <==> forall i, j :: 0 <= i < j < |s| ==> s[i].nickname != s[j].nickname
  {
    forall i, j | 0 <= i < j < |s| ensures NicknameAt(s, i) != NicknameAt(s, j) <==> s[i].nickname != s[j].nickname {}
  }

  lemma TodoIdsDistinct(s: seq<TodoRow>)
    ensures UniqueTodoIds(s) <==> forall i, j :: 0 <= i < j < |s| ==> s[i].id != s[j].id
  {
    forall i, j | 0 <= i < j < |s| ensures TodoIdAt(s, i) != TodoIdAt(s, j) <==> s[i].id != s[j].id {}
  }

  lemma CommentIdsDistinct(s: seq<CommentRow>)
    ensures UniqueCommentIds(s) <==> forall i, j :: 0 <= i < j < |s| ==> s[i].id != s[j].id
  {
    forall i, j | 0 <= i < j < |s| ensures CommentIdAt(s, i) != CommentIdAt(s, j) <==> s[i].id != s[j].id {}
  }

  lemma ThumbUpIdsDistinct(s: seq<ThumbUp>)
    ensures UniqueThumbUpIds(s) <==> forall i, j :: 0 <= i < j < |s| ==> s[i].id != s[j].id
  {
    forall i, j | 0 <= i < j < |s| ensures ThumbUpIdAt(s, i) != ThumbUpIdAt(s, j) <==> s[i].id != s[j].id {}
  }

  lemma ThumbUpKeysDistinct(s: seq<ThumbUp>)
    ensures AtMostOneThumbUpPerUserAndTodo(s) <==> forall i, j :: 0 <= i < j < |s| ==> s[i].userId != s[j].userId || s[i].todoId != s[j].todoId
  {
    forall i, j | 0 <= i < j < |s| ensures ThumbUpKeyAt(s, i) != ThumbUpKeyAt(s, j) <==> s[i].userId != s[j].userId || s[i].todoId != s[j].todoId {}
  }

  /** Some row of `users` has id `id`; stated by recursion so that the
      integrity invariant stays cheap to carry around. */
  predicate HasUserId(users: seq<UserRow>, id: int) {
    |users| > 0 && (users[0].id == id || HasUserId(users[1..], id))
  }

  predicate HasTodoId(todos: seq<TodoRow>, id: int) {
    |todos| > 0 && (todos[0].id == id || HasTodoId(todos[1..], id))
  }

  lemma {:induction false} HasUserIdIsMember(users: seq<UserRow>, id: int)
    ensures HasUserId(users, id) <==> id in UserIds(users)
  {
    if |users| > 0 {
      HasUserIdIsMember(users[1..], id);
      assert users == [users[0]] + users[1..];
      assert UserIds(users) == {users[0].id} + UserIds(users[1..]);
    }
  }

  lemma {:induction false} HasTodoIdIsMember(todos: seq<TodoRow>, id: int)
    ensures HasTodoId(todos, id) <==> id in TodoIds(todos)
  {
    if |todos| > 0 {
      HasTodoIdIsMember(todos[1..], id);
      assert todos == [todos[0]] + todos[1..];
      assert TodoIds(todos) == {todos[0].id} + TodoIds(todos[1..]);
    }
  }

  /** Every foreign key points at an existing row. */
  predicate ReferencesExist(t: Tables) {
    && (forall r :: r in t.todos ==> HasUserId(t.users, r.userId))
    && (forall c :: c in t.comments ==> HasTodoId(t.todos, c.todoId) && HasUserId(t.users, c.userId))
    && (forall h :: h in t.thumbUps ==> HasTodoId(t.todos, h.todoId) && HasUserId(t.users, h.userId))
  }

  /** The same, stated with the id sets. */
  predicate ReferencesInIdSets(t: Tables) {
    && (forall r :: r in t.todos ==> r.userId in UserIds(t.users))
    && (forall c :: c in t.comments ==> c.todoId in TodoIds(t.todos) && c.userId in UserIds(t.users))
    && (forall h :: h in t.thumbUps ==> h.todoId in TodoIds(t.todos) && h.userId in UserIds(t.users))
  }

  lemma ReferencesBridge(t: Tables)
    ensures ReferencesExist(t) <==> ReferencesInIdSets(t)
  {
    forall x: int ensures HasUserId(t.users, x) <==> x in UserIds(t.users) { HasUserIdIsMember(t.users, x); }
    forall x: int ensures HasTodoId(t.todos, x) <==> x in TodoIds(t.todos) { HasTodoIdIsMember(t.todos, x); }
  }

  predicate WellFormed(t: Tables) {
    && UniqueUserIds(t.users) && UniqueNicknames(t.users)
    && UniqueTodoIds(t.todos) && UniqueCommentIds(t.comments) && UniqueThumbUpIds(t.thumbUps)
    && AtMostOneThumbUpPerUserAndTodo(t.thumbUps)
    && ReferencesExist(t)
  }

  // ---------------------------------------------------------------- deletes

  /** The elements of `s` that `keep` accepts, in their order. */
  function Filter<T(!new)>(s: seq<T>, keep: T -> bool): (r: seq<T>)
    ensures forall x :: x in r <==> x in s && keep(x)
    ensures |r| <= |s|
  {
    if |s| == 0 then []
    else
      assert s == [s[0]] + s[1..];
      (if keep(s[0]) then [s[0]] else []) + Filter(s[1..], keep)
  }

  /** A relation that holds between every earlier and later element still
      holds after filtering: filtering keeps the order. */
  lemma {:induction false} FilterKeepsPairwise<T(!new)>(s: seq<T>, keep: T -> bool, P: (T, T) -> bool)
    requires forall i, j :: 0 <= i < j < |s| ==> P(s[i], s[j])
    ensures forall i, j :: 0 <= i < j < |Filter(s, keep)| ==> P(Filter(s, keep)[i], Filter(s, keep)[j])
  {
    if |s| > 0 {
      var tail := Filter(s[1..], keep);
      FilterKeepsPairwise(s[1..], keep, P);
      if keep(s[0]) {
        var r := Filter(s, keep);
        assert r == [s[0]] + tail;
        forall i, j | 0 <= i < j < |r| ensures P(r[i], r[j]) {
          if i == 0 {
            assert r[j] == tail[j - 1];
            assert r[j] in s[1..];
            var m :| 0 <= m < |s[1..]| && s[1..][m] == r[j];
            assert s[m + 1] == r[j];
          } else {
            assert r[i] == tail[i - 1] && r[j] == tail[j - 1];
          }
        }
      }
    }
  }

  /** Slicing out position `k > 0` is keeping the head and slicing out
      position `k - 1` of the tail. */
  lemma SliceOutOfTail<T>(s: seq<T>, k: nat)
    requires 0 < k < |s|
    ensures [s[0]] + (s[1..][..k - 1] + s[1..][k..]) == s[..k] + s[k + 1..]
  {
    assert s[1..][..k - 1] == s[1..k];
    assert s[1..][k..] == s[k + 1..];
    assert s[..k] == [s[0]] + s[1..k];
  }

  /** Filtering out exactly the element at `k` is slicing it out. */
  lemma {:induction false} FilterDropsOne<T(!new)>(s: seq<T>, keep: T -> bool, k: nat)
    requires k < |s| && !keep(s[k])
    requires forall j :: 0 <= j < |s| && j != k ==> keep(s[j])
    ensures Filter(s, keep) == s[..k] + s[k + 1..]
  {
    var tail := s[1..];
    if k == 0 {
      forall j | 0 <= j < |tail| ensures keep(tail[j]) {
        assert tail[j] == s[j + 1];
      }
      FilterKeepsAll(tail, keep);
    } else {
      forall j | 0 <= j < |tail| && j != k - 1 ensures keep(tail[j]) {
        assert tail[j] == s[j + 1];
      }
      FilterDropsOne(tail, keep, k - 1);
      SliceOutOfTail(s, k);
      assert keep(s[0]);
    }
  }

  /** Filtering that accepts only the element at `k` leaves just that one. */
  lemma {:induction false} FilterKeepsOnlyOne<T(!new)>(s: seq<T>, keep: T -> bool, k: nat)
    requires k < |s| && keep(s[k])
    requires forall j :: 0 <= j < |s| && j != k ==> !keep(s[j])
    ensures Filter(s, keep) == [s[k]]
  {
    assert s == [s[0]] + s[1..];
    if k == 0 {
      FilterKeepsNone(s[1..], keep);
    } else {
      FilterKeepsOnlyOne(s[1..], keep, k - 1);
    }
  }

  /** Filtering that accepts nothing leaves nothing. */
  lemma {:induction false} FilterKeepsNone<T(!new)>(s: seq<T>, keep: T -> bool)
    requires forall j :: 0 <= j < |s| ==> !keep(s[j])
    ensures Filter(s, keep) == []
  {
    if |s| > 0 {
      FilterKeepsNone(s[1..], keep);
    }
  }

  /** Filtering with nothing to drop changes nothing. */
  lemma {:induction false} FilterKeepsAll<T(!new)>(s: seq<T>, keep: T -> bool)
    requires forall j :: 0 <= j < |s| ==> keep(s[j])
    ensures Filter(s, keep) == s
  {
    if |s| > 0 {
      FilterKeepsAll(s[1..], keep);
      assert s == [s[0]] + s[1..];
    }
  }

  function ThumbUpNotOf(todoId: int): ThumbUp -> bool { (h: ThumbUp) => h.todoId != todoId }
  function CommentNotOf(todoId: int): CommentRow -> bool { (c: CommentRow) => c.todoId != todoId }
  function TodoNot(id: int): TodoRow -> bool { (r: TodoRow) => r.id != id }
  function CommentNot(id: int): CommentRow -> bool { (c: CommentRow) => c.id != id }
  function ThumbUpNot(id: int): ThumbUp -> bool { (h: ThumbUp) => h.id != id }

  /** `delete from thumbUp where todo.id = todoId` */
  function ThumbUpsNotOf(s: seq<ThumbUp>, todoId: int): (r: seq<ThumbUp>)
    ensures forall h :: h in r <==> h in s && h.todoId != todoId
  {
    Filter(s, ThumbUpNotOf(todoId))
  }

  /** The thumb-ups counted for a todo and those the cascade keeps
      partition the table. */
  lemma {:induction false} CountPlusOthers(s: seq<ThumbUp>, todoId: int)
    ensures CountByTodoId(s, todoId) + |ThumbUpsNotOf(s, todoId)| == |s|
  {
    if |s| > 0 {
      CountPlusOthers(s[1..], todoId);
    }
  }

  /** `delete from comment where todo.id = todoId` */
  function CommentsNotOf(s: seq<CommentRow>, todoId: int): (r: seq<CommentRow>)
    ensures forall c :: c in r <==> c in s && c.todoId != todoId
  {
    Filter(s, CommentNotOf(todoId))
  }

  /** `delete from todo where id = todoId` */
  function TodosExcept(s: seq<TodoRow>, id: int): (r: seq<TodoRow>)
    ensures forall x :: x in r <==> x in s && x.id != id
  {
    Filter(s, TodoNot(id))
  }

  /** Deleting one comment entity (by its id). */
  function CommentsExcept(s: seq<CommentRow>, id: int): (r: seq<CommentRow>)
    ensures forall c :: c in r <==> c in s && c.id != id
  {
    Filter(s, CommentNot(id))
  }

  /** Deleting one thumb-up entity (by its id). */
  function ThumbUpsExcept(s: seq<ThumbUp>, id: int): (r: seq<ThumbUp>)
    ensures forall h :: h in r <==> h in s && h.id != id
  {
    Filter(s, ThumbUpNot(id))
  }

  // ------------------------------------------------- integrity is preserved

  lemma ThumbUpFilterKeepsUnique(s: seq<ThumbUp>, keep: ThumbUp -> bool)
    requires UniqueThumbUpIds(s) && AtMostOneThumbUpPerUserAndTodo(s)
    ensures UniqueThumbUpIds(Filter(s, keep)) && AtMostOneThumbUpPerUserAndTodo(Filter(s, keep))
  {
    ThumbUpIdsDistinct(s); ThumbUpKeysDistinct(s);
    FilterKeepsPairwise(s, keep, (a: ThumbUp, b: ThumbUp) => a.id != b.id);
    FilterKeepsPairwise(s, keep, (a: ThumbUp, b: ThumbUp) => a.userId != b.userId || a.todoId != b.todoId);
    ThumbUpIdsDistinct(Filter(s, keep)); ThumbUpKeysDistinct(Filter(s, keep));
  }

  lemma CommentFilterKeepsUnique(s: seq<CommentRow>, keep: CommentRow -> bool)
    requires UniqueCommentIds(s)
    ensures UniqueCommentIds(Filter(s, keep))
  {
    CommentIdsDistinct(s);
    FilterKeepsPairwise(s, keep, (a: CommentRow, b: CommentRow) => a.id != b.id);
    CommentIdsDistinct(Filter(s, keep));
  }

  lemma TodoFilterKeepsUnique(s: seq<TodoRow>, keep: TodoRow -> bool)
    requires UniqueTodoIds(s)
    ensures UniqueTodoIds(Filter(s, keep))
  {
    TodoIdsDistinct(s);
    FilterKeepsPairwise(s, keep, (a: TodoRow, b: TodoRow) => a.id != b.id);
    TodoIdsDistinct(Filter(s, keep));
  }

  /** The cascade of `deleteTodoWithThumbUpsAndComments`: thumb-ups, then
      comments, then the todo. */
  function DeleteTodoCascade(t: Tables, todoId: int): Tables {
    var afterThumbUps := t.(thumbUps := ThumbUpsNotOf(t.thumbUps, todoId));
    var afterComments := afterThumbUps.(comments := CommentsNotOf(afterThumbUps.comments, todoId));
    afterComments.(todos := TodosExcept(afterComments.todos, todoId))
  }

  /** Dropping the thumb-ups of a todo keeps integrity. */
  lemma ThumbUpsNotOfKeepsIntegrity(t: Tables, todoId: int)
    requires WellFormed(t)
    ensures WellFormed(t.(thumbUps := ThumbUpsNotOf(t.thumbUps, todoId)))
  {
    ThumbUpFilterKeepsUnique(t.thumbUps, ThumbUpNotOf(todoId));
    ReferencesBridge(t);
    ReferencesBridge(t.(thumbUps := ThumbUpsNotOf(t.thumbUps, todoId)));
  }

  /** Dropping the comments of a todo keeps integrity. */
  lemma CommentsNotOfKeepsIntegrity(t: Tables, todoId: int)
    requires WellFormed(t)
    ensures WellFormed(t.(comments := CommentsNotOf(t.comments, todoId)))
  {
    CommentFilterKeepsUnique(t.comments, CommentNotOf(todoId));
    ReferencesBridge(t);
    ReferencesBridge(t.(comments := CommentsNotOf(t.comments, todoId)));
  }

  /** A todo that nothing references any more can go. */
  lemma UnreferencedTodoDeleteKeepsIntegrity(t: Tables, todoId: int)
    requires WellFormed(t)
    requires forall c :: c in t.comments ==> c.todoId != todoId
    requires forall h :: h in t.thumbUps ==> h.todoId != todoId
    ensures WellFormed(t.(todos := TodosExcept(t.todos, todoId)))
  {
    TodoFilterKeepsUnique(t.todos, TodoNot(todoId));
    ReferencesBridge(t);
    var r := t.(todos := TodosExcept(t.todos, todoId));
    forall c | c in r.comments ensures c.todoId in TodoIds(r.todos) {
      var x :| x in t.todos && x.id == c.todoId;
      assert x in r.todos;
    }
    forall h | h in r.thumbUps ensures h.todoId in TodoIds(r.todos) {
      var x :| x in t.todos && x.id == h.todoId;
      assert x in r.todos;
    }
    ReferencesBridge(r);
  }

  /** Each of the three deletes, in the cascade's order, leaves a table set
      whose references all resolve; so does the end result. */
  lemma {:induction false} CascadeKeepsIntegrity(t: Tables, todoId: int)
    requires WellFormed(t)
    ensures WellFormed(t.(thumbUps := ThumbUpsNotOf(t.thumbUps, todoId)))
    ensures WellFormed(t.(thumbUps := ThumbUpsNotOf(t.thumbUps, todoId), comments := CommentsNotOf(t.comments, todoId)))
    ensures WellFormed(DeleteTodoCascade(t, todoId))
  {
    var t1 := t.(thumbUps := ThumbUpsNotOf(t.thumbUps, todoId));
    ThumbUpsNotOfKeepsIntegrity(t, todoId);
    var t2 := t1.(comments := CommentsNotOf(t1.comments, todoId));
    CommentsNotOfKeepsIntegrity(t1, todoId);
    UnreferencedTodoDeleteKeepsIntegrity(t2, todoId);
  }

  /** Why the order matters: deleting the todo while a comment still
      references it leaves a dangling reference. */
  lemma TodoFirstLeavesDanglingComment(t: Tables, todoId: int, c: CommentRow)
    requires c in t.comments && c.todoId == todoId
    ensures !ReferencesExist(t.(todos := TodosExcept(t.todos, todoId)))
  {
    assert c.todoId !in TodoIds(TodosExcept(t.todos, todoId));
    ReferencesBridge(t.(todos := TodosExcept(t.todos, todoId)));
  }

  // ------------------------------------------- inserts and in-place updates

  lemma AddUserKeepsIntegrity(t: Tables, row: UserRow)
    requires WellFormed(t) && row.id !in UserIds(t.users) && row.nickname !in Nicknames(t.users)
    ensures WellFormed(t.(users := t.users + [row]))
  {
    UserIdsDistinct(t.users); NicknamesDistinct(t.users);
    ReferencesBridge(t);
    var users := t.users + [row];
    assert UserIds(t.users) <= UserIds(users);
    forall i, j | 0 <= i < j < |users| ensures users[i].id != users[j].id && users[i].nickname != users[j].nickname {
      if j == |users| - 1 { assert users[i] in t.users; }
    }
    ReferencesBridge(t.(users := users));
    UserIdsDistinct(users); NicknamesDistinct(users);
  }

  lemma AddTodoKeepsIntegrity(t: Tables, row: TodoRow)
    requires WellFormed(t) && row.id !in TodoIds(t.todos) && row.userId in UserIds(t.users)
    ensures WellFormed(t.(todos := t.todos + [row]))
  {
    TodoIdsDistinct(t.todos);
    ReferencesBridge(t);
    var todos := t.todos + [row];
    assert TodoIds(t.todos) <= TodoIds(todos);
    forall i, j | 0 <= i < j < |todos| ensures todos[i].id != todos[j].id {
      if j == |todos| - 1 { assert todos[i] in t.todos; }
    }
    ReferencesBridge(t.(todos := todos));
    TodoIdsDistinct(todos);
  }

  lemma AddCommentKeepsIntegrity(t: Tables, row: CommentRow)
    requires WellFormed(t) && (forall c :: c in t.comments ==> c.id != row.id)
    requires row.todoId in TodoIds(t.todos) && row.userId in UserIds(t.users)
    ensures WellFormed(t.(comments := t.comments + [row]))
  {
    CommentIdsDistinct(t.comments);
    ReferencesBridge(t);
    var comments := t.comments + [row];
    forall i, j | 0 <= i < j < |comments| ensures comments[i].id != comments[j].id {
      if j == |comments| - 1 { assert comments[i] in t.comments; }
    }
    ReferencesBridge(t.(comments := comments));
    CommentIdsDistinct(comments);
  }

  lemma AddThumbUpKeepsIntegrity(t: Tables, h: ThumbUp)
    requires WellFormed(t) && (forall x :: x in t.thumbUps ==> x.id != h.id)
    requires !ExistsByUserIdAndTodoId(t.thumbUps, h.userId, h.todoId)
    requires h.todoId in TodoIds(t.todos) && h.userId in UserIds(t.users)
    ensures WellFormed(t.(thumbUps := t.thumbUps + [h]))
  {
    ThumbUpIdsDistinct(t.thumbUps); ThumbUpKeysDistinct(t.thumbUps);
    ReferencesBridge(t);
    var thumbUps := t.thumbUps + [h];
    forall i, j | 0 <= i < j < |thumbUps|
      ensures thumbUps[i].id != thumbUps[j].id
      ensures thumbUps[i].userId != thumbUps[j].userId || thumbUps[i].todoId != thumbUps[j].todoId
    {
      if j == |thumbUps| - 1 { assert thumbUps[i] in t.thumbUps; }
    }
    ReferencesBridge(t.(thumbUps := thumbUps));
    ThumbUpIdsDistinct(thumbUps); ThumbUpKeysDistinct(thumbUps);
  }

  lemma SameTodoIds(s: seq<TodoRow>, k: nat, row: TodoRow)
    requires k < |s| && row.id == s[k].id
    ensures TodoIds(s[k := row]) == TodoIds(s)
  {
    forall x | x in TodoIds(s) ensures x in TodoIds(s[k := row]) {
      var i :| 0 <= i < |s| && s[i].id == x;
      assert s[k := row][i].id == x;
    }
    forall x | x in TodoIds(s[k := row]) ensures x in TodoIds(s) {
      var i :| 0 <= i < |s| && s[k := row][i].id == x;
      assert s[i].id == x;
    }
  }

  lemma SameUserIds(s: seq<UserRow>, k: nat, row: UserRow)
    requires k < |s| && row.id == s[k].id
    ensures UserIds(s[k := row]) == UserIds(s)
  {
    forall x | x in UserIds(s) ensures x in UserIds(s[k := row]) {
      var i :| 0 <= i < |s| && s[i].id == x;
      assert s[k := row][i].id == x;
    }
    forall x | x in UserIds(s[k := row]) ensures x in UserIds(s) {
      var i :| 0 <= i < |s| && s[k := row][i].id == x;
      assert s[i].id == x;
    }
  }

  /** Changing a todo's title, description or completion keeps integrity. */
  lemma UpdateTodoKeepsIntegrity(t: Tables, k: nat, row: TodoRow)
    requires WellFormed(t) && k < |t.todos| && row.id == t.todos[k].id && row.userId == t.todos[k].userId
    ensures WellFormed(t.(todos := t.todos[k := row]))
  {
    TodoIdsDistinct(t.todos); TodoIdsDistinct(t.todos[k := row]);
    ReferencesBridge(t);
    SameTodoIds(t.todos, k, row);
    var todos := t.todos[k := row];
    forall r | r in todos ensures r.userId in UserIds(t.users) {
      var i :| 0 <= i < |todos| && todos[i] == r;
      if i != k { assert t.todos[i] in t.todos; } else { assert t.todos[k] in t.todos; }
    }
    ReferencesBridge(t.(todos := todos));
  }

  /** Changing a comment's content keeps integrity. */
  lemma UpdateCommentKeepsIntegrity(t: Tables, k: nat, row: CommentRow)
    requires WellFormed(t) && k < |t.comments|
    requires row.id == t.comments[k].id && row.todoId == t.comments[k].todoId && row.userId == t.comments[k].userId
    ensures WellFormed(t.(comments := t.comments[k := row]))
  {
    CommentIdsDistinct(t.comments); CommentIdsDistinct(t.comments[k := row]);
    ReferencesBridge(t);
    var comments := t.comments[k := row];
    forall c | c in comments ensures c.todoId in TodoIds(t.todos) && c.userId in UserIds(t.users) {
      var i :| 0 <= i < |comments| && comments[i] == c;
      if i != k { assert t.comments[i] in t.comments; } else { assert t.comments[k] in t.comments; }
    }
    ReferencesBridge(t.(comments := comments));
  }

  /** Changing a user's profile image keeps integrity. */
  lemma UpdateUserKeepsIntegrity(t: Tables, k: nat, row: UserRow)
    requires WellFormed(t) && k < |t.users| && row.id == t.users[k].id && row.nickname == t.users[k].nickname
    ensures WellFormed(t.(users := t.users[k := row]))
  {
    UserIdsDistinct(t.users); UserIdsDistinct(t.users[k := row]); NicknamesDistinct(t.users); NicknamesDistinct(t.users[k := row]);
    ReferencesBridge(t);
    SameUserIds(t.users, k, row);
    ReferencesBridge(t.(users := t.users[k := row]));
  }

  /** Deleting one comment keeps integrity. */
  lemma DeleteCommentKeepsIntegrity(t: Tables, id: int)
    requires WellFormed(t)
    ensures WellFormed(t.(comments := CommentsExcept(t.comments, id)))
  {
    ReferencesBridge(t);
    CommentFilterKeepsUnique(t.comments, CommentNot(id));
    ReferencesBridge(t.(comments := CommentsExcept(t.comments, id)));
  }

  /** Deleting one thumb-up keeps integrity. */
  lemma DeleteThumbUpKeepsIntegrity(t: Tables, id: int)
    requires WellFormed(t)
    ensures WellFormed(t.(thumbUps := ThumbUpsExcept(t.thumbUps, id)))
  {
    ReferencesBridge(t);
    ThumbUpFilterKeepsUnique(t.thumbUps, ThumbUpNot(id));
    ReferencesBridge(t.(thumbUps := ThumbUpsExcept(t.thumbUps, id)));
  }

  // ------------------------------------------------- deleting a row by its id

  function CommentHasId(id: int): CommentRow -> bool { (c: CommentRow) => c.id == id }
  function TodoHasId(id: int): TodoRow -> bool { (r: TodoRow) => r.id == id }

  /** With unique ids, deleting by id removes at most the first row carrying
      that id, and keeps the rest in order. */
  lemma CommentsExceptAt(s: seq<CommentRow>, id: int)
    requires UniqueCommentIds(s)
    ensures FirstIndex(s, CommentHasId(id)).None? ==> CommentsExcept(s, id) == s
    ensures FirstIndex(s, CommentHasId(id)).Some? ==>
      var k := FirstIndex(s, CommentHasId(id)).value; CommentsExcept(s, id) == s[..k] + s[k + 1..]
  {
    CommentIdsDistinct(s);
    var k := FirstIndex(s, CommentHasId(id));
    if k.None? {
      FilterKeepsAll(s, CommentNot(id));
    } else {
      FilterDropsOne(s, CommentNot(id), k.value);
    }
  }

  lemma TodosExceptAt(s: seq<TodoRow>, id: int)
    requires UniqueTodoIds(s)
    ensures FirstIndex(s, TodoHasId(id)).None? ==> TodosExcept(s, id) == s
    ensures FirstIndex(s, TodoHasId(id)).Some? ==>
      var k := FirstIndex(s, TodoHasId(id)).value; TodosExcept(s, id) == s[..k] + s[k + 1..]
  {
    TodoIdsDistinct(s);
    var k := FirstIndex(s, TodoHasId(id));
    if k.None? {
      FilterKeepsAll(s, TodoNot(id));
    } else {
      FilterDropsOne(s, TodoNot(id), k.value);
    }
  }

  // ------------------------------------------------ integrity with id counters

  /** Integrity, and every id below the counter its table draws new ids from. */
  predicate Consistent(t: Tables, nextUserId: int, nextTodoId: int, nextCommentId: int, nextThumbUpId: int) {
    && WellFormed(t)
    && (forall u :: u in t.users ==> u.id < nextUserId)
    && (forall r :: r in t.todos ==> r.id < nextTodoId)
    && (forall c :: c in t.comments ==> c.id < nextCommentId)
    && (forall h :: h in t.thumbUps ==> h.id < nextThumbUpId)
  }

  lemma CascadeKeepsConsistent(t: Tables, todoId: int, nextUserId: int, nextTodoId: int, nextCommentId: int, nextThumbUpId: int)
    requires Consistent(t, nextUserId, nextTodoId, nextCommentId, nextThumbUpId)
    ensures Consistent(DeleteTodoCascade(t, todoId), nextUserId, nextTodoId, nextCommentId, nextThumbUpId)
  {
    CascadeKeepsIntegrity(t, todoId);
  }
}
