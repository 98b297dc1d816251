/** The todo service: reading one todo, creating, editing, toggling and
    deleting todos, and giving or cancelling a thumb-up. Each state-changing
    operation is a method on the store, proved to leave exactly the tables
    and return exactly the answer of its outcome function; the outcome
    functions carry the properties. */
module TodoService {
  import opened Wrappers
  import opened Errors
  import opened UserModel
  import opened TodoModel
  import opened Schema
  import opened Responses
  import opened Persistence

  const NotOwner := "You do not own this Todo"
  const AlreadyThumbedUp := "You've already given a thumbs up to this post"
  const NotThumbedUp := "You've not given a thumbs up to this post, so it can't be canceled"

  /** The tables a service call leaves behind, and its answer. */
  datatype Outcome<+T> = Outcome(tables: Tables, result: Result<T, Error>)

  // ------------------------------------------------------------------ getTodo

  /** `getTodo(todoId)`: the todo with its owner's name, its thumb-up count
      and its comments. */
  function GetTodo(t: Tables, todoId: int): (r: Result<TodoResponseWithComments, Error>)
    ensures r.Failure? <==> todoId !in TodoIds(t.todos)
    ensures r.Failure? ==> r.error == ModelNotFound("Todo", ById(todoId))
    ensures r.Success? ==>
      var row := FindTodo(t.todos, todoId).value;
      && r.value.id == todoId && r.value.title == row.title && r.value.description == row.description
      && r.value.isCompleted == row.isCompleted && r.value.createdAt == row.createdAt
      && r.value.name == NameOf(t.users, row.userId)
      && r.value.thumbUpCount == CountByTodoId(t.thumbUps, todoId)
      && r.value.comments == CommentResponses(t.users, CommentsOf(t.comments, todoId))
  {
    match FindTodo(t.todos, todoId)
    case None => Failure(ModelNotFound("Todo", ById(todoId)))
    case Some(row) => Success(TodoResponseWithCommentsFrom(t, row, CountByTodoId(t.thumbUps, row.id)))
  }

  // ------------------------------------------------------------------ createTodo

  /** `createTodo`: the caller must exist; the new todo is theirs, not
      completed, and answered with a zero count. */
  function CreateTodoOutcome(t: Tables, newId: int, userId: int, title: string, description: string, now: int): (o: Outcome<TodoResponse>)
    ensures o.result.Failure? <==> userId !in UserIds(t.users)
    ensures o.result.Failure? ==> o.tables == t && o.result.error == ModelNotFound("User", ById(userId))
    ensures o.result.Success? ==>
      && o.tables == t.(todos := t.todos + [TodoRow(newId, title, description, false, userId, now)])
      && o.result.value.id == newId && !o.result.value.isCompleted && o.result.value.thumbUpCount == 0
      && o.result.value.title == title && o.result.value.description == description
  {
    if FindUser(t.users, userId).None? then Outcome(t, Failure(ModelNotFound("User", ById(userId))))
    else
      var row := TodoRow(newId, title, description, false, userId, now);
      var t' := t.(todos := t.todos + [row]);
      Outcome(t', Success(TodoResponseFrom(t', row, 0)))
  }

  /** A created todo is found under its new id, and nothing references it
      yet: no comments, no thumb-ups. */
  lemma CreatedTodoIsFresh(t: Tables, nextUserId: int, nextTodoId: int, nextCommentId: int, nextThumbUpId: int,
                           userId: int, title: string, description: string, now: int)
    requires Consistent(t, nextUserId, nextTodoId, nextCommentId, nextThumbUpId)
    requires CreateTodoOutcome(t, nextTodoId, userId, title, description, now).result.Success?
    ensures var o := CreateTodoOutcome(t, nextTodoId, userId, title, description, now);
      && FindTodo(o.tables.todos, nextTodoId) == Some(TodoRow(nextTodoId, title, description, false, userId, now))
      && o.result.value.comments == []
      && CountByTodoId(o.tables.thumbUps, nextTodoId) == 0
  {
    var o := CreateTodoOutcome(t, nextTodoId, userId, title, description, now);
    var row := TodoRow(nextTodoId, title, description, false, userId, now);
    ReferencesBridge(t);
    assert nextTodoId !in TodoIds(t.todos);
    assert o.tables.todos[|t.todos|] == row;
    forall j | 0 <= j < |t.todos| ensures o.tables.todos[j].id != nextTodoId {
      assert t.todos[j] in t.todos;
    }
  }

  method CreateTodo(db: Store, userId: int, title: string, description: string, now: int)
    returns (r: Result<TodoResponse, Error>)
    requires db.Valid()
    modifies db
    ensures db.Valid()
    ensures var o := CreateTodoOutcome(old(db.Snapshot()), old(db.nextTodoId), userId, title, description, now);
      db.Snapshot() == o.tables && r == o.result
  {
    var user := db.LoadUser(userId);
    if user.None? {
      return Failure(ModelNotFound("User", ById(userId)));
    }
    var todo := new Todo(title, description, user.value.id.value, now);
    db.SaveTodo(todo);
    r := Success(TodoResponseFrom(db.Snapshot(), todo.Row(), 0));
  }

  // ------------------------------------------------------------------ updateTodo, toggleTodo

  /** Replacing a todo row by one with the same id keeps it findable at the
      same position. */
  lemma FindTodoAfterReplace(s: seq<TodoRow>, k: nat, row: TodoRow)
    requires FindTodoIndex(s, row.id) == Some(k)
    ensures FindTodoIndex(s[k := row], row.id) == Some(k)
  {
    var s' := s[k := row];
    assert row.id in TodoIds(s') by { assert s'[k] in s'; }
    forall j | 0 <= j < k ensures s'[j].id != row.id {
      assert s'[j] == s[j];
    }
    var k' := FindTodoIndex(s', row.id).value;
    assert s'[k'].id == row.id && s'[k].id == row.id;
  }

  /** `updateTodo`: a missing todo, then a todo of someone else, are
      refused; otherwise title and description are replaced. */
  function UpdateTodoOutcome(t: Tables, userId: int, todoId: int, title: string, description: string): (o: Outcome<TodoResponse>)
    ensures o.result.Success? <==> FindTodo(t.todos, todoId).Some? && FindTodo(t.todos, todoId).value.userId == userId
    ensures todoId !in TodoIds(t.todos) ==> o.result == Failure(ModelNotFound("Todo", ById(todoId)))
    ensures FindTodo(t.todos, todoId).Some? && FindTodo(t.todos, todoId).value.userId != userId ==>
      o.result == Failure(AccessDenied(NotOwner))
    ensures o.result.Failure? ==> o.tables == t
    ensures o.result.Success? ==>
      && o.result.value.id == todoId && o.result.value.title == title && o.result.value.description == description
      && o.result.value.isCompleted == FindTodo(t.todos, todoId).value.isCompleted
      && o.result.value.thumbUpCount == CountByTodoId(t.thumbUps, todoId)
  {
    match FindTodoIndex(t.todos, todoId)
    case None => Outcome(t, Failure(ModelNotFound("Todo", ById(todoId))))
    case Some(k) =>
      var row := t.todos[k];
      if row.userId != userId then Outcome(t, Failure(AccessDenied(NotOwner)))
      else
        var row' := row.(title := title, description := description);
        var t' := t.(todos := t.todos[k := row']);
        Outcome(t', Success(TodoResponseFrom(t', row', CountByTodoId(t.thumbUps, todoId))))
  }

  /** An edit changes that one todo and nothing else. */
  lemma UpdateTodoChangesOnlyThatTodo(t: Tables, userId: int, todoId: int, title: string, description: string)
    requires UpdateTodoOutcome(t, userId, todoId, title, description).result.Success?
    ensures var o := UpdateTodoOutcome(t, userId, todoId, title, description);
            var old_ := FindTodo(t.todos, todoId).value;
      && FindTodo(o.tables.todos, todoId) == Some(old_.(title := title, description := description))
      && |o.tables.todos| == |t.todos|
      && (forall r :: r in t.todos && r.id != todoId ==> r in o.tables.todos)
      && o.tables.users == t.users && o.tables.comments == t.comments && o.tables.thumbUps == t.thumbUps
  {
    var k := FindTodoIndex(t.todos, todoId).value;
    var row' := t.todos[k].(title := title, description := description);
    FindTodoAfterReplace(t.todos, k, row');
    var o := UpdateTodoOutcome(t, userId, todoId, title, description);
    forall r | r in t.todos && r.id != todoId ensures r in o.tables.todos {
      var j :| 0 <= j < |t.todos| && t.todos[j] == r;
      assert o.tables.todos[j] == r;
    }
  }

  method UpdateTodo(db: Store, userId: int, todoId: int, title: string, description: string)
    returns (r: Result<TodoResponse, Error>)
    requires db.Valid()
    modifies db`todos
    ensures db.Valid()
    ensures var o := UpdateTodoOutcome(old(db.Snapshot()), userId, todoId, title, description);
      db.Snapshot() == o.tables && r == o.result
  {
    var found := db.LoadTodo(todoId);
    if found.None? {
      return Failure(ModelNotFound("Todo", ById(todoId)));
    }
    var todo := found.value;
    if !todo.CheckPermission(userId) {
      return Failure(AccessDenied(NotOwner));
    }
    todo.UpdateTodo(title, description);
    var k := FindTodoIndex(db.todos, todoId).value;
    db.FlushTodo(todo, k);
    r := Success(TodoResponseFrom(db.Snapshot(), todo.Row(), CountByTodoId(db.thumbUps, todoId)));
  }

  /** `toggleTodo`: the same refusals; otherwise the completion flag flips. */
  function ToggleTodoOutcome(t: Tables, userId: int, todoId: int): (o: Outcome<TodoResponse>)
    ensures o.result.Success? <==> FindTodo(t.todos, todoId).Some? && FindTodo(t.todos, todoId).value.userId == userId
    ensures todoId !in TodoIds(t.todos) ==> o.result == Failure(ModelNotFound("Todo", ById(todoId)))
    ensures FindTodo(t.todos, todoId).Some? && FindTodo(t.todos, todoId).value.userId != userId ==>
      o.result == Failure(AccessDenied(NotOwner))
    ensures o.result.Failure? ==> o.tables == t
    ensures o.result.Success? ==>
      && o.result.value.id == todoId
      && o.result.value.isCompleted == !FindTodo(t.todos, todoId).value.isCompleted
      && o.result.value.thumbUpCount == CountByTodoId(t.thumbUps, todoId)
  {
    match FindTodoIndex(t.todos, todoId)
    case None => Outcome(t, Failure(ModelNotFound("Todo", ById(todoId))))
    case Some(k) =>
      var row := t.todos[k];
      if row.userId != userId then Outcome(t, Failure(AccessDenied(NotOwner)))
      else
        var row' := row.(isCompleted := !row.isCompleted);
        var t' := t.(todos := t.todos[k := row']);
        Outcome(t', Success(TodoResponseFrom(t', row', CountByTodoId(t.thumbUps, todoId))))
  }

  /** Toggling twice is allowed whenever toggling once was, and restores
      the tables. */
  lemma ToggleTodoTwiceRestores(t: Tables, userId: int, todoId: int)
    requires ToggleTodoOutcome(t, userId, todoId).result.Success?
    ensures var once := ToggleTodoOutcome(t, userId, todoId);
            var twice := ToggleTodoOutcome(once.tables, userId, todoId);
      twice.result.Success? && twice.tables == t
  {
    var k := FindTodoIndex(t.todos, todoId).value;
    var row := t.todos[k];
    var row' := row.(isCompleted := !row.isCompleted);
    FindTodoAfterReplace(t.todos, k, row');
    assert t.todos[k := row'][k := row] == t.todos;
  }

  /** A toggle stores the flipped flag on that one todo and changes
      nothing else. */
  lemma ToggledTodoIsStored(t: Tables, userId: int, todoId: int)
    requires ToggleTodoOutcome(t, userId, todoId).result.Success?
    ensures var o := ToggleTodoOutcome(t, userId, todoId);
            var old_ := FindTodo(t.todos, todoId).value;
      && FindTodo(o.tables.todos, todoId) == Some(old_.(isCompleted := !old_.isCompleted))
      && |o.tables.todos| == |t.todos|
      && (forall r :: r in t.todos && r.id != todoId ==> r in o.tables.todos)
      && o.tables.users == t.users && o.tables.comments == t.comments && o.tables.thumbUps == t.thumbUps
  {
    var k := FindTodoIndex(t.todos, todoId).value;
    var row' := t.todos[k].(isCompleted := !t.todos[k].isCompleted);
    FindTodoAfterReplace(t.todos, k, row');
    var o := ToggleTodoOutcome(t, userId, todoId);
    forall r | r in t.todos && r.id != todoId ensures r in o.tables.todos {
      var j :| 0 <= j < |t.todos| && t.todos[j] == r;
      assert o.tables.todos[j] == r;
    }
  }

  method ToggleTodo(db: Store, userId: int, todoId: int) returns (r: Result<TodoResponse, Error>)
    requires db.Valid()
    modifies db`todos
    ensures db.Valid()
    ensures var o := ToggleTodoOutcome(old(db.Snapshot()), userId, todoId);
      db.Snapshot() == o.tables && r == o.result
  {
    var found := db.LoadTodo(todoId);
    if found.None? {
      return Failure(ModelNotFound("Todo", ById(todoId)));
    }
    var todo := found.value;
    if !todo.CheckPermission(userId) {
      return Failure(AccessDenied(NotOwner));
    }
    todo.ToggleTodo();
    var k := FindTodoIndex(db.todos, todoId).value;
    db.FlushTodo(todo, k);
    r := Success(TodoResponseFrom(db.Snapshot(), todo.Row(), CountByTodoId(db.thumbUps, todoId)));
  }

  // ------------------------------------------------------------------ deleteTodo

  /** `deleteTodo`: the same refusals; otherwise the cascade runs. */
  function DeleteTodoOutcome(t: Tables, userId: int, todoId: int): (o: Outcome<()>)
    ensures o.result.Success? <==> FindTodo(t.todos, todoId).Some? && FindTodo(t.todos, todoId).value.userId == userId
    ensures todoId !in TodoIds(t.todos) ==> o.result == Failure(ModelNotFound("Todo", ById(todoId)))
    ensures FindTodo(t.todos, todoId).Some? && FindTodo(t.todos, todoId).value.userId != userId ==>
      o.result == Failure(AccessDenied(NotOwner))
    ensures o.result.Failure? ==> o.tables == t
    ensures o.result.Success? ==> o.tables == DeleteTodoCascade(t, todoId)
  {
    match FindTodo(t.todos, todoId)
    case None => Outcome(t, Failure(ModelNotFound("Todo", ById(todoId))))
    case Some(row) =>
      if row.userId != userId then Outcome(t, Failure(AccessDenied(NotOwner)))
      else Outcome(DeleteTodoCascade(t, todoId), Success(()))
  }

  /** After a delete the todo cannot be read any more, and no comment and
      no thumb-up of it is left; every other todo stays. */
  lemma DeletedTodoIsGone(t: Tables, userId: int, todoId: int)
    requires DeleteTodoOutcome(t, userId, todoId).result.Success?
    ensures var after := DeleteTodoOutcome(t, userId, todoId).tables;
      && GetTodo(after, todoId) == Failure(ModelNotFound("Todo", ById(todoId)))
      && CommentsOf(after.comments, todoId) == []
      && CountByTodoId(after.thumbUps, todoId) == 0
      && (forall r :: r in t.todos && r.id != todoId ==> r in after.todos)
      && (forall c :: c in t.comments && c.todoId != todoId ==> c in after.comments)
      && (forall h :: h in t.thumbUps && h.todoId != todoId ==> h in after.thumbUps)
      && after.users == t.users
  {
  }

  method DeleteTodo(db: Store, userId: int, todoId: int) returns (r: Result<(), Error>)
    requires db.Valid()
    modifies db`thumbUps, db`comments, db`todos
    ensures db.Valid()
    ensures var o := DeleteTodoOutcome(old(db.Snapshot()), userId, todoId);
      db.Snapshot() == o.tables && r == o.result
  {
    var found := db.LoadTodo(todoId);
    if found.None? {
      return Failure(ModelNotFound("Todo", ById(todoId)));
    }
    var todo := found.value;
    if !todo.CheckPermission(userId) {
      return Failure(AccessDenied(NotOwner));
    }
    db.DeleteTodoWithThumbUpsAndComments(todo.id.value);
    r := Success(());
  }

  // ------------------------------------------------------------------ thumb-ups

  /** `thumbUpTodo`: a repeated thumb-up is refused first, then a missing
      user, then a missing todo. */
  function ThumbUpTodoOutcome(t: Tables, newId: int, userId: int, todoId: int): (o: Outcome<()>)
    ensures ExistsByUserIdAndTodoId(t.thumbUps, userId, todoId) ==> o.result == Failure(IllegalArgument(AlreadyThumbedUp))
    ensures !ExistsByUserIdAndTodoId(t.thumbUps, userId, todoId) && userId !in UserIds(t.users) ==>
      o.result == Failure(ModelNotFound("User", ById(userId)))
    ensures !ExistsByUserIdAndTodoId(t.thumbUps, userId, todoId) && userId in UserIds(t.users) && todoId !in TodoIds(t.todos) ==>
      o.result == Failure(ModelNotFound("Todo", ById(todoId)))
    ensures o.result.Success? <==>
      !ExistsByUserIdAndTodoId(t.thumbUps, userId, todoId) && userId in UserIds(t.users) && todoId in TodoIds(t.todos)
    ensures o.result.Failure? ==> o.tables == t
    ensures o.result.Success? ==> o.tables == t.(thumbUps := t.thumbUps + [ThumbUp(newId, userId, todoId)])
  {
    if ExistsByUserIdAndTodoId(t.thumbUps, userId, todoId) then Outcome(t, Failure(IllegalArgument(AlreadyThumbedUp)))
    else if FindUser(t.users, userId).None? then Outcome(t, Failure(ModelNotFound("User", ById(userId))))
    else if FindTodo(t.todos, todoId).None? then Outcome(t, Failure(ModelNotFound("Todo", ById(todoId))))
    else Outcome(t.(thumbUps := t.thumbUps + [ThumbUp(newId, userId, todoId)]), Success(()))
  }

  /** A second thumb-up by the same user on the same todo is refused and
      changes nothing. */
  lemma SecondThumbUpRefused(t: Tables, newId: int, laterId: int, userId: int, todoId: int)
    requires ThumbUpTodoOutcome(t, newId, userId, todoId).result.Success?
    ensures var after := ThumbUpTodoOutcome(t, newId, userId, todoId).tables;
      ThumbUpTodoOutcome(after, laterId, userId, todoId) == Outcome(after, Failure(IllegalArgument(AlreadyThumbedUp)))
  {
    var after := ThumbUpTodoOutcome(t, newId, userId, todoId).tables;
    assert after.thumbUps[|t.thumbUps|] in after.thumbUps;
  }

  /** A thumb-up keeps the tables consistent, in particular at most one
      thumb-up per user and todo. */
  lemma ThumbUpTodoKeepsConsistent(t: Tables, nextUserId: int, nextTodoId: int, nextCommentId: int, nextThumbUpId: int,
                                   userId: int, todoId: int)
    requires Consistent(t, nextUserId, nextTodoId, nextCommentId, nextThumbUpId)
    ensures var after := ThumbUpTodoOutcome(t, nextThumbUpId, userId, todoId).tables;
      && Consistent(after, nextUserId, nextTodoId, nextCommentId, nextThumbUpId + 1)
      && AtMostOneThumbUpPerUserAndTodo(after.thumbUps)
  {
    var o := ThumbUpTodoOutcome(t, nextThumbUpId, userId, todoId);
    if o.result.Success? {
      AddThumbUpKeepsIntegrity(t, ThumbUp(nextThumbUpId, userId, todoId));
    }
  }

  method ThumbUpTodo(db: Store, userId: int, todoId: int) returns (r: Result<(), Error>)
    requires db.Valid()
    modifies db
    ensures db.Valid()
    ensures var o := ThumbUpTodoOutcome(old(db.Snapshot()), old(db.nextThumbUpId), userId, todoId);
      db.Snapshot() == o.tables && r == o.result
  {
    if ExistsByUserIdAndTodoId(db.thumbUps, userId, todoId) {
      return Failure(IllegalArgument(AlreadyThumbedUp));
    }
    var user := db.LoadUser(userId);
    if user.None? {
      return Failure(ModelNotFound("User", ById(userId)));
    }
    var todo := db.LoadTodo(todoId);
    if todo.None? {
      return Failure(ModelNotFound("Todo", ById(todoId)));
    }
    var _ := db.SaveThumbUp(user.value.id.value, todo.value.id.value);
    r := Success(());
  }

  /** `cancelThumbUpTodo`: deletes the caller's thumb-up on the todo, or is
      refused when there is none. */
  function CancelThumbUpTodoOutcome(t: Tables, userId: int, todoId: int): (o: Outcome<()>)
    ensures o.result.Failure? <==> !ExistsByUserIdAndTodoId(t.thumbUps, userId, todoId)
    ensures o.result.Failure? ==> o.tables == t && o.result.error == IllegalArgument(NotThumbedUp)
    ensures o.result.Success? ==> o.tables.users == t.users && o.tables.todos == t.todos && o.tables.comments == t.comments
  {
    match FindThumbUpIndex(t.thumbUps, userId, todoId)
    case None => Outcome(t, Failure(IllegalArgument(NotThumbedUp)))
    case Some(k) => Outcome(t.(thumbUps := ThumbUpsExcept(t.thumbUps, t.thumbUps[k].id)), Success(()))
  }

  /** With one thumb-up per user and todo, slicing out the one at `k`
      leaves none for its pair. */
  lemma SliceRemovesPair(s: seq<ThumbUp>, k: nat)
    requires k < |s| && AtMostOneThumbUpPerUserAndTodo(s)
    ensures !ExistsByUserIdAndTodoId(s[..k] + s[k + 1..], s[k].userId, s[k].todoId)
  {
    ThumbUpKeysDistinct(s);
    var rest := s[..k] + s[k + 1..];
    forall h | h in rest ensures h.userId != s[k].userId || h.todoId != s[k].todoId {
      var j :| 0 <= j < |rest| && rest[j] == h;
      if j < k { assert h == s[j]; } else { assert h == s[j + 1]; }
    }
  }

  /** With unique ids, deleting the thumb-up at `k` by its id slices it out. */
  lemma ThumbUpsExceptSlices(s: seq<ThumbUp>, k: nat)
    requires k < |s| && UniqueThumbUpIds(s)
    ensures ThumbUpsExcept(s, s[k].id) == s[..k] + s[k + 1..]
  {
    ThumbUpIdsDistinct(s);
    FilterDropsOne(s, ThumbUpNot(s[k].id), k);
  }

  /** With the table's uniqueness rules, a cancel removes exactly the one
      thumb-up of that user on that todo, keeping the others in order. */
  lemma CancelRemovesExactlyOne(t: Tables, userId: int, todoId: int)
    requires WellFormed(t)
    requires CancelThumbUpTodoOutcome(t, userId, todoId).result.Success?
    ensures var k := FindThumbUpIndex(t.thumbUps, userId, todoId).value;
            var after := CancelThumbUpTodoOutcome(t, userId, todoId).tables;
      && after.thumbUps == t.thumbUps[..k] + t.thumbUps[k + 1..]
      && !ExistsByUserIdAndTodoId(after.thumbUps, userId, todoId)
  {
    var k := FindThumbUpIndex(t.thumbUps, userId, todoId).value;
    ThumbUpsExceptSlices(t.thumbUps, k);
    SliceRemovesPair(t.thumbUps, k);
  }

  /** Giving a thumb-up and cancelling it restores the tables. */
  lemma CancelUndoesThumbUp(t: Tables, nextUserId: int, nextTodoId: int, nextCommentId: int, nextThumbUpId: int,
                            userId: int, todoId: int)
    requires Consistent(t, nextUserId, nextTodoId, nextCommentId, nextThumbUpId)
    requires ThumbUpTodoOutcome(t, nextThumbUpId, userId, todoId).result.Success?
    ensures var after := ThumbUpTodoOutcome(t, nextThumbUpId, userId, todoId).tables;
      CancelThumbUpTodoOutcome(after, userId, todoId) == Outcome(t, Success(()))
  {
    var s := t.thumbUps + [ThumbUp(nextThumbUpId, userId, todoId)];
    assert s[|t.thumbUps|] == ThumbUp(nextThumbUpId, userId, todoId);
    forall j | 0 <= j < |t.thumbUps| ensures s[j].userId != userId || s[j].todoId != todoId {
      assert s[j] in t.thumbUps;
    }
    forall j | 0 <= j < |s| && j != |t.thumbUps| ensures ThumbUpNot(nextThumbUpId)(s[j]) {
      assert s[j] in t.thumbUps;
    }
    FilterDropsOne(s, ThumbUpNot(nextThumbUpId), |t.thumbUps|);
    assert s[..|t.thumbUps|] + s[|t.thumbUps| + 1..] == t.thumbUps;
  }

  /** After a cancel the same thumb-up can be given again: its user and
      its todo still exist and the pair is free. */
  lemma ThumbUpAgainAfterCancel(t: Tables, newId: int, userId: int, todoId: int)
    requires WellFormed(t)
    requires CancelThumbUpTodoOutcome(t, userId, todoId).result.Success?
    ensures var after := CancelThumbUpTodoOutcome(t, userId, todoId).tables;
      ThumbUpTodoOutcome(after, newId, userId, todoId).result.Success?
  {
    var k := FindThumbUpIndex(t.thumbUps, userId, todoId).value;
    CancelRemovesExactlyOne(t, userId, todoId);
    ReferencesBridge(t);
    assert t.thumbUps[k] in t.thumbUps;
  }

  method CancelThumbUpTodo(db: Store, userId: int, todoId: int) returns (r: Result<(), Error>)
    requires db.Valid()
    modifies db`thumbUps
    ensures db.Valid()
    ensures var o := CancelThumbUpTodoOutcome(old(db.Snapshot()), userId, todoId);
      db.Snapshot() == o.tables && r == o.result
  {
    var k := FindThumbUpIndex(db.thumbUps, userId, todoId);
    if k.None? {
      return Failure(IllegalArgument(NotThumbedUp));
    }
    db.DeleteThumbUp(db.thumbUps[k.value].id);
    r := Success(());
  }
}
