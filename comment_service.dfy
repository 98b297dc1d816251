/** The comment service: reading, writing, editing and deleting the
    comments of a todo. Comments are addressed by todo id and comment id
    together. */
module CommentService {
  import opened Wrappers
  import opened Errors
  import opened UserModel
  import opened TodoModel
  import opened CommentModel
  import opened Schema
  import opened Responses
  import opened Persistence

  const NotCommentOwner := "You do not own this Comment"

  /** The tables a service call leaves behind, and its answer. */
  datatype Outcome<+T> = Outcome(tables: Tables, result: Result<T, Error>)

  // ------------------------------------------------------------------ getComment

  /** `getComment(todoId, commentId)` as written: the two ids reach
      `findByIdAndTodoId(id, todoId)` in swapped order, so the lookup asks
      for a comment whose id is the todo id and whose todo is the comment id. */
  function GetCommentAsWritten(t: Tables, todoId: int, commentId: int): (r: Result<CommentResponse, Error>)
    ensures r.Failure? <==> forall c :: c in t.comments ==> c.id != todoId || c.todoId != commentId
    ensures r.Failure? ==> r.error == ModelNotFound("Comment", ById(commentId))
    ensures r.Success? ==> exists c :: c in t.comments && c.id == todoId && c.todoId == commentId
                                    && r.value == CommentResponseFrom(t.users, c)
  {
    match FindByIdAndTodoId(t.comments, todoId, commentId)
    case None => Failure(ModelNotFound("Comment", ById(commentId)))
    case Some(c) => Success(CommentResponseFrom(t.users, c))
  }

  /** `getComment(todoId, commentId)` as intended: the comment with that id,
      provided it belongs to that todo. */
  function GetComment(t: Tables, todoId: int, commentId: int): (r: Result<CommentResponse, Error>)
    ensures r.Failure? <==> forall c :: c in t.comments ==> c.id != commentId || c.todoId != todoId
    ensures r.Failure? ==> r.error == ModelNotFound("Comment", ById(commentId))
    ensures r.Success? ==> exists c :: c in t.comments && c.id == commentId && c.todoId == todoId
                                    && r.value == CommentResponseFrom(t.users, c)
  {
    match FindByIdAndTodoId(t.comments, commentId, todoId)
    case None => Failure(ModelNotFound("Comment", ById(commentId)))
    case Some(c) => Success(CommentResponseFrom(t.users, c))
  }

  /** The swap shows on the smallest example: one user, one todo (id 1)
      and its comment (id 2). Asking for comment 2 of todo 1 finds it as
      intended, but not as written, which looks for comment 1 of todo 2. */
  lemma GetCommentAsWrittenMissesExistingComment()
    ensures var t := Tables([UserRow(1, "moo", "pw", "Moo", None)],
                            [TodoRow(1, "title", "description", false, 1, 0)],
                            [CommentRow(2, "comment", 1, 1, 0)],
                            []);
      && GetComment(t, 1, 2).Success?
      && GetCommentAsWritten(t, 1, 2) == Failure(ModelNotFound("Comment", ById(2)))
  {
    var t := Tables([UserRow(1, "moo", "pw", "Moo", None)],
                    [TodoRow(1, "title", "description", false, 1, 0)],
                    [CommentRow(2, "comment", 1, 1, 0)],
                    []);
    assert t.comments[0] in t.comments;
    assert forall c :: c in t.comments ==> c == CommentRow(2, "comment", 1, 1, 0);
  }

  // ------------------------------------------------------------------ createComment

  /** Appending a row to the comment table appends it to its todo's list. */
  lemma {:induction false} CommentsOfAppend(s: seq<CommentRow>, c: CommentRow, todoId: int)
    ensures CommentsOf(s + [c], todoId) == CommentsOf(s, todoId) + (if c.todoId == todoId then [c] else [])
  {
    if |s| == 0 {
      assert s + [c] == [c];
      assert [c][1..] == [];
    } else {
      var head := if s[0].todoId == todoId then [s[0]] else [];
      assert (s + [c])[0] == s[0];
      assert (s + [c])[1..] == s[1..] + [c];
      CommentsOfAppend(s[1..], c, todoId);
      calc {
        CommentsOf(s + [c], todoId);
        head + CommentsOf(s[1..] + [c], todoId);
        head + (CommentsOf(s[1..], todoId) + (if c.todoId == todoId then [c] else []));
        (head + CommentsOf(s[1..], todoId)) + (if c.todoId == todoId then [c] else []);
      }
    }
  }

  /** `createComment`: a missing todo is refused first, then a missing
      user; the new comment is appended under the next id. */
  function CreateCommentOutcome(t: Tables, newId: int, userId: int, todoId: int, content: string, now: int)
    : (o: Outcome<CommentResponse>)
    ensures todoId !in TodoIds(t.todos) ==> o.result == Failure(ModelNotFound("Todo", ById(todoId)))
    ensures todoId in TodoIds(t.todos) && userId !in UserIds(t.users) ==> o.result == Failure(ModelNotFound("User", ById(userId)))
    ensures o.result.Success? <==> todoId in TodoIds(t.todos) && userId in UserIds(t.users)
    ensures o.result.Failure? ==> o.tables == t
    ensures o.result.Success? ==>
      && o.tables == t.(comments := t.comments + [CommentRow(newId, content, todoId, userId, now)])
      && o.result.value.id == newId && o.result.value.content == content
      && o.result.value.nickname == FindUser(t.users, userId).value.nickname
  {
    if FindTodo(t.todos, todoId).None? then Outcome(t, Failure(ModelNotFound("Todo", ById(todoId))))
    else if FindUser(t.users, userId).None? then Outcome(t, Failure(ModelNotFound("User", ById(userId))))
    else
      var row := CommentRow(newId, content, todoId, userId, now);
      var t' := t.(comments := t.comments + [row]);
      Outcome(t', Success(CommentResponseFrom(t'.users, row)))
  }

  /** A new comment is readable under its todo and its new id, and it is
      listed last among the todo's comments. */
  lemma CreatedCommentIsReadable(t: Tables, nextUserId: int, nextTodoId: int, nextCommentId: int, nextThumbUpId: int,
                                 userId: int, todoId: int, content: string, now: int)
    requires Consistent(t, nextUserId, nextTodoId, nextCommentId, nextThumbUpId)
    requires CreateCommentOutcome(t, nextCommentId, userId, todoId, content, now).result.Success?
    ensures var o := CreateCommentOutcome(t, nextCommentId, userId, todoId, content, now);
      && GetComment(o.tables, todoId, nextCommentId) == o.result
      && CommentsOf(o.tables.comments, todoId) == CommentsOf(t.comments, todoId) + [CommentRow(nextCommentId, content, todoId, userId, now)]
  {
    var row := CommentRow(nextCommentId, content, todoId, userId, now);
    var o := CreateCommentOutcome(t, nextCommentId, userId, todoId, content, now);
    CommentsOfAppend(t.comments, row, todoId);
    var s := o.tables.comments;
    assert s[|t.comments|] == row;
    forall j | 0 <= j < |t.comments| ensures s[j].id != nextCommentId {
      assert t.comments[j] in t.comments;
    }
    var k := FindCommentIndex(s, nextCommentId, todoId).value;
    assert s[k].id == nextCommentId;
  }

  method CreateComment(db: Store, userId: int, todoId: int, content: string, now: int)
    returns (r: Result<CommentResponse, Error>)
    requires db.Valid()
    modifies db
    ensures db.Valid()
    ensures var o := CreateCommentOutcome(old(db.Snapshot()), old(db.nextCommentId), userId, todoId, content, now);
      db.Snapshot() == o.tables && r == o.result
  {
    var todo := db.LoadTodo(todoId);
    if todo.None? {
      return Failure(ModelNotFound("Todo", ById(todoId)));
    }
    var user := db.LoadUser(userId);
    if user.None? {
      return Failure(ModelNotFound("User", ById(userId)));
    }
    var comment := new Comment(content, todo.value.id.value, user.value.id.value, now);
    db.SaveComment(comment);
    r := Success(CommentResponseFrom(db.users, comment.Row()));
  }

  // ------------------------------------------------------------------ updateComment

  /** Replacing a comment row by one with the same id and todo keeps it
      findable at the same position. */
  lemma FindCommentAfterReplace(s: seq<CommentRow>, k: nat, row: CommentRow)
    requires FindCommentIndex(s, row.id, row.todoId) == Some(k)
    ensures FindCommentIndex(s[k := row], row.id, row.todoId) == Some(k)
  {
    var s' := s[k := row];
    assert s'[k] in s';
    forall j | 0 <= j < k ensures s'[j].id != row.id || s'[j].todoId != row.todoId {
      assert s'[j] == s[j];
    }
    var k' := FindCommentIndex(s', row.id, row.todoId).value;
    assert s'[k'].id == row.id && s'[k].id == row.id;
  }

  /** `updateComment`: a comment missing from that todo, then a comment of
      someone else, are refused; otherwise its content is replaced. */
  function UpdateCommentOutcome(t: Tables, userId: int, todoId: int, commentId: int, content: string)
    : (o: Outcome<CommentResponse>)
    ensures o.result.Success? <==>
      FindByIdAndTodoId(t.comments, commentId, todoId).Some? && FindByIdAndTodoId(t.comments, commentId, todoId).value.userId == userId
    ensures FindByIdAndTodoId(t.comments, commentId, todoId).None? ==> o.result == Failure(ModelNotFound("Comment", ById(commentId)))
    ensures FindByIdAndTodoId(t.comments, commentId, todoId).Some? && FindByIdAndTodoId(t.comments, commentId, todoId).value.userId != userId ==>
      o.result == Failure(AccessDenied(NotCommentOwner))
    ensures o.result.Failure? ==> o.tables == t
    ensures o.result.Success? ==> o.result.value.id == commentId && o.result.value.content == content
  {
    match FindCommentIndex(t.comments, commentId, todoId)
    case None => Outcome(t, Failure(ModelNotFound("Comment", ById(commentId))))
    case Some(k) =>
      var c := t.comments[k];
      if c.userId != userId then Outcome(t, Failure(AccessDenied(NotCommentOwner)))
      else
        var c' := c.(content := content);
        var t' := t.(comments := t.comments[k := c']);
        Outcome(t', Success(CommentResponseFrom(t'.users, c')))
  }

  /** An edited comment reads back with its new content; nothing else in
      the tables changes. */
  lemma UpdatedCommentReadsBack(t: Tables, userId: int, todoId: int, commentId: int, content: string)
    requires UpdateCommentOutcome(t, userId, todoId, commentId, content).result.Success?
    ensures var o := UpdateCommentOutcome(t, userId, todoId, commentId, content);
      && GetComment(o.tables, todoId, commentId) == o.result
      && FindByIdAndTodoId(o.tables.comments, commentId, todoId)
           == Some(FindByIdAndTodoId(t.comments, commentId, todoId).value.(content := content))
      && |o.tables.comments| == |t.comments|
      && (forall c :: c in t.comments && c.id != commentId ==> c in o.tables.comments)
      && o.tables.users == t.users && o.tables.todos == t.todos && o.tables.thumbUps == t.thumbUps
  {
    var k := FindCommentIndex(t.comments, commentId, todoId).value;
    var c' := t.comments[k].(content := content);
    FindCommentAfterReplace(t.comments, k, c');
    var o := UpdateCommentOutcome(t, userId, todoId, commentId, content);
    forall c | c in t.comments && c.id != commentId ensures c in o.tables.comments {
      var j :| 0 <= j < |t.comments| && t.comments[j] == c;
      assert o.tables.comments[j] == c;
    }
  }

  method UpdateComment(db: Store, userId: int, todoId: int, commentId: int, content: string)
    returns (r: Result<CommentResponse, Error>)
    requires db.Valid()
    modifies db`comments
    ensures db.Valid()
    ensures var o := UpdateCommentOutcome(old(db.Snapshot()), userId, todoId, commentId, content);
      db.Snapshot() == o.tables && r == o.result
  {
    var k := FindCommentIndex(db.comments, commentId, todoId);
    var found := db.LoadCommentByIdAndTodoId(commentId, todoId);
    if found.None? {
      return Failure(ModelNotFound("Comment", ById(commentId)));
    }
    var comment := found.value;
    if !comment.CheckPermission(userId) {
      return Failure(AccessDenied(NotCommentOwner));
    }
    comment.UpdateComment(content);
    db.FlushComment(comment, k.value);
    r := Success(CommentResponseFrom(db.users, comment.Row()));
  }

  // ------------------------------------------------------------------ deleteComment

  /** `deleteComment`: the same refusals; otherwise the comment is deleted. */
  function DeleteCommentOutcome(t: Tables, userId: int, todoId: int, commentId: int): (o: Outcome<()>)
    ensures o.result.Success? <==>
      FindByIdAndTodoId(t.comments, commentId, todoId).Some? && FindByIdAndTodoId(t.comments, commentId, todoId).value.userId == userId
    ensures FindByIdAndTodoId(t.comments, commentId, todoId).None? ==> o.result == Failure(ModelNotFound("Comment", ById(commentId)))
    ensures FindByIdAndTodoId(t.comments, commentId, todoId).Some? && FindByIdAndTodoId(t.comments, commentId, todoId).value.userId != userId ==>
      o.result == Failure(AccessDenied(NotCommentOwner))
    ensures o.result.Failure? ==> o.tables == t
    ensures o.result.Success? ==> o.tables == t.(comments := CommentsExcept(t.comments, commentId))
  {
    match FindByIdAndTodoId(t.comments, commentId, todoId)
    case None => Outcome(t, Failure(ModelNotFound("Comment", ById(commentId))))
    case Some(c) =>
      if c.userId != userId then Outcome(t, Failure(AccessDenied(NotCommentOwner)))
      else Outcome(t.(comments := CommentsExcept(t.comments, c.id)), Success(()))
  }

  /** A deleted comment cannot be read any more; every other comment stays. */
  lemma DeletedCommentIsGone(t: Tables, userId: int, todoId: int, commentId: int)
    requires DeleteCommentOutcome(t, userId, todoId, commentId).result.Success?
    ensures var after := DeleteCommentOutcome(t, userId, todoId, commentId).tables;
      && GetComment(after, todoId, commentId) == Failure(ModelNotFound("Comment", ById(commentId)))
      && (forall c :: c in t.comments && c.id != commentId ==> c in after.comments)
  {}

  method DeleteComment(db: Store, userId: int, todoId: int, commentId: int) returns (r: Result<(), Error>)
    requires db.Valid()
    modifies db`comments
    ensures db.Valid()
    ensures var o := DeleteCommentOutcome(old(db.Snapshot()), userId, todoId, commentId);
      db.Snapshot() == o.tables && r == o.result
  {
    var found := db.LoadCommentByIdAndTodoId(commentId, todoId);
    if found.None? {
      return Failure(ModelNotFound("Comment", ById(commentId)));
    }
    var comment := found.value;
    if !comment.CheckPermission(userId) {
      return Failure(AccessDenied(NotCommentOwner));
    }
    db.DeleteComment(comment.id.value);
    r := Success(());
  }
}
