/** The database behind the repositories. It holds one table of rows per
    entity, and one identity counter per table, as IDENTITY id generation
    gives. A lookup materialises a fresh entity object from its row. A flush
    writes a loaded entity's row back, as the dirty check does when a
    `@Transactional` method commits. */
module Persistence {
  import opened Wrappers
  import opened UserModel
  import opened CommentModel
  import opened TodoModel
  import opened Schema

  class Store {
    var users: seq<UserRow>
    var todos: seq<TodoRow>
    var comments: seq<CommentRow>
    var thumbUps: seq<ThumbUp>
    var nextUserId: int
    var nextTodoId: int
    var nextCommentId: int
    var nextThumbUpId: int

    function Snapshot(): Tables
      reads this
    {
      Tables(users, todos, comments, thumbUps)
    }

    ghost predicate Valid()
      reads this
    {
      Consistent(Snapshot(), nextUserId, nextTodoId, nextCommentId, nextThumbUpId)
    }

    constructor ()
      ensures Valid() && Snapshot() == Tables([], [], [], [])
    {
      users, todos, comments, thumbUps := [], [], [], [];
      nextUserId, nextTodoId, nextCommentId, nextThumbUpId := 1, 1, 1, 1;
    }

    // ------------------------------------------------------------- lookups

    /** `userRepository.findByIdOrNull(id)` */
    method LoadUser(id: int) returns (u: Option<User>)
      ensures u.None? <==> FindUser(users, id).None?
      ensures u.Some? ==> fresh(u.value) && u.value.id.Some? && u.value.Row() == FindUser(users, id).value
    {
      var r := FindUser(users, id);
      if r.None? {
        return None;
      }
      var loaded := new User.Load(r.value);
      return Some(loaded);
    }

    /** `userRepository.findByNickname(nickname)` */
    method LoadUserByNickname(nickname: string) returns (u: Option<User>)
      ensures u.None? <==> FindUserByNickname(users, nickname).None?
      ensures u.Some? ==> fresh(u.value) && u.value.id.Some? && u.value.Row() == FindUserByNickname(users, nickname).value
    {
      var r := FindUserByNickname(users, nickname);
      if r.None? {
        return None;
      }
      var loaded := new User.Load(r.value);
      return Some(loaded);
    }

    /** `todoRepository.findByIdOrNull(id)` */
    method LoadTodo(id: int) returns (t: Option<Todo>)
      ensures t.None? <==> FindTodo(todos, id).None?
      ensures t.Some? ==> fresh(t.value) && t.value.id.Some? && t.value.Row() == FindTodo(todos, id).value
    {
      var r := FindTodo(todos, id);
      if r.None? {
        return None;
      }
      var loaded := new Todo.Load(r.value);
      return Some(loaded);
    }

    /** `commentRepository.findByIdAndTodoId(id, todoId)` */
    method LoadCommentByIdAndTodoId(id: int, todoId: int) returns (c: Option<Comment>)
      ensures c.None? <==> FindByIdAndTodoId(comments, id, todoId).None?
      ensures c.Some? ==> fresh(c.value) && c.value.id.Some? && c.value.Row() == FindByIdAndTodoId(comments, id, todoId).value
    {
      var r := FindByIdAndTodoId(comments, id, todoId);
      if r.None? {
        return None;
      }
      var loaded := new Comment.Load(r.value);
      return Some(loaded);
    }

    // ------------------------------------------------------------- inserts

    /** Persists a new user under the next id; the caller has checked that
        the nickname is free. */
    method SaveUser(u: User)
      requires Valid() && u.id.None?
      requires !ExistsByNickname(users, u.nickname)
      modifies this, u`id
      ensures Valid()
      ensures nextUserId == old(nextUserId) + 1 && nextTodoId == old(nextTodoId)
              && nextCommentId == old(nextCommentId) && nextThumbUpId == old(nextThumbUpId)
      ensures u.id == Some(old(nextUserId))
      ensures Snapshot() == old(Snapshot()).(users := old(users) + [u.Row()])
    {
      u.id := Some(nextUserId);
      AddUserKeepsIntegrity(Snapshot(), u.Row());
      users := users + [u.Row()];
      nextUserId := nextUserId + 1;
    }

    /** Persists a new todo under the next id; its owner must exist. */
    method SaveTodo(t: Todo)
      requires Valid() && t.id.None?
      requires t.userId in UserIds(users)
      modifies this, t`id
      ensures Valid()
      ensures nextUserId == old(nextUserId) && nextTodoId == old(nextTodoId) + 1
              && nextCommentId == old(nextCommentId) && nextThumbUpId == old(nextThumbUpId)
      ensures t.id == Some(old(nextTodoId))
      ensures Snapshot() == old(Snapshot()).(todos := old(todos) + [t.Row()])
    {
      t.id := Some(nextTodoId);
      AddTodoKeepsIntegrity(Snapshot(), t.Row());
      todos := todos + [t.Row()];
      nextTodoId := nextTodoId + 1;
    }

    /** Persists a new comment under the next id; its todo and its author
        must exist. */
    method SaveComment(c: Comment)
      requires Valid() && c.id.None?
      requires c.todoId in TodoIds(todos) && c.userId in UserIds(users)
      modifies this, c`id
      ensures Valid()
      ensures nextUserId == old(nextUserId) && nextTodoId == old(nextTodoId)
              && nextCommentId == old(nextCommentId) + 1 && nextThumbUpId == old(nextThumbUpId)
      ensures c.id == Some(old(nextCommentId))
      ensures Snapshot() == old(Snapshot()).(comments := old(comments) + [c.Row()])
    {
      c.id := Some(nextCommentId);
      AddCommentKeepsIntegrity(Snapshot(), c.Row());
      comments := comments + [c.Row()];
      nextCommentId := nextCommentId + 1;
    }

    /** Persists a thumb-up of `userId` on `todoId` under the next id; the
        caller has checked that this pair has none yet. */
    method SaveThumbUp(userId: int, todoId: int) returns (h: ThumbUp)
      requires Valid()
      requires !ExistsByUserIdAndTodoId(thumbUps, userId, todoId)
      requires userId in UserIds(users) && todoId in TodoIds(todos)
      modifies this
      ensures Valid()
      ensures nextUserId == old(nextUserId) && nextTodoId == old(nextTodoId)
              && nextCommentId == old(nextCommentId) && nextThumbUpId == old(nextThumbUpId) + 1
      ensures h == ThumbUp(old(nextThumbUpId), userId, todoId)
      ensures Snapshot() == old(Snapshot()).(thumbUps := old(thumbUps) + [h])
    {
      h := ThumbUp(nextThumbUpId, userId, todoId);
      AddThumbUpKeepsIntegrity(Snapshot(), h);
      thumbUps := thumbUps + [h];
      nextThumbUpId := nextThumbUpId + 1;
    }

    // ------------------------------------------------------------- flushes

    /** Writes back a loaded todo whose id and owner are unchanged. */
    method FlushTodo(t: Todo, k: nat)
      requires Valid() && t.id.Some? && FindTodoIndex(todos, t.id.value) == Some(k)
      requires t.userId == todos[k].userId
      modifies this`todos
      ensures Valid()
      ensures Snapshot() == old(Snapshot()).(todos := old(todos)[k := t.Row()])
    {
      UpdateTodoKeepsIntegrity(Snapshot(), k, t.Row());
      todos := todos[k := t.Row()];
      assert forall r :: r in todos ==> r in old(todos) || r == t.Row();
    }

    /** Writes back a loaded comment whose id, todo and author are unchanged. */
    method FlushComment(c: Comment, k: nat)
      requires Valid() && c.id.Some? && k < |comments| && comments[k].id == c.id.value
      requires c.todoId == comments[k].todoId && c.userId == comments[k].userId
      modifies this`comments
      ensures Valid()
      ensures Snapshot() == old(Snapshot()).(comments := old(comments)[k := c.Row()])
    {
      UpdateCommentKeepsIntegrity(Snapshot(), k, c.Row());
      comments := comments[k := c.Row()];
      assert forall r :: r in comments ==> r in old(comments) || r == c.Row();
    }

    /** Writes back a loaded user whose id and nickname are unchanged. */
    method FlushUser(u: User, k: nat)
      requires Valid() && u.id.Some? && FindUserIndex(users, u.id.value) == Some(k)
      requires u.nickname == users[k].nickname
      modifies this`users
      ensures Valid()
      ensures Snapshot() == old(Snapshot()).(users := old(users)[k := u.Row()])
    {
      UpdateUserKeepsIntegrity(Snapshot(), k, u.Row());
      users := users[k := u.Row()];
      assert forall r :: r in users ==> r in old(users) || r == u.Row();
    }

    // ------------------------------------------------------------- deletes

    /** `thumbUpRepository.delete(h)`: deletes the thumb-up with that id. */
    method DeleteThumbUp(id: int)
      requires Valid()
      modifies this`thumbUps
      ensures Valid()
      ensures Snapshot() == old(Snapshot()).(thumbUps := ThumbUpsExcept(old(thumbUps), id))
    {
      DeleteThumbUpKeepsIntegrity(Snapshot(), id);
      thumbUps := ThumbUpsExcept(thumbUps, id);
    }

    /** `commentRepository.delete(c)`: deletes the comment with that id. */
    method DeleteComment(id: int)
      requires Valid()
      modifies this`comments
      ensures Valid()
      ensures Snapshot() == old(Snapshot()).(comments := CommentsExcept(old(comments), id))
    {
      DeleteCommentKeepsIntegrity(Snapshot(), id);
      comments := CommentsExcept(comments, id);
    }

    /** `deleteTodoWithThumbUpsAndComments`: the todo's thumb-ups, then its
        comments, then the todo itself. */
    method DeleteTodoWithThumbUpsAndComments(todoId: int)
      requires Valid()
      modifies this`thumbUps, this`comments, this`todos
      ensures Valid()
      ensures Snapshot() == DeleteTodoCascade(old(Snapshot()), todoId)
    {
      CascadeKeepsConsistent(Snapshot(), todoId, nextUserId, nextTodoId, nextCommentId, nextThumbUpId);
      thumbUps := ThumbUpsNotOf(thumbUps, todoId);
      comments := CommentsNotOf(comments, todoId);
      todos := TodosExcept(todos, todoId);
    }
  }
}
