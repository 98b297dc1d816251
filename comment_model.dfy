/** The `Comment` entity. */
module CommentModel {
  import opened Wrappers

  /** What a saved comment looks like as a row of the comment table. */
  datatype CommentRow = CommentRow(id: int, content: string, todoId: int, userId: int, createdAt: int)

  class Comment {
    var id: Option<int>       // assigned by the store on save
    var content: string
    var todoId: int           // the commented todo, by id
    var userId: int           // the commenter, by id
    const createdAt: int      // set once, when the entity is created

    constructor (content: string, todoId: int, userId: int, now: int)
      ensures this.id == None && this.content == content
      ensures this.todoId == todoId && this.userId == userId && this.createdAt == now
    {
      this.id := None;
      this.content := content;
      this.todoId := todoId;
      this.userId := userId;
      this.createdAt := now;
    }

    /** The entity materialised from a stored row. */
    constructor Load(row: CommentRow)
      ensures id == Some(row.id) && Row() == row
    {
      id := Some(row.id);
      content := row.content;
      todoId := row.todoId;
      userId := row.userId;
      createdAt := row.createdAt;
    }

    function Row(): CommentRow
      reads this
      requires id.Some?
    {
      CommentRow(id.value, content, todoId, userId, createdAt)
    }

    /** Only the commenter may change or delete a comment. */
    function CheckPermission(userId: int): (ok: bool)
      reads this
      ensures ok <==> this.userId == userId
    {
      this.userId == userId
    }

    /** Replaces the content and nothing else. */
    method UpdateComment(content: string)
      modifies this`content
      ensures this.content == content
    {
      this.content := content;
    }
  }
}
