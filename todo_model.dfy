/** The `Todo` entity and the `ThumbUp` reaction record. */
module TodoModel {
  import opened Wrappers

  /** What a saved todo looks like as a row of the todo table. */
  datatype TodoRow = TodoRow(id: int, title: string, description: string, isCompleted: bool, userId: int, createdAt: int)

  /** A thumb-up links one user to one todo; it is never changed after it is
      saved, so it is a value. */
  datatype ThumbUp = ThumbUp(id: int, userId: int, todoId: int)

  class Todo {
    var id: Option<int>          // assigned by the store on save
    var title: string
    var description: string
    var isCompleted: bool
    var userId: int              // the owning user, by id
    const createdAt: int         // set once, when the entity is created

    /** A new todo is not completed and has no id yet. */
    constructor (title: string, description: string, userId: int, now: int)
      ensures this.id == None && this.isCompleted == false
      ensures this.title == title && this.description == description
      ensures this.userId == userId && this.createdAt == now
    {
      this.id := None;
      this.title := title;
      this.description := description;
      this.isCompleted := false;
      this.userId := userId;
      this.createdAt := now;
    }

    /** The entity materialised from a stored row. */
    constructor Load(row: TodoRow)
      ensures id == Some(row.id) && Row() == row
    {
      id := Some(row.id);
      title := row.title;
      description := row.description;
      isCompleted := row.isCompleted;
      userId := row.userId;
      createdAt := row.createdAt;
    }

    function Row(): TodoRow
      reads this
      requires id.Some?
    {
      TodoRow(id.value, title, description, isCompleted, userId, createdAt)
    }

    /** Replaces title and description; completion, owner and id
        are outside the frame and so stay as they were. */
    method UpdateTodo(title: string, description: string)
      modifies this`title, this`description
      ensures this.title == title && this.description == description
    {
      this.title := title;
      this.description := description;
    }

    /** Flips the completion flag and nothing else. */
    method ToggleTodo()
      modifies this`isCompleted
      ensures isCompleted == !old(isCompleted)
    {
      isCompleted := !isCompleted;
    }

    /** Only the owner may change, toggle or delete a todo. */
    function CheckPermission(userId: int): (ok: bool)
      reads this
      ensures ok <==> this.userId == userId
    {
      this.userId == userId
    }
  }

  /** Toggling twice restores the completion flag. */
  method ToggleTwice(t: Todo)
    modifies t`isCompleted
    ensures t.isCompleted == old(t.isCompleted)
  {
    t.ToggleTodo();
    t.ToggleTodo();
  }
}
