/** The response records the services and the repository hand back, built
    from stored rows. The user a row points at is looked up in the user
    table; under the schema's reference integrity that lookup never misses. */
module Responses {
  import opened Wrappers
  import opened UserModel
  import opened TodoModel
  import opened CommentModel
  import opened Schema

  datatype CommentResponse = CommentResponse(id: int, content: string, nickname: string, createdAt: int)

  datatype TodoResponse = TodoResponse(
    id: int, nickname: string, title: string, description: string,
    isCompleted: bool, thumbUpCount: nat, createdAt: int, comments: seq<CommentResponse>)

  datatype TodoResponseWithComments = TodoResponseWithComments(
    id: int, name: string, title: string, description: string,
    isCompleted: bool, thumbUpCount: nat, createdAt: int, comments: seq<CommentResponse>)

  datatype UserResponse = UserResponse(id: int, nickname: string, name: string, profileImageUrl: Option<string>)

  /** The nickname of the user `userId` (empty if there is none). */
  function NicknameOf(users: seq<UserRow>, userId: int): string {
    match FindUser(users, userId)
    case Some(u) => u.nickname
    case None => ""
  }

  /** The name of the user `userId` (empty if there is none). */
  function NameOf(users: seq<UserRow>, userId: int): string {
    match FindUser(users, userId)
    case Some(u) => u.name
    case None => ""
  }

  function CommentResponseFrom(users: seq<UserRow>, c: CommentRow): CommentResponse {
    CommentResponse(c.id, c.content, NicknameOf(users, c.userId), c.createdAt)
  }

  function CommentResponses(users: seq<UserRow>, cs: seq<CommentRow>): seq<CommentResponse> {
    seq(|cs|, i requires 0 <= i < |cs| => CommentResponseFrom(users, cs[i]))
  }

  /** `TodoResponse.from(todo, count)`: the owner's nickname, the given
      thumb-up count and the todo's comments. */
  function TodoResponseFrom(t: Tables, r: TodoRow, count: nat): TodoResponse {
    TodoResponse(r.id, NicknameOf(t.users, r.userId), r.title, r.description, r.isCompleted,
                 count, r.createdAt, CommentResponses(t.users, CommentsOf(t.comments, r.id)))
  }

  /** `TodoResponseWithComments.from(todo, count)`: the owner's name instead
      of the nickname. */
  function TodoResponseWithCommentsFrom(t: Tables, r: TodoRow, count: nat): TodoResponseWithComments {
    TodoResponseWithComments(r.id, NameOf(t.users, r.userId), r.title, r.description, r.isCompleted,
                             count, r.createdAt, CommentResponses(t.users, CommentsOf(t.comments, r.id)))
  }

  function UserResponseFrom(u: UserRow): UserResponse {
    UserResponse(u.id, u.nickname, u.name, u.profileImage)
  }
}
