# TodoImproved core in Dafny

This project models the core of TodoImproved, a Kotlin/Spring todo service. Users sign up and log in with a nickname. They create, edit, complete and delete todos, comment on them, and give a todo at most one thumb-up each.

The model covers:
- the paged todo listing and search of the todo repository (conditions, sort resolution, offset/limit window, thumb-up counts, page metadata);
- the cascading todo delete;
- the todo, comment and user services with their existence and ownership checks, in the order the code makes them;
- the entity mutators;
- bearer-token extraction;
- the role-to-authority mapping of the security principal.

The database is a `Persistence.Store` object. It holds one sequence of rows per table plus one id counter per table. Its invariant `Valid()` says:
- ids are unique;
- nicknames are unique;
- there is at most one thumb-up per user and todo;
- every foreign key resolves;
- every id is below its counter.

Repository lookups load fresh entity objects (`Todo`, `Comment`, `User` are classes with the mutable fields of the Kotlin entities). Entity methods change the loaded object. A flush writes the row back, as JPA's dirty check does when a `@Transactional` method commits.

Each state-changing service operation appears twice:
- a method on the store, proved to leave exactly the tables and to return exactly the answer of an outcome function of the old tables;
- the outcome function itself, whose contract states the refusals and the effect. The lemmas beside it relate the operations to each other: read-back after write, toggle twice, cancel after thumb-up, delete then read, sign up then log in.

Read-only operations (`getTodo`, `getComment`, `checkDuplicateNickname`, the lookup of `login`, `getUser`, both repository queries) are functions over the tables.

Modules, in dependency order:
- `Wrappers`, `Errors`: `Option`/`Result`, and the four exceptions with their message formats.
- `Text`: ASCII case folding, substring search, lexicographic order.
- `UserModel`, `TodoModel`, `CommentModel`: the entities.
- `Schema`: tables as values, derived queries, integrity, row-level deletes.
- `Persistence`: the store.
- `Responses`: the response records.
- `TodoQuery`: `findAllTodo`, `searchTodos`.
- `TodoService`, `CommentService`, `UserService`: the services.
- `Security`: `getBearerToken`, `UserPrincipal`.

Where the repository's files disagree with each other, the model follows the call sites:
- `TodoResponse.from` is declared with one argument (TodoResponse.kt:18) but called with a todo and a thumb-up count (TodoServiceImpl.kt:61). The declared version reads a `thumbUps` field that `Todo` does not have. The model's `TodoResponseFrom` takes the count and, like the declared version, carries the todo's comments.
- `Comment.kt` names its text field `comment`, while the services and `CommentResponse` use `content`. The model uses `content`.
- `UserResponse.from` reads `user.profileImageUrl`, while `User.kt` has `profileImage`. The model's row field is `profileImage`, and the response field is `profileImageUrl`.
- `SignUpRequest` declares no `name` (SignUpRequest.kt:3-8), while its tests build it with `name` and `profileImageUrl`, and `User` requires a name. `SignUpRequest.toEntity` is not part of this model. `UserService.SignUpRequest` follows the tests, and the stored user is nickname, encoded password, name and profile image.
- `User.checkPermission`, `User.updateProfileImage`, `Comment.checkPermission` and `Comment.updateComment` are called by the services but not declared in User.kt or Comment.kt. They are assumed to mirror `Todo.checkPermission` and `Todo.updateTodo`.
- The filter calls the `UserPrincipal` constructor with `userNickname =`, while the declared parameter is `userIdentifier`. The model keeps `userIdentifier`.
- A repeated thumb-up, and a cancel with nothing to cancel, are refused with `IllegalArgumentException` (TodoServiceImpl.kt:92, 105), which is answered 400, not 409.

## Model

| member | source | states |
|---|---|---|
| Text.Lower | src/main/kotlin/moomoo/todoimproved/domain/todo/repository/TodoRepositoryImpl.kt:124 | lower-casing keeps the length and folds each char by itself (A-Z to a-z, others unchanged) |
| Text.ContainsIffOccurs | src/main/kotlin/moomoo/todoimproved/domain/todo/repository/TodoRepositoryImpl.kt:124 | the left-to-right substring scan succeeds exactly when the pattern occurs at some position |
| Text.ContainsEmpty | src/main/kotlin/moomoo/todoimproved/domain/todo/repository/TodoRepositoryImpl.kt:122-128 | an empty title filter matches every title |
| Text.StringLessIrreflexive | src/main/kotlin/moomoo/todoimproved/domain/todo/repository/TodoRepositoryImpl.kt:71 | the title order never puts a title before itself |
| Text.StringLessTransitive | src/main/kotlin/moomoo/todoimproved/domain/todo/repository/TodoRepositoryImpl.kt:71 | the title order is transitive |
| Text.StringLessTotal | src/main/kotlin/moomoo/todoimproved/domain/todo/repository/TodoRepositoryImpl.kt:71 | any two different titles are ordered one way or the other |
| TodoModel.Todo.constructor | src/main/kotlin/moomoo/todoimproved/domain/todo/model/Todo.kt:9-24 | a new todo has no id, is not completed, and carries the given title, description, owner and creation time |
| TodoModel.Todo.Load | src/main/kotlin/moomoo/todoimproved/domain/todo/model/Todo.kt:9-24 | a todo loaded from a stored row has that row's id and fields |
| TodoModel.Todo.UpdateTodo | src/main/kotlin/moomoo/todoimproved/domain/todo/model/Todo.kt:26-29 | title and description take the new values; only those two fields may change |
| TodoModel.Todo.ToggleTodo | src/main/kotlin/moomoo/todoimproved/domain/todo/model/Todo.kt:31-33 | the completion flag is negated; nothing else may change |
| TodoModel.ToggleTwice | src/main/kotlin/moomoo/todoimproved/domain/todo/model/Todo.kt:31-33 | toggling twice restores the completion flag |
| TodoModel.Todo.CheckPermission | src/main/kotlin/moomoo/todoimproved/domain/todo/model/Todo.kt:35-37 | true exactly when the owner's id equals the caller's id |
| CommentModel.Comment.constructor | src/main/kotlin/moomoo/todoimproved/domain/comment/service/CommentServiceImpl.kt:40 | a new comment has no id and carries the content, its todo, its author and its creation time |
| CommentModel.Comment.Load | src/main/kotlin/moomoo/todoimproved/domain/comment/service/CommentServiceImpl.kt:52 | a comment loaded from a stored row has that row's id and fields |
| CommentModel.Comment.CheckPermission | src/main/kotlin/moomoo/todoimproved/domain/comment/service/CommentServiceImpl.kt:53 | true exactly when the author's id equals the caller's id |
| CommentModel.Comment.UpdateComment | src/main/kotlin/moomoo/todoimproved/domain/comment/service/CommentServiceImpl.kt:54 | the content takes the new value; only the content may change |
| UserModel.User.constructor | src/main/kotlin/moomoo/todoimproved/domain/user/model/User.kt:8-19 | a new user has no id and carries nickname, password, name and profile image |
| UserModel.User.Load | src/main/kotlin/moomoo/todoimproved/domain/user/model/User.kt:8-19 | a user loaded from a stored row has that row's id and fields |
| UserModel.User.CheckPermission | src/main/kotlin/moomoo/todoimproved/domain/user/service/UserServiceImpl.kt:61 | true exactly when the user's id is the caller's id |
| UserModel.User.UpdateProfileImage | src/main/kotlin/moomoo/todoimproved/domain/user/service/UserServiceImpl.kt:74 | the profile image takes the new value; only it may change |
| Schema.FindUser | src/main/kotlin/moomoo/todoimproved/domain/todo/service/TodoServiceImpl.kt:53 | `findByIdOrNull` on users: a stored user with that id, and none exactly when no user has it |
| Schema.FindUserByNickname | src/main/kotlin/moomoo/todoimproved/domain/user/service/UserServiceImpl.kt:40 | a stored user with that nickname, and none exactly when no user has it |
| Schema.ExistsByNickname | src/main/kotlin/moomoo/todoimproved/domain/user/service/UserServiceImpl.kt:26 | true exactly when some user has the nickname |
| Schema.FindTodo | src/main/kotlin/moomoo/todoimproved/domain/todo/service/TodoServiceImpl.kt:36 | a stored todo with that id, and none exactly when no todo has it |
| Schema.FindByIdAndTodoId | src/main/kotlin/moomoo/todoimproved/domain/comment/repository/CommentRepository.kt:7 | a stored comment with both that id and that todo id, and none exactly when no comment matches both |
| Schema.FindThumbUpIndex | src/main/kotlin/moomoo/todoimproved/domain/todo/repository/thumbup/ThumbUpRepository.kt:9 | the position of a thumb-up of that user on that todo, and none exactly when there is no such thumb-up |
| Schema.ExistsByUserIdAndTodoId | src/main/kotlin/moomoo/todoimproved/domain/todo/repository/thumbup/ThumbUpRepository.kt:10 | true exactly when a thumb-up of that user on that todo exists |
| Schema.CountByTodoId | src/main/kotlin/moomoo/todoimproved/domain/todo/repository/thumbup/ThumbUpRepository.kt:11 | the count is zero exactly when no thumb-up references the todo, all exactly when all do, never more than the table |
| Schema.CountPlusOthers | src/main/kotlin/moomoo/todoimproved/domain/todo/repository/thumbup/ThumbUpRepository.kt:11 | the thumb-ups counted for a todo and those the cascade keeps (TodoRepositoryImpl.kt:115) add up to the whole table |
| Schema.CommentsOf | src/main/kotlin/moomoo/todoimproved/domain/todo/model/Todo.kt:19-20 | the todo's comment list holds exactly the stored comments whose todo is that one |
| Schema.ThumbUpsNotOf | src/main/kotlin/moomoo/todoimproved/domain/todo/repository/TodoRepositoryImpl.kt:115 | the kept thumb-ups are exactly those of other todos |
| Schema.CommentsNotOf | src/main/kotlin/moomoo/todoimproved/domain/todo/repository/TodoRepositoryImpl.kt:117 | the kept comments are exactly those of other todos |
| Schema.TodosExcept | src/main/kotlin/moomoo/todoimproved/domain/todo/repository/TodoRepositoryImpl.kt:119 | the kept todos are exactly those with another id |
| Schema.ThumbUpsExcept | src/main/kotlin/moomoo/todoimproved/domain/todo/service/TodoServiceImpl.kt:104 | deleting a thumb-up entity keeps exactly the thumb-ups with another id |
| Schema.CommentsExcept | src/main/kotlin/moomoo/todoimproved/domain/comment/service/CommentServiceImpl.kt:62 | deleting a comment entity keeps exactly the comments with another id |
| Schema.AddUserKeepsIntegrity | src/main/kotlin/moomoo/todoimproved/domain/user/service/UserServiceImpl.kt:25-28 | saving a user with a fresh id and an unused nickname keeps ids and nicknames unique and references resolving |
| Schema.AddTodoKeepsIntegrity | src/main/kotlin/moomoo/todoimproved/domain/todo/service/TodoServiceImpl.kt:53-60 | saving a todo with a fresh id whose owner exists keeps the tables well-formed |
| Schema.AddCommentKeepsIntegrity | src/main/kotlin/moomoo/todoimproved/domain/comment/service/CommentServiceImpl.kt:35-41 | saving a comment with a fresh id whose todo and author exist keeps the tables well-formed |
| Schema.UpdateTodoKeepsIntegrity | src/main/kotlin/moomoo/todoimproved/domain/todo/model/Todo.kt:26-33 | rewriting a todo row with its id and owner unchanged keeps the tables well-formed |
| Schema.UpdateCommentKeepsIntegrity | src/main/kotlin/moomoo/todoimproved/domain/comment/service/CommentServiceImpl.kt:54 | rewriting a comment row with its id, todo and author unchanged keeps the tables well-formed |
| Schema.UpdateUserKeepsIntegrity | src/main/kotlin/moomoo/todoimproved/domain/user/service/UserServiceImpl.kt:74 | rewriting a user row with its id and nickname unchanged keeps the tables well-formed |
| Schema.DeleteCommentKeepsIntegrity | src/main/kotlin/moomoo/todoimproved/domain/comment/service/CommentServiceImpl.kt:62 | deleting a comment keeps the tables well-formed, since nothing references a comment |
| Schema.DeleteThumbUpKeepsIntegrity | src/main/kotlin/moomoo/todoimproved/domain/todo/service/TodoServiceImpl.kt:104 | deleting a thumb-up keeps the tables well-formed |
| Schema.ThumbUpsNotOfKeepsIntegrity | src/main/kotlin/moomoo/todoimproved/domain/todo/repository/TodoRepositoryImpl.kt:115 | the first cascade step keeps the tables well-formed |
| Schema.CommentsNotOfKeepsIntegrity | src/main/kotlin/moomoo/todoimproved/domain/todo/repository/TodoRepositoryImpl.kt:117 | the second cascade step keeps the tables well-formed |
| Schema.UnreferencedTodoDeleteKeepsIntegrity | src/main/kotlin/moomoo/todoimproved/domain/todo/repository/TodoRepositoryImpl.kt:119 | a todo that no comment or thumb-up references can be deleted keeping the tables well-formed |
| Schema.CascadeKeepsIntegrity | src/main/kotlin/moomoo/todoimproved/domain/todo/repository/TodoRepositoryImpl.kt:114-120 | after each of the three deletes, in the code's order, all ids stay unique and every reference resolves |
| Schema.TodoFirstLeavesDanglingComment | src/main/kotlin/moomoo/todoimproved/domain/todo/repository/TodoRepositoryImpl.kt:114-120 | deleting the todo before its comments would leave a dangling reference, so the order matters |
| Schema.CascadeKeepsConsistent | src/main/kotlin/moomoo/todoimproved/domain/todo/repository/TodoRepositoryImpl.kt:114-120 | the cascade keeps the whole store invariant, id counters included |
| Schema.AddThumbUpKeepsIntegrity | src/main/kotlin/moomoo/todoimproved/domain/todo/service/TodoServiceImpl.kt:91-99 | inserting a thumb-up after the duplicate check keeps at most one thumb-up per user and todo |
| Schema.CommentsExceptAt | src/main/kotlin/moomoo/todoimproved/domain/comment/service/CommentServiceImpl.kt:62 | with unique ids, deleting a comment by id removes exactly that row and keeps the others in order |
| Schema.TodosExceptAt | src/main/kotlin/moomoo/todoimproved/domain/todo/repository/TodoRepositoryImpl.kt:119 | with unique ids, deleting a todo by id removes exactly that row and keeps the others in order |
| Persistence.Store.LoadUser | src/main/kotlin/moomoo/todoimproved/domain/todo/service/TodoServiceImpl.kt:53 | a fresh user object whose fields are the stored row, or none when the id is absent |
| Persistence.Store.LoadUserByNickname | src/main/kotlin/moomoo/todoimproved/domain/user/service/UserServiceImpl.kt:40 | a fresh user object for the stored row with that nickname, or none |
| Persistence.Store.LoadTodo | src/main/kotlin/moomoo/todoimproved/domain/todo/service/TodoServiceImpl.kt:66 | a fresh todo object whose fields are the stored row, or none when the id is absent |
| Persistence.Store.LoadCommentByIdAndTodoId | src/main/kotlin/moomoo/todoimproved/domain/comment/service/CommentServiceImpl.kt:52 | a fresh comment object for the stored row matching both ids, or none |
| Persistence.Store.SaveUser | src/main/kotlin/moomoo/todoimproved/domain/user/service/UserServiceImpl.kt:28 | the user gets the next id, its row is appended, and the invariant holds |
| Persistence.Store.SaveTodo | src/main/kotlin/moomoo/todoimproved/domain/todo/service/TodoServiceImpl.kt:60 | the todo gets the next id, its row is appended, and the invariant holds |
| Persistence.Store.SaveComment | src/main/kotlin/moomoo/todoimproved/domain/comment/service/CommentServiceImpl.kt:41 | the comment gets the next id, its row is appended, and the invariant holds |
| Persistence.Store.SaveThumbUp | src/main/kotlin/moomoo/todoimproved/domain/todo/service/TodoServiceImpl.kt:98-99 | the thumb-up gets the next id, is appended, and the invariant (one per user and todo) holds |
| Persistence.Store.FlushTodo | src/main/kotlin/moomoo/todoimproved/domain/todo/service/TodoServiceImpl.kt:64-71 | the changed todo replaces its own row and nothing else; the invariant holds |
| Persistence.Store.FlushComment | src/main/kotlin/moomoo/todoimproved/domain/comment/service/CommentServiceImpl.kt:45-57 | the changed comment replaces its own row and nothing else; the invariant holds |
| Persistence.Store.FlushUser | src/main/kotlin/moomoo/todoimproved/domain/user/service/UserServiceImpl.kt:66-77 | the changed user replaces its own row and nothing else; the invariant holds |
| Persistence.Store.DeleteThumbUp | src/main/kotlin/moomoo/todoimproved/domain/todo/service/TodoServiceImpl.kt:104 | only the thumb-up table changes, to the thumb-ups with another id |
| Persistence.Store.DeleteComment | src/main/kotlin/moomoo/todoimproved/domain/comment/service/CommentServiceImpl.kt:62 | only the comment table changes, to the comments with another id |
| Persistence.Store.DeleteTodoWithThumbUpsAndComments | src/main/kotlin/moomoo/todoimproved/domain/todo/repository/TodoRepositoryImpl.kt:114-120 | the tables become the three-step cascade of the old tables, and the invariant holds |
| TodoQuery.ResolveSort | src/main/kotlin/moomoo/todoimproved/domain/todo/repository/TodoRepositoryImpl.kt:68-76 | the key is the title exactly when the first order asks for `title`; ascending exactly when the first order is `createdAt` or `title` and ascending; otherwise newest first |
| TodoQuery.SearchSelects | src/main/kotlin/moomoo/todoimproved/domain/todo/repository/TodoRepositoryImpl.kt:122-152 | a todo is selected exactly when it is stored and meets every given condition: title contains ignoring case, owner's name equal, completion equal, created strictly after now minus the days |
| TodoQuery.NoConditionsSelectAll | src/main/kotlin/moomoo/todoimproved/domain/todo/repository/TodoRepositoryImpl.kt:122-152 | with all four parameters absent every todo is selected, in table order |
| TodoQuery.BeforeAsymmetric | src/main/kotlin/moomoo/todoimproved/domain/todo/repository/TodoRepositoryImpl.kt:68-76 | the listing order never puts two rows each before the other |
| TodoQuery.BeforeNegativelyTransitive | src/main/kotlin/moomoo/todoimproved/domain/todo/repository/TodoRepositoryImpl.kt:68-76 | "not listed before" is transitive, so the order is a strict weak order |
| TodoQuery.Insert | src/main/kotlin/moomoo/todoimproved/domain/todo/repository/TodoRepositoryImpl.kt:88 | inserting adds exactly the one row |
| TodoQuery.SortRows | src/main/kotlin/moomoo/todoimproved/domain/todo/repository/TodoRepositoryImpl.kt:88 | ordering permutes the rows |
| TodoQuery.InsertSorted | src/main/kotlin/moomoo/todoimproved/domain/todo/repository/TodoRepositoryImpl.kt:88 | inserting into an ordered list keeps it ordered |
| TodoQuery.SortRowsSorted | src/main/kotlin/moomoo/todoimproved/domain/todo/repository/TodoRepositoryImpl.kt:88 | the ordered rows are in the resolved order |
| TodoQuery.Window | src/main/kotlin/moomoo/todoimproved/domain/todo/repository/TodoRepositoryImpl.kt:86-87 | offset/limit yields min(limit, rows left) rows, the i-th being row offset + i |
| TodoQuery.Zip | src/main/kotlin/moomoo/todoimproved/domain/todo/repository/TodoRepositoryImpl.kt:109 | pairing by position yields as many responses as the shorter list, the i-th built from the i-th row and i-th count |
| TodoQuery.ZippedWindow | src/main/kotlin/moomoo/todoimproved/domain/todo/repository/TodoRepositoryImpl.kt:91-109 | because the count list uses the same rows and window, each listed todo is paired with its own thumb-up count |
| TodoQuery.PageOfKeepsTotal | src/main/kotlin/moomoo/todoimproved/domain/todo/repository/TodoRepositoryImpl.kt:111 | a page whose content fits what is left after its offset keeps the counted total |
| TodoQuery.WindowPage | src/main/kotlin/moomoo/todoimproved/domain/todo/repository/TodoRepositoryImpl.kt:109-111 | the page holds the window of the listed rows with their counts, and the full total |
| TodoQuery.IsLastIff | src/test/kotlin/moomoo/todoimproved/domain/todo/repository/TodoRepositoryTest.kt:54-81 | a page is the last exactly when (number + 1) * size reaches the total |
| TodoQuery.SearchTodosPage | src/main/kotlin/moomoo/todoimproved/domain/todo/repository/TodoRepositoryImpl.kt:51-112 | the total counts all selected rows, not the window; the content is the window of the selected rows in the resolved order, each with its own thumb-up count |
| TodoQuery.FindAllTodoPage | src/main/kotlin/moomoo/todoimproved/domain/todo/repository/TodoRepositoryImpl.kt:24-49 | the total counts every todo; the content is the window of all todos newest first, each with its own thumb-up count |
| TodoQuery.FindAllTodoIsUnfilteredSearch | src/main/kotlin/moomoo/todoimproved/domain/todo/repository/TodoRepositoryImpl.kt:24-49 | listing all todos is the search with no condition and no requested sort, whatever sort was requested |
| TodoQuery.SearchTodosOrdered | src/main/kotlin/moomoo/todoimproved/domain/todo/repository/TodoRepositoryImpl.kt:68-89 | page content is ordered by creation time or title, ascending or descending, as resolved |
| TodoQuery.TitleFilterSelectsOne | src/main/kotlin/moomoo/todoimproved/domain/todo/repository/TodoRepositoryImpl.kt:122-128 | a title that exactly one todo contains selects that todo alone |
| TodoQuery.TitleFilterSingleMatch | src/test/kotlin/moomoo/todoimproved/domain/todo/repository/TodoRepositoryTest.kt:154-170 | such a search in pages of six gives one row with its count, total 1, one page, which is the last |
| TodoQuery.TenTodosInPagesOfSix | src/test/kotlin/moomoo/todoimproved/domain/todo/repository/TodoRepositoryTest.kt:44-81 | ten todos in pages of six: page 0 holds 6 and is not last, page 1 holds 4 and is last, two pages in all |
| TodoService.GetTodo | src/main/kotlin/moomoo/todoimproved/domain/todo/service/TodoServiceImpl.kt:35-39 | fails with Todo-not-found exactly when the id is absent; otherwise the todo's fields, its owner's name, its thumb-up count and the responses of its comments in table order |
| TodoService.CreateTodoOutcome | src/main/kotlin/moomoo/todoimproved/domain/todo/service/TodoServiceImpl.kt:51-62 | an unknown caller is refused with User-not-found and nothing changes; otherwise one not-completed todo of the caller is appended and answered with count 0 |
| TodoService.CreatedTodoIsFresh | src/main/kotlin/moomoo/todoimproved/domain/todo/service/TodoServiceImpl.kt:55-61 | the new todo is found under the next id, with no comments and no thumb-ups |
| TodoService.CreateTodo | src/main/kotlin/moomoo/todoimproved/domain/todo/service/TodoServiceImpl.kt:51-62 | the store ends as the outcome's tables and the answer is the outcome's |
| TodoService.UpdateTodoOutcome | src/main/kotlin/moomoo/todoimproved/domain/todo/service/TodoServiceImpl.kt:64-71 | missing todo, then non-owner, are refused with nothing changed; otherwise title and description are replaced and completion and count are reported |
| TodoService.UpdateTodoChangesOnlyThatTodo | src/main/kotlin/moomoo/todoimproved/domain/todo/service/TodoServiceImpl.kt:64-71 | after an edit the todo reads back with only title and description changed; every other row of every table stays |
| TodoService.UpdateTodo | src/main/kotlin/moomoo/todoimproved/domain/todo/service/TodoServiceImpl.kt:64-71 | the store ends as the outcome's tables and the answer is the outcome's |
| TodoService.ToggleTodoOutcome | src/main/kotlin/moomoo/todoimproved/domain/todo/service/TodoServiceImpl.kt:73-80 | the same refusals; otherwise the completion flag is the negation of the stored one |
| TodoService.ToggleTodoTwiceRestores | src/main/kotlin/moomoo/todoimproved/domain/todo/service/TodoServiceImpl.kt:73-80 | a second toggle is allowed and restores the tables |
| TodoService.ToggledTodoIsStored | src/main/kotlin/moomoo/todoimproved/domain/todo/service/TodoServiceImpl.kt:73-80 | after a toggle the stored todo reads back with only its completion flag negated; every other row of every table stays |
| TodoService.ToggleTodo | src/main/kotlin/moomoo/todoimproved/domain/todo/service/TodoServiceImpl.kt:73-80 | the store ends as the outcome's tables and the answer is the outcome's |
| TodoService.DeleteTodoOutcome | src/main/kotlin/moomoo/todoimproved/domain/todo/service/TodoServiceImpl.kt:82-88 | the existence and ownership checks come before any delete; only the owner triggers the cascade |
| TodoService.DeletedTodoIsGone | src/main/kotlin/moomoo/todoimproved/domain/todo/service/TodoServiceImpl.kt:82-88 | afterwards the todo is not found and has no comments or thumb-ups; other todos, their comments and thumb-ups, and all users stay |
| TodoService.DeleteTodo | src/main/kotlin/moomoo/todoimproved/domain/todo/service/TodoServiceImpl.kt:82-88 | the store ends as the outcome's tables and the answer is the outcome's |
| TodoService.ThumbUpTodoOutcome | src/main/kotlin/moomoo/todoimproved/domain/todo/service/TodoServiceImpl.kt:90-100 | a duplicate is refused first (illegal argument), then a missing user, then a missing todo; otherwise exactly one thumb-up is appended |
| TodoService.SecondThumbUpRefused | src/main/kotlin/moomoo/todoimproved/domain/todo/service/TodoServiceImpl.kt:91-92 | a second thumb-up by the same user on the same todo is refused and changes nothing |
| TodoService.ThumbUpTodoKeepsConsistent | src/main/kotlin/moomoo/todoimproved/domain/todo/service/TodoServiceImpl.kt:91-99 | a thumb-up keeps the store invariant, in particular at most one thumb-up per user and todo |
| TodoService.ThumbUpTodo | src/main/kotlin/moomoo/todoimproved/domain/todo/service/TodoServiceImpl.kt:90-100 | the store ends as the outcome's tables and the answer is the outcome's |
| TodoService.CancelThumbUpTodoOutcome | src/main/kotlin/moomoo/todoimproved/domain/todo/service/TodoServiceImpl.kt:102-106 | refused with illegal argument exactly when there is no thumb-up to cancel; otherwise only the thumb-up table changes |
| TodoService.CancelRemovesExactlyOne | src/main/kotlin/moomoo/todoimproved/domain/todo/service/TodoServiceImpl.kt:102-106 | a cancel removes exactly that one thumb-up, keeps the rest in order, and leaves none for the pair |
| TodoService.CancelUndoesThumbUp | src/main/kotlin/moomoo/todoimproved/domain/todo/service/TodoServiceImpl.kt:90-106 | a thumb-up followed by its cancel restores the tables |
| TodoService.ThumbUpAgainAfterCancel | src/main/kotlin/moomoo/todoimproved/domain/todo/service/TodoServiceImpl.kt:90-106 | after a cancel the same thumb-up succeeds again |
| TodoService.CancelThumbUpTodo | src/main/kotlin/moomoo/todoimproved/domain/todo/service/TodoServiceImpl.kt:102-106 | the store ends as the outcome's tables and the answer is the outcome's |
| CommentService.GetCommentAsWritten | src/main/kotlin/moomoo/todoimproved/domain/comment/service/CommentServiceImpl.kt:24-28 | as written, fails with Comment-not-found exactly when no comment has the todo id as its id and the comment id as its todo; otherwise that comment's response |
| CommentService.GetComment | src/main/kotlin/moomoo/todoimproved/domain/comment/service/CommentServiceImpl.kt:24-28 | as intended, fails with Comment-not-found exactly when no comment has both ids; otherwise that comment |
| CommentService.GetCommentAsWrittenMissesExistingComment | src/main/kotlin/moomoo/todoimproved/domain/comment/service/CommentServiceImpl.kt:25 | comment 2 of todo 1 is found as intended but not found as written |
| CommentService.CommentsOfAppend | src/main/kotlin/moomoo/todoimproved/domain/comment/service/CommentServiceImpl.kt:40-42 | an appended comment is appended to its own todo's list and no other |
| CommentService.CreateCommentOutcome | src/main/kotlin/moomoo/todoimproved/domain/comment/service/CommentServiceImpl.kt:30-43 | a missing todo is refused first, then a missing user, with nothing changed; otherwise one comment of the caller on that todo is appended |
| CommentService.CreatedCommentIsReadable | src/main/kotlin/moomoo/todoimproved/domain/comment/service/CommentServiceImpl.kt:30-43 | the new comment reads back under its todo and new id, and is last in its todo's list |
| CommentService.CreateComment | src/main/kotlin/moomoo/todoimproved/domain/comment/service/CommentServiceImpl.kt:30-43 | the store ends as the outcome's tables and the answer is the outcome's |
| CommentService.UpdateCommentOutcome | src/main/kotlin/moomoo/todoimproved/domain/comment/service/CommentServiceImpl.kt:45-57 | a comment missing from that todo, then a non-author, are refused with nothing changed; otherwise the new content is reported |
| CommentService.UpdatedCommentReadsBack | src/main/kotlin/moomoo/todoimproved/domain/comment/service/CommentServiceImpl.kt:45-57 | the comment reads back with only its content changed; every other row stays |
| CommentService.UpdateComment | src/main/kotlin/moomoo/todoimproved/domain/comment/service/CommentServiceImpl.kt:45-57 | the store ends as the outcome's tables and the answer is the outcome's |
| CommentService.DeleteCommentOutcome | src/main/kotlin/moomoo/todoimproved/domain/comment/service/CommentServiceImpl.kt:59-64 | the same refusals; otherwise exactly the comments with that id are removed |
| CommentService.DeletedCommentIsGone | src/main/kotlin/moomoo/todoimproved/domain/comment/service/CommentServiceImpl.kt:59-64 | afterwards the comment is not found and every other comment stays |
| CommentService.DeleteComment | src/main/kotlin/moomoo/todoimproved/domain/comment/service/CommentServiceImpl.kt:59-64 | the store ends as the outcome's tables and the answer is the outcome's |
| UserService.SignUpOutcome | src/main/kotlin/moomoo/todoimproved/domain/user/service/UserServiceImpl.kt:24-30 | refused with the duplicate-nickname message exactly when the nickname is taken, with nothing changed; otherwise one user with the encoded password is appended and answered with the request's nickname |
| UserService.SignUp | src/main/kotlin/moomoo/todoimproved/domain/user/service/UserServiceImpl.kt:24-30 | the store ends as the outcome's tables and the answer is the outcome's |
| UserService.CheckDuplicateNickname | src/main/kotlin/moomoo/todoimproved/domain/user/service/UserServiceImpl.kt:32-36 | answers "already exists" exactly when the nickname is taken and "available" exactly when it is not |
| UserService.Login | src/main/kotlin/moomoo/todoimproved/domain/user/service/UserServiceImpl.kt:38-43 | an unknown nickname fails User-not-found with the nickname; a non-matching password fails Invalid-credential; otherwise the stored user with that nickname |
| UserService.UnknownNicknameMessage | src/main/kotlin/moomoo/todoimproved/domain/exception/ModelNotFoundException.kt:3-6 | the unknown-nickname message names the nickname as the id |
| UserService.WrongPasswordMessage | src/main/kotlin/moomoo/todoimproved/domain/exception/InvalidCredentialException.kt:3-7 | a wrong password fails with the fixed credential text, prefixed "Invalid Credential: " |
| UserService.SignedUpUserCanLogIn | src/main/kotlin/moomoo/todoimproved/domain/user/service/UserServiceImpl.kt:24-43 | after sign-up the user logs in with the same password, the nickname is reported taken, and a second sign-up is refused |
| UserService.GetUser | src/main/kotlin/moomoo/todoimproved/domain/user/service/UserServiceImpl.kt:59-64 | a missing user fails User-not-found, another caller fails Access-denied; otherwise the user's response |
| UserService.UpdateUserOutcome | src/main/kotlin/moomoo/todoimproved/domain/user/service/UserServiceImpl.kt:66-77 | the same refusals with nothing changed; otherwise the response carries the new image and the old nickname and name |
| UserService.UpdatedUserReadsBack | src/main/kotlin/moomoo/todoimproved/domain/user/service/UserServiceImpl.kt:66-77 | the user reads back with only the profile image changed; every other row stays |
| UserService.UpdateUser | src/main/kotlin/moomoo/todoimproved/domain/user/service/UserServiceImpl.kt:66-77 | the store ends as the outcome's tables and the answer is the outcome's |
| Security.RemovePrefix | src/main/kotlin/moomoo/todoimproved/infra/security/jwt/JwtAuthenticationFilter.kt:54 | a leading prefix is removed once, so prefix plus result is the input; otherwise the input is returned |
| Security.GetBearerToken | src/main/kotlin/moomoo/todoimproved/infra/security/jwt/JwtAuthenticationFilter.kt:52-55 | no header gives none; a token exactly when "Bearer " occurs somewhere; a leading "Bearer " is stripped, otherwise the whole header is returned |
| Security.BearerRoundTrip | src/main/kotlin/moomoo/todoimproved/infra/security/jwt/JwtAuthenticationFilter.kt:54 | "Bearer " followed by a token gives the token back |
| Security.BearerEdgeCases | src/main/kotlin/moomoo/todoimproved/infra/security/jwt/JwtAuthenticationFilter.kt:54 | "Basic Bearer x" is returned whole, "Bearer Bearer x" loses one prefix, "Bearer" gives none |
| Security.FromRoles | src/main/kotlin/moomoo/todoimproved/infra/security/UserPrincipal.kt:11-13 | id and identifier are kept; a role is present exactly when "ROLE_" + role is an authority, and every authority is "ROLE_" + some role |
| Security.AuthoritiesCount | src/main/kotlin/moomoo/todoimproved/infra/security/UserPrincipal.kt:12 | there are exactly as many authorities as roles |
| Security.FilterPrincipalHasNoAuthorities | src/main/kotlin/moomoo/todoimproved/infra/security/jwt/JwtAuthenticationFilter.kt:29 | the principal the filter builds with no roles has no authorities |

## Left out

- HTTP controllers, the exception-to-status handler, security configuration, Swagger and the timing aspect: framework wiring with no logic of its own. Errors are the `Errors.Error` datatype.
- Signing and validating tokens, the cookie and the token issued by `login`, and the security-context plumbing of the filter: `UserService.Login` stops at the user the token would be issued for.
- The password encoder: `encode` (sign-up) and `matches` (login) are parameters.
- The wall clock: `now` is an integer parameter in seconds, and a day is 86400 seconds. Time zones and sub-second precision are not modelled.
- Text.ContainsIgnoreCase: folds only the ASCII letters A-Z; the JDK's Unicode case folding is not modelled.
- Title ordering is by character code (`Text.StringLess`); database collation is not modelled.
- Sort ties: the database leaves the order of equal sort keys open. The model breaks ties by ascending id, in the row list and the count list alike, so the positional zip stays aligned.
- Transactions and concurrency: the model is sequential. The check-then-insert races of `thumbUpTodo` and `signUp` are not modelled.
- Bean Validation on request bodies (title and description lengths): enforced by the framework before the services run; the model accepts any strings.
- `Long` overflow of ids, counts and `daysAgo` days: integers are unbounded.
- The `getTodoList` and service-level `searchTodos` delegations: they forward to the repository and are modelled by `TodoQuery.FindAllTodo` and `TodoQuery.SearchTodos`.
- TodoService.CancelThumbUpTodoOutcome: its own contract states only the refusal and that the other tables stay; the exact removal is stated by `TodoService.CancelRemovesExactlyOne` under the store's uniqueness rules.
- Security.FromRoles: authorities are a set rather than a list; `Security.AuthoritiesCount` shows that no two roles collapse into one authority.
- Response records built from a row whose user is missing carry an empty nickname or name; under the store invariant this never happens.

## Findings

| source | as written | input that shows it | evidently intended | confidence | as-written member | corrected member |
|---|---|---|---|---|---|---|
| src/main/kotlin/moomoo/todoimproved/domain/comment/service/CommentServiceImpl.kt:25 | `getComment(todoId, commentId)` passes its ids to `findByIdAndTodoId(id, todoId)` in swapped order | a todo 1 with comment 2: `getComment(1, 2)` looks for comment 1 on todo 2 and fails with Comment-not-found | look up the comment with id `commentId` on todo `todoId`, as `updateComment` and `deleteComment` do | not executed | CommentService.GetCommentAsWritten, CommentService.GetCommentAsWrittenMissesExistingComment | CommentService.GetComment |
