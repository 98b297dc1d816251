/** The user service: signing up, checking whether a nickname is taken,
    the lookup and password check of logging in, and reading or updating
    one's own profile. The password encoder is a parameter: `encode` for
    hashing at sign-up, `matches` for the check at login. */
module UserService {
  import opened Wrappers
  import opened Errors
  import opened UserModel
  import opened Schema
  import opened Responses
  import opened Persistence

  const DuplicateNickname := "중복된 닉네임입니다"
  const NicknameTaken := "이미 존재하는 닉네임입니다"
  const NicknameAvailable := "사용가능한 닉네임입니다"
  const CheckNicknameOrPassword := "닉네임 또는 패스워드를 확인해주세요"
  const NotThisUser := "You are not this User"

  /** The sign-up request as its callers build it; `confirmPassword` is
      carried but not compared by the service. */
  datatype SignUpRequest = SignUpRequest(
    nickname: string, password: string, confirmPassword: string, name: string, profileImageUrl: Option<string>)

  /** The tables a service call leaves behind, and its answer. */
  datatype Outcome<+T> = Outcome(tables: Tables, result: Result<T, Error>)

  // ------------------------------------------------------------------ signUp

  /** `signUp`: a taken nickname is refused; otherwise the user is stored
      under the next id with the encoded password. */
  function SignUpOutcome(t: Tables, newId: int, request: SignUpRequest, encode: string -> string): (o: Outcome<UserResponse>)
    ensures o.result.Failure? <==> request.nickname in Nicknames(t.users)
    ensures o.result.Failure? ==> o.tables == t && o.result.error == IllegalArgument(DuplicateNickname)
    ensures o.result.Success? ==>
      && o.tables == t.(users := t.users + [UserRow(newId, request.nickname, encode(request.password), request.name, request.profileImageUrl)])
      && o.result.value.id == newId && o.result.value.nickname == request.nickname
  {
    if ExistsByNickname(t.users, request.nickname) then Outcome(t, Failure(IllegalArgument(DuplicateNickname)))
    else
      var row := UserRow(newId, request.nickname, encode(request.password), request.name, request.profileImageUrl);
      Outcome(t.(users := t.users + [row]), Success(UserResponseFrom(row)))
  }

  method SignUp(db: Store, request: SignUpRequest, encode: string -> string) returns (r: Result<UserResponse, Error>)
    requires db.Valid()
    modifies db
    ensures db.Valid()
    ensures var o := SignUpOutcome(old(db.Snapshot()), old(db.nextUserId), request, encode);
      db.Snapshot() == o.tables && r == o.result
  {
    if ExistsByNickname(db.users, request.nickname) {
      return Failure(IllegalArgument(DuplicateNickname));
    }
    var user := new User(request.nickname, encode(request.password), request.name, request.profileImageUrl);
    db.SaveUser(user);
    r := Success(UserResponseFrom(user.Row()));
  }

  // ------------------------------------------------------------------ checkDuplicateNickname

  /** `checkDuplicateNickname`: a read-only answer naming whether the
      nickname is taken. */
  function CheckDuplicateNickname(t: Tables, nickname: string): (message: string)
    ensures message == NicknameTaken <==> nickname in Nicknames(t.users)
    ensures message == NicknameAvailable <==> nickname !in Nicknames(t.users)
  {
    if ExistsByNickname(t.users, nickname) then NicknameTaken else NicknameAvailable
  }

  // ------------------------------------------------------------------ login

  /** The lookup and password check of `login`: an unknown nickname, then a
      password that does not match the stored hash, are refused; otherwise
      the user the token is issued for. */
  function Login(t: Tables, nickname: string, password: string, matches: (string, string) -> bool): (r: Result<UserRow, Error>)
    ensures r.Failure? <==> nickname !in Nicknames(t.users) || !matches(password, FindUserByNickname(t.users, nickname).value.password)
    ensures nickname !in Nicknames(t.users) ==> r == Failure(ModelNotFound("User", ByName(nickname)))
    ensures nickname in Nicknames(t.users) && !matches(password, FindUserByNickname(t.users, nickname).value.password) ==>
      r == Failure(InvalidCredential(CheckNicknameOrPassword))
    ensures r.Success? ==> r.value in t.users && r.value.nickname == nickname
  {
    match FindUserByNickname(t.users, nickname)
    case None => Failure(ModelNotFound("User", ByName(nickname)))
    case Some(u) =>
      if !matches(password, u.password) then Failure(InvalidCredential(CheckNicknameOrPassword))
      else Success(u)
  }

  /** An unknown nickname is reported with the nickname itself as the id. */
  lemma UnknownNicknameMessage(t: Tables, nickname: string, password: string, matches: (string, string) -> bool)
    requires nickname !in Nicknames(t.users)
    ensures Message(Login(t, nickname, password, matches).error) == "User Not Found With Given Id: " + nickname
  {
    assert "User" + " Not Found With Given Id: " == "User Not Found With Given Id: ";
  }

  /** A wrong password is reported with one fixed text, whichever part of
      the credentials was wrong. */
  lemma WrongPasswordMessage(t: Tables, nickname: string, password: string, matches: (string, string) -> bool)
    requires nickname in Nicknames(t.users) && Login(t, nickname, password, matches).Failure?
    ensures Login(t, nickname, password, matches).error == InvalidCredential(CheckNicknameOrPassword)
    ensures Message(Login(t, nickname, password, matches).error) == "Invalid Credential: " + CheckNicknameOrPassword
  {
  }

  /** Once signed up, a user can log in with the same password (when the
      encoder accepts its own hash), and the nickname is reported taken. */
  lemma SignedUpUserCanLogIn(t: Tables, nextUserId: int, nextTodoId: int, nextCommentId: int, nextThumbUpId: int,
                             request: SignUpRequest, encode: string -> string, matches: (string, string) -> bool)
    requires Consistent(t, nextUserId, nextTodoId, nextCommentId, nextThumbUpId)
    requires SignUpOutcome(t, nextUserId, request, encode).result.Success?
    requires matches(request.password, encode(request.password))
    ensures var after := SignUpOutcome(t, nextUserId, request, encode).tables;
      && Login(after, request.nickname, request.password, matches).Success?
      && Login(after, request.nickname, request.password, matches).value.id == nextUserId
      && CheckDuplicateNickname(after, request.nickname) == NicknameTaken
      && SignUpOutcome(after, nextUserId + 1, request, encode).result == Failure(IllegalArgument(DuplicateNickname))
  {
    var after := SignUpOutcome(t, nextUserId, request, encode).tables;
    var row := after.users[|t.users|];
    assert row in after.users;
    forall j | 0 <= j < |t.users| ensures after.users[j].nickname != request.nickname {
      assert t.users[j] in t.users;
    }
    assert FindUserByNickname(after.users, request.nickname).value == row;
  }

  // ------------------------------------------------------------------ getUser, updateUser

  /** `getUser`: a missing user, then another caller, are refused. */
  function GetUser(t: Tables, principalId: int, userId: int): (r: Result<UserResponse, Error>)
    ensures userId !in UserIds(t.users) ==> r == Failure(ModelNotFound("User", ById(userId)))
    ensures userId in UserIds(t.users) && principalId != userId ==> r == Failure(AccessDenied(NotThisUser))
    ensures r.Success? <==> userId in UserIds(t.users) && principalId == userId
    ensures r.Success? ==> r.value == UserResponseFrom(FindUser(t.users, userId).value)
  {
    match FindUser(t.users, userId)
    case None => Failure(ModelNotFound("User", ById(userId)))
    case Some(u) =>
      if u.id != principalId then Failure(AccessDenied(NotThisUser))
      else Success(UserResponseFrom(u))
  }

  /** `updateUser`: the same refusals; otherwise only the profile image is
      replaced. */
  function UpdateUserOutcome(t: Tables, principalId: int, userId: int, profileImageUrl: Option<string>): (o: Outcome<UserResponse>)
    ensures o.result.Failure? ==> o.tables == t && o.result == GetUser(t, principalId, userId)
    ensures o.result.Success? <==> GetUser(t, principalId, userId).Success?
    ensures o.result.Success? ==>
      && o.result.value.id == userId && o.result.value.profileImageUrl == profileImageUrl
      && o.result.value.nickname == FindUser(t.users, userId).value.nickname
      && o.result.value.name == FindUser(t.users, userId).value.name
  {
    match FindUserIndex(t.users, userId)
    case None => Outcome(t, Failure(ModelNotFound("User", ById(userId))))
    case Some(k) =>
      var u := t.users[k];
      if u.id != principalId then Outcome(t, Failure(AccessDenied(NotThisUser)))
      else
        var u' := u.(profileImage := profileImageUrl);
        Outcome(t.(users := t.users[k := u']), Success(UserResponseFrom(u')))
  }

  /** After an update the user reads back with the new image and nothing
      else about the tables changed. */
  lemma UpdatedUserReadsBack(t: Tables, principalId: int, userId: int, profileImageUrl: Option<string>)
    requires UpdateUserOutcome(t, principalId, userId, profileImageUrl).result.Success?
    ensures var o := UpdateUserOutcome(t, principalId, userId, profileImageUrl);
      && GetUser(o.tables, principalId, userId) == o.result
      && FindUser(o.tables.users, userId) == Some(FindUser(t.users, userId).value.(profileImage := profileImageUrl))
      && |o.tables.users| == |t.users|
      && (forall u :: u in t.users && u.id != userId ==> u in o.tables.users)
      && o.tables.todos == t.todos && o.tables.comments == t.comments && o.tables.thumbUps == t.thumbUps
  {
    var k := FindUserIndex(t.users, userId).value;
    var s' := t.users[k := t.users[k].(profileImage := profileImageUrl)];
    assert s'[k] in s';
    forall j | 0 <= j < k ensures s'[j].id != userId {
      assert s'[j] == t.users[j];
    }
    var k' := FindUserIndex(s', userId).value;
    assert s'[k'].id == userId && s'[k].id == userId;
    forall u | u in t.users && u.id != userId ensures u in s' {
      var j :| 0 <= j < |t.users| && t.users[j] == u;
      assert s'[j] == u;
    }
  }

  method UpdateUser(db: Store, principalId: int, userId: int, profileImageUrl: Option<string>)
    returns (r: Result<UserResponse, Error>)
    requires db.Valid()
    modifies db`users
    ensures db.Valid()
    ensures var o := UpdateUserOutcome(old(db.Snapshot()), principalId, userId, profileImageUrl);
      db.Snapshot() == o.tables && r == o.result
  {
    var found := db.LoadUser(userId);
    if found.None? {
      return Failure(ModelNotFound("User", ById(userId)));
    }
    var user := found.value;
    if !user.CheckPermission(principalId) {
      return Failure(AccessDenied(NotThisUser));
    }
    user.UpdateProfileImage(profileImageUrl);
    var k := FindUserIndex(db.users, userId).value;
    db.FlushUser(user, k);
    r := Success(UserResponseFrom(user.Row()));
  }
}
