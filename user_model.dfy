/** The `User` entity. */
module UserModel {
  import opened Wrappers

  /** What a saved user looks like as a row of the user table. */
  datatype UserRow = UserRow(id: int, nickname: string, password: string, name: string, profileImage: Option<string>)

  class User {
    var id: Option<int>          // assigned by the store on save
    var nickname: string         // unique, used to log in
    var password: string         // the encoded password
    var name: string             // display name
    var profileImage: Option<string>

    constructor (nickname: string, password: string, name: string, profileImage: Option<string>)
      ensures this.id == None
      ensures this.nickname == nickname && this.password == password && this.name == name
      ensures this.profileImage == profileImage
    {
      this.id := None;
      this.nickname := nickname;
      this.password := password;
      this.name := name;
      this.profileImage := profileImage;
    }

    /** The entity materialised from a stored row. */
    constructor Load(row: UserRow)
      ensures id == Some(row.id) && Row() == row
    {
      id := Some(row.id);
      nickname := row.nickname;
      password := row.password;
      name := row.name;
      profileImage := row.profileImage;
    }

    function Row(): UserRow
      reads this
      requires id.Some?
    {
      UserRow(id.value, nickname, password, name, profileImage)
    }

    /** A caller may act on a user account only when it is their own; an
        unsaved user (no id) belongs to nobody. */
    function CheckPermission(userId: int): (ok: bool)
      reads this
      ensures ok <==> id == Some(userId)
    {
      id == Some(userId)
    }

    /** Replaces the profile image and nothing else. */
    method UpdateProfileImage(url: Option<string>)
      modifies this`profileImage
      ensures profileImage == url
    {
      profileImage := url;
    }
  }
}
