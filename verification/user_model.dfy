/** The persisted shape of a user (server/src/models/User.ts) and the
    uniqueness the registration logic is meant to keep. The schema declares
    no unique index, so nothing below the resolver enforces it. */
module UserModel {

  type UserId = string

  /** A stored user: the store-assigned id plus the three schema fields.
      `password` holds whatever the registration stored, a hash. */
  datatype UserDoc = UserDoc(id: UserId, email: string, username: string, password: string)

  /** The user collection in the store's natural order, which is the order
      in which `findOne` scans it. */
  type Directory = seq<UserDoc>

  predicate IdTaken(users: Directory, id: UserId) {
    exists i :: 0 <= i < |users| && users[i].id == id
  }

  predicate UsernameTaken(users: Directory, username: string) {
    exists i :: 0 <= i < |users| && users[i].username == username
  }

  predicate EmailTaken(users: Directory, email: string) {
    exists i :: 0 <= i < |users| && users[i].email == email
  }

  /** Ids, usernames and emails are each unique across the directory. */
  predicate DirectoryInvariant(users: Directory) {
    forall i, j :: 0 <= i < j < |users| ==>
      && users[i].id != users[j].id
      && users[i].username != users[j].username
      && users[i].email != users[j].email
  }
}
