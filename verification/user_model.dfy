/** The `User` collection: admins and the college tenants they provision.
    The schema is a validity predicate; its conditional `required` rules
    depend on the role alone. */
module UserModel {
  import opened Common
  import opened PasswordDigest

  /** A document id (a MongoDB ObjectId). */
  type Id = nat

  datatype User = User(
    id: Id,
    email: string,
    password: PasswordHash,
    role: string,
    collegeName: Option<string>,
    createdBy: Option<Id>)

  const AdminRole := "admin"
  const CollegeRole := "college"

  /** The `enum` of the role field. */
  predicate IsRole(role: string) {
    role == AdminRole || role == CollegeRole
  }

  /** The `required` callback of both `collegeName` and `createdBy`. */
  predicate RequiredForRole(role: string) {
    role == CollegeRole
  }

  /** A string field passes mongoose's `required` check when it is non-empty. */
  predicate PresentString(v: Option<string>) {
    Truthy(v)
  }

  /** One document passes the schema's validators. */
  predicate UserSchemaValid(u: User) {
    && u.email != ""
    && IsRole(u.role)
    && (RequiredForRole(u.role) ==> PresentString(u.collegeName))
    && (RequiredForRole(u.role) ==> u.createdBy.Some?)
  }

  /** The unique index on `email`. */
  predicate EmailsUnique(users: seq<User>) {
    forall i, j :: 0 <= i < j < |users| ==> users[i].email != users[j].email
  }

  /** `_id` is the primary key. */
  predicate IdsUnique(users: seq<User>) {
    forall i, j :: 0 <= i < j < |users| ==> users[i].id != users[j].id
  }

  /** Elements of a list with unique ids are determined by their id. */
  lemma SameIdSameUser(users: seq<User>, u: User, v: User)
    requires IdsUnique(users) && u in users && v in users && u.id == v.id
    ensures u == v
  {
    var i :| 0 <= i < |users| && users[i] == u;
    var j :| 0 <= j < |users| && users[j] == v;
    assert forall a, b :: 0 <= a < |users| && 0 <= b < |users| && a != b ==> users[a].id != users[b].id by {
      forall a, b | 0 <= a < |users| && 0 <= b < |users| && a != b ensures users[a].id != users[b].id {
        if a < b {
          assert users[a].id != users[b].id;
        } else {
          assert users[b].id != users[a].id;
        }
      }
    }
  }

  /** `User.findOne({ email })`: the first user with exactly that email. */
  function FindUserByEmail(users: seq<User>, email: string): (r: Option<User>)
    ensures r.Some? ==> r.value in users && r.value.email == email
    ensures r.None? <==> forall u :: u in users ==> u.email != email
    decreases |users|
  {
    if users == [] then None
    else if users[0].email == email then Some(users[0])
    else
      assert users == [users[0]] + users[1..];
      FindUserByEmail(users[1..], email)
  }

  /** With unique emails, the user found is the only one with that email. */
  lemma FoundUserIsTheOne(users: seq<User>, email: string, u: User)
    requires EmailsUnique(users)
    requires u in users && u.email == email
    ensures FindUserByEmail(users, email) == Some(u)
  {
    var f := FindUserByEmail(users, email).value;
    var i :| 0 <= i < |users| && users[i] == u;
    var j :| 0 <= j < |users| && users[j] == f;
    if i < j {
      assert users[i].email != users[j].email;
    } else if j < i {
      assert users[j].email != users[i].email;
    }
  }

  /** The conditional fields are required exactly for colleges: a valid
      college always has both, and an admin is valid with neither. */
  lemma ConditionalFieldsFollowRole(u: User)
    requires u.email != "" && IsRole(u.role)
    ensures u.role == CollegeRole ==> (UserSchemaValid(u) <==> PresentString(u.collegeName) && u.createdBy.Some?)
    ensures u.role == AdminRole ==> UserSchemaValid(u)
  {
  }

  /** No role outside the enum is ever valid, whatever the other fields hold. */
  lemma RoleOutsideEnumInvalid(u: User)
    requires !IsRole(u.role)
    ensures !UserSchemaValid(u)
  {
  }
}
