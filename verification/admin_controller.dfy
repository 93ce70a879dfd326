/** The admin's endpoints over college accounts: create one, list the ones
    this admin created, and delete one together with everything it owns.
    Every endpoint runs behind the authentication and admin-only guards. */
module AdminController {
  import opened Common
  import opened UserModel
  import opened Store
  import opened PasswordDigest

  /** The request body of `createCollege`, each field absent or a string. */
  datatype CollegeBody = CollegeBody(collegeName: Option<string>, email: Option<string>, password: Option<string>)

  /** The college as the create response shows it: no password. */
  datatype CollegeView = CollegeView(id: Id, email: string, collegeName: string)

  datatype CreateResponse =
    | CreateRejected(status: nat, message: string)
    | CollegeCreated(status: nat, message: string, college: CollegeView)

  /** A user document with the password deselected. */
  datatype PublicUser = PublicUser(id: Id, email: string, role: string, collegeName: Option<string>, createdBy: Option<Id>)

  datatype DeleteResponse =
    | DeleteRejected(status: nat, message: string)
    | CollegeDeleted(message: string, deletedCollege: Option<string>)

  const MissingFieldsMessage := "College name, email, and password are required"
  const DuplicateEmailMessage := "College with this email already exists"
  const NotOwnedMessage := "College not found or unauthorized"

  /** The admin guard lets only admins through. */
  predicate IsAdminRequester(u: User) {
    u.role == AdminRole && UserSchemaValid(u)
  }

  /** The account `createCollege` builds: the email as given, the password
      hashed as given, role college, created by the requester. */
  function NewCollege(id: Id, collegeName: string, email: string, password: string, creator: Id): User {
    User(id, email, Hash(password), CollegeRole, Some(collegeName), Some(creator))
  }

  /** Every account `createCollege` builds from truthy fields passes the
      user schema, whose conditional fields it fills; it stores no plaintext
      password. */
  lemma NewCollegeSchemaValid(id: Id, collegeName: string, email: string, password: string, creator: Id)
    requires collegeName != "" && email != ""
    ensures UserSchemaValid(NewCollege(id, collegeName, email, password, creator))
    ensures NewCollege(id, collegeName, email, password, creator).password == Hash(password)
    ensures RequiredForRole(NewCollege(id, collegeName, email, password, creator).role)
  {
  }

  /** `createCollege`. */
  method CreateCollege(db: Database, requester: User, body: CollegeBody) returns (resp: CreateResponse)
    requires db.Valid() && IsAdminRequester(requester)
    modifies db
    ensures db.Valid()
    ensures db.students == old(db.students) && db.links == old(db.links)
    ensures !(Truthy(body.collegeName) && Truthy(body.email) && Truthy(body.password)) ==>
              resp == CreateRejected(400, MissingFieldsMessage) && db.users == old(db.users)
    ensures Truthy(body.collegeName) && Truthy(body.email) && Truthy(body.password)
            && (exists u :: u in old(db.users) && u.email == body.email.value) ==>
              resp == CreateRejected(400, DuplicateEmailMessage) && db.users == old(db.users)
    ensures resp.CollegeCreated? <==>
              Truthy(body.collegeName) && Truthy(body.email) && Truthy(body.password)
              && forall u :: u in old(db.users) ==> u.email != body.email.value
    ensures resp.CollegeCreated? ==>
              && db.users == old(db.users) + [NewCollege(old(db.nextId), body.collegeName.value, body.email.value,
                                                         body.password.value, requester.id)]
              && resp == CollegeCreated(201, "College created successfully",
                                        CollegeView(old(db.nextId), body.email.value, body.collegeName.value))
  {
    if !Truthy(body.collegeName) || !Truthy(body.email) || !Truthy(body.password) {
      return CreateRejected(400, MissingFieldsMessage);
    }
    var email := body.email.value;
    var existing := FindUserByEmail(db.users, email);
    if existing.Some? {
      return CreateRejected(400, DuplicateEmailMessage);
    }
    var hashed := Hash(body.password.value);
    var college := User(db.nextId, email, hashed, CollegeRole, Some(body.collegeName.value), Some(requester.id));
    db.InsertUser(college);
    resp := CollegeCreated(201, "College created successfully", CollegeView(college.id, college.email, body.collegeName.value));
  }

  /** `select('-password')`. */
  function Public(u: User): PublicUser {
    PublicUser(u.id, u.email, u.role, u.collegeName, u.createdBy)
  }

  function OwnedCollege(adminId: Id): User -> bool {
    (u: User) => u.role == CollegeRole && u.createdBy == Some(adminId)
  }

  /** `getAllColleges`: the colleges this admin created, in store order,
      without their passwords. */
  function GetAllColleges(users: seq<User>, adminId: Id): (r: seq<PublicUser>)
    ensures |r| <= |users|
    ensures forall v :: v in r <==> exists u :: u in users && u.role == CollegeRole && u.createdBy == Some(adminId) && v == Public(u)
  {
    var owned := Filter(users, OwnedCollege(adminId));
    var r := seq(|owned|, i requires 0 <= i < |owned| => Public(owned[i]));
    assert forall v :: v in r ==> exists u :: u in owned && v == Public(u);
    assert forall u :: u in owned ==> Public(u) in r by {
      forall u | u in owned ensures Public(u) in r {
        var i :| 0 <= i < |owned| && owned[i] == u;
        assert r[i] == Public(u);
      }
    }
    r
  }

  /** `User.findOne({ _id, role: 'college', createdBy })`. */
  function FindOwnedCollege(users: seq<User>, collegeId: Id, adminId: Id): (r: Option<User>)
    ensures r.Some? ==> r.value in users && r.value.id == collegeId && OwnedCollege(adminId)(r.value)
    ensures r.None? <==> forall u :: u in users ==> !(u.id == collegeId && OwnedCollege(adminId)(u))
    decreases |users|
  {
    if users == [] then None
    else if users[0].id == collegeId && OwnedCollege(adminId)(users[0]) then Some(users[0])
    else
      assert users == [users[0]] + users[1..];
      FindOwnedCollege(users[1..], collegeId, adminId)
  }

  /** `deleteCollege`: 404 unless the id is a college this admin created;
      otherwise its students, its links and the account itself are removed. */
  method DeleteCollege(db: Database, requester: User, collegeId: Id) returns (resp: DeleteResponse)
    requires db.Valid() && IsAdminRequester(requester)
    modifies db
    ensures db.Valid()
    ensures db.nextId == old(db.nextId)
    ensures resp.DeleteRejected? <==> FindOwnedCollege(old(db.users), collegeId, requester.id).None?
    ensures resp.DeleteRejected? ==>
              && resp == DeleteRejected(404, NotOwnedMessage)
              && db.users == old(db.users) && db.students == old(db.students) && db.links == old(db.links)
    ensures resp.CollegeDeleted? ==>
              && resp.deletedCollege == FindOwnedCollege(old(db.users), collegeId, requester.id).value.collegeName
              && db.students == Filter(old(db.students), StudentOutsideTenant(collegeId))
              && db.links == Filter(old(db.links), LinkOutsideTenant(collegeId))
              && db.users == Filter(old(db.users), UserOtherThan(collegeId))
  {
    var college := FindOwnedCollege(db.users, collegeId, requester.id);
    if college.None? {
      return DeleteRejected(404, NotOwnedMessage);
    }
    db.DeleteStudentsOf(collegeId);
    db.DeleteLinksOf(collegeId);
    db.DeleteUser(collegeId);
    resp := CollegeDeleted("College and all related data deleted successfully", college.value.collegeName);
  }

  /** After the cascade no student or link refers to the deleted college,
      every record of another college is still there, and the account list
      shrinks by exactly the one deleted account. */
  lemma CascadeRemovesExactlyTheTenant(users: seq<User>, students: seq<Student>, links: seq<StudentLink>, id: Id)
    requires IdsUnique(users) && exists u :: u in users && u.id == id
    ensures forall s :: s in Filter(students, StudentOutsideTenant(id)) <==> s in students && s.collegeId != id
    ensures forall l :: l in Filter(links, LinkOutsideTenant(id)) <==> l in links && l.collegeId != id
    ensures |Filter(users, UserOtherThan(id))| == |users| - 1
    ensures forall u :: u in Filter(users, UserOtherThan(id)) <==> u in users && u.id != id
  {
    FilterDropsUniqueKey(users, id);
  }

  /** Filtering out one id of a list whose ids are unique drops exactly one element. */
  lemma {:induction false} FilterDropsUniqueKey(users: seq<User>, id: Id)
    requires IdsUnique(users) && exists u :: u in users && u.id == id
    ensures |Filter(users, UserOtherThan(id))| == |users| - 1
    decreases |users|
  {
    var rest := users[1..];
    assert IdsUnique(rest) by {
      forall i, j | 0 <= i < j < |rest| ensures rest[i].id != rest[j].id {
        assert rest[i] == users[i + 1] && rest[j] == users[j + 1];
      }
    }
    if users[0].id == id {
      FilterKeepsAllOtherIds(rest, id);
    } else {
      var u :| u in users && u.id == id;
      assert u in rest;
      FilterDropsUniqueKey(rest, id);
    }
  }

  lemma {:induction false} FilterKeepsAllOtherIds(users: seq<User>, id: Id)
    requires forall u :: u in users ==> u.id != id
    ensures Filter(users, UserOtherThan(id)) == users
    decreases |users|
  {
    if users != [] {
      assert forall u :: u in users[1..] ==> u in users;
      FilterKeepsAllOtherIds(users[1..], id);
    }
  }
}
