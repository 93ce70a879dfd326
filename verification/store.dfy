/** The document store as the handlers see it: three collections (users,
    students, student links) and the insert and delete operations the
    handlers perform. Ids come from a counter, which stands for ObjectId
    generation: every new document gets an id no stored user has. */
module Store {
  import opened Common
  import opened UserModel

  /** A JavaScript Date; its calendar arithmetic and locale formatting are opaque. */
  datatype Date = Date(epochMillis: int)

  /** A submitted registration (the `Student` schema, with its timestamps). */
  datatype Student = Student(
    studentImage: string,
    name: string,
    studentClass: string,
    section: string,
    aadhar: string,
    phone: string,
    fatherName: string,
    motherName: string,
    dob: Date,
    address: string,
    admissionNo: string,
    email: string,
    collegeId: Id,
    collegeName: string,
    linkId: string,
    createdAt: Date)

  /** A public registration link of one college (the `StudentLink` schema). */
  datatype StudentLink = StudentLink(
    linkId: string,
    collegeId: Id,
    collegeName: string,
    isActive: bool,
    createdAt: Date)

  /** Every `required: true` String field of the student schema is non-empty. */
  predicate StudentSchemaValid(s: Student) {
    && s.studentImage != "" && s.name != "" && s.studentClass != "" && s.section != ""
    && s.aadhar != "" && s.phone != "" && s.fatherName != "" && s.motherName != ""
    && s.address != "" && s.admissionNo != "" && s.email != "" && s.collegeName != ""
    && s.linkId != ""
  }

  /** The unique index on `linkId`. */
  predicate LinkIdsUnique(links: seq<StudentLink>) {
    forall i, j :: 0 <= i < j < |links| ==> links[i].linkId != links[j].linkId
  }

  function StudentOutsideTenant(collegeId: Id): Student -> bool {
    (s: Student) => s.collegeId != collegeId
  }

  function LinkOutsideTenant(collegeId: Id): StudentLink -> bool {
    (l: StudentLink) => l.collegeId != collegeId
  }

  function UserOtherThan(id: Id): User -> bool {
    (u: User) => u.id != id
  }

  function StudentInTenant(collegeId: Id): Student -> bool {
    (s: Student) => s.collegeId == collegeId
  }

  /** `Student.find({ collegeId })`: one tenant's students, in store order. */
  function TenantStudents(students: seq<Student>, collegeId: Id): (r: seq<Student>)
    ensures forall s :: s in r <==> s in students && s.collegeId == collegeId
  {
    Filter(students, StudentInTenant(collegeId))
  }

  /** Filtering keeps elements in their relative order, so a key that was
      unique stays unique. */
  lemma {:induction false} FilterKeepsKeysUnique<T(!new), K>(s: seq<T>, keep: T -> bool, key: T -> K)
    requires forall i, j :: 0 <= i < j < |s| ==> key(s[i]) != key(s[j])
    ensures forall i, j :: 0 <= i < j < |Filter(s, keep)| ==> key(Filter(s, keep)[i]) != key(Filter(s, keep)[j])
    decreases |s|
  {
    if s != [] {
      var rest := Filter(s[1..], keep);
      FilterKeepsKeysUnique(s[1..], keep, key);
      forall x | x in rest ensures key(x) != key(s[0]) {
        assert x in s[1..];
        var k :| 0 <= k < |s[1..]| && s[1..][k] == x;
        assert s[k + 1] == x;
      }
    }
  }

  class Database {
    var users: seq<User>
    var students: seq<Student>
    var links: seq<StudentLink>
    var nextId: Id

    ghost predicate Valid()
      reads this
    {
      && IdsUnique(users)
      && EmailsUnique(users)
      && (forall u :: u in users ==> u.id < nextId)
      && LinkIdsUnique(links)
    }

    constructor ()
      ensures Valid()
      ensures users == [] && students == [] && links == []
    {
      users, students, links, nextId := [], [], [], 0;
    }

    /** `save()` of a new user; the caller has checked the email is free. */
    method InsertUser(u: User)
      requires Valid()
      requires u.id == nextId
      requires forall v :: v in users ==> v.email != u.email
      modifies this
      ensures Valid()
      ensures users == old(users) + [u] && nextId == old(nextId) + 1
      ensures students == old(students) && links == old(links)
    {
      users := users + [u];
      nextId := nextId + 1;
    }

    /** `save()` of a new student. */
    method InsertStudent(s: Student)
      requires Valid()
      modifies this
      ensures Valid()
      ensures students == old(students) + [s]
      ensures users == old(users) && links == old(links) && nextId == old(nextId)
    {
      students := students + [s];
    }

    /** `save()` of a new link; the caller has checked the link id is free. */
    method InsertLink(l: StudentLink)
      requires Valid()
      requires forall k :: k in links ==> k.linkId != l.linkId
      modifies this
      ensures Valid()
      ensures links == old(links) + [l]
      ensures users == old(users) && students == old(students) && nextId == old(nextId)
    {
      links := links + [l];
    }

    /** `Student.deleteMany({ collegeId })`. */
    method DeleteStudentsOf(collegeId: Id)
      requires Valid()
      modifies this
      ensures Valid()
      ensures students == Filter(old(students), StudentOutsideTenant(collegeId))
      ensures users == old(users) && links == old(links) && nextId == old(nextId)
    {
      students := Filter(students, StudentOutsideTenant(collegeId));
    }

    /** `StudentLink.deleteMany({ collegeId })`. */
    method DeleteLinksOf(collegeId: Id)
      requires Valid()
      modifies this
      ensures Valid()
      ensures links == Filter(old(links), LinkOutsideTenant(collegeId))
      ensures users == old(users) && students == old(students) && nextId == old(nextId)
    {
      FilterKeepsKeysUnique(links, LinkOutsideTenant(collegeId), (l: StudentLink) => l.linkId);
      links := Filter(links, LinkOutsideTenant(collegeId));
    }

    /** `User.deleteOne({ _id })`; ids are unique, so this removes at most one user. */
    method DeleteUser(id: Id)
      requires Valid()
      modifies this
      ensures Valid()
      ensures users == Filter(old(users), UserOtherThan(id))
      ensures students == old(students) && links == old(links) && nextId == old(nextId)
    {
      FilterKeepsKeysUnique(users, UserOtherThan(id), (u: User) => u.id);
      FilterKeepsKeysUnique(users, UserOtherThan(id), (u: User) => u.email);
      users := Filter(users, UserOtherThan(id));
    }
  }
}
