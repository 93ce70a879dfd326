/** The public registration endpoints: looking up a link and submitting a
    student through it. The photo upload to the image host is an outcome
    handed in; the student record is built from the request fields and the
    link, then validated against the schema before it is stored. */
module StudentController {
  import opened Common
  import opened UserModel
  import opened Store

  /** The text fields of the multipart request, each absent or a string. */
  datatype SubmissionBody = SubmissionBody(
    name: Option<string>,
    studentClass: Option<string>,
    section: Option<string>,
    aadhar: Option<string>,
    phone: Option<string>,
    fatherName: Option<string>,
    motherName: Option<string>,
    dob: Option<string>,
    address: Option<string>,
    admissionNo: Option<string>,
    email: Option<string>)

  /** The image host's answer: the secure URL, or an error message. */
  datatype UploadOutcome = Uploaded(secureUrl: string) | UploadFailed(message: string)

  datatype SubmitResponse =
    | SubmitRejected(status: nat, message: string)
    | SubmitCreated(status: nat, message: string, student: Student)
    | SubmitServerError

  datatype LinkDetailsResponse =
    | LinkDetails(collegeName: string, linkId: string)
    | LinkNotFound(message: string)

  const NoImageMessage := "Please upload student image"
  const BadLinkMessage := "Invalid or expired link"
  const UploadFailedPrefix := "Image upload failed: "

  /** `StudentLink.findOne({ linkId, isActive: true })`: the first active link
      with that id, if any. */
  function FindActiveLink(links: seq<StudentLink>, linkId: string): (r: Option<StudentLink>)
    ensures r.Some? ==> r.value in links && r.value.linkId == linkId && r.value.isActive
    ensures r.None? <==> forall l :: l in links ==> !(l.linkId == linkId && l.isActive)
    decreases |links|
  {
    if links == [] then None
    else if links[0].linkId == linkId && links[0].isActive then Some(links[0])
    else
      assert links == [links[0]] + links[1..];
      FindActiveLink(links[1..], linkId)
  }

  /** An active link appended under an id no stored link has is what the
      lookup of that id finds. */
  lemma {:induction false} FindActiveLinkAppend(links: seq<StudentLink>, l: StudentLink)
    requires forall k :: k in links ==> k.linkId != l.linkId
    requires l.isActive
    ensures FindActiveLink(links + [l], l.linkId) == Some(l)
    decreases |links|
  {
    if links == [] {
      assert links + [l] == [l];
    } else {
      assert (links + [l])[1..] == links[1..] + [l];
      FindActiveLinkAppend(links[1..], l);
    }
  }

  /** `getLinkDetails`: the college name and link id of an active link, and
      nothing else of it; 404 otherwise. */
  function GetLinkDetails(links: seq<StudentLink>, linkId: string): (r: LinkDetailsResponse)
    ensures r.LinkDetails? <==> exists l :: l in links && l.linkId == linkId && l.isActive
    ensures r.LinkDetails? ==> r.linkId == linkId
    ensures r.LinkDetails? ==> exists l :: l in links && l.linkId == linkId && l.isActive && l.collegeName == r.collegeName
    ensures r.LinkNotFound? ==> r.message == BadLinkMessage
  {
    match FindActiveLink(links, linkId)
    case None => LinkNotFound(BadLinkMessage)
    case Some(link) => LinkDetails(link.collegeName, link.linkId)
  }

  /** Every text field the schema requires is present and non-empty in the
      request (mongoose's `required` refuses `undefined` and `""`). */
  predicate TextFieldsPresent(body: SubmissionBody) {
    && Truthy(body.name) && Truthy(body.studentClass) && Truthy(body.section) && Truthy(body.aadhar)
    && Truthy(body.phone) && Truthy(body.fatherName) && Truthy(body.motherName) && Truthy(body.address)
    && Truthy(body.admissionNo) && Truthy(body.email)
  }

  /** Each text field of the student is the request field of the same name
      (`class` is stored as `studentClass`), unchanged. */
  predicate CarriesBody(s: Student, body: SubmissionBody) {
    && body.name == Some(s.name) && body.studentClass == Some(s.studentClass) && body.section == Some(s.section)
    && body.aadhar == Some(s.aadhar) && body.phone == Some(s.phone) && body.fatherName == Some(s.fatherName)
    && body.motherName == Some(s.motherName) && body.address == Some(s.address)
    && body.admissionNo == Some(s.admissionNo) && body.email == Some(s.email)
  }

  /** `new Student({...})` followed by `save()`'s validation: the record, or
      nothing when a required field is absent or empty, or `new Date(dob)` is
      invalid (a cast error). Tenant fields come from the link, never from
      the body. */
  function BuildStudent(body: SubmissionBody, imageUrl: string, link: StudentLink, linkId: string,
                        parseDate: string -> Option<Date>, now: Date): (r: Option<Student>)
    ensures r.Some? <==>
              && TextFieldsPresent(body) && body.dob.Some? && parseDate(body.dob.value).Some?
              && imageUrl != "" && link.collegeName != "" && linkId != ""
    ensures r.Some? ==> StudentSchemaValid(r.value) && CarriesBody(r.value, body)
    ensures r.Some? ==> r.value.dob == parseDate(body.dob.value).value && r.value.createdAt == now
    ensures r.Some? ==> r.value.collegeId == link.collegeId && r.value.collegeName == link.collegeName
    ensures r.Some? ==> r.value.linkId == linkId && r.value.studentImage == imageUrl
  {
    if body.name.None? || body.studentClass.None? || body.section.None? || body.aadhar.None?
       || body.phone.None? || body.fatherName.None? || body.motherName.None? || body.dob.None?
       || body.address.None? || body.admissionNo.None? || body.email.None?
    then None
    else match parseDate(body.dob.value)
      case None => None
      case Some(dob) =>
        var s := Student(imageUrl, body.name.value, body.studentClass.value, body.section.value,
                         body.aadhar.value, body.phone.value, body.fatherName.value, body.motherName.value,
                         dob, body.address.value, body.admissionNo.value, body.email.value,
                         link.collegeId, link.collegeName, linkId, now);
        if StudentSchemaValid(s) then Some(s) else None
  }

  /** The decision `submitStudentData` takes, guard by guard. */
  function SubmitOutcome(links: seq<StudentLink>, linkId: string, body: SubmissionBody, hasFile: bool,
                         upload: UploadOutcome, parseDate: string -> Option<Date>, now: Date): (r: SubmitResponse)
    ensures r.SubmitRejected? ==> r.status == 400 || r.status == 404
    ensures r.SubmitCreated? ==> r.status == 201 && CarriesBody(r.student, body)
  {
    if !hasFile then SubmitRejected(400, NoImageMessage)
    else match FindActiveLink(links, linkId)
      case None => SubmitRejected(404, BadLinkMessage)
      case Some(link) =>
        match upload
        case UploadFailed(msg) => SubmitRejected(400, UploadFailedPrefix + msg)
        case Uploaded(url) =>
          match BuildStudent(body, url, link, linkId, parseDate, now)
          case None => SubmitServerError
          case Some(s) => SubmitCreated(201, "Student data submitted successfully", s)
  }

  /** `submitStudentData`: stores exactly the created student, or nothing. */
  method SubmitStudentData(db: Database, linkId: string, body: SubmissionBody, hasFile: bool,
                           upload: UploadOutcome, parseDate: string -> Option<Date>, now: Date)
    returns (resp: SubmitResponse)
    requires db.Valid()
    modifies db
    ensures db.Valid()
    ensures resp == SubmitOutcome(old(db.links), linkId, body, hasFile, upload, parseDate, now)
    ensures db.students == old(db.students) + (if resp.SubmitCreated? then [resp.student] else [])
    ensures db.users == old(db.users) && db.links == old(db.links) && db.nextId == old(db.nextId)
  {
    if !hasFile {
      return SubmitRejected(400, NoImageMessage);
    }
    var studentLink := FindActiveLink(db.links, linkId);
    if studentLink.None? {
      return SubmitRejected(404, BadLinkMessage);
    }
    var imageUrl := "";
    match upload {
      case UploadFailed(msg) =>
        return SubmitRejected(400, UploadFailedPrefix + msg);
      case Uploaded(url) =>
        imageUrl := url;
    }
    var student := BuildStudent(body, imageUrl, studentLink.value, linkId, parseDate, now);
    if student.None? {
      return SubmitServerError;
    }
    db.InsertStudent(student.value);
    resp := SubmitCreated(201, "Student data submitted successfully", student.value);
  }

  /** Guard order: a missing file is reported before the link is looked up,
      and a bad link before the upload outcome matters. */
  lemma SubmitGuardOrder(links: seq<StudentLink>, linkId: string, body: SubmissionBody, hasFile: bool,
                         upload: UploadOutcome, parseDate: string -> Option<Date>, now: Date)
    ensures !hasFile ==> SubmitOutcome(links, linkId, body, hasFile, upload, parseDate, now) == SubmitRejected(400, "Please upload student image")
    ensures hasFile && (forall l :: l in links ==> !(l.linkId == linkId && l.isActive)) ==>
              SubmitOutcome(links, linkId, body, hasFile, upload, parseDate, now) == SubmitRejected(404, "Invalid or expired link")
    ensures hasFile && (exists l :: l in links && l.linkId == linkId && l.isActive) && upload.UploadFailed? ==>
              SubmitOutcome(links, linkId, body, hasFile, upload, parseDate, now)
              == SubmitRejected(400, "Image upload failed: " + upload.message)
  {
  }

  /** A created student belongs to the tenant of an active link with the URL's
      id, carries the uploaded image URL, the posted fields unchanged and the
      parsed date of birth, and passes the schema. */
  lemma SubmittedStudentAttribution(links: seq<StudentLink>, linkId: string, body: SubmissionBody, hasFile: bool,
                                    upload: UploadOutcome, parseDate: string -> Option<Date>, now: Date)
    requires SubmitOutcome(links, linkId, body, hasFile, upload, parseDate, now).SubmitCreated?
    ensures var s := SubmitOutcome(links, linkId, body, hasFile, upload, parseDate, now).student;
            && hasFile && upload.Uploaded? && s.studentImage == upload.secureUrl
            && s.linkId == linkId && StudentSchemaValid(s) && CarriesBody(s, body)
            && body.dob.Some? && parseDate(body.dob.value) == Some(s.dob) && s.createdAt == now
            && exists l :: l in links && l.linkId == linkId && l.isActive
                 && s.collegeId == l.collegeId && s.collegeName == l.collegeName
  {
  }

  /** Past the three guards, the handler answers 500 exactly when the record
      cannot be built: a required field is absent or empty, the date of birth
      does not parse, or the link has no college name. */
  lemma SubmitServerErrorIff(links: seq<StudentLink>, linkId: string, body: SubmissionBody, hasFile: bool,
                             url: string, parseDate: string -> Option<Date>, now: Date)
    requires hasFile && exists l :: l in links && l.linkId == linkId && l.isActive
    ensures SubmitOutcome(links, linkId, body, hasFile, Uploaded(url), parseDate, now) == SubmitServerError
            <==> !(&& TextFieldsPresent(body) && body.dob.Some? && parseDate(body.dob.value).Some?
                   && url != "" && FindActiveLink(links, linkId).value.collegeName != "" && linkId != "")
  {
  }

  /** A link that `generateStudentLink` has just stored is served by
      `getLinkDetails` with the college name it was stored with. */
  lemma NewLinkIsServed(links: seq<StudentLink>, linkId: string, collegeId: Id, collegeName: string, now: Date)
    requires forall k :: k in links ==> k.linkId != linkId
    ensures GetLinkDetails(links + [StudentLink(linkId, collegeId, collegeName, true, now)], linkId)
         == LinkDetails(collegeName, linkId)
  {
    FindActiveLinkAppend(links, StudentLink(linkId, collegeId, collegeName, true, now));
  }
}
