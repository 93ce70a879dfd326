/** The college tenant's endpoints: registration-link generation and the three
    exports (ID-card archive, photo archive, spreadsheet). Every endpoint runs
    behind the authentication and college-only guards, so the requester is a
    schema-valid college user. */
module CollegeController {
  import opened Common
  import opened UserModel
  import opened Store
  import opened Archive
  import opened EntryNames
  import opened IdCard

  /** The requester as the college-only guard lets it through. */
  predicate IsCollegeRequester(u: User) {
    u.role == CollegeRole && UserSchemaValid(u)
  }

  /** An export response: the 404 of an empty ID-card export, or an
      attachment streamed as a zip archive. */
  datatype ExportResponse =
    | NotFound(message: string)
    | ZipAttachment(contentType: string, filename: string, archive: ZipArchive)

  const ZipContentType := "application/zip"

  // ---------------------------------------------------------------------
  // ID cards

  /** The archive entry for one student: the rendered card under its entry
      name, or nothing when rendering threw. */
  function CardEntry(collegeName: string, loadPhoto: string -> Option<Image>,
                     encodeQr: QrPayload -> Option<Image>, localeDate: Date -> string,
                     png: seq<DrawCmd> -> Bytes): Student -> Option<Entry>
  {
    (s: Student) =>
      match RenderCard(s, collegeName, loadPhoto(s.studentImage), encodeQr, localeDate, png)
      case None => None
      case Some(bytes) => Some(Entry(IdCardEntryName(s.admissionNo, s.name), bytes))
  }

  /** `generateIDCards`: 404 for a tenant without students; otherwise a zip of
      one card per student whose card could be generated, in store order, and
      the archive is always finalized. `loadPhoto` is the outcome of loading
      an image URL. */
  method GenerateIDCards(db: Database, requester: User, loadPhoto: string -> Option<Image>,
                         encodeQr: QrPayload -> Option<Image>, localeDate: Date -> string,
                         png: seq<DrawCmd> -> Bytes)
    returns (resp: ExportResponse)
    requires IsCollegeRequester(requester)
    ensures TenantStudents(db.students, requester.id) == [] <==> resp.NotFound?
    ensures resp.NotFound? ==> resp.message == "No students found"
    ensures resp.ZipAttachment? ==>
              && fresh(resp.archive)
              && resp.contentType == ZipContentType
              && resp.filename == requester.collegeName.value + "_ID_Cards.zip"
              && resp.archive.finalized
              && resp.archive.entries
                 == Collect(TenantStudents(db.students, requester.id),
                            CardEntry(requester.collegeName.value, loadPhoto, encodeQr, localeDate, png))
  {
    var students := TenantStudents(db.students, requester.id);
    if |students| == 0 {
      return NotFound("No students found");
    }
    var collegeName := requester.collegeName.value;
    var produce := CardEntry(collegeName, loadPhoto, encodeQr, localeDate, png);
    var archive := new ZipArchive();
    for i := 0 to |students|
      invariant !archive.finalized
      invariant archive.entries == Collect(students[..i], produce)
    {
      var student := students[i];
      CollectStep(students, i, produce);
      var card := GenerateIDCard(student, collegeName, loadPhoto(student.studentImage), encodeQr, localeDate, png);
      if card.Some? {
        archive.Append(IdCardEntryName(student.admissionNo, student.name), card.value);
      }
    }
    assert students[..|students|] == students;
    archive.Finalize();
    resp := ZipAttachment(ZipContentType, collegeName + "_ID_Cards.zip", archive);
  }

  /** A student's card is in the archive exactly when its QR code could be
      encoded; the photo outcome never decides it. */
  lemma CardEntryNeedsOnlyQr(collegeName: string, loadPhoto: string -> Option<Image>,
                             encodeQr: QrPayload -> Option<Image>, localeDate: Date -> string,
                             png: seq<DrawCmd> -> Bytes, s: Student)
    ensures CardEntry(collegeName, loadPhoto, encodeQr, localeDate, png)(s).Some?
        <==> encodeQr(QrPayload(s.name, s.admissionNo, collegeName, s.email)).Some?
    ensures CardEntry(collegeName, loadPhoto, encodeQr, localeDate, png)(s).Some? ==>
              CardEntry(collegeName, loadPhoto, encodeQr, localeDate, png)(s).value.name
              == s.admissionNo + "_" + Sanitize(s.name) + "_ID_Card.png"
  {
    CardProducedIffQrEncodes(s, collegeName, loadPhoto(s.studentImage), encodeQr, localeDate, png);
  }

  /** When every QR code encodes, the archive holds one card per student, in
      store order, whatever happened to the photos. */
  lemma {:induction false} EveryStudentGetsACard(students: seq<Student>, collegeName: string,
                                                 loadPhoto: string -> Option<Image>,
                                                 encodeQr: QrPayload -> Option<Image>,
                                                 localeDate: Date -> string, png: seq<DrawCmd> -> Bytes)
    requires forall s :: s in students ==> encodeQr(QrPayload(s.name, s.admissionNo, collegeName, s.email)).Some?
    ensures |Collect(students, CardEntry(collegeName, loadPhoto, encodeQr, localeDate, png))| == |students|
    ensures forall i :: 0 <= i < |students| ==>
              Collect(students, CardEntry(collegeName, loadPhoto, encodeQr, localeDate, png))[i].name
              == IdCardEntryName(students[i].admissionNo, students[i].name)
  {
    var produce := CardEntry(collegeName, loadPhoto, encodeQr, localeDate, png);
    forall i | 0 <= i < |students| ensures produce(students[i]).Some? {
      CardEntryNeedsOnlyQr(collegeName, loadPhoto, encodeQr, localeDate, png, students[i]);
    }
    CollectAllProduced(students, produce);
  }

  /** A student whose QR code cannot be encoded is missing from the archive,
      and the students around it keep their entries. */
  lemma QrFailureDropsOnlyThatCard(students: seq<Student>, k: nat, collegeName: string,
                                   loadPhoto: string -> Option<Image>,
                                   encodeQr: QrPayload -> Option<Image>,
                                   localeDate: Date -> string, png: seq<DrawCmd> -> Bytes)
    requires k < |students|
    requires encodeQr(QrPayload(students[k].name, students[k].admissionNo, collegeName, students[k].email)).None?
    ensures Collect(students, CardEntry(collegeName, loadPhoto, encodeQr, localeDate, png))
         == Collect(students[..k], CardEntry(collegeName, loadPhoto, encodeQr, localeDate, png))
          + Collect(students[k + 1..], CardEntry(collegeName, loadPhoto, encodeQr, localeDate, png))
  {
    var produce := CardEntry(collegeName, loadPhoto, encodeQr, localeDate, png);
    CardEntryNeedsOnlyQr(collegeName, loadPhoto, encodeQr, localeDate, png, students[k]);
    CollectSkipsFailure(students, k, produce);
  }

  // ---------------------------------------------------------------------
  // Student photos

  /** What `fetch` of an image URL gave: a thrown error, or a response with
      its `ok` flag and body. */
  datatype FetchOutcome = FetchThrew | FetchResponse(ok: bool, body: Bytes)

  /** The archive entry for one student's photo; students without an image
      URL, and photos whose download threw or was not ok, give none. */
  function ImageEntry(fetch: string -> FetchOutcome): Student -> Option<Entry> {
    (s: Student) =>
      if s.studentImage == "" then None
      else match fetch(s.studentImage)
        case FetchThrew => None
        case FetchResponse(ok, body) =>
          if ok then Some(Entry(ImageEntryName(s.name, s.admissionNo), body)) else None
  }

  /** One iteration of the photo loop: append the student's photo when it
      has an image URL and the download succeeded; otherwise skip it. */
  method AppendPhoto(archive: ZipArchive, student: Student, fetch: string -> FetchOutcome)
    requires !archive.finalized
    modifies archive
    ensures !archive.finalized
    ensures archive.entries == old(archive.entries) + Produced(ImageEntry(fetch)(student))
  {
    if student.studentImage != "" {
      var imageName := ImageEntryName(student.name, student.admissionNo);
      var response := fetch(student.studentImage);
      if response.FetchResponse? && response.ok {
        archive.Append(imageName, response.body);
      }
    }
  }

  /** `downloadImages`: always a zip (empty for a tenant without students),
      with one photo per downloadable student, in store order, finalized. */
  method DownloadImages(db: Database, requester: User, fetch: string -> FetchOutcome)
    returns (resp: ExportResponse)
    requires IsCollegeRequester(requester)
    ensures resp.ZipAttachment? && fresh(resp.archive)
    ensures resp.contentType == ZipContentType
    ensures resp.filename == requester.collegeName.value + "_student_images.zip"
    ensures resp.archive.finalized
    ensures resp.archive.entries == Collect(TenantStudents(db.students, requester.id), ImageEntry(fetch))
  {
    var students := TenantStudents(db.students, requester.id);
    var archive := new ZipArchive();
    for i := 0 to |students|
      invariant !archive.finalized
      invariant archive.entries == Collect(students[..i], ImageEntry(fetch))
    {
      var student := students[i];
      CollectStep(students, i, ImageEntry(fetch));
      AppendPhoto(archive, student, fetch);
    }
    assert students[..|students|] == students;
    archive.Finalize();
    resp := ZipAttachment(ZipContentType, requester.collegeName.value + "_student_images.zip", archive);
  }

  /** An entry is in the photo archive exactly when some student with an
      image URL downloaded successfully and the entry is that student's
      `name_admissionNo.jpg` with the downloaded body. */
  lemma PhotoArchiveMembers(students: seq<Student>, fetch: string -> FetchOutcome, e: Entry)
    ensures e in Collect(students, ImageEntry(fetch)) <==>
              exists i :: 0 <= i < |students|
                && students[i].studentImage != ""
                && fetch(students[i].studentImage) == FetchResponse(true, e.data)
                && e.name == students[i].name + "_" + students[i].admissionNo + ".jpg"
  {
    CollectMembers(students, ImageEntry(fetch), e);
    if e in Collect(students, ImageEntry(fetch)) {
      var i :| 0 <= i < |students| && ImageEntry(fetch)(students[i]) == Some(e);
      assert fetch(students[i].studentImage) == FetchResponse(true, e.data);
    }
    if i :| (0 <= i < |students| && students[i].studentImage != ""
             && fetch(students[i].studentImage) == FetchResponse(true, e.data)
             && e.name == students[i].name + "_" + students[i].admissionNo + ".jpg") {
      assert ImageEntry(fetch)(students[i]) == Some(e);
    }
  }

  /** The photo archive `downloadImages` builds for a tenant is empty exactly
      when none of the tenant's students has an image URL whose download
      succeeded; a tenant without students thus gets an empty archive, where
      the ID-card export answers 404. */
  lemma PhotoArchiveEmptyIff(students: seq<Student>, id: Id, fetch: string -> FetchOutcome)
    ensures Collect(TenantStudents(students, id), ImageEntry(fetch)) == [] <==>
              forall s :: s in TenantStudents(students, id) ==>
                s.studentImage == "" || !(fetch(s.studentImage).FetchResponse? && fetch(s.studentImage).ok)
    ensures TenantStudents(students, id) == [] ==> Collect(TenantStudents(students, id), ImageEntry(fetch)) == []
  {
    var tenant := TenantStudents(students, id);
    CollectEmptyIff(tenant, ImageEntry(fetch));
    if forall s :: s in tenant ==>
         s.studentImage == "" || !(fetch(s.studentImage).FetchResponse? && fetch(s.studentImage).ok) {
      forall i | 0 <= i < |tenant| ensures ImageEntry(fetch)(tenant[i]).None? {
        assert tenant[i] in tenant;
      }
    }
  }

  // ---------------------------------------------------------------------
  // Spreadsheet

  /** The column headers, in the fixed order of the row objects' keys. */
  const ExcelHeaders: seq<string> := [
    "Name", "Class", "Section", "Aadhar", "Phone", "Father Name", "Mother Name",
    "Date of Birth", "Address", "Admission No", "Email", "Created At"]

  const XlsxContentType := "application/vnd.openxmlformats-officedocument.spreadsheetml.sheet"

  /** A one-sheet workbook as cells, row by row. */
  datatype Workbook = Workbook(sheetName: string, cells: seq<seq<string>>)

  datatype ExcelDownload = ExcelDownload(contentType: string, filename: string, workbook: Workbook)

  /** One student's row; dates are rendered with `toDateString`. */
  function StudentRow(s: Student, dateString: Date -> string): seq<string> {
    [s.name, s.studentClass, s.section, s.aadhar, s.phone, s.fatherName, s.motherName,
     dateString(s.dob), s.address, s.admissionNo, s.email, dateString(s.createdAt)]
  }

  /** The field a column header names: a reference definition independent of
      the row layout. */
  function ColumnValue(s: Student, header: string, dateString: Date -> string): Option<string> {
    if header == "Name" then Some(s.name)
    else if header == "Class" then Some(s.studentClass)
    else if header == "Section" then Some(s.section)
    else if header == "Aadhar" then Some(s.aadhar)
    else if header == "Phone" then Some(s.phone)
    else if header == "Father Name" then Some(s.fatherName)
    else if header == "Mother Name" then Some(s.motherName)
    else if header == "Date of Birth" then Some(dateString(s.dob))
    else if header == "Address" then Some(s.address)
    else if header == "Admission No" then Some(s.admissionNo)
    else if header == "Email" then Some(s.email)
    else if header == "Created At" then Some(dateString(s.createdAt))
    else None
  }

  function Rows(students: seq<Student>, dateString: Date -> string): (r: seq<seq<string>>)
    ensures |r| == |students|
    ensures forall i :: 0 <= i < |students| ==> r[i] == StudentRow(students[i], dateString)
  {
    seq(|students|, i requires 0 <= i < |students| => StudentRow(students[i], dateString))
  }

  /** `json_to_sheet` over the row objects: a header row of the keys followed
      by one row per student; an empty list gives an empty sheet. */
  function DownloadExcel(db: Database, requester: User, dateString: Date -> string): (r: ExcelDownload)
    reads db
    requires IsCollegeRequester(requester)
    ensures r.contentType == XlsxContentType
    ensures r.filename == requester.collegeName.value + "_students.xlsx"
    ensures r.workbook.sheetName == "Students"
  {
    var students := TenantStudents(db.students, requester.id);
    var cells := if students == [] then [] else [ExcelHeaders] + Rows(students, dateString);
    ExcelDownload(XlsxContentType, requester.collegeName.value + "_students.xlsx", Workbook("Students", cells))
  }

  /** One row per student, in store order, under the twelve headers; every
      cell holds the field its column header names. */
  lemma ExcelRowsLineUp(db: Database, requester: User, dateString: Date -> string)
    requires IsCollegeRequester(requester)
    ensures var students := TenantStudents(db.students, requester.id);
            var cells := DownloadExcel(db, requester, dateString).workbook.cells;
            && (students == [] ==> cells == [])
            && (students != [] ==>
                  && |cells| == |students| + 1
                  && cells[0] == ExcelHeaders && |ExcelHeaders| == 12
                  && forall i, j :: 0 <= i < |students| && 0 <= j < 12 ==>
                       Some(cells[i + 1][j]) == ColumnValue(students[i], ExcelHeaders[j], dateString))
  {
    var students := TenantStudents(db.students, requester.id);
    var cells := DownloadExcel(db, requester, dateString).workbook.cells;
    if students != [] {
      forall i, j | 0 <= i < |students| && 0 <= j < 12
        ensures Some(cells[i + 1][j]) == ColumnValue(students[i], ExcelHeaders[j], dateString)
      {
        assert cells[i + 1] == StudentRow(students[i], dateString);
        ColumnsLineUp(students[i], dateString, j);
      }
    }
  }

  lemma ColumnsLineUp(s: Student, dateString: Date -> string, j: nat)
    requires j < 12
    ensures Some(StudentRow(s, dateString)[j]) == ColumnValue(s, ExcelHeaders[j], dateString)
  {
    var h := ExcelHeaders;
    assert h[0] == "Name" && h[1] == "Class" && h[2] == "Section" && h[3] == "Aadhar";
    assert h[4] == "Phone" && h[5] == "Father Name" && h[6] == "Mother Name" && h[7] == "Date of Birth";
    assert h[8] == "Address" && h[9] == "Admission No" && h[10] == "Email" && h[11] == "Created At";
  }

  // ---------------------------------------------------------------------
  // Registration links

  datatype LinkResponse =
    | LinkCreated(message: string, link: string, linkId: string)
    | LinkError

  /** The public URL of a registration link. */
  function FormUrl(frontendUrl: string, linkId: string): string {
    frontendUrl + "/student-form/" + linkId
  }

  /** `generateStudentLink`: stores a new active link of the requester's
      college under the fresh id `linkId` and answers with its public URL.
      Saving fails (a server error, nothing stored) when the id is empty or
      already taken. */
  method GenerateStudentLink(db: Database, requester: User, linkId: string, frontendUrl: string, now: Date)
    returns (resp: LinkResponse)
    requires db.Valid() && IsCollegeRequester(requester)
    modifies db
    ensures db.Valid()
    ensures db.users == old(db.users) && db.students == old(db.students) && db.nextId == old(db.nextId)
    ensures (linkId == "" || exists l :: l in old(db.links) && l.linkId == linkId) <==> resp.LinkError?
    ensures resp.LinkError? ==> db.links == old(db.links)
    ensures resp.LinkCreated? ==>
              && db.links == old(db.links) + [StudentLink(linkId, requester.id, requester.collegeName.value, true, now)]
              && resp == LinkCreated("Student data collection link generated", FormUrl(frontendUrl, linkId), linkId)
  {
    if linkId == "" || exists l :: l in db.links && l.linkId == linkId {
      return LinkError;
    }
    db.InsertLink(StudentLink(linkId, requester.id, requester.collegeName.value, true, now));
    resp := LinkCreated("Student data collection link generated", FormUrl(frontendUrl, linkId), linkId);
  }

  /** The id at the end of the public URL is the stored link id: the form's
      route parameter recovers it. */
  lemma FormUrlCarriesLinkId(frontendUrl: string, linkId: string)
    ensures |FormUrl(frontendUrl, linkId)| == |frontendUrl| + 14 + |linkId|
    ensures FormUrl(frontendUrl, linkId)[|frontendUrl|..|frontendUrl| + 14] == "/student-form/"
    ensures FormUrl(frontendUrl, linkId)[|frontendUrl| + 14..] == linkId
  {
  }
}
