/** How the public form and the submit endpoint fit together: what the
    form posts once every step passes is accepted by the server. */
module Registration {
  import opened Common
  import opened Store
  import opened StudentController
  import opened StudentForm

  /** Each text field of the student is the form value under the input's
      name (the `class` input is stored as `studentClass`). */
  predicate StoresForm(s: Student, form: map<string, string>) {
    && s.name == Field(form, "name") && s.studentClass == Field(form, "class")
    && s.section == Field(form, "section") && s.aadhar == Field(form, "aadhar")
    && s.phone == Field(form, "phone") && s.fatherName == Field(form, "fatherName")
    && s.motherName == Field(form, "motherName") && s.address == Field(form, "address")
    && s.admissionNo == Field(form, "admissionNo") && s.email == Field(form, "email")
  }

  /** The text fields of the multipart request the form posts: every one of
      the eleven inputs, present, under its own name. */
  function BodyOf(form: map<string, string>): (b: SubmissionBody)
    ensures b.name == Some(Field(form, "name")) && b.studentClass == Some(Field(form, "class"))
    ensures b.section == Some(Field(form, "section")) && b.aadhar == Some(Field(form, "aadhar"))
    ensures b.phone == Some(Field(form, "phone")) && b.fatherName == Some(Field(form, "fatherName"))
    ensures b.motherName == Some(Field(form, "motherName")) && b.dob == Some(Field(form, "dob"))
    ensures b.address == Some(Field(form, "address")) && b.admissionNo == Some(Field(form, "admissionNo"))
    ensures b.email == Some(Field(form, "email"))
  {
    SubmissionBody(
      Some(Field(form, "name")), Some(Field(form, "class")), Some(Field(form, "section")),
      Some(Field(form, "aadhar")), Some(Field(form, "phone")), Some(Field(form, "fatherName")),
      Some(Field(form, "motherName")), Some(Field(form, "dob")), Some(Field(form, "address")),
      Some(Field(form, "admissionNo")), Some(Field(form, "email")))
  }

  /** A form whose three steps pass is posted with an image and with every
      field the server requires; when its link is active, the image host
      returns a URL and the date of birth parses, the server stores a student
      carrying exactly the form's values. */
  lemma ValidatedFormIsAccepted(form: map<string, string>, image: Option<File>, links: seq<StudentLink>,
                                linkId: string, url: string, parseDate: string -> Option<Date>, now: Date)
    requires forall k :: 1 <= k <= 3 ==> StepErrors(k, form, image.Some?) == map[]
    requires exists l :: l in links && l.linkId == linkId && l.isActive
    requires forall l :: l in links ==> l.collegeName != ""
    requires linkId != "" && url != ""
    requires parseDate(Field(form, "dob")).Some?
    ensures var r := SubmitOutcome(links, linkId, BodyOf(form), image.Some?, Uploaded(url), parseDate, now);
            && r.SubmitCreated?
            && StoresForm(r.student, form)
            && r.student.dob == parseDate(Field(form, "dob")).value && r.student.studentImage == url
  {
    SubmittedFormComplete(form, image);
    assert "section" in FieldNames && "fatherName" in FieldNames && "motherName" in FieldNames;
    assert "address" in FieldNames && "admissionNo" in FieldNames && "class" in FieldNames;
    var found := FindActiveLink(links, linkId);
    assert found.Some? && found.value in links;
  }
}
