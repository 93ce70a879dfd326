/** The three-step registration form of the public link page: its state,
    the per-step validator, the stepper and the submit guard. The browser's
    asynchronous file reading and image cropping are modelled as completed
    outcomes handed to the handlers. */
module StudentForm {
  import opened Common

  /** A chosen or cropped image file: its size in bytes and its contents as a data URL. */
  datatype File = File(size: nat, dataUrl: string)

  /** How the asynchronous crop in `handleCropComplete` ended: cropping
      threw; the crop was drawn (its data URL is the preview) but reading it
      back as a blob threw; or both succeeded and gave the file to upload. */
  datatype CropOutcome =
    | CropFailed
    | BlobFailed(preview: string)
    | Cropped(preview: string, file: File)

  /** The multipart request the form posts. */
  datatype Submission = Submission(studentImage: Option<File>, fields: map<string, string>)

  /** Files larger than this many bytes are refused. */
  const MaxImageBytes := 5000000

  /** The keys of the form data, one per input. */
  const FieldNames: set<string> := {
    "name", "class", "section", "aadhar", "phone", "fatherName",
    "motherName", "dob", "address", "admissionNo", "email"}

  /** The inputs rendered on each step. */
  function StepFields(step: int): set<string> {
    if step == 1 then {"name", "dob", "fatherName", "motherName", "aadhar"}
    else if step == 2 then {"class", "section", "admissionNo"}
    else if step == 3 then {"phone", "email", "address"}
    else {}
  }

  /** A form value as the validator reads it; an unset key reads as empty. */
  function Field(form: map<string, string>, key: string): string {
    if key in form then form[key] else ""
  }

  // ---------------------------------------------------------------------
  // The email test `/\S+@\S+\.\S+/`, unanchored

  /** The shortest match of the pattern with its `@` at `at` and its `.` at
      `dot`: one non-space character before the `@`, a non-empty non-space
      run between them, one non-space character after the `.`. */
  predicate EmailAt(s: string, at: nat, dot: nat)
    requires 0 < at < |s| && at + 1 < dot < |s| - 1
  {
    !IsSpace(s[at - 1]) && s[at] == '@' && NoSpace(s[at + 1..dot]) && s[dot] == '.' && !IsSpace(s[dot + 1])
  }

  /** `/\S+@\S+\.\S+/.test(s)`: the pattern occurs somewhere in `s`. */
  predicate EmailPattern(s: string) {
    exists at: nat, dot: nat | 0 < at < |s| && at + 1 < dot < |s| - 1 :: EmailAt(s, at, dot)
  }

  /** The regular expression matched on the span `s[a..e]`. */
  ghost predicate RegexAt(s: string, a: nat, at: nat, dot: nat, e: nat) {
    && a < at && at + 1 < dot && dot + 1 < e <= |s|
    && NoSpace(s[a..at]) && s[at] == '@' && NoSpace(s[at + 1..dot]) && s[dot] == '.' && NoSpace(s[dot + 1..e])
  }

  /** The regular expression's own reading: some substring is one or more
      non-space characters, `@`, one or more, `.`, one or more. */
  ghost predicate RegexFinds(s: string) {
    exists a: nat, at: nat, dot: nat, e: nat :: RegexAt(s, a, at, dot, e)
  }

  /** The compact test is exactly the regular expression's search. */
  lemma EmailPatternIsRegex(s: string)
    ensures EmailPattern(s) <==> RegexFinds(s)
  {
    if EmailPattern(s) {
      var at: nat, dot: nat :| 0 < at < |s| && at + 1 < dot < |s| - 1 && EmailAt(s, at, dot);
      ShortestSpan(s, at, dot);
    }
    if RegexFinds(s) {
      var a: nat, at: nat, dot: nat, e: nat :| RegexAt(s, a, at, dot, e);
      LongerSpan(s, a, at, dot, e);
    }
  }

  lemma ShortestSpan(s: string, at: nat, dot: nat)
    requires 0 < at < |s| && at + 1 < dot < |s| - 1 && EmailAt(s, at, dot)
    ensures RegexAt(s, at - 1, at, dot, dot + 2)
  {
    assert s[at - 1..at] == [s[at - 1]];
    assert s[dot + 1..dot + 2] == [s[dot + 1]];
  }

  lemma LongerSpan(s: string, a: nat, at: nat, dot: nat, e: nat)
    requires RegexAt(s, a, at, dot, e)
    ensures 0 < at < |s| && at + 1 < dot < |s| - 1 && EmailAt(s, at, dot)
  {
    assert s[a..at][at - 1 - a] == s[at - 1];
    assert s[dot + 1..e][0] == s[dot + 1];
  }

  /** The test is a search, not a whole-string match: text around an address
      does not make it fail. */
  lemma EmailPatternUnanchored(p: string, x: string, q: string)
    requires EmailPattern(x)
    ensures EmailPattern(p + x + q)
  {
    var at: nat, dot: nat :| 0 < at < |x| && at + 1 < dot < |x| - 1 && EmailAt(x, at, dot);
    var s := p + x + q;
    var n := |p|;
    assert s[n + at + 1..n + dot] == x[at + 1..dot];
    assert s[n + at - 1] == x[at - 1] && s[n + at] == x[at] && s[n + dot] == x[dot] && s[n + dot + 1] == x[dot + 1];
    assert EmailAt(s, n + at, n + dot);
  }

  // ---------------------------------------------------------------------
  // Step validation

  /** Records `message` under `key` when a check failed. */
  function Put(m: map<string, string>, key: string, error: Option<string>): map<string, string> {
    if error.Some? then m[key := error.value] else m
  }

  /** A check that fails on an empty (falsy) field. */
  function Required(form: map<string, string>, key: string, message: string): Option<string> {
    if Field(form, key) == "" then Some(message) else None
  }

  /** The error map `validateStep(step)` builds, check by check. */
  function StepErrors(step: int, form: map<string, string>, hasImage: bool): map<string, string> {
    if step == 1 then Step1Errors(form, hasImage)
    else if step == 2 then Step2Errors(form)
    else if step == 3 then Step3Errors(form)
    else map[]
  }

  /** Step 1: image, name, date of birth, parents' names, Aadhar number. */
  function Step1Errors(form: map<string, string>, hasImage: bool): map<string, string> {
    var m1 := Put(map[], "studentImage", if hasImage then None else Some("Student image is required"));
    var m2 := Put(m1, "name", Required(form, "name", "Name is required"));
    var m3 := Put(m2, "dob", Required(form, "dob", "Date of birth is required"));
    var m4 := Put(m3, "fatherName", Required(form, "fatherName", "Father's name is required"));
    var m5 := Put(m4, "motherName", Required(form, "motherName", "Mother's name is required"));
    Put(m5, "aadhar",
        if Field(form, "aadhar") == "" then Some("Aadhar number is required")
        else if |Field(form, "aadhar")| != 12 then Some("Aadhar must be 12 digits")
        else None)
  }

  /** Step 2: class, section, admission number. */
  function Step2Errors(form: map<string, string>): map<string, string> {
    var m1 := Put(map[], "class", Required(form, "class", "Class is required"));
    var m2 := Put(m1, "section", Required(form, "section", "Section is required"));
    Put(m2, "admissionNo", Required(form, "admissionNo", "Admission number is required"))
  }

  /** Step 3: phone, email, address. */
  function Step3Errors(form: map<string, string>): map<string, string> {
    var m1 := Put(map[], "phone",
                  if Field(form, "phone") == "" then Some("Phone number is required")
                  else if |Field(form, "phone")| != 10 then Some("Phone must be 10 digits")
                  else None);
    var m2 := Put(m1, "email",
                  if Field(form, "email") == "" then Some("Email is required")
                  else if !EmailPattern(Field(form, "email")) then Some("Email is invalid")
                  else None);
    Put(m2, "address", Required(form, "address", "Address is required"))
  }

  /** The map stays empty exactly when no check has failed so far. */
  lemma PutEmpty(m: map<string, string>, key: string, error: Option<string>)
    ensures Put(m, key, error) == map[] <==> m == map[] && error.None?
  {
    if error.Some? {
      assert key in Put(m, key, error);
    }
  }

  /** Step 1 passes exactly when there is an image, the name, date of birth
      and parents' names are filled in, and the Aadhar number has exactly 12
      characters (which are not checked to be digits). */
  lemma Step1ValidIff(form: map<string, string>, hasImage: bool)
    ensures StepErrors(1, form, hasImage) == map[] <==>
              && hasImage && Field(form, "name") != "" && Field(form, "dob") != ""
              && Field(form, "fatherName") != "" && Field(form, "motherName") != ""
              && |Field(form, "aadhar")| == 12
  {
    var m1 := Put(map[], "studentImage", if hasImage then None else Some("Student image is required"));
    var m2 := Put(m1, "name", Required(form, "name", "Name is required"));
    var m3 := Put(m2, "dob", Required(form, "dob", "Date of birth is required"));
    var m4 := Put(m3, "fatherName", Required(form, "fatherName", "Father's name is required"));
    var m5 := Put(m4, "motherName", Required(form, "motherName", "Mother's name is required"));
    PutEmpty(map[], "studentImage", if hasImage then None else Some("Student image is required"));
    PutEmpty(m1, "name", Required(form, "name", "Name is required"));
    PutEmpty(m2, "dob", Required(form, "dob", "Date of birth is required"));
    PutEmpty(m3, "fatherName", Required(form, "fatherName", "Father's name is required"));
    PutEmpty(m4, "motherName", Required(form, "motherName", "Mother's name is required"));
    PutEmpty(m5, "aadhar",
             if Field(form, "aadhar") == "" then Some("Aadhar number is required")
             else if |Field(form, "aadhar")| != 12 then Some("Aadhar must be 12 digits")
             else None);
  }

  /** Step 2 passes exactly when class, section and admission number are filled in. */
  lemma Step2ValidIff(form: map<string, string>, hasImage: bool)
    ensures StepErrors(2, form, hasImage) == map[] <==>
              Field(form, "class") != "" && Field(form, "section") != "" && Field(form, "admissionNo") != ""
  {
    var m1 := Put(map[], "class", Required(form, "class", "Class is required"));
    var m2 := Put(m1, "section", Required(form, "section", "Section is required"));
    PutEmpty(map[], "class", Required(form, "class", "Class is required"));
    PutEmpty(m1, "section", Required(form, "section", "Section is required"));
    PutEmpty(m2, "admissionNo", Required(form, "admissionNo", "Admission number is required"));
  }

  /** Step 3 passes exactly when the phone has 10 characters, the email
      contains the pattern, and the address is filled in. */
  lemma Step3ValidIff(form: map<string, string>, hasImage: bool)
    ensures StepErrors(3, form, hasImage) == map[] <==>
              |Field(form, "phone")| == 10 && EmailPattern(Field(form, "email")) && Field(form, "address") != ""
  {
    var e1 := if Field(form, "phone") == "" then Some("Phone number is required")
              else if |Field(form, "phone")| != 10 then Some("Phone must be 10 digits")
              else None;
    var e2 := if Field(form, "email") == "" then Some("Email is required")
              else if !EmailPattern(Field(form, "email")) then Some("Email is invalid")
              else None;
    var m1 := Put(map[], "phone", e1);
    var m2 := Put(m1, "email", e2);
    PutEmpty(map[], "phone", e1);
    PutEmpty(m1, "email", e2);
    PutEmpty(m2, "address", Required(form, "address", "Address is required"));
    assert EmailPattern(Field(form, "email")) ==> Field(form, "email") != "";
  }

  /** Any step number other than 1, 2 or 3 passes with no errors. */
  lemma OtherStepsValid(step: int, form: map<string, string>, hasImage: bool)
    requires step != 1 && step != 2 && step != 3
    ensures StepErrors(step, form, hasImage) == map[]
  {
  }

  /** A too-short Aadhar number is reported with the length message, not the
      missing-field one. */
  lemma AadharLengthMessage(form: map<string, string>, hasImage: bool)
    requires Field(form, "aadhar") != "" && |Field(form, "aadhar")| != 12
    ensures "aadhar" in StepErrors(1, form, hasImage)
    ensures StepErrors(1, form, hasImage)["aadhar"] == "Aadhar must be 12 digits"
  {
  }

  /** An address without the pattern is reported as invalid once it is non-empty. */
  lemma EmailInvalidMessage(form: map<string, string>, hasImage: bool)
    requires Field(form, "email") != "" && !EmailPattern(Field(form, "email"))
    ensures "email" in StepErrors(3, form, hasImage)
    ensures StepErrors(3, form, hasImage)["email"] == "Email is invalid"
  {
  }

  /** A step's verdict does not depend on the inputs of other steps. */
  lemma StepVerdictIgnoresOtherFields(step: int, form: map<string, string>, hasImage: bool, name: string, value: string)
    requires name !in StepFields(step)
    ensures StepErrors(step, form[name := value], hasImage) == map[] <==> StepErrors(step, form, hasImage) == map[]
  {
    var form' := form[name := value];
    forall f | f in StepFields(step) ensures Field(form', f) == Field(form, f) {
    }
    if step == 1 {
      Step1ValidIff(form, hasImage);
      Step1ValidIff(form', hasImage);
    } else if step == 2 {
      Step2ValidIff(form, hasImage);
      Step2ValidIff(form', hasImage);
    } else if step == 3 {
      Step3ValidIff(form, hasImage);
      Step3ValidIff(form', hasImage);
    }
  }

  /** Having an image can only help a step pass. */
  lemma ImageOnlyHelps(step: int, form: map<string, string>, hasImage: bool)
    requires StepErrors(step, form, hasImage) == map[]
    ensures StepErrors(step, form, true) == map[]
  {
    if step == 1 {
      Step1ValidIff(form, hasImage);
      Step1ValidIff(form, true);
    } else if step == 2 {
      Step2ValidIff(form, hasImage);
      Step2ValidIff(form, true);
    } else if step == 3 {
      Step3ValidIff(form, hasImage);
      Step3ValidIff(form, true);
    }
  }

  /** The initial form data: every field empty. */
  function EmptyForm(): (m: map<string, string>)
    ensures m.Keys == FieldNames
    ensures forall k :: k in m ==> m[k] == ""
  {
    map k | k in FieldNames :: ""
  }

  /** The checks of step 1 (image, name, date of birth, parents' names, Aadhar number), in the order `validateStep` runs them. */
  method Step1Checks(form: map<string, string>, hasImage: bool) returns (newErrors: map<string, string>)
    ensures newErrors == StepErrors(1, form, hasImage)
  {
    newErrors := map[];
    if !hasImage { newErrors := newErrors["studentImage" := "Student image is required"]; }
    assert newErrors == Put(map[], "studentImage", if hasImage then None else Some("Student image is required"));
    ghost var m := newErrors;
    if Field(form, "name") == "" { newErrors := newErrors["name" := "Name is required"]; }
    assert newErrors == Put(m, "name", Required(form, "name", "Name is required"));
    m := newErrors;
    if Field(form, "dob") == "" { newErrors := newErrors["dob" := "Date of birth is required"]; }
    assert newErrors == Put(m, "dob", Required(form, "dob", "Date of birth is required"));
    m := newErrors;
    if Field(form, "fatherName") == "" { newErrors := newErrors["fatherName" := "Father's name is required"]; }
    assert newErrors == Put(m, "fatherName", Required(form, "fatherName", "Father's name is required"));
    m := newErrors;
    if Field(form, "motherName") == "" { newErrors := newErrors["motherName" := "Mother's name is required"]; }
    assert newErrors == Put(m, "motherName", Required(form, "motherName", "Mother's name is required"));
    m := newErrors;
    if Field(form, "aadhar") == "" { newErrors := newErrors["aadhar" := "Aadhar number is required"]; }
    else if |Field(form, "aadhar")| != 12 { newErrors := newErrors["aadhar" := "Aadhar must be 12 digits"]; }
    assert newErrors == Put(m, "aadhar",
      if Field(form, "aadhar") == "" then Some("Aadhar number is required")
      else if |Field(form, "aadhar")| != 12 then Some("Aadhar must be 12 digits")
      else None);
  }

  /** The checks of step 2 (class, section, admission number), in the order `validateStep` runs them. */
  method Step2Checks(form: map<string, string>) returns (newErrors: map<string, string>)
    ensures newErrors == StepErrors(2, form, false)
  {
    newErrors := map[];
    if Field(form, "class") == "" { newErrors := newErrors["class" := "Class is required"]; }
    if Field(form, "section") == "" { newErrors := newErrors["section" := "Section is required"]; }
    if Field(form, "admissionNo") == "" { newErrors := newErrors["admissionNo" := "Admission number is required"]; }
  }

  /** The checks of step 3 (phone, email, address), in the order `validateStep` runs them. */
  method Step3Checks(form: map<string, string>) returns (newErrors: map<string, string>)
    ensures newErrors == StepErrors(3, form, false)
  {
    newErrors := map[];
    if Field(form, "phone") == "" { newErrors := newErrors["phone" := "Phone number is required"]; }
    else if |Field(form, "phone")| != 10 { newErrors := newErrors["phone" := "Phone must be 10 digits"]; }
    if Field(form, "email") == "" { newErrors := newErrors["email" := "Email is required"]; }
    else if !EmailPattern(Field(form, "email")) { newErrors := newErrors["email" := "Email is invalid"]; }
    if Field(form, "address") == "" { newErrors := newErrors["address" := "Address is required"]; }
  }

  class StudentFormState {
    var currentStep: int
    var formData: map<string, string>
    var errors: map<string, string>
    var imageFile: Option<File>
    var originalImage: Option<string>
    var imagePreview: Option<string>
    var showImageEditor: bool
    var bgRemoved: bool
    var loading: bool
    var submitted: bool

    /** The step is one of the three, the form data has exactly its inputs,
        and every step before the current one passes its validation. */
    ghost predicate Valid()
      reads this
    {
      && 1 <= currentStep <= 3
      && formData.Keys == FieldNames
      && forall k :: 1 <= k < currentStep ==> StepErrors(k, formData, imageFile.Some?) == map[]
    }

    constructor ()
      ensures Valid()
      ensures currentStep == 1 && formData == EmptyForm() && errors == map[]
      ensures imageFile.None? && originalImage.None? && imagePreview.None?
      ensures !showImageEditor && !bgRemoved && !loading && !submitted
    {
      currentStep := 1;
      formData := EmptyForm();
      errors := map[];
      imageFile, originalImage, imagePreview := None, None, None;
      showImageEditor, bgRemoved, loading, submitted := false, false, false, false;
    }

    /** `handleImageChange` once the file has been read: a file over the size
        limit is refused with no state change; an accepted one opens the
        editor on it. */
    method HandleImageChange(file: Option<File>)
      requires Valid()
      modifies this
      ensures Valid()
      ensures file.None? || file.value.size > MaxImageBytes ==>
                originalImage == old(originalImage) && showImageEditor == old(showImageEditor)
                && bgRemoved == old(bgRemoved)
      ensures file.Some? && file.value.size <= MaxImageBytes ==>
                originalImage == Some(file.value.dataUrl) && showImageEditor && !bgRemoved
      ensures currentStep == old(currentStep) && formData == old(formData) && errors == old(errors)
      ensures imageFile == old(imageFile) && imagePreview == old(imagePreview)
      ensures loading == old(loading) && submitted == old(submitted)
    {
      if file.Some? {
        if file.value.size > MaxImageBytes {
          return;
        }
        originalImage := Some(file.value.dataUrl);
        showImageEditor := true;
        bgRemoved := false;
      }
    }

    /** `handleCropComplete`: the preview is set as soon as the crop is
        drawn; only once the cropped data URL has been read back as a blob
        do the file to upload and the editor change. */
    method HandleCropComplete(outcome: CropOutcome)
      requires Valid()
      modifies this
      ensures Valid()
      ensures outcome.CropFailed? ==> imagePreview == old(imagePreview)
      ensures !outcome.CropFailed? ==> imagePreview == Some(outcome.preview)
      ensures outcome.Cropped? ==> imageFile == Some(outcome.file) && !showImageEditor
      ensures !outcome.Cropped? ==> imageFile == old(imageFile) && showImageEditor == old(showImageEditor)
      ensures currentStep == old(currentStep) && formData == old(formData) && errors == old(errors)
      ensures originalImage == old(originalImage) && bgRemoved == old(bgRemoved)
      ensures loading == old(loading) && submitted == old(submitted)
    {
      if outcome.CropFailed? {
        return;
      }
      imagePreview := Some(outcome.preview);
      if outcome.BlobFailed? {
        return;
      }
      forall k | 1 <= k < currentStep ensures StepErrors(k, formData, true) == map[] {
        ImageOnlyHelps(k, formData, imageFile.Some?);
      }
      imageFile := Some(outcome.file);
      showImageEditor := false;
    }

    /** `handleInputChange` on an input of the current step: sets that field
        only, and blanks that field's error only when one is shown. */
    method HandleInputChange(name: string, value: string)
      requires Valid()
      requires name in StepFields(currentStep)
      modifies this
      ensures Valid()
      ensures formData == old(formData)[name := value]
      ensures errors == if name in old(errors) && old(errors)[name] != "" then old(errors)[name := ""] else old(errors)
      ensures currentStep == old(currentStep) && imageFile == old(imageFile) && imagePreview == old(imagePreview)
      ensures originalImage == old(originalImage) && showImageEditor == old(showImageEditor)
      ensures bgRemoved == old(bgRemoved) && loading == old(loading) && submitted == old(submitted)
    {
      var updated := formData[name := value];
      forall k | 1 <= k < currentStep ensures StepErrors(k, updated, imageFile.Some?) == map[] {
        StepVerdictIgnoresOtherFields(k, formData, imageFile.Some?, name, value);
      }
      assert name in FieldNames;
      formData := updated;
      if name in errors && errors[name] != "" {
        errors := errors[name := ""];
      }
    }

    /** `validateStep`: fills a fresh error map check by check, stores it,
        and reports whether it is empty. */
    method ValidateStep(step: int) returns (ok: bool)
      requires Valid()
      modifies this
      ensures Valid()
      ensures errors == StepErrors(step, formData, imageFile.Some?)
      ensures ok <==> errors == map[]
      ensures currentStep == old(currentStep) && formData == old(formData) && imageFile == old(imageFile)
      ensures imagePreview == old(imagePreview) && originalImage == old(originalImage)
      ensures showImageEditor == old(showImageEditor) && bgRemoved == old(bgRemoved)
      ensures loading == old(loading) && submitted == old(submitted)
    {
      var newErrors: map<string, string> := map[];
      if step == 1 { newErrors := Step1Checks(formData, imageFile.Some?); }
      if step == 2 { newErrors := Step2Checks(formData); }
      if step == 3 { newErrors := Step3Checks(formData); }
      errors := newErrors;
      ok := |newErrors| == 0;
      assert ok <==> newErrors == map[] by {
        if newErrors != map[] {
          var k :| k in newErrors;
          assert k in newErrors.Keys;
        }
      }
    }

    /** `nextStep` (offered below the last step): advances by one exactly
        when the current step validates. */
    method NextStep()
      requires Valid() && currentStep < 3
      modifies this
      ensures Valid()
      ensures errors == StepErrors(old(currentStep), formData, imageFile.Some?)
      ensures currentStep == if errors == map[] then old(currentStep) + 1 else old(currentStep)
      ensures formData == old(formData) && imageFile == old(imageFile) && imagePreview == old(imagePreview)
      ensures originalImage == old(originalImage) && showImageEditor == old(showImageEditor)
      ensures bgRemoved == old(bgRemoved) && loading == old(loading) && submitted == old(submitted)
    {
      var ok := ValidateStep(currentStep);
      if ok {
        currentStep := currentStep + 1;
      }
    }

    /** `prevStep`: goes back one step unless on the first. */
    method PrevStep()
      requires Valid()
      modifies this
      ensures Valid()
      ensures currentStep == if old(currentStep) > 1 then old(currentStep) - 1 else old(currentStep)
      ensures formData == old(formData) && errors == old(errors) && imageFile == old(imageFile)
      ensures imagePreview == old(imagePreview) && originalImage == old(originalImage)
      ensures showImageEditor == old(showImageEditor) && bgRemoved == old(bgRemoved)
      ensures loading == old(loading) && submitted == old(submitted)
    {
      if currentStep > 1 {
        currentStep := currentStep - 1;
      }
    }

    /** `onSubmit`: re-validates the current step only; when it passes, posts
        the image and the form data, and marks the form submitted when the
        post succeeds. */
    method OnSubmit(postOk: bool) returns (sent: Option<Submission>)
      requires Valid()
      modifies this
      ensures Valid()
      ensures errors == StepErrors(old(currentStep), formData, imageFile.Some?)
      ensures sent.Some? <==> errors == map[]
      ensures sent.Some? ==> sent.value == Submission(imageFile, formData) && !loading
      ensures sent.Some? && currentStep == 3 ==>
                forall k :: 1 <= k <= 3 ==> StepErrors(k, formData, imageFile.Some?) == map[]
      ensures submitted == (old(submitted) || (sent.Some? && postOk))
      ensures sent.None? ==> loading == old(loading)
      ensures currentStep == old(currentStep) && formData == old(formData) && imageFile == old(imageFile)
      ensures imagePreview == old(imagePreview) && originalImage == old(originalImage)
      ensures showImageEditor == old(showImageEditor) && bgRemoved == old(bgRemoved)
    {
      var ok := ValidateStep(currentStep);
      if !ok {
        return None;
      }
      loading := true;
      sent := Some(Submission(imageFile, formData));
      if postOk {
        submitted := true;
      }
      loading := false;
    }
  }

  /** Submitting from the last step sends a form in which every step passes:
      an image, every field filled in, a 12-character Aadhar number, a
      10-character phone and an email containing the pattern. */
  lemma SubmittedFormComplete(form: map<string, string>, image: Option<File>)
    requires forall k :: 1 <= k <= 3 ==> StepErrors(k, form, image.Some?) == map[]
    ensures image.Some?
    ensures forall f :: f in FieldNames ==> Field(form, f) != ""
    ensures |Field(form, "aadhar")| == 12 && |Field(form, "phone")| == 10
    ensures EmailPattern(Field(form, "email"))
  {
    Step1ValidIff(form, image.Some?);
    Step2ValidIff(form, image.Some?);
    Step3ValidIff(form, image.Some?);
    assert Field(form, "email") != "";
  }
}
