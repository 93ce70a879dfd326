# Student ID-card service: a verified model of its core

This project models the core of a small multi-tenant service. A college collects student records through shareable registration links and exports them. The exports are a spreadsheet, a zip of photos, and a zip of rendered ID cards. An administrator creates and deletes college accounts.

The model covers:

- **User schema** (`UserModel`): the role enum, fields required only for the `college` role, and unique emails.
- **Store** (`Store`): a `Database` class. Its insert and delete methods stand for the document-store calls the handlers make.
- **Export batches** (`Archive`, `EntryNames`, `CollegeController`):
  - a `ZipArchive` class with `Append` and `Finalize`;
  - the best-effort loops of `generateIDCards` and `downloadImages`, where a failed student is skipped and the archive is always finalized;
  - entry-name sanitisation;
  - the spreadsheet rows;
  - link generation.
- **ID-card layout** (`IdCard`):
  - the card is a sequence of draw commands at the integer anchors of a 1012×638 canvas;
  - `GenerateIDCard` appends them step by step, as the canvas code does;
  - lemmas give bounds, non-overlap and text contents.
- **Public registration** (`StudentController`): the submit guards, in order; tenant attribution from the link; the link lookup.
- **Administration** (`AdminController`): college creation with its duplicate check, the owned-college listing, and the ownership-checked cascade delete.
- **Login** (`AuthController`):
  - email and password normalisation;
  - the 400/401 decisions;
  - bcrypt's 72-byte key: the UTF-8 encoding of the password and a NUL byte, read round and round until 72 bytes are taken;
  - a cross-handler result, in four parts:
    - an account created with an upper-case or padded email, or with a password with leading whitespace, can never log in;
    - an account whose password is shorter than the key and has trailing whitespace cannot log in with any password that has no U+0000;
    - it does log in with enough copies of its password, each followed by U+0000;
    - a padded password that fills the key logs in when any non-space character is appended.
- **Front end**:
  - the `ProtectedRoute` decision and the route table (`AppRoutes`);
  - the three-step registration form as a stateful class (`StudentForm`): validator, stepper, input and image handlers, and the submit guard;
  - the link between a fully validated form and the server's acceptance of it (`Registration`).

External effects become parameters:

| effect | modelled as |
|---|---|
| photo loading | `loadPhoto: string -> Option<Image>` |
| QR encoding | `encodeQr: QrPayload -> Option<Image>` |
| PNG encoding | `png: seq<DrawCmd> -> Bytes` |
| photo fetch in the image export | `fetch: string -> FetchOutcome` |
| image-host upload | an `UploadOutcome` value |
| date parsing and formatting | `parseDate`, `localeDate`, `dateString` functions |
| uuid | a `linkId` argument |
| `FRONTEND_URL` | a `frontendUrl` argument |
| current time | a `now` argument |
| bcrypt | `Hash(password)`: an injective constructor over the 72-byte key, which is the password's UTF-8 encoding and a NUL byte, repeated until 72 bytes are taken |
| JWT signing | `Jwt(userId)` |
| document ids | a `nextId` counter in `Database` |

## Model

| member | source | states |
|---|---|---|
| Common.Filter | backend/controllers/adminController.js:80-82 | the result keeps exactly the elements that satisfy the predicate and is never longer than the input |
| Common.IsSpace | backend/controllers/authController.js:22-23 | defines JavaScript's `\s` class: tab, line feed, vertical tab, form feed, carriage return, space, no-break space, the Unicode space separators, the line and paragraph separators and the byte-order mark. These are the characters `trim` strips, and the characters `\S` in the email pattern (frontend/src/components/StudentForm.jsx:155) and `\s+` in entry names exclude |
| Common.TrimStart | backend/controllers/authController.js:23 | drops exactly the leading whitespace run: the result is a suffix of the input, starts with no whitespace, and only whitespace precedes it |
| Common.TrimEnd | backend/controllers/authController.js:23 | drops exactly the trailing whitespace run: the result is a prefix of the input, ends with no whitespace, and only whitespace follows it |
| Common.Trim | backend/controllers/authController.js:22-23 | the result has no leading or trailing whitespace, and it is a contiguous part of the input with only whitespace removed on either side |
| Common.TrimOfTrimmed | backend/controllers/authController.js:22-23 | trimming an already trimmed string changes nothing |
| Common.ToLower | backend/controllers/authController.js:22 | same length; every character is mapped to lower case |
| Common.ToUpper | backend/controllers/collegeController.js:189 | same length; every character is mapped to upper case |
| Common.UpperHasNoLower | backend/controllers/collegeController.js:189 | an upper-cased string contains no lower-case letter |
| Common.LowerKeepsTrimmed | backend/controllers/authController.js:22 | lower-casing a trimmed string keeps it trimmed and leaves no upper-case letter |
| UserModel.FindUserByEmail | backend/controllers/authController.js:27 | the lookup finds a stored user with exactly that email, and finds none only when no user has it |
| UserModel.FoundUserIsTheOne | backend/models/userModel.js:4-9 | with unique emails, the lookup of a user's email returns that very user |
| UserModel.ConditionalFieldsFollowRole | backend/models/userModel.js:21-34 | a `college` user is valid iff it has a non-empty collegeName and a createdBy; an `admin` user needs neither |
| UserModel.RoleOutsideEnumInvalid | backend/models/userModel.js:15-20 | a role other than `admin` or `college` makes a user invalid |
| UserModel.UserSchemaValid | backend/models/userModel.js:3-35 | defines a valid user document: non-empty email, a role in the enum, and collegeName and createdBy when the role is `college` |
| UserModel.SameIdSameUser | backend/controllers/authController.js:45-50 | with unique ids, the id a login answers with names exactly one stored user |
| UserModel.EmailsUnique | backend/models/userModel.js:4-9 | defines the unique index on `email`: no two stored users share an email |
| PasswordDigest.Utf8Char | backend/controllers/authController.js:37 | the UTF-8 bytes of one character: one to four bytes, whose lead byte announces how many, followed by continuation bytes; a zero byte appears only for U+0000 |
| PasswordDigest.Utf8CharDecodes | backend/controllers/authController.js:37 | decoding the bytes of a character gives back its code point |
| PasswordDigest.Utf8 | backend/controllers/authController.js:37 | the UTF-8 encoding of a string takes between one and four bytes per character |
| PasswordDigest.Utf8Append | backend/controllers/authController.js:37 | the encoding of a concatenation is the concatenation of the encodings |
| PasswordDigest.Utf8Injective | backend/controllers/authController.js:37 | two strings with the same encoding are equal |
| PasswordDigest.Utf8Ascii | backend/controllers/authController.js:37 | an ASCII string takes one byte per character |
| PasswordDigest.Utf8Snoc | backend/controllers/authController.js:37 | the encoding of a string with one more character ends with that character's bytes |
| PasswordDigest.Utf8Last | backend/controllers/authController.js:37 | the encoding of a non-empty string is that of all but its last character, then the last character's bytes |
| PasswordDigest.Utf8Repeat | backend/controllers/authController.js:37 | the encoding of copies of a string is copies of its encoding |
| PasswordDigest.Utf8NulFree | backend/controllers/authController.js:37 | a string without U+0000 encodes without a zero byte |
| PasswordDigest.SameCharSuffix | backend/controllers/authController.js:37 | two whole UTF-8 characters that both end the same bytes are the same bytes |
| PasswordDigest.Utf8EndsWithChar | backend/controllers/authController.js:37 | when a string's encoding ends with a character's bytes, the string ends with that character |
| PasswordDigest.TrimKeepsNulFree | backend/controllers/authController.js:23 | trimming a password without U+0000 leaves none |
| PasswordDigest.Cycle | backend/controllers/adminController.js:23 | reading a byte string round and round yields exactly the requested number of bytes |
| PasswordDigest.CycleStart | backend/controllers/adminController.js:23 | the bytes read round and round start with the string itself |
| PasswordDigest.CyclePeriodic | backend/controllers/adminController.js:23 | the bytes read round and round repeat with the string's length as period |
| PasswordDigest.CyclePrefix | backend/controllers/adminController.js:23 | a shorter read is a prefix of a longer one |
| PasswordDigest.CycleTwice | backend/controllers/adminController.js:23 | reading a string doubled is reading the string |
| PasswordDigest.CycleOfRepeat | backend/controllers/adminController.js:23 | reading a string round and round is reading copies of it one after the other |
| PasswordDigest.CycleEndsWithCopy | backend/controllers/adminController.js:23 | when the string is NUL-terminated text and a read ends on a zero, the read ends with a whole copy of the string, preceded by a zero unless it is just that copy |
| PasswordDigest.Key | backend/controllers/adminController.js:23 | the key bcrypt uses is exactly 72 bytes; it starts with as much of the UTF-8 encoding as fits, and a shorter encoding is followed by a zero byte |
| PasswordDigest.Hash | backend/controllers/adminController.js:23 | defines the digest of a password as that of its 72 key bytes; `bcrypt.compare` is equality of digests |
| PasswordDigest.ShortKeyStart | backend/controllers/authController.js:37 | below 72 bytes, the key starts with the whole encoding and a zero byte |
| PasswordDigest.KeyStartsWithChar | backend/controllers/authController.js:37 | the key starts with the bytes of the password's first character |
| PasswordDigest.CycleReadBack | backend/controllers/authController.js:37 | when a zero-free string and a zero, read round and round, give another string and a zero, the other string ends with the first, either equal to it or with a zero just before it |
| PasswordDigest.ShortKeysReadBack | backend/controllers/authController.js:37 | when a short encoding and a zero-free one have the same key, the short one ends with the other, either equal to it or with a zero just before it |
| PasswordDigest.ZeroBeforeSuffix | backend/controllers/authController.js:37 | a zero-free ending of bytes that also end with a zero and then other bytes lies within those other bytes |
| PasswordDigest.LastCharCarries | backend/controllers/authController.js:37 | when a password not ending in U+0000 encodes to a zero and then another password's encoding, the other password ends with the same character |
| PasswordDigest.ShortPasswordDigest | backend/controllers/authController.js:37 | two passwords without U+0000, one of fewer than 72 bytes, share a digest iff they are equal |
| PasswordDigest.NulJoinCollides | backend/controllers/authController.js:37 | a password, U+0000 and the password again is a different password with the same digest, so the bound above needs its NUL-free condition |
| PasswordDigest.DigestIgnoresPastKey | backend/controllers/authController.js:37 | text appended to a password of 72 bytes or more does not change its digest |
| PasswordDigest.RepeatedNulCollides | backend/controllers/authController.js:37 | enough copies of a password, each followed by U+0000, to fill 72 bytes have the password's digest |
| PasswordDigest.NulCopiesTrimmed | backend/controllers/authController.js:23 | copies of a password that does not start with whitespace, each followed by U+0000, are already trimmed |
| PasswordDigest.TrimmedNulCopiesCollide | backend/controllers/authController.js:23-37 | after `trim`, such copies filling 72 bytes are non-empty and still have the password's digest |
| PasswordDigest.LeadingSpaceDigest | backend/controllers/authController.js:23-37 | a password with leading whitespace shares its digest with no trimmed password |
| PasswordDigest.TrailingSpaceDigest | backend/controllers/authController.js:23-37 | a password of fewer than 72 bytes with trailing whitespace shares its digest with no trimmed password without U+0000 |
| Store.TenantStudents | backend/controllers/collegeController.js:123 | the query returns exactly the stored students whose collegeId is the requester |
| Store.StudentSchemaValid | backend/models/studentModel.js:3-65 | defines a valid student document: every required String field is non-empty |
| Store.LinkIdsUnique | backend/models/studentLink.js:4-8 | defines the unique index on `linkId` |
| Store.Database.Valid | backend/models/userModel.js:4-9 | defines the store invariant: unique user ids and emails, unique link ids, and a counter above every stored id |
| Store.FilterKeepsKeysUnique | backend/models/studentLink.js:4-8 | deleting records keeps a unique key unique |
| Store.Database.constructor | backend/models/userModel.js:3-35 | the store starts empty and valid |
| Store.Database.InsertUser | backend/controllers/adminController.js:33 | appends the user with the next fresh id and leaves students and links unchanged; unique emails and ids are preserved |
| Store.Database.InsertStudent | backend/controllers/studentController.js:92 | appends exactly the student and changes nothing else |
| Store.Database.InsertLink | backend/controllers/collegeController.js:24 | appends the link under a new linkId; the unique index is preserved |
| Store.Database.DeleteStudentsOf | backend/controllers/adminController.js:80 | the students become exactly the old ones outside the tenant; the rest is unchanged |
| Store.Database.DeleteLinksOf | backend/controllers/adminController.js:81 | the links become exactly the old ones outside the tenant; the rest is unchanged |
| Store.Database.DeleteUser | backend/controllers/adminController.js:82 | removes the users with that id; the rest is unchanged |
| Archive.ZipArchive.constructor | backend/controllers/collegeController.js:132-134 | a new archive is empty and open |
| Archive.ZipArchive.Append | backend/controllers/collegeController.js:142-144 | adds one named entry at the end of an open archive |
| Archive.ZipArchive.Finalize | backend/controllers/collegeController.js:150 | closes the archive and keeps its entries |
| Archive.Collect | backend/controllers/collegeController.js:139-148 | a best-effort batch yields at most one entry per item |
| Archive.CollectStep | backend/controllers/collegeController.js:139-148 | processing one more item extends the batch by exactly that item's result |
| Archive.CollectAppend | backend/controllers/collegeController.js:139-148 | the batch over a concatenation is the concatenation of the batches, so entries keep input order |
| Archive.CollectIsolates | backend/controllers/collegeController.js:140-147 | the batch is the entries before item k, then item k's own result, then the entries after it |
| Archive.CollectSkipsFailure | backend/controllers/collegeController.js:145-147 | a failing item contributes nothing and leaves the other entries as they are |
| Archive.CollectAllProduced | backend/controllers/collegeController.js:139-148 | when every item succeeds, entry i is item i's entry |
| Archive.CollectEmptyIff | backend/controllers/collegeController.js:139-148 | a batch is empty iff no item produced an entry |
| Archive.CollectMembers | backend/controllers/collegeController.js:139-148 | an entry is in the batch iff some item produced it |
| EntryNames.SanitizeRemovesSpace | backend/controllers/collegeController.js:143 | the sanitised name contains no whitespace and is never longer |
| EntryNames.SanitizeKeepsSpaceFree | backend/controllers/collegeController.js:143 | a name without whitespace is unchanged |
| EntryNames.SanitizeIdempotent | backend/controllers/collegeController.js:143 | sanitising twice equals sanitising once |
| EntryNames.WhitespaceRunBecomesOneUnderscore | backend/controllers/collegeController.js:143 | a maximal whitespace run of any length becomes exactly one `_` |
| EntryNames.IdCardNameDeterminesAdmissionNo | backend/controllers/collegeController.js:143 | when admission numbers contain no `_`, equal card entry names imply equal admission numbers |
| EntryNames.IdCardNamesCanCollide | backend/controllers/collegeController.js:143 | two different students ("A_1", "B") and ("A", "1 B") get the same card entry name |
| EntryNames.Sanitize | backend/controllers/collegeController.js:143 | defines `replace(/\s+/g, '_')`: each maximal whitespace run becomes one `_` |
| EntryNames.IdCardEntryName | backend/controllers/collegeController.js:143 | defines the card entry name `admissionNo_sanitized-name_ID_Card.png` |
| EntryNames.ImageEntryName | backend/controllers/collegeController.js:97 | defines the photo entry name `name_admissionNo.jpg`, with the name not sanitised |
| IdCard.GenerateIDCard | backend/controllers/collegeController.js:157-313 | drawing step by step, with the panel and top-bar rectangles accumulating on one path, yields the PNG of the full command list, or no card when QR encoding fails |
| IdCard.LayoutConstants | backend/controllers/collegeController.js:159-266 | canvas 1012×638, panel (40,40) 932×558, photo box (80,180) 180×180 equal to the clip circle's box, QR box (812,458) 120×120 |
| IdCard.QrPayloadOf | backend/controllers/collegeController.js:252-257 | the QR payload carries exactly the name, admission number, college name and email |
| IdCard.DetailRowAnchors | backend/controllers/collegeController.js:227-249 | row k draws its caption at (300, 200+45k) and its value at (480, 200+45k) |
| IdCard.DetailCommandsLength | backend/controllers/collegeController.js:244-249 | each detail row draws exactly two texts |
| IdCard.DetailsInBand | backend/controllers/collegeController.js:227-249 | all detail texts lie in the band x 300..480 and y 200..200+45(n-1) |
| IdCard.RegionsApart | backend/controllers/collegeController.js:198-266 | six rows with the last at y=425 above the QR top 458; the photo lies left of the details; photo, QR and top bar are pairwise disjoint; the values start left of the QR and the last row lies above it |
| IdCard.HeaderInPanel | backend/controllers/collegeController.js:170-193 | the background covers the canvas; both path fills, the title and the subtitle lie inside the panel |
| IdCard.PhotoInPanel | backend/controllers/collegeController.js:196-224 | the photo, its border, or the placeholder lies inside the panel |
| IdCard.QrInPanel | backend/controllers/collegeController.js:259-272 | the QR image lies inside the panel; the label's anchor (872,598) lies exactly on the panel's bottom edge, so it counts as inside only because the bounds are inclusive and the text's extent is not modelled |
| IdCard.CornersInPanel | backend/controllers/collegeController.js:284-310 | the four corner marks lie inside the panel |
| IdCard.DetailsInPanel | backend/controllers/collegeController.js:227-249 | up to six detail rows lie inside the panel |
| IdCard.CardBodyInPanel | backend/controllers/collegeController.js:174-272 | every command between the background and the footer lies inside the panel |
| IdCard.CardLayout | backend/controllers/collegeController.js:162-310 | the first command fills the canvas; every command lies on the canvas and is the background, the footer or inside the panel; the footer lies outside the panel |
| IdCard.TitleUpperCased | backend/controllers/collegeController.js:189 | the title text is the upper-cased college name and has no lower-case letter |
| IdCard.ClassAndDobRows | backend/controllers/collegeController.js:246-249 | the Class value is `class - section` at (480,290); the DOB value is the locale date at (480,425) |
| IdCard.PlaceholderTakesPhotoPlace | backend/controllers/collegeController.js:205-222 | the placeholder disc has the photo clip circle's centre (170,270) and radius 90 |
| IdCard.CardProducedIffQrEncodes | backend/controllers/collegeController.js:259-260 | a card is produced iff the QR payload encodes; a photo failure never drops it |
| IdCard.PhotoOnlyChangesPhotoSegment | backend/controllers/collegeController.js:196-224 | photo success or failure changes only the photo commands, not those before or after |
| IdCard.HeaderCommands | backend/controllers/collegeController.js:166-193 | defines the header: background, the panel path filled, the same path with the top bar added filled again, title, subtitle |
| IdCard.PhotoCommands | backend/controllers/collegeController.js:196-224 | defines the photo segment: the clipped photo and its border, or the placeholder disc |
| IdCard.DrawDetail | backend/controllers/collegeController.js:234-242 | defines one detail row: the label at x 300 and the value 180 to its right |
| IdCard.DetailRows | backend/controllers/collegeController.js:244-249 | defines the six label and value pairs, in drawing order |
| IdCard.DetailCommands | backend/controllers/collegeController.js:227-249 | defines the detail rows drawn 45 apart from y 200 |
| IdCard.SixRows | backend/controllers/collegeController.js:244-249 | the detail commands are the six rows at y 200, 245, 290, 335, 380 and 425 |
| IdCard.QrCommands | backend/controllers/collegeController.js:259-272 | defines the QR segment: the code at (812,458) and its label centred below it |
| IdCard.CardCommands | backend/controllers/collegeController.js:166-310 | defines the full card: header, photo, details, QR, footer, corners |
| IdCard.RenderCard | backend/controllers/collegeController.js:157-313 | defines the card's outcome: no card when the QR encoder fails, otherwise the PNG of the commands |
| IdCard.Covers | backend/controllers/collegeController.js:174-183 | defines the points a fill of a path paints: those inside one of its rectangles |
| IdCard.TopBarFillRepaintsPanel | backend/controllers/collegeController.js:172-193 | with no `beginPath` between them, the top-bar fill paints exactly the panel, every point the white fill painted, so the subtitle below the bar lies on the gradient |
| CollegeController.GenerateIDCards | backend/controllers/collegeController.js:121-155 | 404 "No students found" iff the tenant has no students; otherwise a new finalized zip named `<college>_ID_Cards.zip` whose entries are the tenant's cards in order, minus failures |
| CollegeController.CardEntryNeedsOnlyQr | backend/controllers/collegeController.js:139-148 | a student gets a card iff the QR payload encodes; the entry name is `admissionNo_sanitized-name_ID_Card.png` |
| CollegeController.EveryStudentGetsACard | backend/controllers/collegeController.js:139-148 | when every payload encodes, there is one card per student, in student order, with that student's entry name |
| CollegeController.QrFailureDropsOnlyThatCard | backend/controllers/collegeController.js:139-148 | one student's QR failure removes only that student's card |
| CollegeController.AppendPhoto | backend/controllers/collegeController.js:93-108 | one loop iteration appends the student's photo as `name_admissionNo.jpg` when the URL is non-empty and the fetch is ok, and otherwise appends nothing |
| CollegeController.DownloadImages | backend/controllers/collegeController.js:79-115 | always a new finalized zip named `<college>_student_images.zip` (no 404 when empty) with the photo entries of the tenant in order |
| CollegeController.PhotoArchiveMembers | backend/controllers/collegeController.js:92-109 | an entry is in the photo zip iff some student has a non-empty image URL whose fetch succeeded with that body, under the name `name_admissionNo.jpg` |
| CollegeController.PhotoArchiveEmptyIff | backend/controllers/collegeController.js:79-115 | the tenant's photo archive is empty iff none of its students has an image URL whose download succeeded; a tenant without students gets an empty archive |
| CollegeController.Rows | backend/controllers/collegeController.js:51-64 | one row per student, in student order |
| CollegeController.DownloadExcel | backend/controllers/collegeController.js:47-77 | a workbook with the sheet "Students", the xlsx content type and the filename `<college>_students.xlsx` |
| CollegeController.ExcelRowsLineUp | backend/controllers/collegeController.js:51-64 | no students gives an empty sheet; otherwise a header row of 12 columns, then one row per student, in which cell j is that student's value for column j |
| CollegeController.ColumnsLineUp | backend/controllers/collegeController.js:51-64 | each row's j-th cell is the field the j-th header names |
| CollegeController.GenerateStudentLink | backend/controllers/collegeController.js:14-36 | stores one active link for the requester's tenant under a new id and answers with `FRONTEND_URL/student-form/<id>`; an empty or duplicate id stores nothing |
| CollegeController.FormUrlCarriesLinkId | backend/controllers/collegeController.js:26 | the link is the frontend URL, then `/student-form/`, then the link id |
| CollegeController.IsCollegeRequester | backend/routes/collegeRoutes.js:7-11 | defines the requester the college-only guard admits: a valid `college` user |
| CollegeController.CardEntry | backend/controllers/collegeController.js:139-148 | defines one card-loop outcome: the rendered card under its entry name, or nothing when rendering failed |
| CollegeController.ImageEntry | backend/controllers/collegeController.js:93-108 | defines one photo-loop outcome: the downloaded body under `name_admissionNo.jpg`, or nothing without a URL or a successful download |
| CollegeController.StudentRow | backend/controllers/collegeController.js:51-64 | defines a student's spreadsheet row, dates written with `toDateString` |
| CollegeController.ColumnValue | backend/controllers/collegeController.js:51-64 | defines, independently of the row, the field each column header names |
| CollegeController.FormUrl | backend/controllers/collegeController.js:26 | defines the form link `FRONTEND_URL/student-form/<linkId>` |
| StudentController.FindActiveLink | backend/controllers/studentController.js:49 | the lookup finds an active link with that id, and finds none only when no such link exists |
| StudentController.FindActiveLinkAppend | backend/controllers/studentController.js:108 | a newly stored active link is the one the lookup finds |
| StudentController.GetLinkDetails | backend/controllers/studentController.js:104-120 | details iff an active link with that id exists; they carry only its collegeName and the linkId; otherwise 404 "Invalid or expired link" |
| StudentController.BuildStudent | backend/controllers/studentController.js:74-100 | a record is built iff every required text field is present and non-empty, the date of birth parses, and the image URL, link id and college name are non-empty; it then passes the schema, stores each posted field unchanged, the parsed date and the time of creation, takes collegeId and collegeName from the link, and carries the URL's linkId and the uploaded image URL |
| StudentController.SubmitStudentData | backend/controllers/studentController.js:21-102 | answers as the guard chain decides and stores exactly the created student, or nothing; users and links are unchanged |
| StudentController.SubmitGuardOrder | backend/controllers/studentController.js:44-71 | no file gives 400 before the link lookup; no active link gives 404 before the upload matters; an upload failure gives 400 with its message |
| StudentController.SubmittedStudentAttribution | backend/controllers/studentController.js:74-97 | a created student had a file and an upload, carries the upload URL, the linkId, each posted field unchanged and the parsed date of birth, passes the schema, and belongs to the tenant of an active link with that id |
| StudentController.NewLinkIsServed | backend/controllers/studentController.js:104-120 | a freshly generated link is served with the college name it was stored with |
| StudentController.TextFieldsPresent | backend/models/studentModel.js:8-51 | defines the request fields mongoose's `required` accepts: every text field present and non-empty |
| StudentController.CarriesBody | backend/controllers/studentController.js:74-90 | defines a student that stores each posted field unchanged, `class` as `studentClass` |
| StudentController.SubmitOutcome | backend/controllers/studentController.js:21-102 | a rejection is a 400 or a 404; a creation answers 201 with a student that stores each posted field unchanged |
| StudentController.SubmitServerErrorIff | backend/controllers/studentController.js:74-100 | past the three guards, the answer is 500 iff a required field is absent or empty, the date does not parse, or the URL, link id or college name is empty |
| AdminController.NewCollegeSchemaValid | backend/controllers/adminController.js:23-31 | a created college passes the user schema, has role `college`, and stores only the bcrypt hash of the password |
| AdminController.CreateCollege | backend/controllers/adminController.js:7-47 | a falsy field or an existing email gives 400 and stores nothing; otherwise exactly one new college user is appended, and the response carries only id, email and collegeName |
| AdminController.GetAllColleges | backend/controllers/adminController.js:50-61 | lists exactly the `college` users created by the requester, without passwords |
| AdminController.FindOwnedCollege | backend/controllers/adminController.js:69-73 | finds a `college` user with that id created by the requester, and finds none only when none exists |
| AdminController.DeleteCollege | backend/controllers/adminController.js:64-92 | an id that is not an owned college gives 404 and deletes nothing; otherwise the tenant's students and links and the user are removed, and the rest is kept |
| AdminController.CascadeRemovesExactlyTheTenant | backend/controllers/adminController.js:80-82 | the cascade keeps exactly the students and links of other colleges and every user but the deleted one, which is removed once |
| AdminController.FilterDropsUniqueKey | backend/controllers/adminController.js:82 | deleting an existing unique id removes exactly one user |
| AdminController.FilterKeepsAllOtherIds | backend/controllers/adminController.js:82 | deleting an absent id changes nothing |
| AdminController.IsAdminRequester | backend/routes/adminRoutes.js:7-9 | defines the requester the admin-only guard admits: a valid `admin` user |
| AdminController.NewCollege | backend/controllers/adminController.js:23-31 | defines the account `createCollege` builds: the email as given, the digest of the password as given, role `college`, created by the requester |
| AdminController.Public | backend/controllers/adminController.js:55 | defines a user with the password deselected |
| AuthController.GenerateToken | backend/controllers/authController.js:5-7 | the token is signed for the user's id |
| AuthController.NormalizeEmail | backend/controllers/authController.js:22 | the normalised email is trimmed, has no upper-case letter and is never longer |
| AuthController.Login | backend/controllers/authController.js:10-61 | a rejection is 400 "Missing fields" or 401 "Invalid credentials"; a success comes from a stored user with the normalised email whose digest is that of the trimmed password, which bcrypt compares on its 72-byte key, and returns that user's id, email, role, collegeName and token, with no password |
| AuthController.MissingFieldsIff | backend/controllers/authController.js:17-20 | 400 "Missing fields" iff the email or password is falsy |
| AuthController.LoginSucceedsIff | backend/controllers/authController.js:27-45 | with unique emails, login succeeds iff some user has the normalised email and the digest of the trimmed password |
| AuthController.FailuresIndistinguishable | backend/controllers/authController.js:30-43 | with both fields present, an unknown email and a wrong password get the same 401 response |
| AuthController.LowerIdempotent | backend/controllers/authController.js:22 | lower-casing twice is lower-casing once |
| AuthController.LoginSeesNormalisedOnly | backend/controllers/authController.js:22-23 | two requests with the same normalised credentials get the same answer |
| AuthController.NormalizeEmailIdempotent | backend/controllers/authController.js:22 | normalising an email twice equals normalising once |
| AuthController.TrimIdempotent | backend/controllers/authController.js:23 | trimming twice equals trimming once |
| AuthController.LoginNormalisationStable | backend/controllers/authController.js:22-23 | logging in with already-normalised credentials gives the same answer |
| AuthController.LoggedInAccount | backend/controllers/authController.js:27-45 | a login as a stored user means that user's email is the normalised email and their digest is that of the trimmed password |
| AuthController.UnnormalisedAccountLockedOut | backend/controllers/authController.js:22-37 | an account whose stored email has upper case or padding, or whose password was hashed with leading whitespace, can never log in; one whose password, shorter than 72 UTF-8 bytes, has trailing whitespace cannot log in with a sent password without U+0000 |
| AuthController.CreatedCollegeLockedOut | backend/controllers/authController.js:22-37 | a college created with an upper-case or padded email, or with a password with leading whitespace, can never log in; one created with a password of fewer than 72 UTF-8 bytes with trailing whitespace cannot log in with a sent password without U+0000 |
| AuthController.PaddingPastKeyLogsIn | backend/controllers/authController.js:22-45 | a college whose password fills the 72-byte key logs in by sending that password followed by any non-space character |
| AuthController.PaddedPasswordFillsKey | backend/controllers/adminController.js:23 | seventy-one letters and a space form a 72-byte password that is not trimmed, so the lockout needs its length bound |
| AuthController.NulPaddingLogsIn | backend/controllers/authController.js:22-45 | a college whose password does not start with whitespace logs in by sending enough copies of that password, each followed by U+0000, to fill 72 bytes, whatever whitespace the password ends with |
| AuthController.NulPaddedPasswordQualifies | backend/controllers/adminController.js:23 | `"a "` has trailing whitespace and fewer than 72 bytes, and 24 NUL-terminated copies of it fill the key, so the lockout needs its NUL-free condition |
| AppRoutes.ProtectedRoute | frontend/src/App.jsx:13-33 | spinner while loading; otherwise the child is shown iff there is a user and no required role or a matching role; every other case redirects to `/login` |
| AppRoutes.DashboardsNeedTheirRole | frontend/src/App.jsx:45-60 | the admin dashboard is shown only to a loaded `admin` user, and the college dashboard only to a loaded `college` user |
| AppRoutes.DashboardsReachable | frontend/src/App.jsx:45-60 | each dashboard is shown to its own role, and a `college` user is sent from `/admin` to `/login` |
| AppRoutes.StudentFormUnguarded | frontend/src/App.jsx:61 | `/student-form/<id>` shows the form for that id to anyone, logged in or not |
| AppRoutes.UnknownPathGoesHome | frontend/src/App.jsx:63 | a path redirects to `/` iff no route names it, whatever the session |
| AppRoutes.NamedPath | frontend/src/App.jsx:41-61 | defines the paths the table names: `/`, the five one-segment pages and `/student-form/<linkId>` |
| AppRoutes.Match | frontend/src/App.jsx:41-63 | the catch-all route is taken iff no other route names the path, and it navigates to `/` |
| AppRoutes.Resolve | frontend/src/App.jsx:41-63 | defines what the router shows: a plain page, the guard's decision, or the redirect |
| StudentForm.EmailPatternIsRegex | frontend/src/components/StudentForm.jsx:155 | the compact test holds iff some substring is non-space⁺ `@` non-space⁺ `.` non-space⁺ |
| StudentForm.EmailPatternUnanchored | frontend/src/components/StudentForm.jsx:155 | the test is a search: surrounding text never makes an accepted email fail |
| StudentForm.EmailPattern | frontend/src/components/StudentForm.jsx:155 | defines the test by the shortest match: a non-space, `@`, a non-space run, `.`, a non-space |
| StudentForm.Field | frontend/src/components/StudentForm.jsx:132-161 | defines a form value as the validator reads it, empty when unset |
| StudentForm.StepFields | frontend/src/components/StudentForm.jsx:313-520 | defines the inputs each step renders |
| StudentForm.StepErrors | frontend/src/components/StudentForm.jsx:132-161 | defines the error map of a step, check by check in source order, with the source's messages |
| StudentForm.Step1ValidIff | frontend/src/components/StudentForm.jsx:135-143 | step 1 passes iff there is an image, the name, date of birth and parents' names are non-empty, and the Aadhar number has length exactly 12 (digits are not checked) |
| StudentForm.Step2ValidIff | frontend/src/components/StudentForm.jsx:145-149 | step 2 passes iff class, section and admission number are non-empty |
| StudentForm.Step3ValidIff | frontend/src/components/StudentForm.jsx:151-157 | step 3 passes iff the phone has length 10, the email contains the pattern, and the address is non-empty |
| StudentForm.OtherStepsValid | frontend/src/components/StudentForm.jsx:132-161 | a step number outside 1..3 produces no errors |
| StudentForm.AadharLengthMessage | frontend/src/components/StudentForm.jsx:141-142 | a non-empty Aadhar number of the wrong length gets "Aadhar must be 12 digits" |
| StudentForm.EmailInvalidMessage | frontend/src/components/StudentForm.jsx:154-155 | a non-empty email without the pattern gets "Email is invalid" |
| StudentForm.StepVerdictIgnoresOtherFields | frontend/src/components/StudentForm.jsx:132-161 | changing a field that a step does not check leaves that step's verdict unchanged |
| StudentForm.ImageOnlyHelps | frontend/src/components/StudentForm.jsx:136 | having an image can only make a step pass |
| StudentForm.EmptyForm | frontend/src/components/StudentForm.jsx:28-40 | the initial form has exactly the eleven fields, all empty |
| StudentForm.Step1Checks | frontend/src/components/StudentForm.jsx:135-143 | filling the error dictionary check by check yields step 1's error map |
| StudentForm.Step2Checks | frontend/src/components/StudentForm.jsx:145-149 | filling the error dictionary check by check yields step 2's error map |
| StudentForm.Step3Checks | frontend/src/components/StudentForm.jsx:151-157 | filling the error dictionary check by check yields step 3's error map |
| StudentForm.StudentFormState.constructor | frontend/src/components/StudentForm.jsx:13-42 | the form starts at step 1 with empty fields, no errors, no image and nothing in progress |
| StudentForm.StudentFormState.HandleImageChange | frontend/src/components/StudentForm.jsx:57-72 | no file, or a file over 5,000,000 bytes, changes nothing; otherwise (including exactly 5,000,000) the editor opens on the file's data URL with the background flag cleared |
| StudentForm.StudentFormState.HandleCropComplete | frontend/src/components/StudentForm.jsx:95-116 | a crop that throws changes nothing; a crop drawn but not read back as a blob sets only the preview; a full success sets the preview and the file and closes the editor |
| StudentForm.StudentFormState.HandleInputChange | frontend/src/components/StudentForm.jsx:118-130 | sets only the named field, and blanks that field's error only when one is shown; earlier steps stay valid |
| StudentForm.StudentFormState.ValidateStep | frontend/src/components/StudentForm.jsx:132-161 | replaces the errors with the step's error map and returns true iff it is empty |
| StudentForm.StudentFormState.NextStep | frontend/src/components/StudentForm.jsx:163-169 | below step 3, advances by exactly one iff the current step validates; the step stays within 1..3 |
| StudentForm.StudentFormState.PrevStep | frontend/src/components/StudentForm.jsx:171-173 | goes back one step only above step 1 |
| StudentForm.StudentFormState.OnSubmit | frontend/src/components/StudentForm.jsx:175-213 | re-validates only the current step and sends nothing when it fails; a send from step 3 carries a form in which all three steps pass; submitted is set only after a successful post |
| StudentForm.SubmittedFormComplete | frontend/src/components/StudentForm.jsx:132-161 | a form passing all three steps has an image, every field non-empty, a 12-character Aadhar number, a 10-character phone and a pattern-matching email |
| Registration.BodyOf | frontend/src/components/StudentForm.jsx:186-198 | the posted body carries all eleven form fields, each present under its own name |
| Registration.StoresForm | backend/controllers/studentController.js:74-90 | defines a student whose ten text fields are the form's values under the inputs' names |
| Registration.ValidatedFormIsAccepted | backend/controllers/studentController.js:74-97 | a form that passes all steps, posted to an active link with a successful upload and a parsable date, is stored by the server with each of its ten text fields unchanged, the parsed date and the upload URL |

## Left out

- Rasterisation is not modelled: gradients, colours, fonts, arcs, clipping and the PNG bytes. The card is the list of integer-anchored draw commands; the PNG encoder is a parameter.
- Zip and xlsx encoding are not modelled (archiver's zlib level, the XLSX library). The archive is a sequence of named entries plus a finalized flag; the sheet is a sequence of rows.
- The HTTP response streaming of the archive is not modelled. An error after the headers are sent is also left out.
- The network and foreign services are deterministic functions of their input: photo loading, fetch, QR encoding, the image-host upload and date formatting. A real call may give different answers for the same URL at different times.
- Most 500 catch-all branches are left out. Two are modelled: a submission whose record cannot be built gives `SubmitServerError`, and a duplicate `linkId` in link generation (a save error caught by the catch-all) gives `LinkError`. Other database errors, malformed ObjectIds and throwing `toDateString` calls are not modelled.
- bcrypt salt and cost, the Blowfish rounds, and the JWT secret and expiry, are left out. A digest is an injective constructor over the 72 key bytes, so a compare succeeds iff the two keys are equal. The key follows bcryptjs for `$2a$`/`$2b$` salts: the UTF-8 password and a NUL byte, read round and round. A digest collision of the Blowfish function itself is not modelled.
- Response statuses are stored where they are set explicitly (400, 401, 404, and 201 on `SubmitCreated` and `CollegeCreated`). The implicit 200 of the other successful responses is implied by the response constructor and not stored.
- `getStudents`, `removeImageBackground`, `handleRemoveBackground`, `getMe`, `fetchLinkDetails` and the crop-area callbacks are left out: they are plain reads or foreign-library calls with no decision logic.
- Asynchronous FileReader and cropping are left out. Their completion is handed to `HandleImageChange` and `HandleCropComplete` as an outcome; for the crop, that outcome says which of its two awaited steps threw, if any.
- Toast messages and the loading spinner's timing during the post are left out.
- Common.ToLower and Common.ToUpper map ASCII letters only. JavaScript's full Unicode case mapping is not modelled.
- StudentForm.Step1ValidIff and StudentForm.Step3ValidIff count characters as code points. JavaScript's `length` counts UTF-16 units, which differs for characters outside the Basic Multilingual Plane.
- StudentForm.StudentFormState.HandleInputChange requires the field to belong to the current step, because only those inputs are rendered.
- AppRoutes.Resolve takes the path already split into segments. URL decoding, trailing slashes and query strings are not modelled.
- The frontend dashboard reads a generated password that the create-college response never contains. The dashboards are not part of this model.

## Notes

- Card entry names need not be unique. EntryNames.IdCardNamesCanCollide exhibits two students with the same name, ("A_1", "B") and ("A", "1 B"), so one card shadows the other when the zip is extracted. EntryNames.IdCardNameDeterminesAdmissionNo shows that names are unique when admission numbers contain no `_`. The model keeps the naming as written.
- A QR failure drops the student's card, because the QR code is generated outside the photo's try block. A photo failure only draws the placeholder.
- Only the ID-card export answers 404 for an empty tenant. The spreadsheet export sends an empty sheet, and the photo export an empty archive.
- The card's footer is drawn at y = 608. The panel ends at y = 598, so the footer lies below it.
- The panel is not left white. Nothing calls `beginPath` between its fill and the top bar's, so the top bar's rectangle joins the panel's path and the gradient fill repaints the whole panel (IdCard.TopBarFillRepaintsPanel). The white subtitle at y = 150 therefore lies on the gradient.
- bcrypt keys on 72 bytes: the UTF-8 password and a NUL byte, read round and round. So the lockout of a college created with a password with trailing whitespace has two limits (AuthController.CreatedCollegeLockedOut):
  - It holds only for passwords shorter than 72 bytes. A 72-byte password such as seventy-one letters and a space logs in when the same text is sent followed by any non-space character (AuthController.PaddingPastKeyLogsIn, AuthController.PaddedPasswordFillsKey).
  - It holds only against sent passwords without U+0000. Enough copies of the password, each followed by U+0000, have the same key, and trimming does not touch them. For `"a "`, 24 copies suffice (AuthController.NulPaddingLogsIn, AuthController.NulPaddedPasswordQualifies).
- Leading whitespace locks the account out unconditionally: the key of a trimmed password never starts with a whitespace character's bytes (PasswordDigest.LeadingSpaceDigest).
