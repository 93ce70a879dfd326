/** `login`: credential normalisation, the 400/401 decisions and the success
    response. The user lookup is read-only; bcrypt comparison is equality of
    the stored digest with the digest of the trimmed password (so only its
    72-byte key matters: the UTF-8 bytes and a NUL, read round and round),
    and the token is signed over the user id (secret and expiry are not
    modelled). */
module AuthController {
  import opened Common
  import opened UserModel
  import opened PasswordDigest
  import AdminController

  datatype LoginBody = LoginBody(email: Option<string>, password: Option<string>)

  /** A signed token whose payload is the user id. */
  datatype Token = Jwt(userId: Id)

  datatype LoginResponse =
    | LoginRejected(status: nat, message: string)
    | LoginOk(id: Id, email: string, role: string, collegeName: Option<string>, token: Token)

  const MissingFieldsMessage := "Missing fields"
  const InvalidCredentialsMessage := "Invalid credentials"

  /** `generateToken`. */
  function GenerateToken(id: Id): (t: Token)
    ensures t.userId == id
  {
    Jwt(id)
  }

  /** The email as looked up: trimmed, then lower-cased. */
  function NormalizeEmail(email: string): (r: string)
    ensures |r| <= |email|
    ensures IsTrimmed(r) && !HasUpper(r)
  {
    LowerKeepsTrimmed(Trim(email));
    ToLower(Trim(email))
  }

  function Login(users: seq<User>, body: LoginBody): (r: LoginResponse)
    ensures r.LoginRejected? ==>
              r == LoginRejected(400, "Missing fields") || r == LoginRejected(401, "Invalid credentials")
    ensures r.LoginOk? ==>
              && Truthy(body.email) && Truthy(body.password)
              && exists u :: u in users && u.id == r.id && u.email == r.email && u.role == r.role
                   && u.collegeName == r.collegeName && r.token == Jwt(u.id)
                   && u.email == NormalizeEmail(body.email.value)
                   && u.password == Hash(Trim(body.password.value))
  {
    if !Truthy(body.email) || !Truthy(body.password) then LoginRejected(400, MissingFieldsMessage)
    else
      var email := NormalizeEmail(body.email.value);
      var password := Trim(body.password.value);
      match FindUserByEmail(users, email)
      case None => LoginRejected(401, InvalidCredentialsMessage)
      case Some(user) =>
        if user.password != Hash(password) then LoginRejected(401, InvalidCredentialsMessage)
        else LoginOk(user.id, user.email, user.role, user.collegeName, GenerateToken(user.id))
  }

  /** A missing or empty field is answered with 400 before any lookup, and
      only then. */
  lemma MissingFieldsIff(users: seq<User>, body: LoginBody)
    ensures Login(users, body) == LoginRejected(400, "Missing fields")
        <==> !Truthy(body.email) || !Truthy(body.password)
  {
  }

  /** With unique emails, login succeeds exactly when some account has the
      normalised email and the digest of the trimmed password. */
  lemma LoginSucceedsIff(users: seq<User>, body: LoginBody)
    requires EmailsUnique(users)
    ensures Login(users, body).LoginOk? <==>
              && Truthy(body.email) && Truthy(body.password)
              && exists u :: u in users && u.email == NormalizeEmail(body.email.value)
                   && u.password == Hash(Trim(body.password.value))
  {
    if Truthy(body.email) && Truthy(body.password) {
      var email := NormalizeEmail(body.email.value);
      if u :| u in users && u.email == email && u.password == Hash(Trim(body.password.value)) {
        FoundUserIsTheOne(users, email, u);
      }
    }
  }

  /** An unknown email and a wrong password get the same answer. */
  lemma FailuresIndistinguishable(users: seq<User>, body: LoginBody)
    requires Truthy(body.email) && Truthy(body.password)
    requires !Login(users, body).LoginOk?
    ensures Login(users, body) == LoginRejected(401, "Invalid credentials")
  {
  }

  lemma LowerIdempotent(s: string)
    ensures ToLower(ToLower(s)) == ToLower(s)
  {
  }

  /** Login sees a body only through its normalised credentials. */
  lemma LoginSeesNormalisedOnly(users: seq<User>, e1: string, p1: string, e2: string, p2: string)
    requires e1 != "" && p1 != "" && e2 != "" && p2 != ""
    requires NormalizeEmail(e1) == NormalizeEmail(e2) && Trim(p1) == Trim(p2)
    ensures Login(users, LoginBody(Some(e1), Some(p1))) == Login(users, LoginBody(Some(e2), Some(p2)))
  {
  }

  lemma NormalizeEmailIdempotent(e: string)
    ensures NormalizeEmail(NormalizeEmail(e)) == NormalizeEmail(e)
  {
    var n := NormalizeEmail(e);
    TrimOfTrimmed(n);
    LowerIdempotent(Trim(e));
  }

  lemma TrimIdempotent(p: string)
    ensures Trim(Trim(p)) == Trim(p)
  {
    TrimOfTrimmed(Trim(p));
  }

  /** Normalising is idempotent, so sending the already-normalised
      credentials gives the same answer. */
  lemma LoginNormalisationStable(users: seq<User>, e: string, p: string)
    requires Trim(e) != "" && Trim(p) != ""
    ensures Login(users, LoginBody(Some(e), Some(p)))
         == Login(users, LoginBody(Some(NormalizeEmail(e)), Some(Trim(p))))
  {
    NormalizeEmailIdempotent(e);
    TrimIdempotent(p);
    assert e != "" && p != "";
    assert |NormalizeEmail(e)| == |Trim(e)|;
    LoginSeesNormalisedOnly(users, e, p, NormalizeEmail(e), Trim(p));
  }

  /** The account a successful login answers for is the one whose email is
      the normalised email sent and whose digest is that of the trimmed
      password sent. */
  lemma LoggedInAccount(users: seq<User>, u: User, body: LoginBody)
    requires IdsUnique(users) && u in users
    ensures Login(users, body).LoginOk? && Login(users, body).id == u.id ==>
              && u.email == NormalizeEmail(body.email.value)
              && u.password == Hash(Trim(body.password.value))
  {
    var r := Login(users, body);
    if r.LoginOk? && r.id == u.id {
      var v :| v in users && v.id == r.id && v.email == NormalizeEmail(body.email.value)
               && v.password == Hash(Trim(body.password.value));
      SameIdSameUser(users, u, v);
    }
  }

  /** An account whose stored email has an upper-case letter or surrounding
      whitespace can never log in, whatever is sent. Nor can one whose
      password was hashed with leading whitespace. Nor can one whose password
      was hashed with trailing whitespace and is shorter than bcrypt's
      72-byte key, as long as the password sent has no U+0000. */
  lemma UnnormalisedAccountLockedOut(users: seq<User>, u: User, password: string, body: LoginBody)
    requires IdsUnique(users) && u in users && u.password == Hash(password)
    requires || HasUpper(u.email) || !IsTrimmed(u.email)
             || (password != [] && IsSpace(password[0]))
             || (!IsTrimmed(password) && |Utf8(password)| < KeyBytes
                 && (body.password.Some? ==> NulFree(body.password.value)))
    ensures !(Login(users, body).LoginOk? && Login(users, body).id == u.id)
  {
    LoggedInAccount(users, u, body);
    if body.password.Some? {
      var sent := Trim(body.password.value);
      if password != [] && IsSpace(password[0]) {
        LeadingSpaceDigest(password, sent);
      } else if !IsTrimmed(password) && |Utf8(password)| < KeyBytes && NulFree(body.password.value) {
        TrimKeepsNulFree(body.password.value);
        TrailingSpaceDigest(password, sent);
      }
    }
  }

  /** Create-then-login: `createCollege` stores the email as typed and hashes
      the password as typed, while `login` normalises both. So a college
      created with an upper-case or padded email, or with a password with
      leading whitespace, is locked out; so is one created with a password
      of fewer than 72 UTF-8 bytes with trailing whitespace, against every
      sent password without U+0000. */
  lemma CreatedCollegeLockedOut(users: seq<User>, id: Id, collegeName: string, email: string,
                                password: string, creator: Id, body: LoginBody)
    requires IdsUnique(users)
    requires AdminController.NewCollege(id, collegeName, email, password, creator) in users
    requires || HasUpper(email) || !IsTrimmed(email)
             || (password != [] && IsSpace(password[0]))
             || (!IsTrimmed(password) && |Utf8(password)| < KeyBytes
                 && (body.password.Some? ==> NulFree(body.password.value)))
    ensures !(Login(users, body).LoginOk? && Login(users, body).id == id)
  {
    UnnormalisedAccountLockedOut(users, AdminController.NewCollege(id, collegeName, email, password, creator),
                                 password, body);
  }

  /** The 72-byte bound above cannot be dropped. A college whose password
      fills bcrypt's key logs in by sending that password followed by any
      non-space character: trimming keeps the addition, and bcrypt reads
      only the first 72 bytes. */
  lemma PaddingPastKeyLogsIn(users: seq<User>, id: Id, collegeName: string, email: string,
                             password: string, creator: Id, extra: char)
    requires EmailsUnique(users)
    requires AdminController.NewCollege(id, collegeName, email, password, creator) in users
    requires email != "" && NormalizeEmail(email) == email
    requires password != [] && !IsSpace(password[0]) && |Utf8(password)| >= KeyBytes && !IsSpace(extra)
    ensures Login(users, LoginBody(Some(email), Some(password + [extra]))).LoginOk?
  {
    var college := AdminController.NewCollege(id, collegeName, email, password, creator);
    var sent := password + [extra];
    assert sent[0] == password[0] && sent[|sent| - 1] == extra;
    TrimOfTrimmed(sent);
    DigestIgnoresPastKey(password, [extra]);
    var body := LoginBody(Some(email), Some(sent));
    assert college.email == NormalizeEmail(body.email.value) && college.password == Hash(Trim(body.password.value));
    LoginSucceedsIff(users, body);
  }

  /** Seventy-one letters and a trailing space: a padded password that fills
      the key, so `PaddingPastKeyLogsIn` applies to it although it is not
      trimmed. */
  const PaddedPassword: string := seq(71, _ => 'a') + " "

  lemma PaddedPasswordFillsKey()
    ensures !IsTrimmed(PaddedPassword) && !IsSpace(PaddedPassword[0])
    ensures |Utf8(PaddedPassword)| == KeyBytes
  {
    assert forall i :: 0 <= i < |PaddedPassword| ==> PaddedPassword[i] as int < 0x80;
    Utf8Ascii(PaddedPassword);
  }

  /** The NUL-free condition above cannot be dropped either. Enough copies
      of a college's password, each followed by U+0000, fill the key with
      the bytes its own key cycles through; the copies start and end with
      non-space characters, so trimming keeps them, and the college logs in
      with them although the text differs from its password. */
  lemma NulPaddingLogsIn(users: seq<User>, id: Id, collegeName: string, email: string,
                         password: string, creator: Id, copies: nat)
    requires EmailsUnique(users)
    requires AdminController.NewCollege(id, collegeName, email, password, creator) in users
    requires email != "" && NormalizeEmail(email) == email
    requires password != [] && !IsSpace(password[0])
    requires copies * (|Utf8(password)| + 1) >= KeyBytes
    ensures Login(users, LoginBody(Some(email), Some(Repeat(password + ['\0'], copies)))).LoginOk?
  {
    var college := AdminController.NewCollege(id, collegeName, email, password, creator);
    var sent := Repeat(password + ['\0'], copies);
    TrimmedNulCopiesCollide(password, copies);
    var body := LoginBody(Some(email), Some(sent));
    assert college.email == NormalizeEmail(body.email.value) && college.password == Hash(Trim(body.password.value));
    LoginSucceedsIff(users, body);
  }

  /** `"a "`: a short password with trailing whitespace, which twenty-four
      NUL-terminated copies of itself open although `CreatedCollegeLockedOut`
      locks out every NUL-free text. */
  const NulPaddedPassword: string := "a "

  lemma NulPaddedPasswordQualifies()
    ensures !IsTrimmed(NulPaddedPassword) && !IsSpace(NulPaddedPassword[0])
    ensures |Utf8(NulPaddedPassword)| < KeyBytes
    ensures 24 * (|Utf8(NulPaddedPassword)| + 1) >= KeyBytes
  {
    Utf8Ascii(NulPaddedPassword);
  }
}
