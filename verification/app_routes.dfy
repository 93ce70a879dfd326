/** The client-side router: the route table and the `ProtectedRoute` guard
    that decides, from the authentication state, whether a page renders. */
module AppRoutes {
  import opened Common

  /** The signed-in user as the auth context holds it. */
  datatype SessionUser = SessionUser(role: string)

  datatype Page =
    | LandingPage | LoginPage | AboutPage | ContactPage
    | AdminDashboard | CollegeDashboard | StudentFormPage(linkId: string)

  /** What the router shows: the loading spinner, a redirect, or a page. */
  datatype View = Spinner | Redirect(to: string) | Show(page: Page)

  /** A route's element: a page, a page behind the guard, or a redirect. */
  datatype Element = Plain(page: Page) | Guarded(requiredRole: Option<string>, page: Page) | NavigateTo(to: string)

  /** `ProtectedRoute`: spinner while loading, login redirect without a user
      or with the wrong role, the page otherwise. An absent or empty required
      role admits any signed-in user. */
  function ProtectedRoute(loading: bool, user: Option<SessionUser>, requiredRole: Option<string>, child: Page): (v: View)
    ensures loading ==> v == Spinner
    ensures !loading && user.None? ==> v == Redirect("/login")
    ensures v.Show? <==> !loading && user.Some? && (!Truthy(requiredRole) || user.value.role == requiredRole.value)
    ensures v.Show? ==> v.page == child
    ensures !loading && !v.Show? ==> v == Redirect("/login")
  {
    if loading then Spinner
    else if user.None? then Redirect("/login")
    else if Truthy(requiredRole) && user.value.role != requiredRole.value then Redirect("/login")
    else Show(child)
  }

  /** Route matching compares static segments case-insensitively. */
  predicate SegmentIs(seg: string, name: string) {
    ToLower(seg) == name
  }

  /** The paths some route of the table names: `/`, the five one-segment
      pages, and `/student-form/<linkId>`. */
  predicate NamedPath(segs: seq<string>) {
    || segs == []
    || (|segs| == 1 && ToLower(segs[0]) in {"login", "about", "contact", "admin", "college"})
    || (|segs| == 2 && SegmentIs(segs[0], "student-form"))
  }

  /** The route table, over the path's non-empty segments; the catch-all
      `*` route takes exactly the paths no other route names. */
  function Match(segs: seq<string>): (e: Element)
    ensures e.NavigateTo? <==> !NamedPath(segs)
    ensures e.NavigateTo? ==> e.to == "/"
  {
    if segs == [] then Plain(LandingPage)
    else if |segs| == 1 && SegmentIs(segs[0], "login") then Plain(LoginPage)
    else if |segs| == 1 && SegmentIs(segs[0], "about") then Plain(AboutPage)
    else if |segs| == 1 && SegmentIs(segs[0], "contact") then Plain(ContactPage)
    else if |segs| == 1 && SegmentIs(segs[0], "admin") then Guarded(Some("admin"), AdminDashboard)
    else if |segs| == 1 && SegmentIs(segs[0], "college") then Guarded(Some("college"), CollegeDashboard)
    else if |segs| == 2 && SegmentIs(segs[0], "student-form") then Plain(StudentFormPage(segs[1]))
    else NavigateTo("/")
  }

  function Resolve(segs: seq<string>, loading: bool, user: Option<SessionUser>): View {
    match Match(segs)
    case Plain(p) => Show(p)
    case Guarded(role, p) => ProtectedRoute(loading, user, role, p)
    case NavigateTo(to) => Redirect(to)
  }

  /** The admin dashboard is shown only to a signed-in admin, and the
      college dashboard only to a signed-in college, whatever the path. */
  lemma {:induction false} DashboardsNeedTheirRole(segs: seq<string>, loading: bool, user: Option<SessionUser>)
    ensures Resolve(segs, loading, user) == Show(AdminDashboard) ==> !loading && user == Some(SessionUser("admin"))
    ensures Resolve(segs, loading, user) == Show(CollegeDashboard) ==> !loading && user == Some(SessionUser("college"))
  {
    match Match(segs)
    case Plain(p) =>
      assert !p.AdminDashboard? && !p.CollegeDashboard?;
    case Guarded(role, p) =>
      assert p == AdminDashboard ==> role == Some("admin");
      assert p == CollegeDashboard ==> role == Some("college");
    case NavigateTo(_) =>
  }

  /** The dashboards are reachable: the right user sees them at their path. */
  lemma DashboardsReachable()
    ensures Resolve(["admin"], false, Some(SessionUser("admin"))) == Show(AdminDashboard)
    ensures Resolve(["college"], false, Some(SessionUser("college"))) == Show(CollegeDashboard)
    ensures Resolve(["admin"], false, Some(SessionUser("college"))) == Redirect("/login")
  {
    assert ToLower("admin") == "admin";
    assert ToLower("college") == "college";
    assert ToLower("admin") != "login" && ToLower("admin") != "about" && ToLower("admin") != "contact";
    assert ToLower("college") != "login" && ToLower("college") != "about" && ToLower("college") != "contact";
    assert ToLower("college") != "admin";
  }

  /** The registration form is public: any `/student-form/<id>` path shows it
      for that id, signed in or not, loading or not. */
  lemma StudentFormUnguarded(linkId: string, loading: bool, user: Option<SessionUser>)
    ensures Resolve(["student-form", linkId], loading, user) == Show(StudentFormPage(linkId))
  {
    assert ToLower("student-form") == "student-form";
  }

  /** A path is redirected to the landing page exactly when no route names
      it, whatever the session; the guard only ever redirects to `/login`. */
  lemma UnknownPathGoesHome(segs: seq<string>, loading: bool, user: Option<SessionUser>)
    ensures Resolve(segs, loading, user) == Redirect("/") <==> !NamedPath(segs)
  {
  }
}
