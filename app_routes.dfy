/** The storefront's route guards and its route table: what a path shows
    for a session that is still loading, signed out, a customer or an
    admin. */
module AppRoutes {
  import opened Wrappers
  import opened Text
  import opened SweetModel

  /** The authentication context: still loading, and the signed-in user's
      role if there is one. */
  datatype Session = Session(loading: bool, user: Option<Role>)

  /** What a guard yields: the loading screen, its children, or a redirect. */
  datatype Guarded = LoadingScreen | Children | RedirectTo(to: string)

  predicate Loaded(s: Session, role: Role) {
    !s.loading && s.user.Some? && s.user.value == role
  }

  /** PrivateRoute: admins are kept inside /admin and customers outside it. */
  function PrivateRoute(s: Session, path: string): (g: Guarded)
    ensures s.loading ==> g == LoadingScreen
    ensures !s.loading && s.user.None? ==> g == RedirectTo("/login")
    ensures Loaded(s, Admin) && !StartsWith(path, "/admin") ==> g == RedirectTo("/admin")
    ensures Loaded(s, Customer) && StartsWith(path, "/admin") ==> g == RedirectTo("/dashboard")
    ensures g == Children <==>
      !s.loading && s.user.Some? && (s.user.value == Admin <==> StartsWith(path, "/admin"))
  {
    if s.loading then LoadingScreen
    else if s.user.None? then RedirectTo("/login")
    else if s.user.value == Admin && !StartsWith(path, "/admin") then RedirectTo("/admin")
    else if s.user.value == Customer && StartsWith(path, "/admin") then RedirectTo("/dashboard")
    else Children
  }

  /** AdminRoute: only an admin gets through; anyone else signed in goes to
      the dashboard. */
  function AdminRoute(s: Session): (g: Guarded)
    ensures s.loading ==> g == LoadingScreen
    ensures !s.loading && s.user.None? ==> g == RedirectTo("/login")
    ensures g == Children <==> Loaded(s, Admin)
    ensures Loaded(s, Customer) ==> g == RedirectTo("/dashboard")
  {
    if s.loading then LoadingScreen
    else if s.user.None? then RedirectTo("/login")
    else if s.user.value != Admin then RedirectTo("/dashboard")
    else Children
  }

  /** UserRoute: admins are sent to the admin panel, everyone else signed
      in gets through. */
  function UserRoute(s: Session): (g: Guarded)
    ensures s.loading ==> g == LoadingScreen
    ensures !s.loading && s.user.None? ==> g == RedirectTo("/login")
    ensures g == Children <==> Loaded(s, Customer)
    ensures Loaded(s, Admin) ==> g == RedirectTo("/admin")
  {
    if s.loading then LoadingScreen
    else if s.user.None? then RedirectTo("/login")
    else if s.user.value == Admin then RedirectTo("/admin")
    else Children
  }

  datatype Page = LoginPage | RegisterPage | DashboardPage | CartPage | PaymentPage | AdminPage

  /** What the application shows at a path. `/` wraps a redirect to
      /dashboard in PrivateRoute; a path outside the table shows nothing. */
  datatype View = Loading | Show(page: Page) | Redirect(to: string) | Nothing

  function Guard(g: Guarded, page: Page): View {
    match g
    case LoadingScreen => Loading
    case Children => Show(page)
    case RedirectTo(to) => Redirect(to)
  }

  /** The `admin` wildcard route: /admin itself and everything below it. */
  predicate UnderAdmin(path: string) {
    path == "/admin" || StartsWith(path, "/admin/")
  }

  /** A path whose first segment does not start with `a` is not an admin
      path. */
  lemma NotUnderAdmin(path: string)
    requires |path| >= 2 && path[1] != 'a'
    ensures !UnderAdmin(path) && !StartsWith(path, "/admin")
  {
    if |path| >= 7 {
      assert path[..7][1] == path[1];
    }
    if |path| >= 6 {
      assert path[..6][1] == path[1];
    }
  }

  /** A `<Route>` without `caseSensitive` compares paths ignoring ASCII
      case. */
  function FoldPath(path: string): (r: string)
    ensures |r| == |path|
    ensures forall i :: 0 <= i < |path| ==> r[i] == FoldCase(path[i])
  {
    seq(|path|, i requires 0 <= i < |path| => FoldCase(path[i]))
  }

  /** The router accepts any number of trailing slashes. */
  function TrimSlashes(path: string): (r: string)
    ensures r <= path
    ensures r == "" || r[|r| - 1] != '/'
    ensures forall i :: |r| <= i < |path| ==> path[i] == '/'
  {
    if path != [] && path[|path| - 1] == '/' then TrimSlashes(path[..|path| - 1]) else path
  }

  /** The path the route table is matched against; the root `/` becomes
      the empty path. */
  function RouterPath(path: string): string {
    TrimSlashes(FoldPath(path))
  }

  /** A path with no capital letter and no trailing slash is matched as
      written. */
  lemma RouterPathOfPlainPath(path: string)
    requires forall i :: 0 <= i < |path| ==> !IsUpper(path[i])
    requires path == "" || path[|path| - 1] != '/'
    ensures RouterPath(path) == path
  {
    assert FoldPath(path) == path;
  }

  /** Matching twice is matching once. */
  lemma RouterPathIdempotent(path: string)
    ensures RouterPath(RouterPath(path)) == RouterPath(path)
  {
    var n := RouterPath(path);
    forall i | 0 <= i < |n|
      ensures !IsUpper(n[i])
    {
      assert n[i] == FoldPath(path)[i];
    }
    RouterPathOfPlainPath(n);
  }

  /** The route table of App.tsx, matched as React Router matches it. */
  function Resolve(s: Session, path: string): (v: View)
    ensures RouterPath(path) == "/login" ==> v == Show(LoginPage)
    ensures RouterPath(path) == "/register" ==> v == Show(RegisterPage)
    ensures RouterPath(path) in {"/dashboard", "/cart", "/payment"} ==>
      var n := RouterPath(path);
      v == Guard(UserRoute(s), if n == "/dashboard" then DashboardPage else if n == "/cart" then CartPage else PaymentPage)
    ensures UnderAdmin(RouterPath(path)) ==> v == Guard(AdminRoute(s), AdminPage)
    ensures v == Nothing <==>
      var n := RouterPath(path);
      n !in {"/login", "/register", "/dashboard", "/cart", "/payment", ""} && !UnderAdmin(n)
  {
    var n := RouterPath(path);
    if n == "/login" then NotUnderAdmin(n); Show(LoginPage)
    else if n == "/register" then NotUnderAdmin(n); Show(RegisterPage)
    else if n == "/dashboard" then NotUnderAdmin(n); Guard(UserRoute(s), DashboardPage)
    else if n == "/cart" then NotUnderAdmin(n); Guard(UserRoute(s), CartPage)
    else if n == "/payment" then NotUnderAdmin(n); Guard(UserRoute(s), PaymentPage)
    else if UnderAdmin(n) then Guard(AdminRoute(s), AdminPage)
    else if n == "" then
      (match PrivateRoute(s, path)
       case LoadingScreen => Loading
       case Children => Redirect("/dashboard")
       case RedirectTo(to) => Redirect(to))
    else Nothing
  }

  /** Capitals and a trailing slash reach the same page as the plain path. */
  lemma CaseAndTrailingSlashIgnored(s: Session)
    ensures Resolve(s, "/Dashboard") == Resolve(s, "/dashboard")
    ensures Resolve(s, "/cart/") == Resolve(s, "/cart")
    ensures Resolve(s, "/ADMIN/x") == Guard(AdminRoute(s), AdminPage)
  {
    RouterPathOfPlainPath("/dashboard");
    RouterPathOfPlainPath("/cart");
    assert FoldPath("/Dashboard") == "/dashboard";
    assert FoldPath("/cart/") == "/cart/";
    assert TrimSlashes("/cart/") == TrimSlashes("/cart");
    RouterPathOfPlainPath("/cart");
    assert FoldPath("/ADMIN/x") == "/admin/x";
    RouterPathOfPlainPath("/admin/x");
  }

  /** While the session loads, every guarded page shows the loading screen. */
  lemma LoadingShowsLoadingScreen(s: Session, path: string)
    requires s.loading
    ensures Resolve(s, path) !in {Show(LoginPage), Show(RegisterPage), Nothing} ==> Resolve(s, path) == Loading
  {
  }

  /** Signed out, every guarded page redirects to /login. */
  lemma SignedOutGoesToLogin(s: Session, path: string)
    requires !s.loading && s.user.None?
    ensures Resolve(s, path) !in {Show(LoginPage), Show(RegisterPage), Nothing} ==>
      Resolve(s, path) == Redirect("/login")
  {
  }

  /** Only an admin sees the admin panel and only a customer sees the
      shop's pages. */
  lemma PagesMatchRoles(s: Session, path: string)
    ensures Resolve(s, path) == Show(AdminPage) ==> Loaded(s, Admin)
    ensures Resolve(s, path) in {Show(DashboardPage), Show(CartPage), Show(PaymentPage)} ==> Loaded(s, Customer)
  {
  }

  /** Every redirect of a loaded session lands, in one hop, on a page that
      is shown: no redirect chains and no loops. */
  lemma RedirectsSettleInOneHop(s: Session, path: string)
    requires !s.loading
    requires Resolve(s, path).Redirect?
    ensures Resolve(s, Resolve(s, path).to).Show?
    ensures s.user == Some(Admin) ==> Resolve(s, Resolve(s, path).to) == Show(AdminPage)
    ensures s.user == Some(Customer) ==> Resolve(s, Resolve(s, path).to) == Show(DashboardPage)
  {
    RedirectTarget(s, path);
    HomePages(s);
  }

  /** A loaded session is redirected to /login when signed out, otherwise
      to its role's home. */
  lemma RedirectTarget(s: Session, path: string)
    requires !s.loading
    requires Resolve(s, path).Redirect?
    ensures Resolve(s, path).to ==
      if s.user.None? then "/login" else if s.user.value == Admin then "/admin" else "/dashboard"
  {
    if RouterPath(path) == "" {
      RootPathIsNotAdmin(path);
    }
  }

  /** A path the router reads as the root is made of slashes only, so
      PrivateRoute does not take it for an admin path. */
  lemma RootPathIsNotAdmin(path: string)
    requires RouterPath(path) == ""
    ensures !StartsWith(path, "/admin")
  {
    if |path| >= 2 {
      assert FoldPath(path)[1] == '/';
      assert path[1] != 'a';
      NotUnderAdmin(path);
    }
  }

  /** The three redirect targets resolve as written. */
  lemma HomePages(s: Session)
    ensures Resolve(s, "/login") == Show(LoginPage)
    ensures Resolve(s, "/admin") == Guard(AdminRoute(s), AdminPage)
    ensures Resolve(s, "/dashboard") == Guard(UserRoute(s), DashboardPage)
  {
    RouterPathOfPlainPath("/dashboard");
    RouterPathOfPlainPath("/login");
    RouterPathOfPlainPath("/admin");
  }

  /** PrivateRoute's children are reached at / only by a customer, since /
      is outside /admin. */
  lemma RootSendsEachRoleHome(s: Session)
    requires !s.loading && s.user.Some?
    ensures s.user.value == Admin ==> Resolve(s, "/") == Redirect("/admin")
    ensures s.user.value == Customer ==> Resolve(s, "/") == Redirect("/dashboard")
  {
    assert !StartsWith("/", "/admin");
  }
}
