/** The route guard around the admin and member pages: it waits until the
    signed-in user is known, then renders the page or redirects. */
module ProtectedRoute {
  import opened Common
  import opened Json

  datatype Decision = Loading | RedirectTo(path: string) | Children

  predicate IsAdminRoute(pathname: string) {
    StartsWith(pathname, "/admin")
  }

  predicate IsAdminUser(user: Option<Value>) {
    Get(user, "role") == Some(Str("admin"))
  }

  /** The guard for a user that is `None` while still undefined and
      `Some(Null)` when signed out. */
  function Decide(isLoading: bool, user: Option<Value>, pathname: string): (d: Decision)
    ensures d == Loading <==> isLoading
    ensures !isLoading && !IsTruthy(user) ==> d == RedirectTo("/login")
    ensures !isLoading && IsTruthy(user) && IsAdminRoute(pathname) && !IsAdminUser(user) ==> d == RedirectTo("/")
    ensures !isLoading && IsTruthy(user) && !IsAdminRoute(pathname) && IsAdminUser(user) ==> d == RedirectTo("/admin/dashboard")
    ensures d == Children <==> !isLoading && IsTruthy(user) && (IsAdminRoute(pathname) <==> IsAdminUser(user))
  {
    if isLoading then Loading
    else if !IsTruthy(user) then RedirectTo("/login")
    else if IsAdminRoute(pathname) && !IsAdminUser(user) then RedirectTo("/")
    else if !IsAdminRoute(pathname) && IsAdminUser(user) then RedirectTo("/admin/dashboard")
    else Children
  }

  /** A redirect always leaves the guarded area for one the user may enter:
      signing in, the member home or the admin dashboard. */
  lemma RedirectsAreTheThree(isLoading: bool, user: Option<Value>, pathname: string)
    ensures Decide(isLoading, user, pathname).RedirectTo? ==>
      Decide(isLoading, user, pathname).path in {"/login", "/", "/admin/dashboard"}
    ensures Decide(isLoading, user, pathname) == RedirectTo("/admin/dashboard") ==> IsAdminUser(user)
  {
  }

  /** The `isLoading` flag: true at first, cleared by the effect once the
      user is no longer undefined, and never set again. */
  class Guard {
    var isLoading: bool

    constructor ()
      ensures isLoading
    {
      isLoading := true;
    }

    method OnUserChange(user: Option<Value>)
      modifies this
      ensures user.Some? ==> !isLoading
      ensures user.None? ==> isLoading == old(isLoading)
    {
      if user.Some? {
        isLoading := false;
      }
    }
  }
}
