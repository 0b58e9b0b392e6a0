/**
 * `IsRestaurantEditor`: reads are open to everyone, writes need an
 * authenticated member of the `editors` group.
 */
module Permissions {
  import opened Wrappers
  import Models

  /** The request's user: none at all, the anonymous user, or an authenticated user with their groups. */
  datatype User = NoUser | Anonymous | Authenticated(groups: set<string>)

  /** How a refused request is answered: 401 without credentials, 403 with them. */
  datatype Denial = NotAuthenticated | PermissionDenied

  const SAFE_METHODS: seq<string> := ["GET", "HEAD", "OPTIONS"]
  const EDITOR_GROUP := "editors"

  /** `has_permission`: safe methods pass; otherwise the user must be authenticated and an editor. */
  function HasPermission(verb: string, user: User): (ok: bool)
    ensures verb in SAFE_METHODS ==> ok
    ensures !user.Authenticated? ==> (ok <==> verb in SAFE_METHODS)
    ensures user.Authenticated? ==> (ok <==> verb in SAFE_METHODS || EDITOR_GROUP in user.groups)
  {
    if verb in SAFE_METHODS then true
    else if user.NoUser? || !user.Authenticated? then false
    else EDITOR_GROUP in user.groups
  }

  /**
   * The object-level check. The permission class does not override it, so
   * the inherited default applies and it admits every request.
   */
  function HasObjectPermission(verb: string, user: User, obj: Models.Restaurant): bool {
    true
  }

  /**
   * The permission stage of a request: `None` when it may proceed, otherwise
   * the denial, which is "not authenticated" unless the user is authenticated.
   */
  function CheckPermissions(verb: string, user: User): (d: Option<Denial>)
    ensures d.None? <==> HasPermission(verb, user)
    ensures d == Some(PermissionDenied) ==> user.Authenticated? && EDITOR_GROUP !in user.groups
    ensures d == Some(NotAuthenticated) ==> !user.Authenticated? && verb !in SAFE_METHODS
  {
    if HasPermission(verb, user) then None
    else if user.Authenticated? then Some(PermissionDenied)
    else Some(NotAuthenticated)
  }

  /** Only the editor bit of the group set matters to the decision. */
  lemma OnlyEditorMembershipMatters(verb: string, g1: set<string>, g2: set<string>)
    requires (EDITOR_GROUP in g1) == (EDITOR_GROUP in g2)
    ensures HasPermission(verb, Authenticated(g1)) == HasPermission(verb, Authenticated(g2))
  {
  }
}
