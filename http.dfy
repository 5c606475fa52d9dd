/**
 * The parts of a Django request that the governance code reads: the
 * `request.META` dictionary of CGI-style variables, the path, and the user.
 */
module Http {
  import opened Wrappers

  /** `request.META`: header and server variables by name. */
  type Meta = map<string, string>

  const X_FORWARDED_FOR := "HTTP_X_FORWARDED_FOR"
  const REMOTE_ADDR := "REMOTE_ADDR"

  /** `request.user`: anonymous, or an authenticated account with its primary key. */
  datatype User = AnonymousUser | AuthenticatedUser(pk: int)
  {
    predicate IsAuthenticated() { AuthenticatedUser? }
  }

  datatype Request = Request(meta: Meta, path: string, user: User)

  /** `request.META.get(key)`: the value, or None when the variable is not set. */
  function MetaGet(meta: Meta, key: string): (r: Option<string>)
    ensures r.Some? <==> key in meta
    ensures r.Some? ==> r.value == meta[key]
  {
    if key in meta then Some(meta[key]) else None
  }
}
