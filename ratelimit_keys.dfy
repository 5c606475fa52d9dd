/**
 * The key function handed to the rate limiter: requests are counted per
 * account when the user is logged in, and per peer address otherwise. It
 * only chooses the key; the limiter that applies rates to it is not part of
 * this model.
 */
module RatelimitKeys {
  import opened Wrappers
  import opened Strings
  import opened Http
  import opened Middleware

  /**
   * `user_or_ip(group, request)`: the decimal primary key of an
   * authenticated user, else `REMOTE_ADDR` (None when it is not set). The
   * rate-limit group takes no part in the choice.
   */
  function UserOrIp(group: string, request: Request): (key: Option<string>)
    ensures request.user.IsAuthenticated() ==> key.Some? && |key.value| >= 1 && (key.value[0] == '-' <==> request.user.pk < 0)
    ensures !request.user.IsAuthenticated() ==> key == MetaGet(request.meta, REMOTE_ADDR)
  {
    if request.user.IsAuthenticated() then Some(IntToString(request.user.pk))
    else MetaGet(request.meta, REMOTE_ADDR)
  }

  /**
   * An authenticated request is keyed by `str(pk)`: a minus sign for a
   * negative key, then the decimal digits of its magnitude.
   */
  lemma AuthenticatedKeyIsPk(group: string, request: Request) returns (digits: string)
    requires request.user.IsAuthenticated()
    ensures var pk := request.user.pk;
      && UserOrIp(group, request) == Some((if pk < 0 then "-" else "") + digits)
      && |digits| >= 1 && (forall k :: 0 <= k < |digits| ==> IsDigit(digits[k]))
      && DecimalValue(digits) == (if pk < 0 then -pk else pk)
      && (digits[0] == '0' ==> pk == 0)
      && (|digits| > 1 ==> digits[0] != '0')
  {
    digits := IntToStringDigits(request.user.pk);
  }

  /** Two different accounts are never counted under the same key, in any group. */
  lemma DistinctUsersGetDistinctKeys(group1: string, r1: Request, group2: string, r2: Request)
    requires r1.user.IsAuthenticated() && r2.user.IsAuthenticated()
    requires r1.user.pk != r2.user.pk
    ensures UserOrIp(group1, r1) != UserOrIp(group2, r2)
  {
    if UserOrIp(group1, r1) == UserOrIp(group2, r2) {
      IntToStringInjective(r1.user.pk, r2.user.pk);
    }
  }

  /** The group argument never changes the key. */
  lemma GroupIsIgnored(group1: string, group2: string, request: Request)
    ensures UserOrIp(group1, request) == UserOrIp(group2, request)
  {
  }

  /**
   * For an anonymous request the forwarded-for header plays no part: setting
   * it to anything leaves the key as it was.
   */
  lemma AnonymousKeyIgnoresForwardedHeader(group: string, request: Request, header: string)
    requires !request.user.IsAuthenticated()
    ensures UserOrIp(group, request.(meta := request.meta[X_FORWARDED_FOR := header])) == UserOrIp(group, request)
  {
    assert X_FORWARDED_FOR != REMOTE_ADDR;
  }

  /** Without a usable forwarded-for header, the anonymous key is the middleware's client address. */
  lemma AnonymousKeyIsClientIpWithoutProxy(group: string, request: Request)
    requires !request.user.IsAuthenticated()
    requires !UsesForwardedHeader(request)
    ensures UserOrIp(group, request) == GetClientIp(request)
  {
  }

  /**
   * Behind a proxy the two disagree: the middleware logs and blocks the
   * forwarded address while the rate limiter counts the proxy's address.
   */
  lemma KeyCanDifferFromClientIp()
    ensures var request := Request(map[X_FORWARDED_FOR := "203.0.113.5, 10.0.0.1", REMOTE_ADDR := "10.0.0.1"], "/login", AnonymousUser);
      UserOrIp("login", request) == Some("10.0.0.1") && GetClientIp(request) == Some("203.0.113.5")
  {
    var request := Request(map[X_FORWARDED_FOR := "203.0.113.5, 10.0.0.1", REMOTE_ADDR := "10.0.0.1"], "/login", AnonymousUser);
    assert "203.0.113.5, 10.0.0.1" == "203.0.113.5" + "," + " 10.0.0.1";
    ForwardedFirstEntry(request, "203.0.113.5", " 10.0.0.1");
  }
}
