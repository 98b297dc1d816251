/** The two pieces of the security layer with logic of their own: reading
    the bearer token out of the `Authorization` header, and building the
    authenticated principal from a set of role names. Token signing and
    validation are not part of this model. */
module Security {
  import opened Wrappers
  import opened Text

  const BearerPrefix := "Bearer "
  const RolePrefix := "ROLE_"

  /** `s` begins with `p`. */
  predicate StartsWith(s: string, p: string) {
    |p| <= |s| && s[..|p|] == p
  }

  /** Kotlin's `removePrefix`: drops `p` once when `s` begins with it and
      returns `s` unchanged otherwise. */
  function RemovePrefix(s: string, p: string): (r: string)
    ensures StartsWith(s, p) ==> p + r == s
    ensures !StartsWith(s, p) ==> r == s
    ensures |r| <= |s|
  {
    if StartsWith(s, p) then s[|p|..] else s
  }

  /** `getBearerToken`: no header, or a header in which "Bearer " occurs
      nowhere, gives no token; otherwise the header with one leading
      "Bearer " removed, if it has one. */
  function GetBearerToken(header: Option<string>): (token: Option<string>)
    ensures header.None? ==> token.None?
    ensures header.Some? ==> (token.Some? <==> exists i :: OccursAt(header.value, BearerPrefix, i))
    ensures token.Some? && StartsWith(header.value, BearerPrefix) ==> BearerPrefix + token.value == header.value
    ensures token.Some? && !StartsWith(header.value, BearerPrefix) ==> token.value == header.value
  {
    match header
    case None => None
    case Some(h) =>
      ContainsIffOccurs(h, BearerPrefix);
      if Contains(h, BearerPrefix) then Some(RemovePrefix(h, BearerPrefix)) else None
  }

  /** Prefixing a token and reading it back gives the token. */
  lemma BearerRoundTrip(token: string)
    ensures GetBearerToken(Some(BearerPrefix + token)) == Some(token)
  {
    assert StartsWith(BearerPrefix + token, BearerPrefix);
    assert OccursAt(BearerPrefix + token, BearerPrefix, 0);
  }

  /** A header that carries "Bearer " later on, but does not begin with it,
      is passed on whole, and only one leading "Bearer " is removed. */
  lemma BearerEdgeCases()
    ensures GetBearerToken(Some("Basic Bearer x")) == Some("Basic Bearer x")
    ensures GetBearerToken(Some("Bearer Bearer x")) == Some("Bearer x")
    ensures GetBearerToken(Some("Bearer")) == None
  {
    assert OccursAt("Basic Bearer x", BearerPrefix, 6);
    assert !StartsWith("Basic Bearer x", BearerPrefix) by {
      assert "Basic Bearer x"[0] != BearerPrefix[1];
    }
    assert OccursAt("Bearer Bearer x", BearerPrefix, 0);
    assert StartsWith("Bearer Bearer x", BearerPrefix);
    assert "Bearer Bearer x"[7..] == "Bearer x";
  }

  // ------------------------------------------------------------- principal

  datatype GrantedAuthority = SimpleGrantedAuthority(authority: string)

  datatype UserPrincipal = UserPrincipal(id: int, userIdentifier: string, authorities: set<GrantedAuthority>)

  function RoleAuthority(role: string): GrantedAuthority {
    SimpleGrantedAuthority(RolePrefix + role)
  }

  lemma RoleAuthorityInjective(r: string, r': string)
    ensures RoleAuthority(r) == RoleAuthority(r') ==> r == r'
  {
    if RoleAuthority(r) == RoleAuthority(r') {
      assert r == (RolePrefix + r)[|RolePrefix|..];
      assert r' == (RolePrefix + r')[|RolePrefix|..];
    }
  }

  /** The secondary constructor: every role `r` becomes the authority
      "ROLE_r", and nothing else does. */
  function FromRoles(id: int, userIdentifier: string, roles: set<string>): (p: UserPrincipal)
    ensures p.id == id && p.userIdentifier == userIdentifier
    ensures forall r :: r in roles <==> RoleAuthority(r) in p.authorities
    ensures forall a :: a in p.authorities ==>
      StartsWith(a.authority, RolePrefix) && a.authority[|RolePrefix|..] in roles
  {
    var authorities := set r | r in roles :: RoleAuthority(r);
    assert forall r :: RoleAuthority(r) in authorities ==> r in roles by {
      forall r | RoleAuthority(r) in authorities ensures r in roles {
        var r' :| r' in roles && RoleAuthority(r') == RoleAuthority(r);
        RoleAuthorityInjective(r, r');
      }
    }
    assert forall a :: a in authorities ==> StartsWith(a.authority, RolePrefix) && a.authority[|RolePrefix|..] in roles by {
      forall a | a in authorities ensures StartsWith(a.authority, RolePrefix) && a.authority[|RolePrefix|..] in roles {
        var r :| r in roles && a == RoleAuthority(r);
        assert a.authority[|RolePrefix|..] == r;
      }
    }
    UserPrincipal(id, userIdentifier, authorities)
  }

  /** Distinct roles give distinct authorities, so there are as many
      authorities as roles. */
  lemma {:induction false} AuthoritiesCount(id: int, userIdentifier: string, roles: set<string>)
    ensures |FromRoles(id, userIdentifier, roles).authorities| == |roles|
    decreases |roles|
  {
    if roles != {} {
      var r :| r in roles;
      var rest := roles - {r};
      AuthoritiesCount(id, userIdentifier, rest);
      var all := FromRoles(id, userIdentifier, roles).authorities;
      var fewer := FromRoles(id, userIdentifier, rest).authorities;
      assert all == fewer + {RoleAuthority(r)};
      assert RoleAuthority(r) !in fewer;
    }
  }

  /** The authentication filter builds its principal with no roles, so it
      carries no authorities. */
  lemma FilterPrincipalHasNoAuthorities(id: int, nickname: string)
    ensures FromRoles(id, nickname, {}).authorities == {}
  {
    AuthoritiesCount(id, nickname, {});
  }
}
