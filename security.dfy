/**
  config/SecurityConfig.kt: the role constants and JwtConverter, which turns
  a decoded token's claims into the authentication the role checks read:
  the default authorities plus "ROLE_" + r for every role r listed under
  resource_access.bookstore-client-id.roles, named by preferred_username.
*/
module Security {
  import opened Wrappers
  import opened Text

  const AdminRole: string := "ADMIN"
  const UserRole: string := "USER"
  /** The prefix role checks and the converter put in front of a role name. */
  const RolePrefix: string := "ROLE_"
  const ClientId: string := "bookstore-client-id"
  const ResourceAccessClaim: string := "resource_access"
  const RolesKey: string := "roles"
  const PrincipalClaim: string := "preferred_username"

  /** A JSON claim value as the token decoder hands it over: null, a string, another scalar (with its printed form), a list or an object. */
  datatype Claim =
    | Null
    | Str(s: string)
    | Scalar(printed: string)
    | Array(items: seq<Claim>)
    | Object(fields: seq<Field>)

  datatype Field = Field(key: string, value: Claim)

  /** String interpolation of a claim value (Java's toString): lists as "[a, b]", objects as "{k=v, ...}", null as "null". */
  function Display(c: Claim): string
    decreases c
  {
    match c
    case Null => "null"
    case Str(s) => s
    case Scalar(printed) => printed
    case Array(items) => "[" + Join(seq(|items|, i requires 0 <= i < |items| => Display(items[i])), ", ") + "]"
    case Object(fields) =>
      "{" + Join(seq(|fields|, i requires 0 <= i < |fields| => fields[i].key + "=" + Display(fields[i].value)), ", ") + "}"
  }

  /** Map.get on an object's fields: the value under the key, or nothing. */
  function Lookup(fields: seq<Field>, key: string): (r: Option<Claim>)
    ensures r.Some? <==> exists i :: 0 <= i < |fields| && fields[i].key == key
    ensures r.Some? ==> exists i :: 0 <= i < |fields| && fields[i].key == key && fields[i].value == r.value
  {
    if fields == [] then None
    else if fields[0].key == key then Some(fields[0].value)
    else Lookup(fields[1..], key)
  }

  /** roles.map { "ROLE_$it" }.toSet() */
  function RoleAuthorities(roles: seq<Claim>): set<string>
  {
    set i | 0 <= i < |roles| :: RolePrefix + Display(roles[i])
  }

  /** Why a token cannot be converted: a claim is absent (a null dereference) or of the wrong type (a failed cast). */
  datatype ConversionError = MissingClaim(name: string) | WrongClaimType(name: string)

  /**
    extractResourceRoles. resource_access itself must be an object; below it
    a missing or non-object client entry, or a missing or non-list roles
    entry, yields no roles.
  */
  function ExtractResourceRoles(claims: map<string, Claim>): (r: Result<set<string>, ConversionError>)
    ensures r.Failure? <==> ResourceAccessClaim !in claims || !claims[ResourceAccessClaim].Object?
    ensures r.Failure? ==> r.error.name == ResourceAccessClaim
    ensures r.Success? && r.value != {} ==>
      var client := Lookup(claims[ResourceAccessClaim].fields, ClientId);
      && client.Some? && client.value.Object?
      && Lookup(client.value.fields, RolesKey).Some?
      && Lookup(client.value.fields, RolesKey).value.Array?
    ensures r.Success? ==>
      var client := Lookup(claims[ResourceAccessClaim].fields, ClientId);
      client.Some? && client.value.Object? && Lookup(client.value.fields, RolesKey).Some? && Lookup(client.value.fields, RolesKey).value.Array? ==>
        r.value == RoleAuthorities(Lookup(client.value.fields, RolesKey).value.items)
  {
    if ResourceAccessClaim !in claims || claims[ResourceAccessClaim].Null? then Failure(MissingClaim(ResourceAccessClaim))
    else if !claims[ResourceAccessClaim].Object? then Failure(WrongClaimType(ResourceAccessClaim))
    else
      var client := Lookup(claims[ResourceAccessClaim].fields, ClientId);
      if client.None? || !client.value.Object? then Success({})
      else
        var roles := Lookup(client.value.fields, RolesKey);
        if roles.None? || !roles.value.Array? then Success({})
        else Success(RoleAuthorities(roles.value.items))
  }

  /** getPrincipalClaimName: the preferred_username claim, which must be a string. */
  function PrincipalName(claims: map<string, Claim>): (r: Result<string, ConversionError>)
    ensures r.Success? <==> PrincipalClaim in claims && claims[PrincipalClaim].Str?
    ensures r.Success? ==> claims[PrincipalClaim] == Str(r.value)
    ensures r.Failure? ==> r.error.name == PrincipalClaim
    ensures r.Failure? ==> (r.error.WrongClaimType? <==> PrincipalClaim in claims && !claims[PrincipalClaim].Null?)
  {
    if PrincipalClaim !in claims || claims[PrincipalClaim].Null? then Failure(MissingClaim(PrincipalClaim))
    else if !claims[PrincipalClaim].Str? then Failure(WrongClaimType(PrincipalClaim))
    else Success(claims[PrincipalClaim].s)
  }

  /** The authentication token: its name and its granted authorities. */
  datatype Token = Token(name: string, authorities: set<string>)

  /**
    convert: the authorities the default converter grants (`defaults`, from
    the scope claims) united with the resource roles, named by the principal
    claim. The roles are extracted first, so their failure wins.
  */
  function Convert(claims: map<string, Claim>, defaults: set<string>): (r: Result<Token, ConversionError>)
    ensures r.Success? <==> ExtractResourceRoles(claims).Success? && PrincipalName(claims).Success?
    ensures ExtractResourceRoles(claims).Failure? ==> r == Failure(ExtractResourceRoles(claims).error)
    ensures r.Success? ==> defaults <= r.value.authorities && claims[PrincipalClaim] == Str(r.value.name)
  {
    var roles := ExtractResourceRoles(claims);
    if roles.Failure? then Failure(roles.error)
    else
      var name := PrincipalName(claims);
      if name.Failure? then Failure(name.error)
      else Success(Token(name.value, defaults + roles.value))
  }

  /** The claims of a token that lists `roles` for the client and names `user`. */
  function ClientRolesClaims(roles: seq<Claim>, user: string): map<string, Claim>
  {
    map[ResourceAccessClaim := Object([Field(ClientId, Object([Field(RolesKey, Array(roles))]))]),
        PrincipalClaim := Str(user)]
  }

  /** For string roles, "ROLE_" + r is granted exactly when r is listed. */
  lemma StringRoleGranted(roles: seq<Claim>, r: string)
    requires forall i :: 0 <= i < |roles| ==> roles[i].Str?
    ensures RolePrefix + r in RoleAuthorities(roles) <==> Str(r) in roles
  {
    if RolePrefix + r in RoleAuthorities(roles) {
      var i :| 0 <= i < |roles| && RolePrefix + r == RolePrefix + Display(roles[i]);
      assert (RolePrefix + r)[5..] == r;
      assert (RolePrefix + Display(roles[i]))[5..] == Display(roles[i]);
    }
    if Str(r) in roles {
      var i :| 0 <= i < |roles| && roles[i] == Str(r);
      assert RolePrefix + Display(roles[i]) in RoleAuthorities(roles);
    }
  }

  /** Every extracted authority carries the prefix. */
  lemma {:induction false} ExtractedArePrefixed(claims: map<string, Claim>)
    requires ExtractResourceRoles(claims).Success?
    ensures forall a :: a in ExtractResourceRoles(claims).value ==> |RolePrefix| <= |a| && a[..|RolePrefix|] == RolePrefix
  {
    var result := ExtractResourceRoles(claims).value;
    forall a | a in result
      ensures |RolePrefix| <= |a| && a[..|RolePrefix|] == RolePrefix
    {
      var client := Lookup(claims[ResourceAccessClaim].fields, ClientId);
      var roles := Lookup(client.value.fields, RolesKey);
      var i :| 0 <= i < |roles.value.items| && a == RolePrefix + Display(roles.value.items[i]);
    }
  }

  /** Roles form a set: listing a role twice, or in another order, grants the same authorities. */
  lemma DuplicateRolesCollapse(roles: seq<Claim>, k: nat)
    requires k < |roles|
    ensures RoleAuthorities(roles + [roles[k]]) == RoleAuthorities(roles)
    ensures RoleAuthorities([roles[k]] + roles) == RoleAuthorities(roles)
  {
    var extended := roles + [roles[k]];
    assert extended[|roles|] == roles[k];
    assert forall i :: 0 <= i < |roles| ==> extended[i] == roles[i];
    var front := [roles[k]] + roles;
    assert front[0] == roles[k];
    assert forall i :: 0 <= i < |roles| ==> front[i + 1] == roles[i];
    assert forall a :: a in RoleAuthorities(front) ==> a in RoleAuthorities(roles) by {
      forall a | a in RoleAuthorities(front)
        ensures a in RoleAuthorities(roles)
      {
        var i :| 0 <= i < |front| && a == RolePrefix + Display(front[i]);
        if i > 0 {
          assert front[i] == roles[i - 1];
        }
      }
    }
    assert forall a :: a in RoleAuthorities(roles) ==> a in RoleAuthorities(front) by {
      forall a | a in RoleAuthorities(roles)
        ensures a in RoleAuthorities(front)
      {
        var i :| 0 <= i < |roles| && a == RolePrefix + Display(roles[i]);
        assert front[i + 1] == roles[i];
      }
    }
  }

  /** No client entry, a client entry that is not an object, no roles entry, or a roles entry that is not a list: no roles. */
  lemma NoRolesCases(claims: map<string, Claim>)
    requires ResourceAccessClaim in claims && claims[ResourceAccessClaim].Object?
    requires var client := Lookup(claims[ResourceAccessClaim].fields, ClientId);
      || client.None?
      || !client.value.Object?
      || Lookup(client.value.fields, RolesKey).None?
      || !Lookup(client.value.fields, RolesKey).value.Array?
    ensures ExtractResourceRoles(claims) == Success({})
  {
  }

  /** A token without resource_access, or with one that is not an object, is not converted. */
  lemma ResourceAccessRequired(claims: map<string, Claim>, defaults: set<string>)
    requires ResourceAccessClaim !in claims || !claims[ResourceAccessClaim].Object?
    ensures Convert(claims, defaults).Failure?
  {
  }

  /** A converted token holds exactly the default authorities and the extracted roles, under preferred_username. */
  lemma ConvertedAuthorities(claims: map<string, Claim>, defaults: set<string>)
    requires Convert(claims, defaults).Success?
    ensures ExtractResourceRoles(claims).Success? && PrincipalName(claims).Success?
    ensures Convert(claims, defaults).value.authorities == defaults + ExtractResourceRoles(claims).value
    ensures forall a :: a in Convert(claims, defaults).value.authorities <==> a in defaults || a in ExtractResourceRoles(claims).value
    ensures Str(Convert(claims, defaults).value.name) == claims[PrincipalClaim]
  {
  }

  /**
    For a token listing string roles for the client: every listed role r is
    granted as "ROLE_" + r, and an authority "ROLE_" + r that is not a default
    is granted only when r is listed.
  */
  lemma ClientRolesGranted(roles: seq<Claim>, user: string, defaults: set<string>, r: string)
    requires forall i :: 0 <= i < |roles| ==> roles[i].Str?
    ensures Convert(ClientRolesClaims(roles, user), defaults).Success?
    ensures Str(r) in roles ==> RolePrefix + r in Convert(ClientRolesClaims(roles, user), defaults).value.authorities
    ensures RolePrefix + r !in defaults && RolePrefix + r in Convert(ClientRolesClaims(roles, user), defaults).value.authorities
        ==> Str(r) in roles
  {
    var claims := ClientRolesClaims(roles, user);
    assert claims[ResourceAccessClaim] == Object([Field(ClientId, Object([Field(RolesKey, Array(roles))]))]);
    StringRoleGranted(roles, r);
  }

  /** A token listing the role "ADMIN" for the client is granted "ROLE_ADMIN", besides its defaults, and is named by its user. */
  lemma AdminTokenExample(user: string, defaults: set<string>)
    ensures Convert(ClientRolesClaims([Str(AdminRole)], user), defaults) == Success(Token(user, defaults + {"ROLE_ADMIN"}))
  {
    var claims := ClientRolesClaims([Str(AdminRole)], user);
    assert claims[ResourceAccessClaim] == Object([Field(ClientId, Object([Field(RolesKey, Array([Str(AdminRole)]))]))]);
    var roles := [Str(AdminRole)];
    assert RolePrefix + Display(roles[0]) == "ROLE_ADMIN";
    assert "ROLE_ADMIN" in RoleAuthorities(roles);
    assert forall a :: a in RoleAuthorities(roles) ==> a == "ROLE_ADMIN";
    assert RoleAuthorities(roles) == {"ROLE_ADMIN"};
  }
}
