/**
 * Loading a user's security details by e-mail: the user's id, e-mail and
 * password, together with one granted authority per role name, each role
 * name prefixed with "ROLE_" and collected into a set.
 */
module UserDetails {
  import opened Wrappers

  /** A role held by a user; only its name matters here. */
  datatype Role = Role(name: string)

  /** The stored user: id, e-mail (the login name), password hash and roles. */
  datatype User = User(id: string, email: string, password: string, roles: seq<Role>)

  /** A granted authority, as Spring Security's `SimpleGrantedAuthority`. */
  datatype GrantedAuthority = SimpleGrantedAuthority(authority: string)

  /** What `loadUserByUsername` hands to the security framework. */
  datatype UserDetailsImpl = UserDetailsImpl(id: string, email: string, password: string, authorities: set<GrantedAuthority>)

  datatype EntityType = USER
  datatype ExceptionType = ENTITY_NOT_FOUND

  /** The application exception thrown for a missing entity: its kind and the arguments passed after it. */
  datatype ApplicationException = ApplicationException(entityType: EntityType, exceptionType: ExceptionType, args: seq<string>)

  const RolePrefix: string := "ROLE_"

  /** The authority granted for one role. */
  function AuthorityFor(role: Role): (a: GrantedAuthority)
    ensures RolePrefix <= a.authority && a.authority[|RolePrefix|..] == role.name
  {
    SimpleGrantedAuthority(RolePrefix + role.name)
  }

  /** The authority is the role prefix followed by the name of one of `roles`. */
  predicate NamesRoleIn(a: GrantedAuthority, roles: seq<Role>)
  {
    RolePrefix <= a.authority && Role(a.authority[|RolePrefix|..]) in roles
  }

  /**
   * `getAuthorities`: one authority per role, collected into a set, so never
   * more of them than there are roles.
   */
  function GetAuthorities(roles: seq<Role>): (r: set<GrantedAuthority>)
    ensures |r| <= |roles|
  {
    if roles == [] then {}
    else {AuthorityFor(roles[0])} + GetAuthorities(roles[1..])
  }

  /**
   * An authority is granted exactly when it is "ROLE_" followed by the name
   * of one of the roles.
   */
  lemma {:induction false} GrantedIffNamesRole(roles: seq<Role>, a: GrantedAuthority)
    ensures a in GetAuthorities(roles) <==> NamesRoleIn(a, roles)
  {
    if roles != [] {
      var head, rest := roles[0], roles[1..];
      GrantedIffNamesRole(rest, a);
      if RolePrefix <= a.authority {
        var named := Role(a.authority[|RolePrefix|..]);
        assert named in roles <==> named == head || named in rest;
        if named == head {
          assert a.authority == RolePrefix + head.name;
        }
      }
    }
  }

  /**
   * Duplicate role names collapse: there are exactly as many authorities as
   * distinct roles.
   */
  lemma {:induction false} AuthoritiesCountDistinctRoles(roles: seq<Role>)
    ensures |GetAuthorities(roles)| == |set role | role in roles|
  {
    if roles != [] {
      var head, rest := roles[0], roles[1..];
      var granted, grantedRest := GetAuthorities(roles), GetAuthorities(rest);
      var distinct, distinctRest := set role | role in roles, set role | role in rest;
      AuthoritiesCountDistinctRoles(rest);
      assert AuthorityFor(head) in grantedRest <==> head in distinctRest by {
        GrantedIffNamesRole(rest, AuthorityFor(head));
      }
      assert granted == grantedRest + {AuthorityFor(head)};
      assert distinct == distinctRest + {head} by {
        assert forall role :: role in roles <==> role == head || role in rest;
      }
    }
  }

  /**
   * `loadUserByUsername`: the user stored under `email`, with its
   * authorities; a missing user raises the not-found application exception.
   * The user repository is `users`, keyed by e-mail as `findByEmail` is.
   */
  function LoadUserByUsername(users: map<string, User>, email: string): (r: Result<UserDetailsImpl, ApplicationException>)
    ensures r.Err? <==> email !in users
    ensures r.Err? ==> r.error == ApplicationException(USER, ENTITY_NOT_FOUND, ["2", email])
    ensures r.Ok? ==>
      && r.value.id == users[email].id
      && r.value.email == users[email].email
      && r.value.password == users[email].password
      && r.value.authorities == GetAuthorities(users[email].roles)
  {
    if email !in users then
      Err(ApplicationException(USER, ENTITY_NOT_FOUND, ["2", email]))
    else
      var user := users[email];
      Ok(UserDetailsImpl(user.id, user.email, user.password, GetAuthorities(user.roles)))
  }

  /**
   * A loaded user's authorities are exactly "ROLE_" followed by the name of
   * one of that user's roles.
   */
  lemma LoadedAuthoritiesNameRoles(users: map<string, User>, email: string, a: GrantedAuthority)
    requires email in users
    ensures LoadUserByUsername(users, email).Ok?
    ensures a in LoadUserByUsername(users, email).value.authorities <==> NamesRoleIn(a, users[email].roles)
  {
    GrantedIffNamesRole(users[email].roles, a);
  }
}
