/** The `User` entity: the roles it grants and the name it is known by. */
module UserEntity {
  import opened Nullable
  import opened Collections

  /** Role every user has, stored or not. */
  const UserRole: string := "ROLE_USER"

  /** A user account; the password is the stored hash, never inspected here. */
  datatype User = User(id: nat, username: Option<string>, roles: seq<string>, password: Option<string>)

  /**
   * `getRoles`: the stored roles followed by `ROLE_USER`, each role once,
   * in order of first appearance.
   */
  function Roles(u: User): (r: seq<string>)
    ensures UserRole in r
    ensures NoDup(r)
    ensures forall x :: x in r <==> x in u.roles || x == UserRole
    ensures forall i, j :: 0 <= i < j < |r| ==>
      FirstIndex(u.roles + [UserRole], r[i]) < FirstIndex(u.roles + [UserRole], r[j])
  {
    Distinct(u.roles + [UserRole])
  }

  /** Stored roles keep their relative order in `getRoles`, ahead of an added `ROLE_USER`. */
  lemma RolesKeepStoredOrder(u: User, a: string, b: string)
    requires a in u.roles && b in u.roles && FirstIndex(u.roles, a) < FirstIndex(u.roles, b)
    ensures a in Roles(u) && b in Roles(u)
    ensures FirstIndex(Roles(u), a) < FirstIndex(Roles(u), b)
    ensures UserRole !in u.roles ==> FirstIndex(Roles(u), b) < FirstIndex(Roles(u), UserRole)
  {
    var s := u.roles + [UserRole];
    FirstIndexAppend(u.roles, UserRole);
    DistinctKeepsOrder(s, a, b);
    if UserRole !in u.roles {
      DistinctKeepsOrder(s, b, UserRole);
    }
  }

  /** `getUserIdentifier`: the username, with null cast to "". */
  function UserIdentifier(u: User): (r: string)
    ensures u.username.Some? ==> r == u.username.value
    ensures u.username.None? ==> r == ""
  {
    u.username.GetOr("")
  }
}
