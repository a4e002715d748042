/** The web application's authorisation rule: whether a user may reach a view that names
    the privileges allowed to see it. */
module WebAuth {

  /** The user as the check sees it. */
  datatype User = User(id: int, name: string, isAuthenticated: bool)

  /** The privilege that grants every view. */
  const ADMIN := "ADMIN"

  /** A held privilege that opens a view: one the view names, or ADMIN. */
  predicate Grants(required: seq<string>, held: string)
  {
    held in required || held == ADMIN
  }

  /** The rule: a signed-in user may see a view that names no privilege, or whose list
      names one of the user's privileges, or any view if the user is an administrator. */
  predicate Authorised(required: seq<string>, user: User, held: seq<string>)
  {
    && user.isAuthenticated
    && (|required| == 0 || exists i :: 0 <= i < |held| && Grants(required, held[i]))
  }

  /** `check_privileges`. The privilege store is a lookup from user id to the names of the
      privileges held, in the order the store returns them; `lookedUp` reports whether it
      was consulted. */
  method CheckPrivileges(required: seq<string>, user: User, privilegesOf: int -> seq<string>)
    returns (granted: bool, lookedUp: bool)
    ensures granted == Authorised(required, user, privilegesOf(user.id))
    ensures lookedUp <==> user.isAuthenticated && |required| > 0
  {
    if !user.isAuthenticated {
      return false, false;
    }
    if |required| == 0 {
      return true, false;
    }
    var held := privilegesOf(user.id);
    var i := 0;
    while i < |held|
      invariant 0 <= i <= |held|
      invariant forall j | 0 <= j < i :: !Grants(required, held[j])
    {
      if held[i] in required || held[i] == ADMIN {
        return true, true;
      }
      i := i + 1;
    }
    return false, true;
  }

  /** Signed-out users are refused whatever the view requires. */
  lemma SignedOutRefused(required: seq<string>, user: User, held: seq<string>)
    requires !user.isAuthenticated
    ensures !Authorised(required, user, held)
  {
  }

  /** An administrator who is signed in may see every view. */
  lemma AdminSeesEverything(required: seq<string>, user: User, held: seq<string>)
    requires user.isAuthenticated && ADMIN in held
    ensures Authorised(required, user, held)
  {
    var i :| 0 <= i < |held| && held[i] == ADMIN;
    assert Grants(required, held[i]);
  }

  /** Naming more privileges on a view that already names some can only let more users in;
      the privileges held are looked at as a set, so their order does not matter. */
  lemma MorePrivilegesNeverRefuse(required: seq<string>, extra: seq<string>, user: User, held: seq<string>, heldAgain: seq<string>)
    requires |required| > 0 && Authorised(required, user, held)
    requires forall p :: p in held <==> p in heldAgain
    ensures Authorised(required + extra, user, held)
    ensures Authorised(required, user, heldAgain)
  {
    var i :| 0 <= i < |held| && Grants(required, held[i]);
    assert Grants(required + extra, held[i]);
    assert held[i] in heldAgain;
    var j :| 0 <= j < |heldAgain| && heldAgain[j] == held[i];
    assert Grants(required, heldAgain[j]);
  }

  /** A signed-in user without ADMIN is let into a view that names privileges exactly
      when holding one of them. */
  lemma OrdinaryUser(required: seq<string>, user: User, held: seq<string>)
    requires user.isAuthenticated && ADMIN !in held && |required| > 0
    ensures Authorised(required, user, held) <==> exists p :: p in held && p in required
  {
    if exists p :: p in held && p in required {
      var p :| p in held && p in required;
      var i :| 0 <= i < |held| && held[i] == p;
      assert Grants(required, held[i]);
    }
  }

  /** The situations the authorisation rule is written for: an empty list, a held name,
      ADMIN, a signed-out user, and a name the user does not hold. */
  lemma AuthorisationCases()
    ensures Authorised([], User(1, "user", true), ["READ"])
    ensures Authorised(["READ"], User(1, "user", true), ["READ"])
    ensures Authorised(["InvalidPrivilege"], User(1, "user", true), ["READ", ADMIN])
    ensures !Authorised([], User(0, "", false), [])
    ensures !Authorised(["WRITE"], User(1, "user", true), ["READ"])
  {
    assert Grants(["READ"], ["READ"][0]);
    assert Grants(["InvalidPrivilege"], ["READ", ADMIN][1]);
  }
}
