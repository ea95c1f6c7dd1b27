/** `AuthManager`: a two-state authenticated / not-authenticated machine
    whose flag is mirrored into UserDefaults under "isAuthenticated" by its
    `didSet` observer and restored from there when the manager is created. */
module Auth {
  import opened Environment

  /** `UserDefaults.standard.bool(forKey:)` over the values the app stores:
      the stored flag, or false when nothing (or something other than a flag)
      is stored. Foundation's reading of stored numbers and strings is not
      modelled. */
  function StoredFlag(values: map<string, Value>, key: string): (b: bool)
    ensures b <==> key in values && values[key] == Flag(true)
  {
    key in values && values[key].Flag? && values[key].flag
  }

  /** The only credentials `login` accepts. */
  const AcceptedUsername: string := "user"
  const AcceptedPassword: string := "password"

  class AuthManager {
    var isAuthenticated: bool
    const defaults: Defaults

    /** The stored flag reads back as the flag in memory. */
    predicate Mirrored()
      reads this, defaults
    {
      StoredFlag(defaults.values, AuthenticatedKey) == isAuthenticated
    }

    /** `init()`: restore the flag from UserDefaults. Swift does not run
        `didSet` during initialisation, so nothing is written. */
    constructor (defaults: Defaults)
      ensures this.defaults == defaults
      ensures isAuthenticated == StoredFlag(defaults.values, AuthenticatedKey)
      ensures Mirrored()
    {
      this.defaults := defaults;
      isAuthenticated := StoredFlag(defaults.values, AuthenticatedKey);
    }

    /** Assigning `isAuthenticated`, with its `didSet` write. */
    method SetAuthenticated(b: bool)
      modifies this`isAuthenticated, defaults
      ensures isAuthenticated == b
      ensures defaults.values == old(defaults.values)[AuthenticatedKey := Flag(b)]
      ensures Mirrored()
    {
      isAuthenticated := b;
      defaults.Set(AuthenticatedKey, Flag(b));
    }

    /** `login(username:password:)`: true exactly for the fixed pair, which
        also sets the flag; other pairs change nothing. */
    method Login(username: string, password: string) returns (ok: bool)
      modifies this`isAuthenticated, defaults
      ensures ok <==> username == AcceptedUsername && password == AcceptedPassword
      ensures ok ==> isAuthenticated && defaults.values == old(defaults.values)[AuthenticatedKey := Flag(true)]
      ensures !ok ==> isAuthenticated == old(isAuthenticated) && defaults.values == old(defaults.values)
      ensures old(Mirrored()) ==> Mirrored()
    {
      if username == AcceptedUsername && password == AcceptedPassword {
        SetAuthenticated(true);
        return true;
      }
      return false;
    }

    /** `logout()`: clear the flag. */
    method Logout()
      modifies this`isAuthenticated, defaults
      ensures !isAuthenticated
      ensures defaults.values == old(defaults.values)[AuthenticatedKey := Flag(false)]
      ensures Mirrored()
    {
      SetAuthenticated(false);
    }
  }

  /** A manager created over the store another manager has written restores
      that manager's flag. */
  method RestoreAfterRelaunch(first: AuthManager) returns (second: AuthManager)
    requires first.Mirrored()
    ensures second.defaults == first.defaults
    ensures second.isAuthenticated == first.isAuthenticated
  {
    second := new AuthManager(first.defaults);
  }
}
