/** `UserInteractionManager`: owns the interaction relation, loads it from
    UserDefaults when created, writes it back after every registration, and
    answers `canMessage`. */
module InteractionManager {
  import opened Wrappers
  import opened Interactions
  import opened Environment

  class UserInteractionManager {
    var userInteractions: Relation
    const defaults: Defaults

    /** The copy under "userInteractions" reads back as the relation in
        memory. */
    predicate Persisted()
      reads this, defaults
    {
      StoredRelation(defaults.values) == Some(userInteractions)
    }

    /** `init()`: start empty, then load the stored relation if there is one. */
    constructor (defaults: Defaults)
      ensures this.defaults == defaults
      ensures userInteractions == match StoredRelation(defaults.values)
                                  case Some(m) => m
                                  case None => map[]
    {
      this.defaults := defaults;
      userInteractions := map[];
      new;
      LoadStoredInteractions();
    }

    /** `loadStoredInteractions()`: replace the relation by the stored one, if
        any; otherwise keep it. */
    method LoadStoredInteractions()
      modifies this`userInteractions
      ensures userInteractions == match StoredRelation(defaults.values)
                                  case Some(m) => m
                                  case None => old(userInteractions)
      ensures StoredRelation(defaults.values).Some? ==> Persisted()
    {
      match StoredRelation(defaults.values)
      case Some(m) => userInteractions := m;
      case None =>
    }

    /** `persistUserInteractions()`: store each user's set as an array. */
    method PersistUserInteractions()
      modifies defaults
      ensures InteractionsKey in defaults.values && Persisted()
      ensures defaults.values - {InteractionsKey} == old(defaults.values) - {InteractionsKey}
    {
      var arrays := ToArrays(userInteractions);
      PersistRoundTrip(userInteractions, arrays);
      defaults.Set(InteractionsKey, InteractionTable(arrays));
    }

    /** `registerInteraction(from:with:)`: each user joins the other's set
        (sets created on first use), then the relation is stored. */
    method RegisterInteraction(user: string, target: string)
      modifies this`userInteractions, defaults
      ensures userInteractions == Register(old(userInteractions), user, target)
      ensures CanMessage(user, target) && CanMessage(target, user)
      ensures old(Symmetric(userInteractions)) ==> Symmetric(userInteractions)
      ensures Persisted()
      ensures defaults.values - {InteractionsKey} == old(defaults.values) - {InteractionsKey}
    {
      RegisterEnablesMessaging(userInteractions, user, target);
      if Symmetric(userInteractions) {
        RegisterPreservesSymmetry(userInteractions, user, target);
      }
      userInteractions := Insert(userInteractions, user, target);
      userInteractions := Insert(userInteractions, target, user);
      PersistUserInteractions();
    }

    /** `canMessage(user:targetUser:)`: both users have an entry and each
        appears in the other's set. Reads the relation only. */
    predicate CanMessage(user: string, target: string)
      reads this
      ensures CanMessage(user, target) <==> Interactions.CanMessage(userInteractions, user, target)
    {
      match (if user in userInteractions then Some(userInteractions[user]) else None,
             if target in userInteractions then Some(userInteractions[target]) else None)
      case (Some(forUser), Some(forTarget)) => target in forUser && user in forTarget
      case _ => false
    }
  }
}
