/** The "has interacted with" relation as a value: a map from a user to the
    set of users they have interacted with, the update `registerInteraction`
    performs on it, the `canMessage` test, and the conversion to and from the
    arrays-of-strings form kept under "userInteractions" in UserDefaults. */
module Interactions {

  type Relation = map<string, set<string>>

  /** `m[key, default: Set<String>()].insert(value)`. */
  function Insert(m: Relation, key: string, value: string): (r: Relation)
    ensures r.Keys == m.Keys + {key}
    ensures r[key] == (if key in m then m[key] else {}) + {value}
    ensures forall k :: k in m && k != key ==> r[k] == m[k]
  {
    m[key := (if key in m then m[key] else {}) + {value}]
  }

  /** `registerInteraction(from: user, with: target)`: target joins user's set,
      then user joins target's set. */
  function Register(m: Relation, user: string, target: string): Relation
  {
    Insert(Insert(m, user, target), target, user)
  }

  /** `canMessage(user:targetUser:)`. */
  predicate CanMessage(m: Relation, user: string, target: string)
  {
    user in m && target in m && target in m[user] && user in m[target]
  }

  /** Every recorded interaction is recorded in both directions. */
  ghost predicate Symmetric(m: Relation)
  {
    forall a, b :: a in m && b in m[a] ==> b in m && a in m[b]
  }

  /** After registering a pair, both users may message each other, whatever
      the relation held before (also when the two are the same user). */
  lemma RegisterEnablesMessaging(m: Relation, user: string, target: string)
    ensures CanMessage(Register(m, user, target), user, target)
    ensures CanMessage(Register(m, user, target), target, user)
  {
  }

  /** Registering touches only the two entries of the pair: it creates them
      when missing, only adds to them, and leaves every other entry as it
      was. */
  lemma RegisterFrame(m: Relation, user: string, target: string)
    ensures var r := Register(m, user, target);
      && r.Keys == m.Keys + {user, target}
      && (forall k :: k in m && k != user && k != target ==> r[k] == m[k])
      && (forall k :: k in m ==> m[k] <= r[k])
      && (user != target ==> r[user] == (if user in m then m[user] else {}) + {target})
      && (user != target ==> r[target] == (if target in m then m[target] else {}) + {user})
      && (user == target ==> r[user] == (if user in m then m[user] else {}) + {user})
  {
  }

  /** Registering changes nothing exactly when the pair may already message
      each other; so a second registration of the same pair is a no-op. */
  lemma RegisterNoOpIff(m: Relation, user: string, target: string)
    ensures Register(m, user, target) == m <==> CanMessage(m, user, target)
  {
    var r := Register(m, user, target);
    if CanMessage(m, user, target) {
      assert m[user] + {target} == m[user];
      assert m[target] + {user} == m[target];
      assert r.Keys == m.Keys;
      assert forall k :: k in m ==> r[k] == m[k];
    } else {
      RegisterEnablesMessaging(m, user, target);
    }
  }

  lemma RegisterIdempotent(m: Relation, user: string, target: string)
    ensures Register(Register(m, user, target), user, target) == Register(m, user, target)
  {
    RegisterEnablesMessaging(m, user, target);
    RegisterNoOpIff(Register(m, user, target), user, target);
  }

  /** Registration keeps the relation symmetric. */
  lemma RegisterPreservesSymmetry(m: Relation, user: string, target: string)
    requires Symmetric(m)
    ensures Symmetric(Register(m, user, target))
  {
    var r := Register(m, user, target);
    forall a, b | a in r && b in r[a]
      ensures b in r && a in r[b]
    {
      RegisterFrame(m, user, target);
      if a in m && b in m[a] {
        assert b in m && a in m[b];
      }
    }
  }

  /** The empty relation, which a fresh install starts from, is symmetric. */
  lemma EmptyIsSymmetric()
    ensures Symmetric(map[])
  {
  }

  /** `canMessage` does not depend on the order of its arguments. */
  lemma CanMessageSymmetric(m: Relation, user: string, target: string)
    ensures CanMessage(m, user, target) <==> CanMessage(m, target, user)
  {
  }

  /** On a symmetric relation the double check is redundant: one direction
      decides. */
  lemma CanMessageOneDirection(m: Relation, user: string, target: string)
    requires Symmetric(m)
    ensures CanMessage(m, user, target) <==> user in m && target in m[user]
  {
  }

  /** A user without an entry can message nobody and be messaged by nobody. */
  lemma CanMessageNeedsEntries(m: Relation, user: string, target: string)
    requires user !in m || target !in m
    ensures !CanMessage(m, user, target) && !CanMessage(m, target, user)
  {
  }

  /** The elements of an array, as `Set(array)` gives them. */
  function Elements(a: seq<string>): (s: set<string>)
    ensures forall x :: x in s <==> x in a
  {
    set x | x in a
  }

  /** No element appears twice, as in any `Array(set)`. */
  predicate Distinct(a: seq<string>)
  {
    forall i, j :: 0 <= i < j < |a| ==> a[i] != a[j]
  }

  /** `Array(s)`: the elements of a set, each once, in the order the set
      yields them (Swift leaves that order unspecified, so any order is
      allowed here). */
  method SetToArray(s: set<string>) returns (a: seq<string>)
    ensures Elements(a) == s
    ensures Distinct(a) && |a| == |s|
  {
    a := [];
    var rest := s;
    while rest != {}
      invariant rest <= s
      invariant Elements(a) == s - rest
      invariant Distinct(a)
      invariant |a| + |rest| == |s|
      decreases |rest|
    {
      var x :| x in rest;
      a := a + [x];
      rest := rest - {x};
    }
  }

  /** `storedData.mapValues { Set($0) }`. */
  function FromArrays(stored: map<string, seq<string>>): (m: Relation)
    ensures m.Keys == stored.Keys
    ensures forall k :: k in stored ==> m[k] == Elements(stored[k])
  {
    map k | k in stored :: Elements(stored[k])
  }

  /** `userInteractions.mapValues { Array($0) }`: one array per user. */
  method ToArrays(m: Relation) returns (stored: map<string, seq<string>>)
    ensures stored.Keys == m.Keys
    ensures forall k :: k in m ==> Elements(stored[k]) == m[k] && Distinct(stored[k])
  {
    stored := map[];
    var todo := m.Keys;
    while todo != {}
      invariant todo <= m.Keys
      invariant stored.Keys == m.Keys - todo
      invariant forall k :: k in stored ==> Elements(stored[k]) == m[k] && Distinct(stored[k])
      decreases |todo|
    {
      var k :| k in todo;
      var a := SetToArray(m[k]);
      stored := stored[k := a];
      todo := todo - {k};
    }
  }

  /** Persisting the relation and loading it back yields the same relation,
      whatever order the arrays were written in. */
  lemma PersistRoundTrip(m: Relation, stored: map<string, seq<string>>)
    requires stored.Keys == m.Keys
    requires forall k :: k in m ==> Elements(stored[k]) == m[k]
    ensures FromArrays(stored) == m
  {
  }
}
