/** sanitize_user: strip the four volatile keys of a user record before two
    records are compared. */
module Sanitizer {
  import opened Values

  /** A user record of the class statistics: a JSON object. */
  type UserRecord = map<string, Json>

  /** The keys sanitize_user deletes, in the order its `del` statement names them. */
  const VolatileOrder: seq<string> := ["lti_ids", "user_id", "days", "views"]

  /** The same keys as a set. */
  const VolatileKeys: set<string> := set k | k in VolatileOrder

  /** What sanitize_user returns or raises for a record, as a value. The
      KeyError names the first key, in deletion order, that is missing. */
  function Sanitize(user: UserRecord): (r: Result<UserRecord>)
    ensures r.Ok? <==> VolatileKeys <= user.Keys
    ensures r.Err? ==> exists i :: 0 <= i < |VolatileOrder| && r.error == KeyError(VolatileOrder[i])
                                && VolatileOrder[i] !in user
                                && forall j :: 0 <= j < i ==> VolatileOrder[j] in user
  {
    assert VolatileOrder[0] == "lti_ids" && VolatileOrder[1] == "user_id";
    assert VolatileOrder[2] == "days" && VolatileOrder[3] == "views";
    if "lti_ids" !in user then Err(KeyError("lti_ids"))
    else if "user_id" !in user then Err(KeyError("user_id"))
    else if "days" !in user then Err(KeyError("days"))
    else if "views" !in user then Err(KeyError("views"))
    else Ok(user - VolatileKeys)
  }

  /** Sanitizing removes exactly the volatile keys and keeps every other key
      with its value. */
  lemma SanitizeRemovesExactly(user: UserRecord)
    requires VolatileKeys <= user.Keys
    ensures Sanitize(user).Ok?
    ensures Sanitize(user).value.Keys == user.Keys - VolatileKeys
    ensures forall k :: k in user && k !in VolatileKeys ==> Sanitize(user).value[k] == user[k]
  {
  }

  /** A sanitized record has none of the volatile keys, so sanitizing it
      again raises at the first of them. */
  lemma SanitizeTwiceFails(user: UserRecord)
    requires Sanitize(user).Ok?
    ensures Sanitize(Sanitize(user).value) == Err(KeyError("lti_ids"))
  {
  }

  /** Two records that agree outside the volatile keys sanitize to the same
      record, whatever their volatile values. */
  lemma SanitizeIgnoresVolatile(a: UserRecord, b: UserRecord)
    requires VolatileKeys <= a.Keys && VolatileKeys <= b.Keys
    requires a - VolatileKeys == b - VolatileKeys
    ensures Sanitize(a) == Sanitize(b)
  {
  }

  /** The first `i` keys of the deletion order. */
  function KeysBefore(i: nat): set<string>
    requires i <= |VolatileOrder|
  {
    if i == 0 then {} else KeysBefore(i - 1) + {VolatileOrder[i - 1]}
  }

  /** A mutable Python dict holding one user record. */
  class UserDict {
    var fields: UserRecord

    constructor (fields: UserRecord)
      ensures this.fields == fields
    {
      this.fields := fields;
    }

    /** `del self[key]`: raises KeyError when the key is absent. */
    method Delete(key: string) returns (r: Result<()>)
      modifies this
      ensures r == if key in old(fields) then Ok(()) else Err(KeyError(key))
      ensures fields == old(fields) - {key}
    {
      if key !in fields {
        return Err(KeyError(key));
      }
      fields := fields - {key};
      r := Ok(());
    }
  }

  /** sanitize_user(user): `del` the four keys one after another, in place.
      On success the dict is the sanitized record; a KeyError leaves the
      keys deleted before the missing one deleted. */
  method SanitizeUser(user: UserDict) returns (r: Result<()>)
    modifies user
    ensures Sanitize(old(user.fields)).Ok? ==> r == Ok(()) && user.fields == Sanitize(old(user.fields)).value
    ensures Sanitize(old(user.fields)).Err? ==> r == Err(Sanitize(old(user.fields)).error)
    ensures r.Err? ==> exists i :: 0 <= i < |VolatileOrder| && r.error == KeyError(VolatileOrder[i])
                                && user.fields == old(user.fields) - KeysBefore(i)
  {
    assert VolatileOrder == ["lti_ids", "user_id", "days", "views"];
    r := user.Delete("lti_ids");
    if r.Err? {
      assert KeysBefore(0) == {};
      return;
    }
    r := user.Delete("user_id");
    if r.Err? {
      assert KeysBefore(1) == {"lti_ids"};
      return;
    }
    r := user.Delete("days");
    if r.Err? {
      assert KeysBefore(2) == {"lti_ids", "user_id"};
      return;
    }
    r := user.Delete("views");
    if r.Err? {
      assert KeysBefore(3) == {"lti_ids", "user_id", "days"};
      return;
    }
    r := Ok(());
  }

  /** A record read back from the store is a fresh dict of its own:
      sanitize_user deletes from that dict in place and returns it. */
  method SanitizeCopy(record: UserRecord) returns (r: Result<UserRecord>)
    ensures r == Sanitize(record)
  {
    var user := new UserDict(record);
    var deleted := SanitizeUser(user);
    if deleted.Err? {
      return Err(deleted.error);
    }
    r := Ok(user.fields);
  }
}
