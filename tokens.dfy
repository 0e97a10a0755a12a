/**
 * The token table of the framework's token authentication, as the
 * authentication handler uses it: one key per user, created on first login.
 * Key generation is an oracle: the caller supplies a key no token holds yet.
 */
module Tokens {

  /** No two users share a key (the key is the table's primary key). */
  ghost predicate KeysUnique(keys: map<string, string>)
  {
    forall u, v :: u in keys && v in keys && u != v ==> keys[u] != keys[v]
  }

  /** The key `get_or_create(user=user)[0].key` yields: the stored one, else the fresh one. */
  function KeyFor(keys: map<string, string>, user: string, freshKey: string): (key: string)
    ensures user in keys ==> key == keys[user]
    ensures user !in keys ==> key == freshKey
  {
    if user in keys then keys[user] else freshKey
  }

  /**
   * The table after `get_or_create`: unchanged when the user already has a key,
   * otherwise one more entry; keys stay unique when the fresh key is unused.
   */
  lemma GetOrCreateTable(keys: map<string, string>, user: string, freshKey: string)
    requires KeysUnique(keys) && freshKey !in keys.Values
    ensures var after := keys[user := KeyFor(keys, user, freshKey)];
            && KeysUnique(after)
            && (user in keys ==> after == keys)
            && (user !in keys ==> after.Keys == keys.Keys + {user})
            && KeyFor(after, user, freshKey) == KeyFor(keys, user, freshKey)
  {
    var after := keys[user := KeyFor(keys, user, freshKey)];
    if user !in keys {
      forall u | u in keys
        ensures keys[u] != freshKey
      {
        assert keys[u] in keys.Values;
      }
    } else {
      assert after == keys;
    }
  }

  /** `Token.objects`. */
  class TokenManager {
    var keys: map<string, string>

    ghost predicate Valid()
      reads this
    {
      KeysUnique(keys)
    }

    constructor ()
      ensures Valid() && keys == map[]
    {
      keys := map[];
    }

    /** `get_or_create(user=user)`: the user's token, created only if absent. */
    method GetOrCreate(user: string, freshKey: string) returns (key: string, created: bool)
      requires Valid() && freshKey !in keys.Values
      modifies this
      ensures Valid()
      ensures created <==> user !in old(keys)
      ensures key == KeyFor(old(keys), user, freshKey)
      ensures keys == old(keys)[user := key]
    {
      GetOrCreateTable(keys, user, freshKey);
      if user in keys {
        key, created := keys[user], false;
      } else {
        key, created := freshKey, true;
        keys := keys[user := key];
      }
    }
  }
}
