/**
 * The authentication decision made on the first line a client sends: a key
 * shorter than 64 characters is refused; a key equal to the switchboard's
 * shared secret authenticates a pod; any other key authenticates the user it
 * belongs to, provided exactly one user has it.
 */
module Credentials {
  import opened Wrappers

  /** Keys shorter than this are refused without further checks. */
  const MinKeyLength := 64

  /** A user record, as returned by the user store. */
  type UserId = string

  /** `@current_user`: falsy (unauthenticated), `:pod`, or the one matching user. */
  datatype Principal = Nobody | Pod | Member(user: UserId)

  /**
   * The principal a stripped key authenticates as. `secret` is the configured
   * `peas.switchboard_key` (absent when not configured) and `lookup` the user
   * store's `api_key` query; the lookup is consulted only for long keys that
   * are not the secret.
   */
  function Decide(key: string, secret: Option<string>, lookup: string -> seq<UserId>): (p: Principal)
    ensures |key| < MinKeyLength ==> p == Nobody
    ensures p == Pod <==> |key| >= MinKeyLength && secret == Some(key)
    ensures p.Member? <==> |key| >= MinKeyLength && secret != Some(key) && |lookup(key)| == 1
    ensures p.Member? ==> lookup(key) == [p.user]
  {
    if |key| < MinKeyLength then Nobody
    else if secret == Some(key) then Pod
    else
      var matches := lookup(key);
      if |matches| == 1 then Member(matches[0]) else Nobody
  }

  /**
   * The shared secret takes precedence: for a key equal to the secret the
   * decision does not depend on what the user store would return.
   */
  lemma SecretIgnoresUsers(key: string, secret: Option<string>, lookup1: string -> seq<UserId>, lookup2: string -> seq<UserId>)
    requires secret == Some(key)
    ensures Decide(key, secret, lookup1) == Decide(key, secret, lookup2)
    ensures |key| >= MinKeyLength ==> Decide(key, secret, lookup1) == Pod
  {
  }

  /** Authentication succeeds exactly for a long key that is the secret or belongs to exactly one user. */
  lemma AuthenticatedIff(key: string, secret: Option<string>, lookup: string -> seq<UserId>)
    ensures Decide(key, secret, lookup) != Nobody <==>
      |key| >= MinKeyLength && (secret == Some(key) || |lookup(key)| == 1)
  {
  }
}
