/**
 * The registry of user-preference scopes: each UI part asks once for a scope, which is then
 * prefixed to its preference keys. A scope can be registered only once.
 */
module PreferenceScopes {
  import opened Eav

  /** The handle `getScope` returns; it carries its scope. */
  datatype UserPreferences = UserPreferences(scope: string)

  /** The error `getScope` returns for a scope that is already registered. */
  datatype ScopeError = DuplicateScope(scope: string)

  predicate NoDuplicates(s: seq<string>) {
    forall i, j :: 0 <= i < j < |s| ==> s[i] != s[j]
  }

  /** The static `scopes` list. */
  class Registry {
    var scopes: seq<string>

    ghost predicate Valid()
      reads this
    {
      NoDuplicates(scopes)
    }

    constructor ()
      ensures Valid() && scopes == []
    {
      scopes := [];
    }

    /** Registers `scope` unless it is already registered. */
    method GetScope(scope: string) returns (r: Result<UserPreferences, ScopeError>)
      requires Valid()
      modifies this
      ensures Valid()
      ensures scope in old(scopes) ==> r == Err(DuplicateScope(scope)) && scopes == old(scopes)
      ensures scope !in old(scopes) ==>
        && r == Ok(UserPreferences(scope))
        && scopes == old(scopes) + [scope]
        && |scopes| == |old(scopes)| + 1
    {
      if scope in scopes {
        return Err(DuplicateScope(scope));
      }
      scopes := scopes + [scope];
      return Ok(UserPreferences(scope));
    }
  }
}
