/**
 * Deployment name registration: find a deployment by its exact name, or
 * create it, refusing a new name whose canonical (DNS) form is already taken
 * by a stored deployment.
 *
 * The stored deployments are a sequence of names in creation order; a
 * deployment is identified by its position. The canonicalisation applied to
 * names (`DnsManager.canonical`) is a parameter of the model.
 */
module Deployments {
  import opened Wrappers

  datatype RepoError = DeploymentCanonicalNameTaken(name: string, canonicalName: string)

  /** The first stored deployment named exactly `name`. */
  function Find(names: seq<string>, name: string): (r: Option<nat>)
    ensures r.Some? ==> r.value < |names| && names[r.value] == name
    ensures r.Some? ==> forall j | 0 <= j < r.value :: names[j] != name
    ensures r.None? <==> name !in names
  {
    if names == [] then None
    else if names[0] == name then Some(0)
    else
      assert forall j | 1 <= j < |names| :: names[1..][j - 1] == names[j];
      match Find(names[1..], name)
      case None => None
      case Some(i) => Some(i + 1)
  }

  /** Some stored deployment has canonical name `c`. */
  predicate CanonicalTaken(names: seq<string>, canonical: string -> string, c: string)
  {
    exists i :: 0 <= i < |names| && canonical(names[i]) == c
  }

  /** No two stored deployments share a canonical name. */
  predicate CanonicallyDistinct(names: seq<string>, canonical: string -> string)
  {
    forall i, j | 0 <= i < j < |names| :: canonical(names[i]) != canonical(names[j])
  }

  /**
   * The stored names and the answer after one find-or-create of `name`:
   * an exact match is returned as it is; otherwise a canonical clash is an
   * error; otherwise `name` is appended and the new deployment returned.
   */
  function Register(names: seq<string>, name: string, canonical: string -> string): (r: (seq<string>, Result<nat, RepoError>))
    ensures r.1.Success? ==> r.1.value < |r.0| && r.0[r.1.value] == name
    ensures r.1.Failure? ==> r.0 == names && name !in names && CanonicalTaken(names, canonical, canonical(name))
    ensures r.1.Failure? ==> r.1.error == DeploymentCanonicalNameTaken(name, canonical(name))
    ensures name in names ==> r == (names, Success(Find(names, name).value))
    ensures r.0 != names ==> r.0 == names + [name] && name !in names && !CanonicalTaken(names, canonical, canonical(name))
    ensures r.0 == names || r.0 == names + [name]
  {
    match Find(names, name)
    case Some(i) => (names, Success(i))
    case None =>
      if CanonicalTaken(names, canonical, canonical(name)) then
        (names, Failure(DeploymentCanonicalNameTaken(name, canonical(name))))
      else
        (names + [name], Success(|names|))
  }

  /** Registration keeps canonical names pairwise distinct. */
  lemma RegisterKeepsCanonicallyDistinct(names: seq<string>, name: string, canonical: string -> string)
    ensures CanonicallyDistinct(names, canonical) ==> CanonicallyDistinct(Register(names, name, canonical).0, canonical)
  {
    var after := Register(names, name, canonical).0;
    if CanonicallyDistinct(names, canonical) && after != names {
      forall i, j | 0 <= i < j < |after| ensures canonical(after[i]) != canonical(after[j]) {
        if j == |names| {
          assert after[i] == names[i] && after[j] == name;
        } else {
          assert after[i] == names[i] && after[j] == names[j];
        }
      }
    }
  }

  /**
   * A second call with the same name returns the same answer (the same
   * deployment, or the same error) and changes nothing.
   */
  lemma RegisterIdempotent(names: seq<string>, name: string, canonical: string -> string)
    ensures var (after, r) := Register(names, name, canonical);
            Register(after, name, canonical) == (after, r)
  {
    var (after, r) := Register(names, name, canonical);
    if after != names {
      assert after[|names|] == name;
      assert Find(after, name) == Some(|names|) by {
        var k := Find(after, name);
        assert k.Some?;
        assert forall j | 0 <= j < |names| :: after[j] == names[j];
      }
    }
  }

  /** After a successful call the returned deployment is the one found by name. */
  lemma RegisterThenFind(names: seq<string>, name: string, canonical: string -> string)
    requires Register(names, name, canonical).1.Success?
    ensures var (after, r) := Register(names, name, canonical);
            Find(after, name) == Some(r.value)
  {
    var (after, r) := Register(names, name, canonical);
    if after != names {
      assert forall j | 0 <= j < |names| :: after[j] == names[j];
    }
  }

  /**
   * The stored deployments, updated in place by find-or-create. The stored
   * rows may predate the rule that canonical names are distinct, since they
   * may have been written without this check, so the constructor accepts any
   * names and `FindOrCreateByName` keeps `Valid()` only when it held before.
   */
  class DeploymentRepo {
    /** Stored deployment names, in creation order. */
    var names: seq<string>
    /** The canonical form of a deployment name. */
    const canonical: string -> string

    constructor(initial: seq<string>, canonical: string -> string)
      ensures names == initial && this.canonical == canonical
    {
      names := initial;
      this.canonical := canonical;
    }

    /** Stored canonical names are pairwise distinct. */
    predicate Valid()
      reads this
    {
      CanonicallyDistinct(names, canonical)
    }

    /**
     * Returns the deployment named `name`, creating it when no stored
     * deployment has that name and none has its canonical name.
     */
    method FindOrCreateByName(name: string) returns (r: Result<nat, RepoError>)
      modifies this
      ensures (names, r) == Register(old(names), name, canonical)
      ensures old(Valid()) ==> Valid()
    {
      var found := Find(names, name);
      if found.Some? {
        return Success(found.value);
      }
      var canonicalName := canonical(name);
      var i := 0;
      while i < |names|
        invariant 0 <= i <= |names|
        invariant forall k | 0 <= k < i :: canonical(names[k]) != canonicalName
      {
        if canonical(names[i]) == canonicalName {
          return Failure(DeploymentCanonicalNameTaken(name, canonicalName));
        }
        i := i + 1;
      }
      RegisterKeepsCanonicallyDistinct(names, name, canonical);
      names := names + [name];
      r := Success(|names| - 1);
    }
  }
}
