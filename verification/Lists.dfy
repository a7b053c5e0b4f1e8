/** What several lists of the model share. */
module Lists {

  datatype Option<T> = None | Some(value: T)

  /** No element occurs twice. */
  predicate NoDup(s: seq<nat>) { forall i, j :: 0 <= i < j < |s| ==> s[i] != s[j] }

  /** The places after and before place k of a ring of n. */
  function After(k: nat, n: nat): nat { if k + 1 == n then 0 else k + 1 }

  function Before(k: nat, n: nat): nat
    requires k < n
  {
    if k == 0 then n - 1 else k - 1
  }
}
