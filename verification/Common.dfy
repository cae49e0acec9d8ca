// Notions that several modules share.
module Common {
  datatype Option<T> = None | Some(value: T)

  ghost predicate Distinct<E>(s: seq<E>) {
    forall i, j :: 0 <= i < j < |s| ==> s[i] != s[j]
  }

  ghost predicate Ascending(s: seq<int>) {
    forall i, j :: 0 <= i < j < |s| ==> s[i] < s[j]
  }

  function Without<E>(s: seq<E>, k: nat): seq<E>
    requires k < |s|
  {
    s[..k] + s[k + 1..]
  }
}
