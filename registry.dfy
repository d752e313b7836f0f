/** The lists of configured objects the polling sources keep in the global
    state (files, shell commands, network devices), each looked up by a key
    with strcmp and the first match winning. */
module Registry {
  import opened CText

  /** The position of the first of xs whose key is k, if any. */
  function IndexOfKey<T>(xs: seq<T>, key: T -> string, k: string): (r: Option<nat>)
    ensures r.Some? ==> r.value < |xs| && key(xs[r.value]) == k
    ensures r.Some? ==> forall j :: 0 <= j < r.value ==> key(xs[j]) != k
    ensures r.None? <==> forall j :: 0 <= j < |xs| ==> key(xs[j]) != k
  {
    if |xs| == 0 then None
    else if key(xs[0]) == k then Some(0)
    else match IndexOfKey(xs[1..], key, k)
      case None => None
      case Some(i) => Some(i + 1)
  }

  /** The first position whose key is k is the i-th when no earlier one has it. */
  lemma {:induction false} IndexOfKeyAt<T>(xs: seq<T>, key: T -> string, k: string, i: nat)
    requires i < |xs| && key(xs[i]) == k
    requires forall j :: 0 <= j < i ==> key(xs[j]) != k
    ensures IndexOfKey(xs, key, k) == Some(i)
  {
    if i > 0 {
      IndexOfKeyAt(xs[1..], key, k, i - 1);
    }
  }

  /** No two of xs share a key. */
  predicate UniqueKeys<T>(xs: seq<T>, key: T -> string) {
    forall i, j :: 0 <= i < j < |xs| ==> key(xs[i]) != key(xs[j])
  }

  /** Adding an object under a key no other has keeps the keys unique. */
  lemma UniqueAppend<T>(xs: seq<T>, key: T -> string, x: T)
    requires UniqueKeys(xs, key) && IndexOfKey(xs, key, key(x)).None?
    ensures UniqueKeys(xs + [x], key)
  {
  }

  /** Removing one object keeps the keys unique, and its key is gone. */
  lemma UniqueRemove<T>(xs: seq<T>, key: T -> string, k: nat)
    requires UniqueKeys(xs, key) && k < |xs|
    ensures UniqueKeys(xs[..k] + xs[k + 1..], key)
    ensures IndexOfKey(xs[..k] + xs[k + 1..], key, key(xs[k])).None?
  {
    var ys := xs[..k] + xs[k + 1..];
    assert forall j :: 0 <= j < |ys| ==> ys[j] == if j < k then xs[j] else xs[j + 1];
  }
}
