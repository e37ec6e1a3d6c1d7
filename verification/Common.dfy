/** Result type and error family shared by every component (relay/errors.py). */
module Common {

  // The classes of refusal the modelled operations raise.
  datatype Error = Invalid | Missing | Fenced

  datatype Option<+T> = None | Some(value: T)

  // A raised exception is an Err value; the state a raise leaves behind is
  // stated by the operation that raises it.
  datatype Result<+T> = Ok(value: T) | Err(error: Error)

  /** A set that is not empty has a member to pick. */
  lemma Member<T>(s: set<T>) returns (x: T)
    requires s != {}
    ensures x in s
  {
    x :| x in s;
  }

  function Pow2(n: nat): (p: nat)
    ensures p >= 1
  {
    if n == 0 then 1 else 2 * Pow2(n - 1)
  }

  lemma SubsetSize<T>(a: set<T>, b: set<T>)
    requires a <= b
    ensures |a| <= |b|
  {
    assert b == a + (b - a);
  }

  // What a map holds at a key.
  function Lookup<K, V>(m: map<K, V>, k: K): Option<V> {
    if k in m then Some(m[k]) else None
  }

  /** Maps that hold the same at every key are the same map. */
  lemma SameMap<K, V>(a: map<K, V>, b: map<K, V>)
    requires forall k :: Lookup(a, k) == Lookup(b, k)
    ensures a == b
  {
    forall k ensures k in a <==> k in b { assert Lookup(a, k) == Lookup(b, k); }
    forall k | k in a ensures a[k] == b[k] { assert Lookup(a, k) == Lookup(b, k); }
  }

  function Elems(s: seq<string>): set<string> {
    set x | x in s
  }

  ghost predicate NoRepeats(s: seq<string>) {
    forall i, j :: 0 <= i < j < |s| ==> s[i] != s[j]
  }
}
