/** A JavaScript plain object used as a dictionary (`Record<string, V>`):
    its entries in enumeration order. Property assignment replaces the value
    of an existing key in place and appends a new key at the end. */
module Records {
  import opened Wrappers

  type Record<V> = seq<(string, V)>

  function Keys<V>(r: Record<V>): (ks: seq<string>)
    ensures |ks| == |r|
    ensures forall i :: 0 <= i < |r| ==> ks[i] == r[i].0
  {
    seq(|r|, i requires 0 <= i < |r| => r[i].0)
  }

  predicate DistinctKeys<V>(r: Record<V>) {
    forall i, j :: 0 <= i < j < |r| ==> r[i].0 != r[j].0
  }

  predicate HasKey<V>(r: Record<V>, k: string) {
    exists i :: 0 <= i < |r| && r[i].0 == k
  }

  /** Position of the first entry named `k`. */
  function IndexOf<V>(r: Record<V>, k: string): (i: nat)
    requires HasKey(r, k)
    ensures i < |r| && r[i].0 == k
    ensures forall j :: 0 <= j < i ==> r[j].0 != k
  {
    if r[0].0 == k then 0
    else
      assert HasKey(r[1..], k) by {
        var i :| 0 <= i < |r| && r[i].0 == k;
        assert r[1..][i - 1].0 == k;
      }
      1 + IndexOf(r[1..], k)
  }

  /** `r[k]`: the value of the first entry named `k`, or `undefined`. */
  function Get<V>(r: Record<V>, k: string): (v: Option<V>)
    ensures v.None? <==> !HasKey(r, k)
    ensures v.Some? ==> v.value == r[IndexOf(r, k)].1
  {
    if HasKey(r, k) then Some(r[IndexOf(r, k)].1) else None
  }

  /** `r[k] = v`. */
  function Put<V>(r: Record<V>, k: string, v: V): (r': Record<V>)
    ensures HasKey(r, k) ==> r' == r[IndexOf(r, k) := (k, v)]
    ensures !HasKey(r, k) ==> r' == r + [(k, v)]
  {
    if HasKey(r, k) then r[IndexOf(r, k) := (k, v)] else r + [(k, v)]
  }

  lemma PutKeepsDistinct<V>(r: Record<V>, k: string, v: V)
    requires DistinctKeys(r)
    ensures DistinctKeys(Put(r, k, v))
    ensures Keys(Put(r, k, v)) == if HasKey(r, k) then Keys(r) else Keys(r) + [k]
  {
  }

  /** The first entry named `k` is the one `Get` finds. */
  lemma GetAt<V>(r: Record<V>, i: nat, k: string)
    requires i < |r| && r[i].0 == k
    requires forall j :: 0 <= j < i ==> r[j].0 != k
    ensures Get(r, k) == Some(r[i].1)
  {
    var j := IndexOf(r, k);
    assert !(j < i) && !(i < j);
  }
}
