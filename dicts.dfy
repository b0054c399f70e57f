/**
 * Python's built-in dict as the assembly uses it: a mapping whose keys
 * remember the order in which they were first inserted.
 */
module Dicts {

  /** No element of `s` occurs twice. */
  ghost predicate Distinct<T>(s: seq<T>) {
    forall i, j :: 0 <= i < j < |s| ==> s[i] != s[j]
  }

  /** The elements of `s`, each once, in the order of their first occurrence. */
  function Dedup<T(==,!new)>(s: seq<T>): (d: seq<T>)
    ensures forall x :: x in d <==> x in s
    ensures Distinct(d)
    ensures |d| <= |s|
  {
    if s == [] then []
    else
      var p, x := s[..|s| - 1], s[|s| - 1];
      assert s == p + [x];
      var d := Dedup(p);
      if x in d then d else d + [x]
  }

  /** Appending one element extends the deduplicated sequence only when the element is new. */
  lemma DedupSnoc<T(!new)>(s: seq<T>, x: T)
    ensures Dedup(s + [x]) == if x in s then Dedup(s) else Dedup(s) + [x]
  {
    assert (s + [x])[..|s|] == s;
  }

  /** A sequence without repetitions is its own deduplication. */
  lemma {:induction false} DedupOfDistinct<T(!new)>(s: seq<T>)
    requires Distinct(s)
    ensures Dedup(s) == s
  {
    if s != [] {
      var p := s[..|s| - 1];
      assert Distinct(p);
      DedupOfDistinct(p);
      assert s == p + [s[|s| - 1]];
    }
  }

  /** The position of the first occurrence of `x` in `s`. */
  function FirstIndex<T(==)>(s: seq<T>, x: T): (i: nat)
    requires x in s
    ensures i < |s| && s[i] == x && x !in s[..i]
  {
    if s[0] == x then 0
    else
      assert s[1..][..FirstIndex(s[1..], x)] == s[1..1 + FirstIndex(s[1..], x)];
      1 + FirstIndex(s[1..], x)
  }

  /** An element met within a prefix has its first occurrence there. */
  lemma {:induction false} FirstIndexInPrefix<T>(s: seq<T>, n: nat, x: T)
    requires n <= |s| && x in s[..n]
    ensures FirstIndex(s, x) == FirstIndex(s[..n], x)
  {
    var i, j := FirstIndex(s[..n], x), FirstIndex(s, x);
    assert s[..n][..i] == s[..i];
    assert forall k :: 0 <= k < i ==> s[..i][k] == s[k];
    assert forall k :: 0 <= k < j ==> s[..j][k] == s[k];
  }

  /** Dedup lists the elements in the order in which they first occur in `s`. */
  lemma {:induction false} DedupFirstOccurrenceOrder<T(!new)>(s: seq<T>)
    ensures forall i, j :: 0 <= i < j < |Dedup(s)| ==>
      FirstIndex(s, Dedup(s)[i]) < FirstIndex(s, Dedup(s)[j])
  {
    if s != [] {
      var p, x := s[..|s| - 1], s[|s| - 1];
      assert s == p + [x];
      DedupFirstOccurrenceOrder(p);
      var d, dp := Dedup(s), Dedup(p);
      assert d == if x in dp then dp else dp + [x];
      forall i | 0 <= i < |dp|
        ensures FirstIndex(s, dp[i]) == FirstIndex(p, dp[i]) < |p|
      {
        FirstIndexInPrefix(s, |s| - 1, dp[i]);
      }
      if x !in p {
        assert forall m :: 0 <= m < |p| ==> p[m] == s[m];
        assert FirstIndex(s, x) == |s| - 1;
      }
      forall i, j | 0 <= i < j < |d|
        ensures FirstIndex(s, d[i]) < FirstIndex(s, d[j])
      {
        assert d[i] == dp[i];
        if j < |dp| {
          assert d[j] == dp[j];
        } else {
          assert x !in p && d[j] == x;
          assert FirstIndex(s, d[i]) < |p|;
          assert FirstIndex(s, x) == |s| - 1;
        }
      }
    }
  }

  /**
   * A dict: `keys` in insertion order, `entries` the key-to-value mapping.
   * Valid() is the invariant that both describe the same set of keys.
   */
  datatype Dict<K(==,!new), +V> = Dict(keys: seq<K>, entries: map<K, V>)
  {
    ghost predicate Valid() {
      Distinct(keys) && forall k :: k in entries <==> k in keys
    }

    /**
     * `d[k] = v`: a new key goes after every key already present, an existing
     * key keeps its place and only its value changes.
     */
    function Put(k: K, v: V): (d: Dict<K, V>)
      ensures d.entries == entries[k := v]
      ensures d.keys == if k in entries then keys else keys + [k]
    {
      if k in entries then Dict(keys, entries[k := v])
      else Dict(keys + [k], entries[k := v])
    }

    /** Assignment keeps the dict invariant. */
    lemma PutKeepsValid(k: K, v: V)
      requires Valid()
      ensures Put(k, v).Valid()
    {
    }

    /**
     * When the keys are the deduplicated `s`, assigning `k` leaves them the
     * deduplicated `s + [k]`.
     */
    lemma PutKeepsFirstOccurrence(s: seq<K>, k: K, v: V)
      requires Valid() && keys == Dedup(s)
      ensures Put(k, v).Valid() && Put(k, v).keys == Dedup(s + [k])
    {
      PutKeepsValid(k, v);
      DedupSnoc(s, k);
      assert k in entries <==> k in s;
    }

    /**
     * When the keys are the deduplicated first `n - 1` elements of `s`,
     * assigning the `n`-th element leaves them the deduplicated first `n`.
     */
    lemma PutNextOfPrefix(s: seq<K>, n: nat, v: V)
      requires 0 < n <= |s| && Valid() && keys == Dedup(s[..n - 1])
      ensures Put(s[n - 1], v).Valid() && Put(s[n - 1], v).keys == Dedup(s[..n])
    {
      assert s[..n] == s[..n - 1] + [s[n - 1]];
      PutKeepsFirstOccurrence(s[..n - 1], s[n - 1], v);
    }

    /** Assigning a key twice is assigning it once, with the second value, at the first one's place. */
    lemma PutTwice(k: K, v: V, w: V)
      ensures Put(k, v).Put(k, w) == Put(k, w)
    {
      assert entries[k := v][k := w] == entries[k := w];
    }

    /** The same keys in the same order, each value passed through `f`. */
    function MapValues<W>(f: V -> W): (d: Dict<K, W>)
      ensures d.keys == keys
      ensures forall k :: k in d.entries <==> k in entries
      ensures forall k :: k in entries ==> d.entries[k] == f(entries[k])
    {
      Dict(keys, map k | k in entries :: f(entries[k]))
    }
  }

  /** `{}` */
  function Empty<K(==,!new), V>(): (d: Dict<K, V>)
    ensures d.Valid() && d.keys == [] && d.entries == map[]
  {
    Dict([], map[])
  }
}
