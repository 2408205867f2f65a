/** Sequential search over a table, as `Array.prototype.find` does it, and distinctness of keys. */
module Tables {
  import opened Wrappers

  /** The index of the first element of `keys` equal to `k`, or None when there is none. */
  function IndexOf<T(==)>(keys: seq<T>, k: T): (r: Option<nat>)
    ensures r.Some? ==> r.value < |keys| && keys[r.value] == k && k !in keys[..r.value]
    ensures r.None? <==> k !in keys
  {
    if keys == [] then None
    else if keys[0] == k then Some(0)
    else match IndexOf(keys[1..], k)
      case None => None
      case Some(j) =>
        assert keys[..j + 1] == [keys[0]] + keys[1..][..j];
        Some(j + 1)
  }

  /** An occurrence with no earlier occurrence is the one IndexOf finds. */
  lemma IndexOfIsFirst<T>(keys: seq<T>, k: T, i: nat)
    requires i < |keys| && keys[i] == k && k !in keys[..i]
    ensures IndexOf(keys, k) == Some(i)
  {
  }

  /** Appending an element does not change a hit, and turns a miss into a hit exactly when the element matches. */
  lemma {:induction false} IndexOfAppend<T>(keys: seq<T>, x: T, k: T)
    ensures IndexOf(keys + [x], k) ==
            if k in keys then IndexOf(keys, k) else if x == k then Some(|keys|) else None
  {
    var ks := keys + [x];
    if k in keys {
      var v := IndexOf(keys, k).value;
      assert ks[..v] == keys[..v];
      IndexOfIsFirst(ks, k, v);
    } else if x == k {
      assert ks[..|keys|] == keys;
      IndexOfIsFirst(ks, k, |keys|);
    } else {
      assert k !in ks;
    }
  }

  /** No value occurs twice. */
  predicate Distinct<T(==)>(s: seq<T>) {
    forall i, j | 0 <= i < j < |s| :: s[i] != s[j]
  }

  /** In a sequence without repetitions every element is found at its own position. */
  lemma DistinctIndexOf<T>(s: seq<T>, i: nat)
    requires Distinct(s) && i < |s|
    ensures IndexOf(s, s[i]) == Some(i)
  {
    assert s[i] !in s[..i] by {
      forall j | 0 <= j < i ensures s[..i][j] != s[i] {
        assert s[..i][j] == s[j];
      }
    }
    IndexOfIsFirst(s, s[i], i);
  }

  /** Appending an element that does not occur yet keeps a sequence free of repetitions. */
  lemma DistinctAppend<T>(s: seq<T>, x: T)
    requires Distinct(s) && x !in s
    ensures Distinct(s + [x])
  {
    var t := s + [x];
    forall i, j | 0 <= i < j < |t| ensures t[i] != t[j] {
      if j == |s| {
        assert t[i] == s[i];
      }
    }
  }
}
