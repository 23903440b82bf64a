/** Ordered key-value lists: a browser's cookie jar and its web storage. Storing under a
    present key replaces the value in place; a new key goes to the end. */
module KeyedList {
  import opened Text

  type List<K> = seq<(K, string)>

  function Put<K(==)>(l: List<K>, k: K, v: string): List<K> {
    if l == [] then [(k, v)]
    else if l[0].0 == k then [(k, v)] + l[1..]
    else [l[0]] + Put(l[1..], k, v)
  }

  function Delete<K(==)>(l: List<K>, k: K): List<K> {
    if l == [] then [] else (if l[0].0 == k then [] else [l[0]]) + Delete(l[1..], k)
  }

  function Get<K(==)>(l: List<K>, k: K): Option<string> {
    if l == [] then None else if l[0].0 == k then Some(l[0].1) else Get(l[1..], k)
  }

  /** The entries whose key `f` recognises, under the key it returns. */
  function Project<K, J>(l: List<K>, f: K -> Option<J>): List<J> {
    if l == [] then []
    else (match f(l[0].0) case Some(j) => [(j, l[0].1)] case None => []) + Project(l[1..], f)
  }

  lemma {:induction false} ProjectPutOther<K, J>(l: List<K>, f: K -> Option<J>, k: K, v: string)
    requires f(k).None?
    ensures Project(Put(l, k, v), f) == Project(l, f)
  {
    if l != [] {
      ProjectPutOther(l[1..], f, k, v);
      assert ([(k, v)] + l[1..])[1..] == l[1..];
      assert ([l[0]] + Put(l[1..], k, v))[1..] == Put(l[1..], k, v);
    } else {
      assert [(k, v)][1..] == [];
    }
  }

  lemma {:induction false} ProjectDeleteOther<K, J>(l: List<K>, f: K -> Option<J>, k: K)
    requires f(k).None?
    ensures Project(Delete(l, k), f) == Project(l, f)
  {
    if l != [] {
      ProjectDeleteOther(l[1..], f, k);
      assert ([l[0]] + Delete(l[1..], k))[1..] == Delete(l[1..], k);
      assert [] + Delete(l[1..], k) == Delete(l[1..], k);
    }
  }

  /** `f` recognises no key other than `k` as `j`. */
  ghost predicate OnlyKey<K(!new), J>(f: K -> Option<J>, k: K, j: J) {
    f(k) == Some(j) && forall x: K :: f(x) == Some(j) ==> x == k
  }

  lemma {:induction false} ProjectPutOwn<K(!new), J>(l: List<K>, f: K -> Option<J>, k: K, j: J, v: string)
    requires OnlyKey(f, k, j)
    ensures Project(Put(l, k, v), f) == Put(Project(l, f), j, v)
  {
    if l == [] {
      assert [(k, v)][1..] == [];
    } else {
      ProjectPutOwn(l[1..], f, k, j, v);
      var rest := Project(l[1..], f);
      if l[0].0 == k {
        assert ([(k, v)] + l[1..])[1..] == l[1..];
        assert ([(j, l[0].1)] + rest)[1..] == rest;
      } else {
        assert ([l[0]] + Put(l[1..], k, v))[1..] == Put(l[1..], k, v);
        match f(l[0].0) {
          case Some(i) =>
            assert i != j && ([(i, l[0].1)] + rest)[1..] == rest;
          case None =>
            assert [] + rest == rest && [] + Put(rest, j, v) == Put(rest, j, v);
        }
      }
    }
  }

  lemma {:induction false} ProjectDeleteOwn<K(!new), J>(l: List<K>, f: K -> Option<J>, k: K, j: J)
    requires OnlyKey(f, k, j)
    ensures Project(Delete(l, k), f) == Delete(Project(l, f), j)
  {
    if l != [] {
      ProjectDeleteOwn(l[1..], f, k, j);
      var rest := Project(l[1..], f);
      assert [] + Delete(l[1..], k) == Delete(l[1..], k);
      assert ([l[0]] + Delete(l[1..], k))[1..] == Delete(l[1..], k);
      match f(l[0].0) {
        case Some(i) => assert ([(i, l[0].1)] + rest)[1..] == rest;
        case None => assert [] + rest == rest;
      }
    }
  }

  lemma {:induction false} ProjectGet<K(!new), J>(l: List<K>, f: K -> Option<J>, k: K, j: J)
    requires OnlyKey(f, k, j)
    ensures Get(Project(l, f), j) == Get(l, k)
  {
    if l != [] {
      ProjectGet(l[1..], f, k, j);
      var rest := Project(l[1..], f);
      match f(l[0].0) {
        case Some(i) => assert ([(i, l[0].1)] + rest)[1..] == rest;
        case None => assert [] + rest == rest;
      }
    }
  }

  // --- renaming keys ---

  function Rename<K, J>(l: List<K>, name: K -> J): (r: List<J>)
    ensures |r| == |l|
  {
    if l == [] then [] else [(name(l[0].0), l[0].1)] + Rename(l[1..], name)
  }

  /** Among the keys of `l`, only `k` has the name of `k`. */
  predicate Unmistakable<K(==), J(==)>(l: List<K>, name: K -> J, k: K) {
    forall i | 0 <= i < |l| :: name(l[i].0) == name(k) ==> l[i].0 == k
  }

  lemma {:induction false} RenamePut<K, J>(l: List<K>, name: K -> J, k: K, v: string)
    requires Unmistakable(l, name, k)
    ensures Rename(Put(l, k, v), name) == Put(Rename(l, name), name(k), v)
  {
    if l == [] {
      assert [(k, v)][1..] == [];
    } else {
      RenamePut(l[1..], name, k, v);
      assert ([(k, v)] + l[1..])[1..] == l[1..];
      assert ([l[0]] + Put(l[1..], k, v))[1..] == Put(l[1..], k, v);
      assert Rename(l, name)[1..] == Rename(l[1..], name);
    }
  }

  lemma {:induction false} RenameDelete<K, J>(l: List<K>, name: K -> J, k: K)
    requires Unmistakable(l, name, k)
    ensures Rename(Delete(l, k), name) == Delete(Rename(l, name), name(k))
  {
    if l != [] {
      RenameDelete(l[1..], name, k);
      assert [] + Delete(l[1..], k) == Delete(l[1..], k);
      assert ([l[0]] + Delete(l[1..], k))[1..] == Delete(l[1..], k);
      assert Rename(l, name)[1..] == Rename(l[1..], name);
    }
  }

  /** Recognising names is recognising the keys they stand for. */
  lemma {:induction false} ProjectRename<K, J, I>(l: List<K>, name: K -> J, f: J -> Option<I>, g: K -> Option<I>)
    requires forall i | 0 <= i < |l| :: f(name(l[i].0)) == g(l[i].0)
    ensures Project(Rename(l, name), f) == Project(l, g)
  {
    if l != [] {
      ProjectRename(l[1..], name, f, g);
      assert Rename(l, name)[1..] == Rename(l[1..], name);
    }
  }

  lemma {:induction false} PutKeys<K>(l: List<K>, k: K, v: string)
    ensures forall e | e in Put(l, k, v) :: e.0 == k || e in l
  {
    if l != [] {
      PutKeys(l[1..], k, v);
    }
  }

  lemma {:induction false} DeleteKeys<K>(l: List<K>, k: K)
    ensures forall e | e in Delete(l, k) :: e in l && e.0 != k
  {
    if l != [] {
      DeleteKeys(l[1..], k);
    }
  }

  // --- reading what was stored ---

  /** What is stored under a key is read back, and nothing else changes. */
  lemma {:induction false} PutGet<K>(l: List<K>, k: K, v: string, j: K)
    ensures Get(Put(l, k, v), j) == if j == k then Some(v) else Get(l, j)
  {
    if l != [] {
      PutGet(l[1..], k, v, j);
      assert ([(k, v)] + l[1..])[1..] == l[1..];
      assert ([l[0]] + Put(l[1..], k, v))[1..] == Put(l[1..], k, v);
    }
  }

  lemma {:induction false} DeleteGet<K>(l: List<K>, k: K, j: K)
    ensures Get(Delete(l, k), j) == if j == k then None else Get(l, j)
  {
    if l != [] {
      DeleteGet(l[1..], k, j);
      assert [] + Delete(l[1..], k) == Delete(l[1..], k);
      assert ([l[0]] + Delete(l[1..], k))[1..] == Delete(l[1..], k);
    }
  }
}
