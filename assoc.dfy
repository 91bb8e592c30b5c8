/** Insertion-ordered association lists: the model of a JavaScript object's own
    string-named properties. `Object.keys` lists them in the order in which
    each name was first assigned; assigning to an existing name keeps its place. */
module Assoc {
  import opened Values

  /** The property names, in enumeration order. */
  function Keys<V>(s: seq<(string, V)>): (ks: seq<string>)
    ensures |ks| == |s|
    ensures forall i :: 0 <= i < |s| ==> ks[i] == s[i].0
  {
    if s == [] then [] else [s[0].0] + Keys(s[1..])
  }

  /** No name is listed twice, as in any JavaScript object. */
  predicate Unique<V>(s: seq<(string, V)>) {
    forall i, j :: 0 <= i < j < |s| ==> s[i].0 != s[j].0
  }

  /** Property read `s[k]`: the value stored under `k`, or `None` for `undefined`. */
  function Find<V>(s: seq<(string, V)>, k: string): (r: Option<V>)
    ensures r.None? <==> k !in Keys(s)
    ensures r.Some? ==> (k, r.value) in s
  {
    if s == [] then None
    else if s[0].0 == k then Some(s[0].1)
    else Find(s[1..], k)
  }

  /** In a list without repeated names, a listed entry is what a read returns. */
  lemma {:induction false} FindUnique<V>(s: seq<(string, V)>, k: string, v: V)
    requires Unique(s) && (k, v) in s
    ensures Find(s, k) == Some(v)
  {
    if s[0] != (k, v) {
      assert s[0].0 != k by {
        var j :| 0 <= j < |s| && s[j] == (k, v);
        assert j != 0;
      }
      assert Unique(s[1..]) by {
        forall i, j | 0 <= i < j < |s[1..]| ensures s[1..][i].0 != s[1..][j].0 {
          assert s[1..][i] == s[i + 1] && s[1..][j] == s[j + 1];
        }
      }
      FindUnique(s[1..], k, v);
    }
  }

  /** Property write `s[k] = v`: an existing name keeps its place and gets the
      new value, a new name is appended. */
  function Put<V>(s: seq<(string, V)>, k: string, v: V): (r: seq<(string, V)>)
    ensures Find(r, k) == Some(v)
  {
    if s == [] then [(k, v)]
    else if s[0].0 == k then [(k, v)] + s[1..]
    else [s[0]] + Put(s[1..], k, v)
  }

  /** Other names read as before the write. */
  lemma {:induction false} PutFindOther<V>(s: seq<(string, V)>, k: string, v: V, k': string)
    requires k' != k
    ensures Find(Put(s, k, v), k') == Find(s, k')
  {
    if s != [] && s[0].0 != k {
      PutFindOther(s[1..], k, v, k');
    }
  }

  /** Enumeration order: an existing name keeps its position, a new one comes last. */
  lemma {:induction false} PutKeys<V>(s: seq<(string, V)>, k: string, v: V)
    ensures Keys(Put(s, k, v)) == if k in Keys(s) then Keys(s) else Keys(s) + [k]
  {
    var r := Put(s, k, v);
    if s == [] {
    } else if s[0].0 == k {
      assert r[1..] == s[1..];
      assert Keys(r) == [k] + Keys(s[1..]) == Keys(s);
    } else {
      PutKeys(s[1..], k, v);
      assert r[1..] == Put(s[1..], k, v);
      assert Keys(r) == [s[0].0] + Keys(Put(s[1..], k, v));
      assert Keys(s) == [s[0].0] + Keys(s[1..]);
      assert k in Keys(s) <==> k in Keys(s[1..]);
      if k in Keys(s[1..]) {
        assert Keys(r) == Keys(s);
      } else {
        assert Keys(r) == [s[0].0] + (Keys(s[1..]) + [k]) == Keys(s) + [k];
      }
    }
  }

  /** Every entry after the write is the written one or an entry from before. */
  lemma {:induction false} PutEntries<V>(s: seq<(string, V)>, k: string, v: V, p: (string, V))
    requires p in Put(s, k, v)
    ensures p == (k, v) || p in s
  {
    if s != [] && s[0].0 != k && p != s[0] {
      PutEntries(s[1..], k, v, p);
    }
  }

  /** A write keeps the names distinct. */
  lemma {:induction false} PutUnique<V>(s: seq<(string, V)>, k: string, v: V)
    requires Unique(s)
    ensures Unique(Put(s, k, v))
  {
    PutKeys(s, k, v);
    var r := Put(s, k, v);
    assert Keys(r) == if k in Keys(s) then Keys(s) else Keys(s) + [k];
    forall i, j | 0 <= i < j < |r|
      ensures r[i].0 != r[j].0
    {
      assert Keys(r)[i] == r[i].0 && Keys(r)[j] == r[j].0;
      if j == |s| {
        assert k !in Keys(s);
        assert Keys(s)[i] == s[i].0;
      } else {
        assert Keys(s)[i] == s[i].0 && Keys(s)[j] == s[j].0;
      }
    }
  }

  /** A second write to the same name leaves the list as if only the second had happened. */
  lemma {:induction false} PutPut<V>(s: seq<(string, V)>, k: string, v1: V, v2: V)
    ensures Put(Put(s, k, v1), k, v2) == Put(s, k, v2)
  {
    if s != [] && s[0].0 != k {
      PutPut(s[1..], k, v1, v2);
      assert Put(s, k, v1)[1..] == Put(s[1..], k, v1);
    }
  }
}
