/** The per-section accessor object of `prepareFunctions`: `get`, `set` and
    `comment` bound to the section, then one proxy per allowed key, named by
    `functionalize` and bound to `set(section, key)`. An accessor is modelled
    as a value saying which call it makes; the store's `Call` runs it. */
module Accessors {
  import opened Values
  import Names

  datatype Action =
    | GetIn(section: string)               // get, with the section fixed
    | SetIn(section: string)               // set, with the section fixed
    | CommentPre(section: string)          // comment, with section and the pre slot fixed
    | SetKey(section: string, key: string) // set, with section and key fixed

  /** The three accessors every section starts with. */
  function Builtins(section: string): map<string, Action> {
    map["get" := GetIn(section), "set" := SetIn(section), "comment" := CommentPre(section)]
  }

  /** The accessor object after the proxies of `ks` have been installed in
      order, each assignment overwriting whatever held that name before. */
  function AccessorTable(section: string, ks: seq<string>): (r: map<string, Action>)
    ensures Builtins(section).Keys <= r.Keys
  {
    if ks == [] then Builtins(section)
    else AccessorTable(section, ks[..|ks| - 1])[Names.Functionalize(ks[|ks| - 1]) := SetKey(section, ks[|ks| - 1])]
  }

  /** The accessor names: `get`, `set`, `comment` and the proxy name of every key. */
  lemma {:induction false} AccessorNames(section: string, ks: seq<string>, n: string)
    ensures n in AccessorTable(section, ks) <==>
      n in Builtins(section) || exists j :: 0 <= j < |ks| && Names.Functionalize(ks[j]) == n
  {
    if ks != [] {
      var last := |ks| - 1;
      var front := ks[..last];
      AccessorNames(section, front, n);
      assert AccessorTable(section, ks).Keys == AccessorTable(section, front).Keys + {Names.Functionalize(ks[last])};
      assert forall j :: 0 <= j < last ==> front[j] == ks[j];
      if exists j :: 0 <= j < |ks| && Names.Functionalize(ks[j]) == n {
        var j :| 0 <= j < |ks| && Names.Functionalize(ks[j]) == n;
        assert j < last ==> exists j' :: 0 <= j' < |front| && Names.Functionalize(front[j']) == n;
      }
    }
  }

  /** On a name collision the last key wins: the proxy called
      `functionalize(ks[j])` sets `ks[j]` when no later key has that name. */
  lemma {:induction false} LastProxyWins(section: string, ks: seq<string>, j: int)
    requires 0 <= j < |ks|
    requires forall j' :: j < j' < |ks| ==> Names.Functionalize(ks[j']) != Names.Functionalize(ks[j])
    ensures Names.Functionalize(ks[j]) in AccessorTable(section, ks)
    ensures AccessorTable(section, ks)[Names.Functionalize(ks[j])] == SetKey(section, ks[j])
  {
    var n := |ks| - 1;
    if j < n {
      var front := ks[..n];
      assert front[j] == ks[j];
      forall j' | j < j' < |front| ensures Names.Functionalize(front[j']) != Names.Functionalize(front[j]) {
        assert front[j'] == ks[j'];
      }
      LastProxyWins(section, front, j);
    }
  }

  /** `get`, `set` and `comment` survive unless some key's proxy name is theirs. */
  lemma {:induction false} BuiltinKept(section: string, ks: seq<string>, n: string)
    requires n in Builtins(section)
    requires forall j :: 0 <= j < |ks| ==> Names.Functionalize(ks[j]) != n
    ensures n in AccessorTable(section, ks) && AccessorTable(section, ks)[n] == Builtins(section)[n]
  {
    if ks != [] {
      var front := ks[..|ks| - 1];
      forall j | 0 <= j < |front| ensures Names.Functionalize(front[j]) != n {
        assert front[j] == ks[j];
      }
      BuiltinKept(section, front, n);
    }
  }

  /** Every accessor of a section acts on that section, and every proxy sets
      one of the section's keys. */
  lemma {:induction false} AccessorsStayInSection(section: string, ks: seq<string>, n: string)
    requires n in AccessorTable(section, ks)
    ensures AccessorTable(section, ks)[n].section == section
    ensures AccessorTable(section, ks)[n].SetKey? ==> AccessorTable(section, ks)[n].key in ks
  {
    if ks != [] {
      var last := |ks| - 1;
      if Names.Functionalize(ks[last]) != n {
        AccessorsStayInSection(section, ks[..last], n);
        var a := AccessorTable(section, ks[..last])[n];
        assert a.SetKey? ==> a.key in ks[..last];
      }
    }
  }

  /** `prepareFunctions` for one section: the accessor object, or the
      `TypeError` of `keys[section].forEach` when the section has no key list. */
  method PrepareFunctions(section: string, keys: map<string, seq<string>>) returns (r: Result<map<string, Action>>)
    ensures section !in keys <==> r == TypeError
    ensures section in keys ==> r == Ok(AccessorTable(section, keys[section]))
  {
    if section !in keys {
      return TypeError;
    }
    var ks := keys[section];
    var result := Builtins(section);
    for i := 0 to |ks|
      invariant result == AccessorTable(section, ks[..i])
    {
      assert ks[..i + 1][..i] == ks[..i];
      result := result[Names.Functionalize(ks[i]) := SetKey(section, ks[i])];
    }
    assert ks[..|ks|] == ks;
    r := Ok(result);
  }
}
