/** The allowed keys of each section (`prepareKeys`): every flag bit of the
    key table that the section's mask shares contributes its keys, in the
    table's order, duplicates kept. The key table and the section masks come
    from the `./config` module, which is not part of this model, so both are
    parameters here. */
module Permissions {
  import opened Values
  import Assoc

  /** The flag table in `Object.keys` order (ascending bit): bit and the keys it unlocks. */
  type FlagTable = seq<(bv32, seq<string>)>

  /** The section masks in `Object.keys` order. */
  type SectionTable = seq<(string, int)>

  /** The 32 bits that JavaScript's `&` sees of a number (ToInt32 keeps the
      value modulo 2^32; the bit pattern is the same as ToUint32's). */
  function Bits(x: int): bv32 {
    (x % 0x1_0000_0000) as bv32
  }

  /** `mask & +bit` is non-zero, for the 32 bits `mask` of a section's mask. */
  predicate Unlocks(mask: bv32, bit: bv32) {
    mask & bit != 0
  }

  /** What one flag adds to the list for `mask`. */
  function Contribution(mask: bv32, flag: (bv32, seq<string>)): seq<string> {
    if Unlocks(mask, flag.0) then flag.1 else []
  }

  /** The keys unlocked by `mask`, accumulated flag by flag in table order. */
  function Unlocked(mask: bv32, flags: FlagTable): seq<string> {
    if flags == [] then []
    else Unlocked(mask, flags[..|flags| - 1]) + Contribution(mask, flags[|flags| - 1])
  }

  /** Some flag is shared with the mask; only then is `keys[section]` assigned. */
  predicate AnyUnlocks(mask: bv32, flags: FlagTable) {
    exists i :: 0 <= i < |flags| && Unlocks(mask, flags[i].0)
  }

  /** `keys[section]` after the inner loop: undefined when no flag matched. */
  function AllowedKeys(mask: bv32, flags: FlagTable): Option<seq<string>> {
    if AnyUnlocks(mask, flags) then Some(Unlocked(mask, flags)) else None
  }

  /** The key table that `prepareKeys` leaves behind. */
  ghost predicate IsKeyTable(keys: map<string, seq<string>>, sections: SectionTable, flags: FlagTable) {
    && (forall s :: s in keys <==> exists i :: 0 <= i < |sections| && sections[i].0 == s && AnyUnlocks(Bits(sections[i].1), flags))
    && (forall i :: 0 <= i < |sections| && sections[i].0 in keys ==> keys[sections[i].0] == Unlocked(Bits(sections[i].1), flags))
  }

  /** Splitting the flag table splits the list: the keys of earlier flags come
      first, and nothing is merged or removed. */
  lemma {:induction false} UnlockedAppend(mask: bv32, a: FlagTable, b: FlagTable)
    ensures Unlocked(mask, a + b) == Unlocked(mask, a) + Unlocked(mask, b)
  {
    if b == [] {
      assert a + b == a;
    } else {
      var ab, b' := a + b, b[..|b| - 1];
      assert ab[..|ab| - 1] == a + b';
      assert ab[|ab| - 1] == b[|b| - 1];
      UnlockedAppend(mask, a, b');
      calc {
        Unlocked(mask, ab);
        Unlocked(mask, a + b') + Contribution(mask, b[|b| - 1]);
        (Unlocked(mask, a) + Unlocked(mask, b')) + Contribution(mask, b[|b| - 1]);
        Unlocked(mask, a) + (Unlocked(mask, b') + Contribution(mask, b[|b| - 1]));
      }
    }
  }

  /** A one-flag table contributes that flag's keys when the mask shares its bit. */
  lemma UnlockedSingle(mask: bv32, flag: (bv32, seq<string>))
    ensures Unlocked(mask, [flag]) == if Unlocks(mask, flag.0) then flag.1 else []
  {
    assert [flag][..0] == [];
  }

  /** A key is allowed exactly when some flag that the mask shares lists it. */
  lemma {:induction false} UnlockedMember(mask: bv32, flags: FlagTable, k: string)
    ensures k in Unlocked(mask, flags) <==>
      exists i :: 0 <= i < |flags| && Unlocks(mask, flags[i].0) && k in flags[i].1
  {
    if flags != [] {
      var n := |flags| - 1;
      var front := flags[..n];
      UnlockedMember(mask, front, k);
      if k in Unlocked(mask, flags) {
        if k in Unlocked(mask, front) {
          var i :| 0 <= i < |front| && Unlocks(mask, front[i].0) && k in front[i].1;
          assert flags[i] == front[i];
        }
      } else {
        forall i | 0 <= i < |flags| && Unlocks(mask, flags[i].0) ensures k !in flags[i].1 {
          if i < n {
            assert flags[i] == front[i];
          }
        }
      }
    }
  }

  lemma OrUnlocks(m1: bv32, m2: bv32, bit: bv32)
    ensures Unlocks(m1 | m2, bit) <==> Unlocks(m1, bit) || Unlocks(m2, bit)
  {
    assert (m1 | m2) & bit == (m1 & bit) | (m2 & bit);
  }

  /** A key allowed under a mask stays allowed under any mask that has the
      flag bits it shares. */
  lemma UnlockedWider(m: bv32, m': bv32, flags: FlagTable, k: string)
    requires forall i :: 0 <= i < |flags| && Unlocks(m, flags[i].0) ==> Unlocks(m', flags[i].0)
    requires k in Unlocked(m, flags)
    ensures k in Unlocked(m', flags)
  {
    UnlockedMember(m, flags, k);
    var i :| 0 <= i < |flags| && Unlocks(m, flags[i].0) && k in flags[i].1;
    UnlockedMember(m', flags, k);
  }

  /** Masks combine by OR: the combined mask allows exactly the keys that
      either mask allows. */
  lemma MaskUnion(m1: bv32, m2: bv32, flags: FlagTable, k: string)
    ensures k in Unlocked(m1 | m2, flags) <==> k in Unlocked(m1, flags) || k in Unlocked(m2, flags)
  {
    var m := m1 | m2;
    forall i | 0 <= i < |flags| ensures Unlocks(m, flags[i].0) <==> Unlocks(m1, flags[i].0) || Unlocks(m2, flags[i].0) {
      OrUnlocks(m1, m2, flags[i].0);
    }
    if k in Unlocked(m, flags) {
      UnlockedMember(m, flags, k);
      var i :| 0 <= i < |flags| && Unlocks(m, flags[i].0) && k in flags[i].1;
      if Unlocks(m1, flags[i].0) {
        UnlockedMember(m1, flags, k);
      } else {
        UnlockedMember(m2, flags, k);
      }
    }
    if k in Unlocked(m1, flags) {
      UnlockedWider(m1, m, flags, k);
    }
    if k in Unlocked(m2, flags) {
      UnlockedWider(m2, m, flags, k);
    }
  }

  /** Before any flag matches, the accumulated list is still empty. */
  lemma NothingUnlocked(mask: bv32, flags: FlagTable)
    requires !AnyUnlocks(mask, flags)
    ensures Unlocked(mask, flags) == []
  {
    if Unlocked(mask, flags) != [] {
      UnlockedMember(mask, flags, Unlocked(mask, flags)[0]);
    }
  }

  /** The inner loop of `prepareKeys` for one section (callback `bitmask`):
      for each flag the mask shares, the section's list so far (empty when it
      has none yet) is extended by that flag's keys. */
  method SectionKeys(mask: bv32, flags: FlagTable) returns (current: Option<seq<string>>)
    ensures current == AllowedKeys(mask, flags)
  {
    current := None;
    for i := 0 to |flags|
      invariant current == AllowedKeys(mask, flags[..i])
    {
      assert flags[..i + 1][..i] == flags[..i];
      assert Unlocked(mask, flags[..i + 1]) == Unlocked(mask, flags[..i]) + Contribution(mask, flags[i]);
      if current.None? {
        NothingUnlocked(mask, flags[..i]);
      }
      var acc := if current.Some? then current.value else [];
      assert acc == Unlocked(mask, flags[..i]);
      if Unlocks(mask, flags[i].0) {
        current := Some(acc + flags[i].1);
      } else {
        assert Unlocked(mask, flags[..i + 1]) == acc;
      }
      assert AnyUnlocks(mask, flags[..i + 1]) <==> AnyUnlocks(mask, flags[..i]) || Unlocks(mask, flags[i].0) by {
        if AnyUnlocks(mask, flags[..i]) {
          var j :| 0 <= j < i && Unlocks(mask, flags[..i][j].0);
          assert flags[..i + 1][j] == flags[..i][j];
        }
        if Unlocks(mask, flags[i].0) {
          assert flags[..i + 1][i] == flags[i];
        }
      }
    }
    assert flags[..|flags|] == flags;
  }

  /** The sections of the key table after the first `n` sections. */
  ghost predicate NamedUpTo(keys: map<string, seq<string>>, sections: SectionTable, flags: FlagTable, n: nat)
    requires n <= |sections|
  {
    forall s :: s in keys <==> exists i :: 0 <= i < n && sections[i].0 == s && AnyUnlocks(Bits(sections[i].1), flags)
  }

  /** The lists of the key table after the first `n` sections. */
  ghost predicate ListedUpTo(keys: map<string, seq<string>>, sections: SectionTable, flags: FlagTable, n: nat)
    requires n <= |sections|
  {
    forall i :: 0 <= i < n && sections[i].0 in keys ==> keys[sections[i].0] == Unlocked(Bits(sections[i].1), flags)
  }

  /** One turn of the outer loop, for the names: section `n` is added exactly
      when some flag matches. */
  lemma NamedStep(keys: map<string, seq<string>>, sections: SectionTable, flags: FlagTable, n: nat, matched: bool, list: seq<string>)
    requires n < |sections| && NamedUpTo(keys, sections, flags, n)
    requires matched == AnyUnlocks(Bits(sections[n].1), flags)
    ensures NamedUpTo(if matched then keys[sections[n].0 := list] else keys, sections, flags, n + 1)
  {
  }

  /** One turn of the outer loop, for the lists: earlier sections have other
      names and keep theirs. */
  lemma ListedStep(keys: map<string, seq<string>>, sections: SectionTable, flags: FlagTable, n: nat, matched: bool, list: seq<string>)
    requires n < |sections| && ListedUpTo(keys, sections, flags, n) && NamedUpTo(keys, sections, flags, n)
    requires forall i :: 0 <= i < n ==> sections[i].0 != sections[n].0
    requires matched == AnyUnlocks(Bits(sections[n].1), flags)
    requires matched ==> list == Unlocked(Bits(sections[n].1), flags)
    ensures ListedUpTo(if matched then keys[sections[n].0 := list] else keys, sections, flags, n + 1)
  {
  }

  /** `names.forEach(prepareKeys)`: the allowed keys of every section. */
  method PrepareKeys(sections: SectionTable, flags: FlagTable) returns (keys: map<string, seq<string>>)
    requires Assoc.Unique(sections)
    ensures IsKeyTable(keys, sections, flags)
  {
    keys := map[];
    for n := 0 to |sections|
      invariant NamedUpTo(keys, sections, flags, n) && ListedUpTo(keys, sections, flags, n)
    {
      var allowed := SectionKeys(Bits(sections[n].1), flags);
      var list := if allowed.Some? then allowed.value else [];
      assert forall i :: 0 <= i < n ==> sections[i].0 != sections[n].0;
      NamedStep(keys, sections, flags, n, allowed.Some?, list);
      ListedStep(keys, sections, flags, n, allowed.Some?, list);
      if allowed.Some? {
        keys := keys[sections[n].0 := allowed.value];
      }
    }
  }

  /** In the finished key table, a section has a list exactly when some flag
      matches its mask. */
  lemma KeyedSections(keys: map<string, seq<string>>, sections: SectionTable, flags: FlagTable)
    requires Assoc.Unique(sections) && IsKeyTable(keys, sections, flags)
    ensures forall i :: 0 <= i < |sections| ==> (sections[i].0 in keys <==> AnyUnlocks(Bits(sections[i].1), flags))
  {
    forall i | 0 <= i < |sections| && sections[i].0 in keys ensures AnyUnlocks(Bits(sections[i].1), flags) {
      var j :| 0 <= j < |sections| && sections[j].0 == sections[i].0 && AnyUnlocks(Bits(sections[j].1), flags);
      assert i == j;
    }
  }
}
