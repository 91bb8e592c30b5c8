/** The module state of parser.js and the calls that change it: the key table
    `keys` fixed at load time, the `config` document that `set` and `comment`
    update in place, the comment handle `set` returns, and the per-section
    accessor objects that load time builds and that forward to `get`, `set`
    and `comment`. */
module Parser {
  import opened Values
  import Assoc
  import opened Document
  import Permissions
  import opened Accessors
  import Compose

  /** What `set` hands back: the unbound `comment` function after a rejected
      key, or `comment` bound to the section and key just written. */
  datatype CommentHandle = Unbound | Bound(section: string, key: string)

  /** What an accessor call returns: `get` yields a lookup, `set` and the key
      proxies a comment handle, and `comment` the stored text. */
  datatype Reply = Got(lookup: Result<Lookup>) | Handle(handle: Result<CommentHandle>) | Text(text: string)

  /** No section allows a key named `commentary`. */
  predicate NoCommentaryKey(keys: map<string, seq<string>>) {
    forall s :: s in keys ==> CommentaryKey !in keys[s]
  }

  /** Every value stored in the document sits under a key its section allows. */
  ghost predicate OnlyAllowed(keys: map<string, seq<string>>, doc: Doc) {
    forall s, k :: ValueOf(doc, s, k).Some? ==> s in keys && k in keys[s]
  }

  /** The answer and the new document of `set(section, key, value)`: a
      section without a key list throws on `keys[section].indexOf`, a key
      outside the list is refused, and otherwise the value is written. */
  function SetOutcome(keys: map<string, seq<string>>, doc: Doc, section: string, key: string, value: string)
    : (r: (Result<CommentHandle>, Doc))
    requires NoCommentaryKey(keys)
    ensures r.0.TypeError? <==> section !in keys
    ensures r.0 == Ok(Unbound) <==> section in keys && key !in keys[section]
    ensures r.0.Ok? && r.0.value.Bound? ==> r.0.value == Bound(section, key)
    ensures !(r.0.Ok? && r.0.value.Bound?) ==> r.1 == doc
  {
    if section !in keys then (TypeError, doc)
    else if key !in keys[section] then (Ok(Unbound), doc)
    else (Ok(Bound(section, key)), Assign(doc, section, key, value))
  }

  /** `set` followed by `get`: the key reads back `value` exactly when the key
      is allowed in the section, or when it already held `value`. */
  lemma SetThenGet(keys: map<string, seq<string>>, doc: Doc, section: string, key: string, value: string)
    requires NoCommentaryKey(keys)
    ensures var after := SetOutcome(keys, doc, section, key, value).1;
      Get(after, section, key) == Ok(Value(value)) <==>
        (section in keys && key in keys[section]) || Get(doc, section, key) == Ok(Value(value))
  {
    if section in keys && key in keys[section] {
      var e := EntryOf(doc, section);
      EntryOfPut(doc, section, e.(fields := Assoc.Put(e.fields, key, value)), section);
    }
  }

  /** An accepted `set` changes exactly one value: every other section and key
      reads as before, no comment changes, every section keeps its
      commentary object or its lack of one, and every other section's record,
      its keys' order included, is unchanged. */
  lemma SetChangesOneValue(keys: map<string, seq<string>>, doc: Doc, section: string, key: string, value: string, s: string, k: string)
    requires NoCommentaryKey(keys)
    ensures var after := SetOutcome(keys, doc, section, key, value).1;
      && (s != section || k != key ==> ValueOf(after, s, k) == ValueOf(doc, s, k))
      && CommentOf(after, s, k) == CommentOf(doc, s, k)
      && EntryOf(after, s).commentary == EntryOf(doc, s).commentary
      && (s != section ==> EntryOf(after, s) == EntryOf(doc, s))
  {
    if section in keys && key in keys[section] {
      AssignValue(doc, section, key, value, s, k);
      AssignComments(doc, section, key, value, s, k);
    }
  }

  /** `set` never stores a value under a key its section does not allow. */
  lemma SetKeepsAllowed(keys: map<string, seq<string>>, doc: Doc, section: string, key: string, value: string)
    requires NoCommentaryKey(keys) && OnlyAllowed(keys, doc)
    ensures OnlyAllowed(keys, SetOutcome(keys, doc, section, key, value).1)
  {
    if section in keys && key in keys[section] {
      forall s, k | ValueOf(Assign(doc, section, key, value), s, k).Some? ensures s in keys && k in keys[s] {
        AssignValue(doc, section, key, value, s, k);
      }
    }
  }

  /** `comment` never stores a value, so it keeps every stored value allowed. */
  lemma AnnotateKeepsAllowed(keys: map<string, seq<string>>, doc: Doc, section: string, key: string, text: string)
    requires OnlyAllowed(keys, doc)
    ensures OnlyAllowed(keys, Annotate(doc, section, key, text))
  {
    forall s, k | ValueOf(Annotate(doc, section, key, text), s, k).Some? ensures s in keys && k in keys[s] {
      AnnotateValues(doc, section, key, text, s, k);
    }
  }

  /** The handle of an accepted `set`, applied to a text, comments exactly the
      value just written; the value stays. */
  lemma BoundHandleComments(keys: map<string, seq<string>>, doc: Doc, section: string, key: string, value: string, text: string, s: string, k: string)
    requires NoCommentaryKey(keys) && section in keys && key in keys[section]
    ensures var after := Annotate(SetOutcome(keys, doc, section, key, value).1, section, key, text);
      && ValueOf(after, section, key) == Some(value)
      && CommentOf(after, s, k) == if s == section && k == key then Some(text) else CommentOf(doc, s, k)
  {
    var written := Assign(doc, section, key, value);
    AssignValue(doc, section, key, value, section, key);
    AnnotateValues(written, section, key, text, section, key);
    AnnotateComment(written, section, key, text, s, k);
    AssignComments(doc, section, key, value, s, k);
  }

  /** A value set and then commented through the handle `set` returned is
      printed as one key line with that trailing comment, inside its own
      section's text, and so in the text of `compose.cfg` whenever it
      composes. */
  lemma HandleCommentComposed(keys: map<string, seq<string>>, doc: Doc, section: string, key: string, value: string, text: string)
    requires NoCommentaryKey(keys) && section in keys && key in keys[section] && text != ""
    ensures var after := Annotate(SetOutcome(keys, doc, section, key, value).1, section, key, text);
      var own := Compose.SectionText(section, EntryOf(after, section));
      own.Ok? && Compose.Contains(own.value, "    " + key + " " + value + " # " + text)
    ensures var after := Annotate(SetOutcome(keys, doc, section, key, value).1, section, key, text);
      Compose.ComposeCfg(after).Ok? ==>
        Compose.Contains(Compose.ComposeCfg(after).value, "    " + key + " " + value + " # " + text)
  {
    var after := Annotate(Assign(doc, section, key, value), section, key, text);
    var line := "    " + key + " " + value + " # " + text;
    BoundHandleComments(keys, doc, section, key, value, text, section, key);
    AnnotateComment(Assign(doc, section, key, value), section, key, text, section, key);
    var e := EntryOf(after, section);
    assert (key, value) in e.fields;
    var j :| 0 <= j < |e.fields| && e.fields[j] == (key, value);
    Compose.KeyLineInSection(section, e, j);
    Compose.KeyLineStarts(key, value, e.commentary.value);
    if Compose.ComposeCfg(after).Ok? {
      assert Assoc.Find(after, section).Some?;
      var i :| 0 <= i < |after| && after[i] == (section, e);
      Compose.SectionContains(after, i, line);
    }
  }

  /** A section comment is printed by `compose.cfg` as a `#` line directly
      before the section's header. */
  lemma PreCommentComposed(doc: Doc, section: string, text: string)
    requires text != ""
    ensures var after := Annotate(doc, section, PreKey, text);
      Compose.ComposeCfg(after).Ok? ==>
        Compose.Contains(Compose.ComposeCfg(after).value, "# " + text + "\n" + section + "\n")
  {
    var after := Annotate(doc, section, PreKey, text);
    if Compose.ComposeCfg(after).Ok? {
      AnnotateComment(doc, section, PreKey, text, section, PreKey);
      var e := EntryOf(after, section);
      assert Assoc.Find(after, section).Some?;
      var i :| 0 <= i < |after| && after[i] == (section, e);
      Compose.PreCommentEmitted(after, i);
    }
  }

  /** The `config` object together with the key table it is checked against. */
  class Store {
    const keys: map<string, seq<string>>
    var config: Doc

    ghost predicate Valid()
      reads this
    {
      NoCommentaryKey(keys) && WellFormed(config) && OnlyAllowed(keys, config)
    }

    /** `config = {}`, with the key table that `prepareKeys` built. */
    constructor (keys: map<string, seq<string>>)
      requires NoCommentaryKey(keys)
      ensures Valid()
      ensures this.keys == keys && config == []
    {
      this.keys := keys;
      config := [];
    }

    /** `comment(section, key, text)`: the section record and its commentary
        object are created when missing, then the slot is written. */
    method Comment(section: string, key: string, text: string) returns (r: string)
      requires Valid()
      modifies this
      ensures Valid()
      ensures r == text
      ensures config == Annotate(old(config), section, key, text)
    {
      ghost var before := config;
      AnnotateWellFormed(config, section, key, text);
      AnnotateKeepsAllowed(keys, config, section, key, text);
      // create the section record if it is missing
      var e := EntryOf(config, section);
      config := Assoc.Put(config, section, e);
      // give the record an empty commentary object if it has none
      EntryOfPut(before, section, e, section);
      var c := if e.commentary.Some? then e.commentary.value else map[];
      config := Assoc.Put(config, section, e.(commentary := Some(c)));
      Assoc.PutPut(before, section, e, e.(commentary := Some(c)));
      // store the text in the key's comment slot
      EntryOfPut(before, section, e.(commentary := Some(c)), section);
      config := Assoc.Put(config, section, e.(commentary := Some(c[key := text])));
      Assoc.PutPut(before, section, e.(commentary := Some(c)), e.(commentary := Some(c[key := text])));
      r := text;
    }

    /** `set(section, key, value)`. */
    method Set(section: string, key: string, value: string) returns (r: Result<CommentHandle>)
      requires Valid()
      modifies this
      ensures Valid()
      ensures (r, config) == SetOutcome(keys, old(config), section, key, value)
    {
      if section !in keys {
        return TypeError;
      }
      if key !in keys[section] {
        return Ok(Unbound);
      }
      ghost var before := config;
      AssignWellFormed(config, section, key, value);
      SetKeepsAllowed(keys, config, section, key, value);
      // create the section record if it is missing
      var e := EntryOf(config, section);
      config := Assoc.Put(config, section, e);
      // store the value under the key
      EntryOfPut(before, section, e, section);
      config := Assoc.Put(config, section, e.(fields := Assoc.Put(e.fields, key, value)));
      Assoc.PutPut(before, section, e, e.(fields := Assoc.Put(e.fields, key, value)));
      r := Ok(Bound(section, key));
    }

    /** Calling a handle `set` returned: the bound one comments its own
        section and key with `a`; the unbound one is plain
        `comment(a, b, c)`. */
    method Invoke(h: CommentHandle, a: string, b: string, c: string) returns (r: string)
      requires Valid()
      modifies this
      ensures Valid()
      ensures h.Bound? ==> r == a && config == Annotate(old(config), h.section, h.key, a)
      ensures h.Unbound? ==> r == c && config == Annotate(old(config), a, b, c)
    {
      match h
      case Bound(section, key) =>
        r := Comment(section, key, a);
      case Unbound =>
        r := Comment(a, b, c);
    }

    /** Calling an accessor of a section object with arguments `a` and `b`. */
    method Call(action: Action, a: string, b: string) returns (r: Reply)
      requires Valid()
      modifies this
      ensures Valid()
      ensures action.GetIn? ==> r == Got(Get(config, action.section, a)) && config == old(config)
      ensures action.SetIn? ==> r.Handle? && (r.handle, config) == SetOutcome(keys, old(config), action.section, a, b)
      ensures action.CommentPre? ==> r == Text(a) && config == Annotate(old(config), action.section, PreKey, a)
      ensures action.SetKey? ==> r.Handle? && (r.handle, config) == SetOutcome(keys, old(config), action.section, action.key, a)
    {
      match action
      case GetIn(section) =>
        r := Got(Get(config, section, a));
      case SetIn(section) =>
        var h := Set(section, a, b);
        r := Handle(h);
      case CommentPre(section) =>
        var t := Comment(section, PreKey, a);
        r := Text(t);
      case SetKey(section, key) =>
        var h := Set(section, key, a);
        r := Handle(h);
    }
  }

  /** A key table built from flag lists without `commentary` has none either. */
  lemma KeyTableNoCommentary(keys: map<string, seq<string>>, sections: Permissions.SectionTable, flags: Permissions.FlagTable)
    requires Permissions.IsKeyTable(keys, sections, flags)
    requires forall i :: 0 <= i < |flags| ==> CommentaryKey !in flags[i].1
    ensures NoCommentaryKey(keys)
  {
    forall s | s in keys ensures CommentaryKey !in keys[s] {
      var i :| 0 <= i < |sections| && sections[i].0 == s && Permissions.AnyUnlocks(Permissions.Bits(sections[i].1), flags);
      Permissions.UnlockedMember(Permissions.Bits(sections[i].1), flags, CommentaryKey);
    }
  }

  /** The accessor objects exported for the first `n` sections. */
  ghost predicate ExportedUpTo(exports: map<string, map<string, Action>>, keys: map<string, seq<string>>, sections: Permissions.SectionTable, n: nat)
    requires n <= |sections|
  {
    && (forall s :: s in exports <==> exists i :: 0 <= i < n && sections[i].0 == s)
    && (forall i :: 0 <= i < n ==> sections[i].0 in keys && exports[sections[i].0] == AccessorTable(sections[i].0, keys[sections[i].0]))
  }

  /** One turn of the `prepareFunctions` loop: section `n` is exported under
      its own name, and earlier sections, having other names, keep theirs. */
  lemma ExportStep(exports: map<string, map<string, Action>>, keys: map<string, seq<string>>, sections: Permissions.SectionTable, n: nat)
    requires n < |sections| && ExportedUpTo(exports, keys, sections, n)
    requires forall i :: 0 <= i < n ==> sections[i].0 != sections[n].0
    requires sections[n].0 in keys
    ensures ExportedUpTo(exports[sections[n].0 := AccessorTable(sections[n].0, keys[sections[n].0])], keys, sections, n + 1)
  {
  }

  /** Loading parser.js: `prepareKeys` for every section, then
      `prepareFunctions` for every section in order, which throws at the
      first section no flag unlocks. On success, an empty document, the key
      table, and the accessor object of every section under its name. */
  method Load(sections: Permissions.SectionTable, flags: Permissions.FlagTable)
    returns (r: Result<(Store, map<string, map<string, Action>>)>)
    requires Assoc.Unique(sections)
    requires forall i :: 0 <= i < |flags| ==> CommentaryKey !in flags[i].1
    ensures r.Ok? <==> forall i :: 0 <= i < |sections| ==> Permissions.AnyUnlocks(Permissions.Bits(sections[i].1), flags)
    ensures r.Ok? ==> var (store, exports) := r.value;
      && fresh(store) && store.Valid() && store.config == []
      && Permissions.IsKeyTable(store.keys, sections, flags)
      && ExportedUpTo(exports, store.keys, sections, |sections|)
  {
    var keys := Permissions.PrepareKeys(sections, flags);
    KeyTableNoCommentary(keys, sections, flags);
    Permissions.KeyedSections(keys, sections, flags);
    var exports: map<string, map<string, Action>> := map[];
    for n := 0 to |sections|
      invariant ExportedUpTo(exports, keys, sections, n)
    {
      var name := sections[n].0;
      var t := PrepareFunctions(name, keys);
      if t.TypeError? {
        return TypeError;
      }
      assert forall i :: 0 <= i < n ==> sections[i].0 != name;
      ExportStep(exports, keys, sections, n);
      exports := exports[name := t.value];
    }
    var store := new Store(keys);
    r := Ok((store, exports));
  }
}
