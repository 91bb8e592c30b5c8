/** The in-memory configuration document (the module-wide `config` object of
    parser.js), what `get` reads from it, and the effect on it of the two
    writers, `set` and `comment`, as functions of the document before. */
module Document {
  import opened Values
  import Assoc

  /** The property of a section record that holds its comments. */
  const CommentaryKey := "commentary"

  /** The commentary slot of the section-level comment. */
  const PreKey := "pre"

  /** A commentary object: comment text by key name. */
  type Commentary = map<string, string>

  /** One section's record: its key/value properties in insertion order (all
      but `commentary`), and its commentary object once one has been created. */
  datatype SectionEntry = SectionEntry(fields: seq<(string, string)>, commentary: Option<Commentary>)

  /** The document: section name to record, in insertion order. */
  type Doc = seq<(string, SectionEntry)>

  /** What `get` hands back: `undefined`, a stored value, or (for the name
      `commentary`) the commentary object itself. */
  datatype Lookup = Undefined | Value(value: string) | CommentaryObject(comments: Commentary)

  /** A record whose property names are distinct and whose key/value part
      does not use the name `commentary`. */
  predicate WellFormedEntry(e: SectionEntry) {
    Assoc.Unique(e.fields) && CommentaryKey !in Assoc.Keys(e.fields)
  }

  predicate WellFormed(doc: Doc) {
    Assoc.Unique(doc) && forall p :: p in doc ==> WellFormedEntry(p.1)
  }

  /** The section's record, or a new empty one when the section is missing. */
  function EntryOf(doc: Doc, section: string): SectionEntry {
    match Assoc.Find(doc, section)
    case Some(e) => e
    case None => SectionEntry([], None)
  }

  /** The value stored under `key` in `section`, if any. */
  function ValueOf(doc: Doc, section: string, key: string): Option<string> {
    Assoc.Find(EntryOf(doc, section).fields, key)
  }

  /** The comment attached to `key` in `section`, if any. */
  function CommentOf(doc: Doc, section: string, key: string): Option<string> {
    match EntryOf(doc, section).commentary
    case Some(c) => if key in c then Some(c[key]) else None
    case None => None
  }

  /** `get(section, key)`, a direct property read of the section's record:
      reading a property of a section that was never created throws. */
  function Get(doc: Doc, section: string, key: string): (r: Result<Lookup>)
    ensures r.TypeError? <==> section !in Assoc.Keys(doc)
    ensures r.Ok? && r.value.CommentaryObject? ==> key == CommentaryKey
  {
    match Assoc.Find(doc, section)
    case None => TypeError
    case Some(e) =>
      if key == CommentaryKey then
        Ok(if e.commentary.Some? then CommentaryObject(e.commentary.value) else Undefined)
      else
        Ok(match Assoc.Find(e.fields, key) case Some(v) => Value(v) case None => Undefined)
  }

  /** The write of an accepted `set`: the section record is created when
      missing, then the value is stored under the key. */
  function Assign(doc: Doc, section: string, key: string, value: string): (r: Doc)
    requires key != CommentaryKey
    ensures section in Assoc.Keys(r) && ValueOf(r, section, key) == Some(value)
  {
    var e := EntryOf(doc, section);
    Assoc.Put(doc, section, e.(fields := Assoc.Put(e.fields, key, value)))
  }

  /** The writes of `comment`: the section record and its commentary object are
      created when missing, then `commentary[key] = text`. */
  function Annotate(doc: Doc, section: string, key: string, text: string): (r: Doc)
    ensures section in Assoc.Keys(r) && CommentOf(r, section, key) == Some(text)
  {
    var e := EntryOf(doc, section);
    var c := if e.commentary.Some? then e.commentary.value else map[];
    Assoc.Put(doc, section, e.(commentary := Some(c[key := text])))
  }

  /** Writing a record for `section` replaces what `EntryOf` finds there and
      nothing else. */
  lemma EntryOfPut(doc: Doc, section: string, e: SectionEntry, s: string)
    ensures EntryOf(Assoc.Put(doc, section, e), s) == if s == section then e else EntryOf(doc, s)
  {
    if s != section {
      Assoc.PutFindOther(doc, section, e, s);
    }
  }

  /** `get` of an ordinary key: it throws exactly when the section is missing,
      and otherwise yields the stored value or `undefined`. */
  lemma GetReads(doc: Doc, section: string, key: string)
    requires key != CommentaryKey
    ensures Get(doc, section, key).TypeError? <==> section !in Assoc.Keys(doc)
    ensures section in Assoc.Keys(doc) ==>
      Get(doc, section, key) == Ok(match ValueOf(doc, section, key) case Some(v) => Value(v) case None => Undefined)
  {
  }

  /** In a well-formed document, the pair listed at position `j` of section
      `i`'s record is what `get` reads there: what `compose.cfg` prints for a
      key is the value `get` returns for it. */
  lemma ListedValueReads(doc: Doc, i: nat, j: nat)
    requires WellFormed(doc) && i < |doc| && j < |doc[i].1.fields|
    ensures var (k, v) := doc[i].1.fields[j];
      ValueOf(doc, doc[i].0, k) == Some(v) && Get(doc, doc[i].0, k) == Ok(Value(v))
  {
    var (name, e) := doc[i];
    assert doc[i] in doc;
    Assoc.FindUnique(doc, name, e);
    assert e.fields[j] in e.fields;
    Assoc.FindUnique(e.fields, e.fields[j].0, e.fields[j].1);
  }

  /** After an accepted `set`, the written key reads back the value; every
      other section and key reads as before. */
  lemma AssignValue(doc: Doc, section: string, key: string, value: string, s: string, k: string)
    requires key != CommentaryKey
    ensures ValueOf(Assign(doc, section, key, value), s, k) ==
      if s == section && k == key then Some(value) else ValueOf(doc, s, k)
  {
    var e := EntryOf(doc, section);
    EntryOfPut(doc, section, e.(fields := Assoc.Put(e.fields, key, value)), s);
    if s == section && k != key {
      Assoc.PutFindOther(e.fields, key, value, k);
    }
  }

  /** `set` leaves every comment as it was, never creates or removes a
      commentary object, and leaves every other section's record, its keys'
      order included, as it was. */
  lemma AssignComments(doc: Doc, section: string, key: string, value: string, s: string, k: string)
    requires key != CommentaryKey
    ensures CommentOf(Assign(doc, section, key, value), s, k) == CommentOf(doc, s, k)
    ensures EntryOf(Assign(doc, section, key, value), s).commentary == EntryOf(doc, s).commentary
    ensures s != section ==> EntryOf(Assign(doc, section, key, value), s) == EntryOf(doc, s)
  {
    var e := EntryOf(doc, section);
    EntryOfPut(doc, section, e.(fields := Assoc.Put(e.fields, key, value)), s);
  }

  /** `set` appends a new section after the existing ones and a new key after
      the section's existing keys; existing names keep their places. */
  lemma AssignOrder(doc: Doc, section: string, key: string, value: string)
    requires key != CommentaryKey
    ensures Assoc.Keys(Assign(doc, section, key, value)) ==
      if section in Assoc.Keys(doc) then Assoc.Keys(doc) else Assoc.Keys(doc) + [section]
    ensures var before := EntryOf(doc, section).fields;
      Assoc.Keys(EntryOf(Assign(doc, section, key, value), section).fields) ==
        if key in Assoc.Keys(before) then Assoc.Keys(before) else Assoc.Keys(before) + [key]
  {
    var e := EntryOf(doc, section);
    var e' := e.(fields := Assoc.Put(e.fields, key, value));
    Assoc.PutKeys(doc, section, e');
    Assoc.PutKeys(e.fields, key, value);
    EntryOfPut(doc, section, e', section);
  }

  /** The record `EntryOf` hands back is well formed in a well-formed document. */
  lemma EntryOfWellFormed(doc: Doc, section: string)
    requires WellFormed(doc)
    ensures WellFormedEntry(EntryOf(doc, section))
  {
    var r := Assoc.Find(doc, section);
    if r.Some? {
      assert (section, r.value) in doc;
    }
  }

  /** Writing a well-formed record keeps a document well formed. */
  lemma PutWellFormed(doc: Doc, section: string, e: SectionEntry)
    requires WellFormed(doc) && WellFormedEntry(e)
    ensures WellFormed(Assoc.Put(doc, section, e))
  {
    Assoc.PutUnique(doc, section, e);
    forall p | p in Assoc.Put(doc, section, e) ensures WellFormedEntry(p.1) {
      Assoc.PutEntries(doc, section, e, p);
    }
  }

  lemma AssignWellFormed(doc: Doc, section: string, key: string, value: string)
    requires WellFormed(doc) && key != CommentaryKey
    ensures WellFormed(Assign(doc, section, key, value))
  {
    var e := EntryOf(doc, section);
    EntryOfWellFormed(doc, section);
    Assoc.PutUnique(e.fields, key, value);
    Assoc.PutKeys(e.fields, key, value);
    PutWellFormed(doc, section, e.(fields := Assoc.Put(e.fields, key, value)));
  }

  /** Setting the same key twice is the same as setting it once to the second value. */
  lemma AssignTwice(doc: Doc, section: string, key: string, v1: string, v2: string)
    requires key != CommentaryKey
    ensures Assign(Assign(doc, section, key, v1), section, key, v2) == Assign(doc, section, key, v2)
  {
    var e := EntryOf(doc, section);
    var e1 := e.(fields := Assoc.Put(e.fields, key, v1));
    EntryOfPut(doc, section, e1, section);
    Assoc.PutPut(e.fields, key, v1, v2);
    Assoc.PutPut(doc, section, e1, e.(fields := Assoc.Put(e.fields, key, v2)));
  }

  /** After `comment(section, key, text)` exactly that slot holds `text`,
      every other comment is as before, the section has a commentary object,
      and every other section's record is untouched. */
  lemma AnnotateComment(doc: Doc, section: string, key: string, text: string, s: string, k: string)
    ensures CommentOf(Annotate(doc, section, key, text), s, k) ==
      if s == section && k == key then Some(text) else CommentOf(doc, s, k)
    ensures EntryOf(Annotate(doc, section, key, text), section).commentary.Some?
    ensures s != section ==> EntryOf(Annotate(doc, section, key, text), s) == EntryOf(doc, s)
  {
    var e := EntryOf(doc, section);
    var c := if e.commentary.Some? then e.commentary.value else map[];
    EntryOfPut(doc, section, e.(commentary := Some(c[key := text])), s);
  }

  /** `comment` leaves every value as it was, and every other section's
      record, its keys' order included. */
  lemma AnnotateValues(doc: Doc, section: string, key: string, text: string, s: string, k: string)
    ensures ValueOf(Annotate(doc, section, key, text), s, k) == ValueOf(doc, s, k)
    ensures s != section ==> EntryOf(Annotate(doc, section, key, text), s) == EntryOf(doc, s)
  {
    var e := EntryOf(doc, section);
    var c := if e.commentary.Some? then e.commentary.value else map[];
    EntryOfPut(doc, section, e.(commentary := Some(c[key := text])), s);
  }

  /** `comment` appends a section it creates; existing sections keep their
      places, and the order of the section's keys is unchanged. */
  lemma AnnotateOrder(doc: Doc, section: string, key: string, text: string)
    ensures Assoc.Keys(Annotate(doc, section, key, text)) ==
      if section in Assoc.Keys(doc) then Assoc.Keys(doc) else Assoc.Keys(doc) + [section]
    ensures EntryOf(Annotate(doc, section, key, text), section).fields == EntryOf(doc, section).fields
  {
    var e := EntryOf(doc, section);
    var c := if e.commentary.Some? then e.commentary.value else map[];
    var e' := e.(commentary := Some(c[key := text]));
    Assoc.PutKeys(doc, section, e');
    EntryOfPut(doc, section, e', section);
  }

  lemma AnnotateWellFormed(doc: Doc, section: string, key: string, text: string)
    requires WellFormed(doc)
    ensures WellFormed(Annotate(doc, section, key, text))
  {
    var e := EntryOf(doc, section);
    var c := if e.commentary.Some? then e.commentary.value else map[];
    EntryOfWellFormed(doc, section);
    PutWellFormed(doc, section, e.(commentary := Some(c[key := text])));
  }

  /** A later `comment` on the same slot overwrites the earlier one: the
      document is as if only the later call had been made. */
  lemma AnnotateTwice(doc: Doc, section: string, key: string, t1: string, t2: string)
    ensures Annotate(Annotate(doc, section, key, t1), section, key, t2) == Annotate(doc, section, key, t2)
  {
    var e := EntryOf(doc, section);
    var c := if e.commentary.Some? then e.commentary.value else map[];
    var e1 := e.(commentary := Some(c[key := t1]));
    var e2 := e.(commentary := Some(c[key := t2]));
    var doc1 := Assoc.Put(doc, section, e1);
    EntryOfPut(doc, section, e1, section);
    assert EntryOf(doc1, section) == e1;
    assert c[key := t1][key := t2] == c[key := t2];
    assert e1.(commentary := Some(c[key := t1][key := t2])) == e2;
    assert Annotate(doc1, section, key, t2) == Assoc.Put(doc1, section, e2);
    Assoc.PutPut(doc, section, e1, e2);
  }
}
