/** The composers and parsers of parser.js: `compose.json` up to the final
    `JSON.stringify`, `compose.cfg` (the HAProxy text format) literally, a
    corrected `compose.cfg`, and the `parse.cfg` stub. */
module Compose {
  import opened Values
  import Assoc
  import opened Document

  /** `compose.json` before stringification: the clone
      `JSON.parse(JSON.stringify(data))` (an exact copy, since every value is
      a string) loses its `commentary` property in every section. The
      caller's document is a value and so is untouched. */
  method StripCommentary(data: Doc) returns (clone: Doc)
    ensures |clone| == |data|
    ensures forall i :: 0 <= i < |data| ==>
      clone[i].0 == data[i].0 && clone[i].1 == SectionEntry(data[i].1.fields, None)
  {
    clone := data;
    for i := 0 to |clone|
      invariant |clone| == |data|
      invariant forall j :: 0 <= j < |data| ==> clone[j].0 == data[j].0 && clone[j].1.fields == data[j].1.fields
      invariant forall j :: 0 <= j < i ==> clone[j].1.commentary == None
    {
      clone := clone[i := (clone[i].0, clone[i].1.(commentary := None))];
    }
  }

  /** After stripping, a section reads the same values and no comments. */
  lemma {:induction false} StrippedReads(data: Doc, clone: Doc, s: string, k: string)
    requires |clone| == |data|
    requires forall i :: 0 <= i < |data| ==>
      clone[i].0 == data[i].0 && clone[i].1 == SectionEntry(data[i].1.fields, None)
    ensures ValueOf(clone, s, k) == ValueOf(data, s, k)
    ensures CommentOf(clone, s, k) == None
    ensures (s in Assoc.Keys(clone)) == (s in Assoc.Keys(data))
  {
    if data != [] {
      StrippedReads(data[1..], clone[1..], s, k);
    }
  }

  // ---------------------------------------------------------------------
  // compose.cfg, as written

  /** The section comment line (hash, space, text, line break) when the
      commentary object exists and its `pre` slot is truthy (a non-empty
      string). */
  function PreLine(comm: Option<Commentary>): string {
    if comm.Some? && PreKey in comm.value && comm.value[PreKey] != "" then "# " + comm.value[PreKey] + "\n" else ""
  }

  /** One key line: four spaces, key, space, value, and then space, hash,
      space and the key's comment when that comment is truthy. No line break
      follows. */
  function KeyLine(key: string, value: string, c: Commentary): string {
    "    " + key + " " + value + (if key in c && c[key] != "" then " # " + c[key] else "")
  }

  /** The inner `reduce` (`addKeys`), given a commentary object. */
  function KeyLines(fields: seq<(string, string)>, c: Commentary): string {
    if fields == [] then ""
    else (if fields[0].0 == CommentaryKey then "" else KeyLine(fields[0].0, fields[0].1, c)) + KeyLines(fields[1..], c)
  }

  /** Some key other than `commentary` reaches the line that reads `comm[key]`. */
  function HasKeyLine(fields: seq<(string, string)>): bool {
    fields != [] && (fields[0].0 != CommentaryKey || HasKeyLine(fields[1..]))
  }

  /** One section (`addSections`): when the section has no commentary object,
      the first key line reads `comm[key]` of `undefined` and throws. */
  function SectionText(name: string, e: SectionEntry): Result<string> {
    match e.commentary
    case None => if HasKeyLine(e.fields) then TypeError else Ok(name + "\n")
    case Some(c) => Ok(PreLine(e.commentary) + name + "\n" + KeyLines(e.fields, c))
  }

  /** `compose.cfg`: the sections' texts in document order. */
  function ComposeCfg(doc: Doc): (r: Result<string>)
    ensures r.TypeError? ==> exists i :: 0 <= i < |doc| && doc[i].1.commentary.None?
  {
    if doc == [] then Ok("")
    else match SectionText(doc[0].0, doc[0].1)
      case TypeError => TypeError
      case Ok(head) => match ComposeCfg(doc[1..])
        case TypeError => TypeError
        case Ok(rest) => Ok(head + rest)
  }

  /** Composing two texts, either of which may have thrown. */
  function Join(x: Result<string>, y: Result<string>): Result<string> {
    if x.Ok? && y.Ok? then Ok(x.value + y.value) else TypeError
  }

  /** `text` contains `part` at some position. */
  predicate Contains(text: string, part: string) {
    part <= text || (text != [] && Contains(text[1..], part))
  }

  lemma {:induction false} ContainsAfter(x: string, text: string, part: string)
    requires Contains(text, part)
    ensures Contains(x + text, part)
  {
    if x != [] {
      assert (x + text)[1..] == x[1..] + text;
      ContainsAfter(x[1..], text, part);
    } else {
      assert x + text == text;
    }
  }

  lemma {:induction false} ContainsBefore(text: string, y: string, part: string)
    requires Contains(text, part)
    ensures Contains(text + y, part)
  {
    if part <= text {
      assert part <= text + y;
    } else {
      assert (text + y)[1..] == text[1..] + y;
      ContainsBefore(text[1..], y, part);
    }
  }

  lemma ContainsMiddle(p: string, part: string, q: string)
    ensures Contains(p + part + q, part)
  {
    assert part <= part + q;
    ContainsAfter(p, part + q, part);
    assert p + (part + q) == p + part + q;
  }

  /** `compose.cfg` throws exactly when some section has a key line but no
      commentary object. */
  lemma {:induction false} ComposeCfgSucceeds(doc: Doc)
    ensures ComposeCfg(doc).Ok? <==>
      forall i :: 0 <= i < |doc| ==> doc[i].1.commentary.Some? || !HasKeyLine(doc[i].1.fields)
  {
    if doc != [] {
      ComposeCfgSucceeds(doc[1..]);
      assert forall i :: 1 <= i < |doc| ==> doc[i] == doc[1..][i - 1];
    }
  }

  /** Sections are emitted in document order with nothing between them:
      composing a concatenation concatenates the texts. */
  lemma {:induction false} ComposeCfgAppend(a: Doc, b: Doc)
    ensures ComposeCfg(a + b) == Join(ComposeCfg(a), ComposeCfg(b))
  {
    if a == [] {
      assert a + b == b;
      if ComposeCfg(b).Ok? {
        assert "" + ComposeCfg(b).value == ComposeCfg(b).value;
      }
    } else {
      assert (a + b)[0] == a[0] && (a + b)[1..] == a[1..] + b;
      ComposeCfgAppend(a[1..], b);
      var x, y := ComposeCfg(a[1..]), ComposeCfg(b);
      var head := SectionText(a[0].0, a[0].1);
      if head.Ok? && x.Ok? && y.Ok? {
        assert head.value + (x.value + y.value) == (head.value + x.value) + y.value;
      }
    }
  }

  lemma ComposeCons(p: (string, SectionEntry), rest: Doc)
    ensures ComposeCfg([p] + rest) == Join(SectionText(p.0, p.1), ComposeCfg(rest))
  {
    assert ([p] + rest)[0] == p && ([p] + rest)[1..] == rest;
  }

  lemma JoinThree(x: Result<string>, y: Result<string>, z: Result<string>)
    requires Join(x, Join(y, z)).Ok?
    ensures x.Ok? && y.Ok? && z.Ok?
    ensures Join(x, Join(y, z)).value == x.value + y.value + z.value
  {
    assert x.value + (y.value + z.value) == x.value + y.value + z.value;
  }

  lemma ComposeAround(before: Doc, p: (string, SectionEntry), after: Doc)
    ensures ComposeCfg(before + ([p] + after)) ==
      Join(ComposeCfg(before), Join(SectionText(p.0, p.1), ComposeCfg(after)))
  {
    ComposeCfgAppend(before, [p] + after);
    ComposeCons(p, after);
  }

  /** The composed text is the text before section `i`, the section's own
      text, and the text after it. */
  lemma SectionInPlace(doc: Doc, i: nat)
    requires i < |doc| && ComposeCfg(doc).Ok?
    ensures SectionText(doc[i].0, doc[i].1).Ok?
    ensures ComposeCfg(doc[..i]).Ok? && ComposeCfg(doc[i + 1..]).Ok?
    ensures ComposeCfg(doc).value ==
      ComposeCfg(doc[..i]).value + SectionText(doc[i].0, doc[i].1).value + ComposeCfg(doc[i + 1..]).value
  {
    var before, after := doc[..i], doc[i + 1..];
    Around(doc, i);
    ComposeAround(before, doc[i], after);
    JoinThree(ComposeCfg(before), SectionText(doc[i].0, doc[i].1), ComposeCfg(after));
  }

  lemma Around<T>(s: seq<T>, i: nat)
    requires i < |s|
    ensures s == s[..i] + ([s[i]] + s[i + 1..])
  {
  }

  lemma {:induction false} KeyLinesAppend(f: seq<(string, string)>, g: seq<(string, string)>, c: Commentary)
    ensures KeyLines(f + g, c) == KeyLines(f, c) + KeyLines(g, c)
  {
    if f == [] {
      assert f + g == g;
    } else {
      assert (f + g)[0] == f[0] && (f + g)[1..] == f[1..] + g;
      KeyLinesAppend(f[1..], g, c);
    }
  }

  /** Whatever a section's own text contains, the composed document contains. */
  lemma SectionContains(doc: Doc, i: nat, part: string)
    requires i < |doc| && ComposeCfg(doc).Ok?
    requires SectionText(doc[i].0, doc[i].1).Ok? && Contains(SectionText(doc[i].0, doc[i].1).value, part)
    ensures Contains(ComposeCfg(doc).value, part)
  {
    SectionInPlace(doc, i);
    var t := SectionText(doc[i].0, doc[i].1).value;
    ContainsBefore(t, ComposeCfg(doc[i + 1..]).value, part);
    ContainsAfter(ComposeCfg(doc[..i]).value, t + ComposeCfg(doc[i + 1..]).value, part);
    assert ComposeCfg(doc[..i]).value + (t + ComposeCfg(doc[i + 1..]).value) == ComposeCfg(doc).value;
  }

  /** In a document that composes, every section composes. */
  lemma SectionSucceeds(doc: Doc, i: nat)
    requires i < |doc| && ComposeCfg(doc).Ok?
    ensures SectionText(doc[i].0, doc[i].1).Ok?
  {
    ComposeCfgSucceeds(doc);
  }

  lemma PreLineStartsSection(name: string, e: SectionEntry)
    requires e.commentary.Some? && PreKey in e.commentary.value && e.commentary.value[PreKey] != ""
    ensures SectionText(name, e).Ok?
    ensures Contains(SectionText(name, e).value, "# " + e.commentary.value[PreKey] + "\n" + name + "\n")
  {
    var c := e.commentary.value;
    var header := "# " + c[PreKey] + "\n" + name + "\n";
    assert SectionText(name, e) == Ok(header + KeyLines(e.fields, c));
    assert header <= header + KeyLines(e.fields, c);
  }

  /** A section-level comment is printed as `# text` on the line right above
      the section's header. */
  lemma PreCommentEmitted(doc: Doc, i: nat)
    requires i < |doc| && ComposeCfg(doc).Ok?
    requires doc[i].1.commentary.Some? && PreKey in doc[i].1.commentary.value
    requires doc[i].1.commentary.value[PreKey] != ""
    ensures Contains(ComposeCfg(doc).value, "# " + doc[i].1.commentary.value[PreKey] + "\n" + doc[i].0 + "\n")
  {
    PreLineStartsSection(doc[i].0, doc[i].1);
    SectionContains(doc, i, "# " + doc[i].1.commentary.value[PreKey] + "\n" + doc[i].0 + "\n");
  }

  /** Within the key lines, each printed key has its own `KeyLine`. */
  lemma KeyLinesContain(fs: seq<(string, string)>, j: nat, c: Commentary)
    requires j < |fs| && fs[j].0 != CommentaryKey
    ensures Contains(KeyLines(fs, c), KeyLine(fs[j].0, fs[j].1, c))
  {
    assert fs == fs[..j] + ([fs[j]] + fs[j + 1..]);
    KeyLinesAppend(fs[..j], [fs[j]] + fs[j + 1..], c);
    assert ([fs[j]] + fs[j + 1..])[1..] == fs[j + 1..];
    var line := KeyLine(fs[j].0, fs[j].1, c);
    assert KeyLines([fs[j]] + fs[j + 1..], c) == line + KeyLines(fs[j + 1..], c);
    ContainsMiddle(KeyLines(fs[..j], c), line, KeyLines(fs[j + 1..], c));
    assert KeyLines(fs[..j], c) + line + KeyLines(fs[j + 1..], c) == KeyLines(fs, c);
  }

  lemma KeyLineInSection(name: string, e: SectionEntry, j: nat)
    requires e.commentary.Some? && j < |e.fields| && e.fields[j].0 != CommentaryKey
    ensures SectionText(name, e).Ok?
    ensures Contains(SectionText(name, e).value, KeyLine(e.fields[j].0, e.fields[j].1, e.commentary.value))
  {
    var c := e.commentary.value;
    var pre := PreLine(e.commentary) + name + "\n";
    KeyLinesContain(e.fields, j, c);
    ContainsAfter(pre, KeyLines(e.fields, c), KeyLine(e.fields[j].0, e.fields[j].1, c));
  }

  /** The bare `key value` part begins every key line. */
  lemma KeyLineStarts(k: string, v: string, c: Commentary)
    ensures Contains(KeyLine(k, v, c), "    " + k + " " + v)
    ensures k in c && c[k] != "" ==> KeyLine(k, v, c) == "    " + k + " " + v + " # " + c[k]
  {
    var base := "    " + k + " " + v;
    var tail := if k in c && c[k] != "" then " # " + c[k] else "";
    assert KeyLine(k, v, c) == base + tail;
    assert base <= base + tail;
  }

  /** A key of section `i` is printed as four spaces, the key, a space and
      the value; when the key has a non-empty comment, ` # ` and the comment
      follow on the same line. */
  lemma KeyLineEmitted(doc: Doc, i: nat, j: nat)
    requires i < |doc| && ComposeCfg(doc).Ok?
    requires j < |doc[i].1.fields| && doc[i].1.fields[j].0 != CommentaryKey
    ensures doc[i].1.commentary.Some?
    ensures var (k, v) := doc[i].1.fields[j];
      Contains(ComposeCfg(doc).value, "    " + k + " " + v)
    ensures var (k, v) := doc[i].1.fields[j];
      var c := doc[i].1.commentary.value;
      k in c && c[k] != "" ==> Contains(ComposeCfg(doc).value, "    " + k + " " + v + " # " + c[k])
  {
    var e := doc[i].1;
    var (k, v) := e.fields[j];
    KeyLineCounted(e.fields, j);
    SectionSucceeds(doc, i);
    var c := e.commentary.value;
    KeyLineInSection(doc[i].0, e, j);
    SectionContains(doc, i, KeyLine(k, v, c));
    KeyLineStarts(k, v, c);
    ContainsWithin(ComposeCfg(doc).value, KeyLine(k, v, c), "    " + k + " " + v);
  }

  /** Containment is transitive. */
  lemma {:induction false} ContainsWithin(text: string, mid: string, part: string)
    requires Contains(text, mid) && Contains(mid, part)
    ensures Contains(text, part)
  {
    if mid <= text {
      PrefixContains(text, mid, part);
    } else {
      ContainsWithin(text[1..], mid, part);
    }
  }

  lemma {:induction false} PrefixContains(text: string, mid: string, part: string)
    requires mid <= text && Contains(mid, part)
    ensures Contains(text, part)
  {
    if part <= mid {
      assert part <= text;
    } else {
      assert mid[1..] <= text[1..];
      PrefixContains(text[1..], mid[1..], part);
    }
  }

  /** A key other than `commentary` in the list makes `HasKeyLine` true. */
  lemma {:induction false} KeyLineCounted(fields: seq<(string, string)>, j: nat)
    requires j < |fields| && fields[j].0 != CommentaryKey
    ensures HasKeyLine(fields)
  {
    if j > 0 && fields[0].0 == CommentaryKey {
      KeyLineCounted(fields[1..], j - 1);
    }
  }

  /** The keys that are printed: every key but `commentary`. */
  function Printed(fields: seq<(string, string)>): (r: seq<(string, string)>)
    ensures forall p :: p in r <==> p in fields && p.0 != CommentaryKey
  {
    if fields == [] then []
    else (if fields[0].0 == CommentaryKey then [] else [fields[0]]) + Printed(fields[1..])
  }

  /** No key line is ever printed for the `commentary` property: the key lines
      are those of the other keys alone. */
  lemma {:induction false} CommentaryNeverAKeyLine(fields: seq<(string, string)>, c: Commentary)
    ensures KeyLines(fields, c) == KeyLines(Printed(fields), c)
  {
    if fields != [] {
      CommentaryNeverAKeyLine(fields[1..], c);
      var head := if fields[0].0 == CommentaryKey then [] else [fields[0]];
      KeyLinesAppend(head, Printed(fields[1..]), c);
      if head != [] {
        assert head[1..] == [];
      }
    }
  }

  // ---------------------------------------------------------------------
  // Line structure of the output

  /** The number of line breaks in a text. */
  function Newlines(s: string): nat {
    if s == [] then 0 else (if s[0] == '\n' then 1 else 0) + Newlines(s[1..])
  }

  lemma {:induction false} NewlinesAppend(a: string, b: string)
    ensures Newlines(a + b) == Newlines(a) + Newlines(b)
  {
    if a == [] {
      assert a + b == b;
    } else {
      assert (a + b)[0] == a[0] && (a + b)[1..] == a[1..] + b;
      NewlinesAppend(a[1..], b);
    }
  }

  predicate OneLine(s: string) {
    '\n' !in s
  }

  lemma {:induction false} OneLineNoNewlines(s: string)
    requires OneLine(s)
    ensures Newlines(s) == 0
  {
    if s != [] {
      assert s[0] in s;
      assert forall c :: c in s[1..] ==> c in s;
      OneLineNoNewlines(s[1..]);
    }
  }

  lemma LineBreak()
    ensures Newlines("\n") == 1
  {
    assert "\n"[1..] == [];
  }

  ghost predicate CommentsSingleLine(comm: Option<Commentary>) {
    comm.Some? ==> forall k :: k in comm.value ==> OneLine(comm.value[k])
  }

  /** No line break in a section's name, keys, values or comments. */
  ghost predicate SectionSingleLine(name: string, e: SectionEntry) {
    && OneLine(name)
    && (forall f :: f in e.fields ==> OneLine(f.0) && OneLine(f.1))
    && CommentsSingleLine(e.commentary)
  }

  ghost predicate SingleLine(doc: Doc) {
    forall i :: 0 <= i < |doc| ==> SectionSingleLine(doc[i].0, doc[i].1)
  }

  lemma SingleLineTail(doc: Doc)
    requires doc != [] && SingleLine(doc)
    ensures SectionSingleLine(doc[0].0, doc[0].1) && SingleLine(doc[1..])
  {
    forall i | 0 <= i < |doc[1..]| ensures SectionSingleLine(doc[1..][i].0, doc[1..][i].1) {
      assert doc[1..][i] == doc[i + 1];
    }
  }

  /** The number of sections with a printed section comment. */
  function PreComments(doc: Doc): nat {
    if doc == [] then 0 else (if PreLine(doc[0].1.commentary) != "" then 1 else 0) + PreComments(doc[1..])
  }

  /** The number of keys that get a line. */
  function KeyCount(doc: Doc): nat {
    if doc == [] then 0 else |Printed(doc[0].1.fields)| + KeyCount(doc[1..])
  }

  lemma KeyLineNoNewlines(k: string, v: string, c: Commentary)
    requires OneLine(k) && OneLine(v) && CommentsSingleLine(Some(c))
    ensures Newlines(KeyLine(k, v, c)) == 0
  {
    OneLineNoNewlines(KeyLine(k, v, c));
  }

  lemma {:induction false} KeyLinesNoNewlines(fields: seq<(string, string)>, c: Commentary)
    requires forall f :: f in fields ==> OneLine(f.0) && OneLine(f.1)
    requires CommentsSingleLine(Some(c))
    ensures Newlines(KeyLines(fields, c)) == 0
  {
    if fields != [] {
      assert fields[0] in fields;
      assert forall f :: f in fields[1..] ==> f in fields;
      var head := if fields[0].0 == CommentaryKey then "" else KeyLine(fields[0].0, fields[0].1, c);
      if fields[0].0 != CommentaryKey {
        KeyLineNoNewlines(fields[0].0, fields[0].1, c);
      }
      KeyLinesNoNewlines(fields[1..], c);
      NewlinesAppend(head, KeyLines(fields[1..], c));
    }
  }

  lemma PreLineNewlines(comm: Option<Commentary>)
    requires CommentsSingleLine(comm)
    ensures Newlines(PreLine(comm)) == if PreLine(comm) != "" then 1 else 0
  {
    if PreLine(comm) != "" {
      var t := comm.value[PreKey];
      OneLineNoNewlines("# " + t);
      NewlinesAppend("# " + t, "\n");
      LineBreak();
    }
  }

  /** The comment line (if any) and the header line of a section. */
  lemma HeadNewlines(name: string, comm: Option<Commentary>)
    requires OneLine(name) && CommentsSingleLine(comm)
    ensures Newlines(PreLine(comm) + name + "\n") == (if PreLine(comm) != "" then 1 else 0) + 1
  {
    PreLineNewlines(comm);
    OneLineNoNewlines(name);
    NewlinesAppend(PreLine(comm), name);
    NewlinesAppend(PreLine(comm) + name, "\n");
    LineBreak();
  }

  lemma SectionTextNewlines(name: string, e: SectionEntry)
    requires SectionSingleLine(name, e) && SectionText(name, e).Ok?
    ensures Newlines(SectionText(name, e).value) == (if PreLine(e.commentary) != "" then 1 else 0) + 1
  {
    HeadNewlines(name, e.commentary);
    match e.commentary
    case None =>
      assert PreLine(e.commentary) + name + "\n" == name + "\n";
    case Some(c) =>
      KeyLinesNoNewlines(e.fields, c);
      NewlinesAppend(PreLine(e.commentary) + name + "\n", KeyLines(e.fields, c));
  }

  /** As written, only section comments and headers end in a line break: the
      text has one line per section comment and per header, whatever the
      number of keys, so every key line runs on into the next. */
  lemma {:induction false} AsWrittenLineCount(doc: Doc)
    requires SingleLine(doc) && ComposeCfg(doc).Ok?
    ensures Newlines(ComposeCfg(doc).value) == PreComments(doc) + |doc|
  {
    if doc != [] {
      SingleLineTail(doc);
      AsWrittenLineCount(doc[1..]);
      SectionTextNewlines(doc[0].0, doc[0].1);
      NewlinesAppend(SectionText(doc[0].0, doc[0].1).value, ComposeCfg(doc[1..]).value);
    }
  }

  /** The two key lines of the example below run together. */
  lemma GluedKeyLines()
    ensures KeyLines([("bind", "*:80"), ("mode", "http")], map[]) == "    bind *:80    mode http"
  {
    var fields := [("bind", "*:80"), ("mode", "http")];
    var c: Commentary := map[];
    assert KeyLine("bind", "*:80", c) == "    bind *:80";
    assert KeyLine("mode", "http", c) == "    mode http";
    assert fields[1..][1..] == [];
    assert KeyLines(fields[1..], c) == "    mode http" + "";
    assert "    bind *:80" + ("    mode http" + "") == "    bind *:80    mode http";
  }

  /** The smallest input that shows it: the two keys follow the header on one
      line, glued together. */
  lemma UnterminatedKeyLines()
    ensures ComposeCfg([("frontend", SectionEntry([("bind", "*:80"), ("mode", "http")], Some(map[])))])
      == Ok("frontend\n    bind *:80    mode http")
  {
    var e := SectionEntry([("bind", "*:80"), ("mode", "http")], Some(map[]));
    var doc := [("frontend", e)];
    GluedKeyLines();
    assert SectionText("frontend", e) == Ok("" + "frontend" + "\n" + "    bind *:80    mode http");
    assert doc[1..] == [];
    assert "" + "frontend" + "\n" + "    bind *:80    mode http" + "" == "frontend\n    bind *:80    mode http";
  }

  /** A section that `set` writes to and that was never commented makes
      `compose.cfg` throw, whatever the rest of the document. */
  lemma SetWithoutCommentThrows(doc: Doc, section: string, key: string, value: string)
    requires key != CommentaryKey && EntryOf(doc, section).commentary.None?
    ensures ComposeCfg(Assign(doc, section, key, value)) == TypeError
  {
    var after := Assign(doc, section, key, value);
    AssignComments(doc, section, key, value, section, key);
    AssignValue(doc, section, key, value, section, key);
    var e := EntryOf(after, section);
    assert Assoc.Find(after, section).Some?;
    var i :| 0 <= i < |after| && after[i] == (section, e);
    var j :| 0 <= j < |e.fields| && e.fields[j] == (key, value);
    KeyLineCounted(e.fields, j);
    ComposeCfgSucceeds(after);
  }

  /** The smallest case: `set('frontend', 'bind', '*:80')` on the empty
      document, with no comment, cannot be composed. */
  lemma UncommentedSectionThrows()
    ensures ComposeCfg(Assign([], "frontend", "bind", "*:80")) == TypeError
  {
    SetWithoutCommentThrows([], "frontend", "bind", "*:80");
  }

  // ---------------------------------------------------------------------
  // compose.cfg, corrected: every key line ends in a line break, and a
  // section without a commentary object is printed as one with no comments.

  function KeyLinesFixed(fields: seq<(string, string)>, c: Commentary): string {
    if fields == [] then ""
    else (if fields[0].0 == CommentaryKey then "" else KeyLine(fields[0].0, fields[0].1, c) + "\n") + KeyLinesFixed(fields[1..], c)
  }

  function SectionTextFixed(name: string, e: SectionEntry): string {
    PreLine(e.commentary) + name + "\n" + KeyLinesFixed(e.fields, if e.commentary.Some? then e.commentary.value else map[])
  }

  /** The text with line breaks removed. */
  function Unbroken(s: string): string {
    if s == [] then [] else (if s[0] == '\n' then [] else [s[0]]) + Unbroken(s[1..])
  }

  lemma {:induction false} UnbrokenAppend(a: string, b: string)
    ensures Unbroken(a + b) == Unbroken(a) + Unbroken(b)
  {
    if a == [] {
      assert a + b == b;
    } else {
      assert (a + b)[0] == a[0] && (a + b)[1..] == a[1..] + b;
      UnbrokenAppend(a[1..], b);
    }
  }

  lemma UnbrokenLine(line: string)
    ensures Unbroken(line + "\n") == Unbroken(line)
  {
    UnbrokenAppend(line, "\n");
    assert "\n"[1..] == [];
    assert Unbroken("\n") == [];
    assert Unbroken(line) + [] == Unbroken(line);
  }

  lemma {:induction false} KeyLinesFixedUnbroken(fields: seq<(string, string)>, c: Commentary)
    ensures Unbroken(KeyLinesFixed(fields, c)) == Unbroken(KeyLines(fields, c))
  {
    if fields != [] {
      KeyLinesFixedUnbroken(fields[1..], c);
      var rest, rest' := KeyLines(fields[1..], c), KeyLinesFixed(fields[1..], c);
      if fields[0].0 == CommentaryKey {
        assert KeyLines(fields, c) == rest;
        assert KeyLinesFixed(fields, c) == rest';
      } else {
        var line := KeyLine(fields[0].0, fields[0].1, c);
        assert KeyLines(fields, c) == line + rest;
        assert KeyLinesFixed(fields, c) == (line + "\n") + rest';
        UnbrokenAppend(line, rest);
        UnbrokenAppend(line + "\n", rest');
        UnbrokenLine(line);
      }
    }
  }

  /** Without a key line, the key part of a section is empty either way. */
  lemma {:induction false} NoKeyLines(fields: seq<(string, string)>, c: Commentary)
    requires !HasKeyLine(fields)
    ensures KeyLines(fields, c) == "" && KeyLinesFixed(fields, c) == ""
  {
    if fields != [] {
      NoKeyLines(fields[1..], c);
    }
  }

  lemma SectionFixedUnbroken(name: string, e: SectionEntry)
    requires SectionText(name, e).Ok?
    ensures Unbroken(SectionTextFixed(name, e)) == Unbroken(SectionText(name, e).value)
  {
    var c: Commentary := if e.commentary.Some? then e.commentary.value else map[];
    var head := PreLine(e.commentary) + name + "\n";
    if e.commentary.None? {
      NoKeyLines(e.fields, c);
      assert PreLine(e.commentary) == "";
      assert head == name + "\n";
      assert SectionTextFixed(name, e) == head + "";
      assert head + "" == name + "\n";
      assert SectionText(name, e) == Ok(name + "\n");
    } else {
      KeyLinesFixedUnbroken(e.fields, c);
      UnbrokenAppend(head, KeyLinesFixed(e.fields, c));
      UnbrokenAppend(head, KeyLines(e.fields, c));
    }
  }

  /** The corrected composer never throws, and wherever the composer as
      written succeeds the two texts differ only in line breaks. */
  function ComposeCfgFixed(doc: Doc): (text: string)
    ensures ComposeCfg(doc).Ok? ==> Unbroken(text) == Unbroken(ComposeCfg(doc).value)
  {
    if doc == [] then ""
    else
      var rest := ComposeCfgFixed(doc[1..]);
      var text := SectionTextFixed(doc[0].0, doc[0].1) + rest;
      assert ComposeCfg(doc).Ok? ==> Unbroken(text) == Unbroken(ComposeCfg(doc).value) by {
        if ComposeCfg(doc).Ok? {
          SectionFixedUnbroken(doc[0].0, doc[0].1);
          UnbrokenAppend(SectionTextFixed(doc[0].0, doc[0].1), rest);
          UnbrokenAppend(SectionText(doc[0].0, doc[0].1).value, ComposeCfg(doc[1..]).value);
        }
      }
      text
  }

  /** The corrected composer, too, prints sections in document order with
      nothing between them. */
  lemma {:induction false} FixedAppend(a: Doc, b: Doc)
    ensures ComposeCfgFixed(a + b) == ComposeCfgFixed(a) + ComposeCfgFixed(b)
  {
    if a == [] {
      assert a + b == b;
    } else {
      assert (a + b)[0] == a[0] && (a + b)[1..] == a[1..] + b;
      FixedAppend(a[1..], b);
      var head := SectionTextFixed(a[0].0, a[0].1);
      assert head + (ComposeCfgFixed(a[1..]) + ComposeCfgFixed(b)) == (head + ComposeCfgFixed(a[1..])) + ComposeCfgFixed(b);
    }
  }

  /** Corrected, each printed key line stands between two line breaks: the
      one that ends the line before it and its own. */
  lemma {:induction false} KeyLinesFixedOwnLine(fs: seq<(string, string)>, j: nat, c: Commentary)
    requires j < |fs| && fs[j].0 != CommentaryKey
    ensures Contains("\n" + KeyLinesFixed(fs, c), "\n" + KeyLine(fs[j].0, fs[j].1, c) + "\n")
  {
    var part := "\n" + KeyLine(fs[j].0, fs[j].1, c) + "\n";
    var rest := KeyLinesFixed(fs[1..], c);
    if j == 0 {
      assert KeyLinesFixed(fs, c) == (KeyLine(fs[0].0, fs[0].1, c) + "\n") + rest;
      assert "\n" + KeyLinesFixed(fs, c) == part + rest;
      assert part <= part + rest;
    } else {
      KeyLinesFixedOwnLine(fs[1..], j - 1, c);
      assert fs[1..][j - 1] == fs[j];
      if fs[0].0 == CommentaryKey {
        assert KeyLinesFixed(fs, c) == rest;
      } else {
        var line := KeyLine(fs[0].0, fs[0].1, c);
        assert "\n" + KeyLinesFixed(fs, c) == ("\n" + line) + ("\n" + rest);
        ContainsAfter("\n" + line, "\n" + rest, part);
      }
    }
  }

  /** Corrected, the text is the sections before `i`, section `i`'s own
      text, and the sections after it. */
  lemma FixedInPlace(doc: Doc, i: nat)
    requires i < |doc|
    ensures ComposeCfgFixed(doc) ==
      ComposeCfgFixed(doc[..i]) + (SectionTextFixed(doc[i].0, doc[i].1) + ComposeCfgFixed(doc[i + 1..]))
  {
    var after := doc[i + 1..];
    Around(doc, i);
    FixedAppend(doc[..i], [doc[i]] + after);
    assert ([doc[i]] + after)[0] == doc[i] && ([doc[i]] + after)[1..] == after;
  }

  /** Within its own text, each key line of a section stands between two
      line breaks. */
  lemma SectionFixedOwnLine(name: string, e: SectionEntry, j: nat)
    requires j < |e.fields| && e.fields[j].0 != CommentaryKey
    ensures var c := if e.commentary.Some? then e.commentary.value else map[];
      Contains(SectionTextFixed(name, e), "\n" + KeyLine(e.fields[j].0, e.fields[j].1, c) + "\n")
  {
    var c := if e.commentary.Some? then e.commentary.value else map[];
    var part := "\n" + KeyLine(e.fields[j].0, e.fields[j].1, c) + "\n";
    KeyLinesFixedOwnLine(e.fields, j, c);
    assert SectionTextFixed(name, e) == (PreLine(e.commentary) + name) + ("\n" + KeyLinesFixed(e.fields, c));
    ContainsAfter(PreLine(e.commentary) + name, "\n" + KeyLinesFixed(e.fields, c), part);
  }

  /** Corrected, every key of section `i` other than `commentary` is printed
      on a line of its own: a line break directly before it and directly
      after it. */
  lemma FixedKeyLineOwnLine(doc: Doc, i: nat, j: nat)
    requires i < |doc| && j < |doc[i].1.fields| && doc[i].1.fields[j].0 != CommentaryKey
    ensures var e := doc[i].1;
      var c := if e.commentary.Some? then e.commentary.value else map[];
      Contains(ComposeCfgFixed(doc), "\n" + KeyLine(e.fields[j].0, e.fields[j].1, c) + "\n")
  {
    var e := doc[i].1;
    var c := if e.commentary.Some? then e.commentary.value else map[];
    var part := "\n" + KeyLine(e.fields[j].0, e.fields[j].1, c) + "\n";
    var text := SectionTextFixed(doc[i].0, e);
    FixedInPlace(doc, i);
    SectionFixedOwnLine(doc[i].0, e, j);
    ContainsBefore(text, ComposeCfgFixed(doc[i + 1..]), part);
    ContainsAfter(ComposeCfgFixed(doc[..i]), text + ComposeCfgFixed(doc[i + 1..]), part);
  }

  /** A section record with a missing commentary object replaced by an empty
      one; a record that has one is kept. */
  function Commented(e: SectionEntry): (r: SectionEntry)
    ensures r.fields == e.fields && r.commentary.Some?
    ensures e.commentary.Some? ==> r == e
  {
    if e.commentary.Some? then e else e.(commentary := Some(map[]))
  }

  /** The document with every missing commentary object replaced by an empty
      one, which is what `comment` would have created. */
  function WithComments(doc: Doc): (r: Doc)
    ensures |r| == |doc|
    ensures forall i :: 0 <= i < |doc| ==> r[i] == (doc[i].0, Commented(doc[i].1))
  {
    if doc == [] then [] else [(doc[0].0, Commented(doc[0].1))] + WithComments(doc[1..])
  }

  /** The corrected composer prints an empty commentary object and a missing
      one alike. */
  lemma {:induction false} FixedIgnoresMissingComments(doc: Doc)
    ensures ComposeCfgFixed(WithComments(doc)) == ComposeCfgFixed(doc)
  {
    if doc != [] {
      FixedIgnoresMissingComments(doc[1..]);
      var w := WithComments(doc);
      assert w[1..] == WithComments(doc[1..]);
      if doc[0].1.commentary.None? {
        assert PreLine(Some(map[])) == "" == PreLine(None);
      }
      assert SectionTextFixed(w[0].0, w[0].1) == SectionTextFixed(doc[0].0, doc[0].1);
    }
  }

  /** The corrected composer prints a section without a commentary object as
      one with an empty commentary object: that document is one the composer
      as written accepts, and the two texts differ only in line breaks. */
  lemma FixedIsGuarded(doc: Doc)
    ensures ComposeCfg(WithComments(doc)).Ok?
    ensures Unbroken(ComposeCfgFixed(doc)) == Unbroken(ComposeCfg(WithComments(doc)).value)
  {
    var w := WithComments(doc);
    ComposeCfgSucceeds(w);
    FixedIgnoresMissingComments(doc);
  }

  lemma {:induction false} KeyLinesFixedNewlines(fields: seq<(string, string)>, c: Commentary)
    requires forall f :: f in fields ==> OneLine(f.0) && OneLine(f.1)
    requires CommentsSingleLine(Some(c))
    ensures Newlines(KeyLinesFixed(fields, c)) == |Printed(fields)|
  {
    if fields != [] {
      assert fields[0] in fields;
      assert forall f :: f in fields[1..] ==> f in fields;
      KeyLinesFixedNewlines(fields[1..], c);
      var head := if fields[0].0 == CommentaryKey then "" else KeyLine(fields[0].0, fields[0].1, c) + "\n";
      if fields[0].0 != CommentaryKey {
        KeyLineNoNewlines(fields[0].0, fields[0].1, c);
        NewlinesAppend(KeyLine(fields[0].0, fields[0].1, c), "\n");
        LineBreak();
      }
      NewlinesAppend(head, KeyLinesFixed(fields[1..], c));
    }
  }

  lemma SectionTextFixedNewlines(name: string, e: SectionEntry)
    requires SectionSingleLine(name, e)
    ensures Newlines(SectionTextFixed(name, e)) == (if PreLine(e.commentary) != "" then 1 else 0) + 1 + |Printed(e.fields)|
  {
    var c: Commentary := if e.commentary.Some? then e.commentary.value else map[];
    HeadNewlines(name, e.commentary);
    KeyLinesFixedNewlines(e.fields, c);
    NewlinesAppend(PreLine(e.commentary) + name + "\n", KeyLinesFixed(e.fields, c));
  }

  /** Corrected, the text has exactly one line per section comment, per
      header and per key. */
  lemma {:induction false} FixedLineCount(doc: Doc)
    requires SingleLine(doc)
    ensures Newlines(ComposeCfgFixed(doc)) == PreComments(doc) + |doc| + KeyCount(doc)
  {
    if doc != [] {
      SingleLineTail(doc);
      FixedLineCount(doc[1..]);
      SectionTextFixedNewlines(doc[0].0, doc[0].1);
      NewlinesAppend(SectionTextFixed(doc[0].0, doc[0].1), ComposeCfgFixed(doc[1..]));
    }
  }

  // ---------------------------------------------------------------------
  // parse.cfg

  /** `parse.cfg` is a stub: whatever the text, the result is `{}`. */
  function ParseCfg(data: string): (r: Doc)
    ensures WellFormed(r) && forall s :: Assoc.Find(r, s).None?
  {
    []
  }

  /** So no document with a section survives composing and parsing back. */
  lemma CfgDoesNotRoundTrip(doc: Doc)
    requires doc != [] && ComposeCfg(doc).Ok?
    ensures ParseCfg(ComposeCfg(doc).value) != doc
  {
  }
}
