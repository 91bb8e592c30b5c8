# haproxy configuration builder (parser.js), modelled in Dafny

parser.js keeps one HAProxy configuration document in memory. It offers a
small API to fill that document, and prints it either as JSON or in
HAProxy's own text format. This project models its core and proves what
that core promises.

- **Allowed keys** (`Permissions`). At load time, `prepareKeys` gives each
  section its list of allowed keys.
  - Each section has an integer mask.
  - The key table maps flag bits to key lists.
  - A section's list concatenates, in table order, the key lists of every
    bit its mask shares, duplicates kept.
  - When no bit matches, the section has no list at all.
- **Document** (`Document`, `Assoc`). The `config` object is a sequence of
  sections in insertion order. Each section holds:
  - its key/value properties, also in insertion order;
  - optionally, a commentary object (comment text by key name, with `pre`
    for the section itself).
  - `Get` models `get`. `Assign` and `Annotate` model the writes of `set`
    and `comment`, as functions of the document before.
- **Mutable store** (`Parser.Store`). A class holds:
  - the key table;
  - the `config` document, which `Set`, `Comment`, `Invoke` (calling the
    handle that `set` returns) and `Call` (calling an accessor) update in
    place.
- **Accessors** (`Accessors`, `Names`).
  - `Functionalize` is `functionalize`.
  - `PrepareFunctions` builds one section's accessor object:
    - `get`, `set`, and `comment` bound to `pre`;
    - one proxy per allowed key, installed in key order, so on a name
      collision the last key wins.
  - `Parser.Load` runs `prepareKeys` and then `prepareFunctions` over every
    section, as loading parser.js does.
- **Composers** (`Compose`).
  - The commentary-stripping step of `compose.json`.
  - `compose.cfg` exactly as written, including its two defects (see
    Findings).
  - A corrected `compose.cfg`.
  - The `parse.cfg` stub.

Four behaviours of the code worth knowing:

- `get` of a key that was never set yields `undefined`; only a missing
  section throws.
- A rejected `set` returns the plain, unbound `comment` function. Calling
  it comments whatever section and key it is given (`Store.Invoke`).
- The section-level comment is written by the accessor's `comment`, which
  is bound to the `pre` slot. `comment(section, key, text)` itself stores
  every key under its own name.
- Key lines are not followed by a line break, and a section with keys but no
  commentary object makes `compose.cfg` throw (Findings).

A JavaScript `TypeError` is modelled as the `TypeError` case of `Result`.

## Model

| member | source | states |
|---|---|---|
| `Names.Functionalize` | parser.js:106-108 | the proxy name has only the letters a to z and is no longer than the key |
| `Names.FunctionalizeAppend` | parser.js:107 | the name of a concatenation is the concatenation of the names: the transform works character by character |
| `Names.FunctionalizeFixes` | parser.js:106-108 | a string is left unchanged exactly when it already consists of a to z only |
| `Names.FunctionalizeIdempotent` | parser.js:106-108 | functionalizing a proxy name again changes nothing |
| `Names.FunctionalizeIgnoresCase` | parser.js:107 | anywhere in a key, an ASCII upper-case letter gives the same proxy name as its lower case |
| `Names.SeparatorIgnored` | parser.js:107 | a character that does not survive lower-casing as a to z is dropped wherever it stands, so keys differing only in it share a proxy name |
| `Permissions.SectionKeys` | parser.js:191-194 | the inner loop leaves the section's list undefined when no flag bit matches the mask; otherwise it leaves the concatenation, in table order, of the key lists of the matching bits |
| `Permissions.PrepareKeys` | parser.js:187-195 | a section has a list exactly when some flag bit matches its mask, and that list is the ordered concatenation for its mask |
| `Permissions.UnlockedAppend` | parser.js:191-194 | the lists of earlier flags come first and nothing is merged or removed, so duplicates stay |
| `Permissions.UnlockedSingle` | parser.js:193 | one flag contributes its keys exactly when the mask shares its bit |
| `Permissions.UnlockedMember` | parser.js:191-194 | a key is allowed exactly when some flag that the mask shares lists it |
| `Permissions.OrUnlocks` | parser.js:193 | the OR of two masks shares a bit exactly when one of them does |
| `Permissions.UnlockedWider` | parser.js:193 | a key allowed under a mask stays allowed under a mask that shares at least the same flags |
| `Permissions.MaskUnion` | parser.js:193 | the OR of two masks allows exactly the keys that either mask allows |
| `Permissions.NothingUnlocked` | parser.js:192-193 | before any flag matches, the accumulated list is empty |
| `Permissions.KeyedSections` | parser.js:187-195 | in the finished table, a section has a list exactly when some flag matches its mask |
| `Assoc.Find` | parser.js:119 | a property read finds nothing exactly when the name is absent; what it finds was stored under that name |
| `Assoc.FindUnique` | parser.js:119 | among distinct names, a listed name/value pair is what a property read returns |
| `Assoc.Put` | parser.js:136 | after a property write, the name reads back the written value |
| `Assoc.PutFindOther` | parser.js:136 | a property write leaves every other name as it was |
| `Assoc.PutKeys` | parser.js:136 | a new property goes after the existing ones; an existing one keeps its place |
| `Assoc.PutPut` | parser.js:136 | writing a property twice is the same as writing it once with the second value |
| `Document.Get` | parser.js:118-120 | the definition of `get`: it throws exactly when the section is missing, and yields the commentary object only for the name `commentary`; `Document.GetReads` and `Parser.SetThenGet` state what it reads |
| `Document.ListedValueReads` | parser.js:118-120 | in a well-formed document, every key/value pair listed in a section's record is what `get` reads for that key |
| `Document.GetReads` | parser.js:118-120 | `get` throws exactly when the section is absent; otherwise it yields the stored value, or `undefined` |
| `Document.Assign` | parser.js:135-136 | the definition of an accepted `set`'s write: afterwards the section exists and the key holds the value; `Document.AssignValue`, `AssignComments`, `AssignOrder`, `AssignWellFormed` and `AssignTwice` state the rest |
| `Document.AssignValue` | parser.js:135-136 | after an accepted write the key reads back the value; every other section and key reads as before |
| `Document.AssignComments` | parser.js:135-136 | a write leaves every comment as it was, neither creates nor removes any section's commentary object, and leaves every other section's record, its key order included, as it was |
| `Document.AssignOrder` | parser.js:135-136 | a new section goes after the existing ones, and a new key after the section's existing keys; existing names keep their places |
| `Document.AssignWellFormed` | parser.js:135-136 | a write keeps names distinct and never creates a key called `commentary` |
| `Document.AssignTwice` | parser.js:136 | setting a key twice equals setting it once to the second value |
| `Document.Annotate` | parser.js:92-97 | the definition of `comment`'s writes: afterwards the section exists and the slot holds the text; `Document.AnnotateComment`, `AnnotateValues`, `AnnotateOrder`, `AnnotateWellFormed` and `AnnotateTwice` state the rest |
| `Document.AnnotateComment` | parser.js:92-97 | after `comment(s, k, t)` the slot `(s, k)` holds `t` and every other comment is as before; section `s` has a commentary object, and every other section's record, commentary object or lack of one and key order included, is untouched |
| `Document.AnnotateValues` | parser.js:92-97 | `comment` changes no value, and no other section's record |
| `Document.AnnotateOrder` | parser.js:93-94 | `comment` appends a section it creates at the end; existing sections keep their places and the section's keys keep their order |
| `Document.AnnotateWellFormed` | parser.js:92-97 | `comment` keeps the document well formed |
| `Document.AnnotateTwice` | parser.js:96 | a later comment on the same slot overwrites the earlier one |
| `Parser.SetOutcome` | parser.js:131-140 | `set` throws exactly when the section has no key list, and returns the unbound `comment` exactly when the key is not allowed. Its handle is bound to the key it wrote, and a call that writes nothing leaves the document unchanged |
| `Parser.SetThenGet` | parser.js:131-140 | after `set(s, k, v)`, `get(s, k)` yields `v` exactly when `k` is allowed in `s` or already held `v` |
| `Parser.SetChangesOneValue` | parser.js:135-136 | `set` changes no other section's or key's value and no comment, every section keeps its commentary object or its lack of one, and every other section's record, its key order included, is unchanged |
| `Parser.SetKeepsAllowed` | parser.js:133-136 | `set` never stores a value under a key its section does not allow |
| `Parser.AnnotateKeepsAllowed` | parser.js:92-97 | `comment` keeps that invariant too |
| `Parser.BoundHandleComments` | parser.js:139 | the handle of an accepted `set`, applied to a text, comments exactly the pair just written, and the value stays |
| `Parser.HandleCommentComposed` | parser.js:139 | after a set and a comment through its handle, the section's own text contains `    key value # text`, and so does the text of `compose.cfg` whenever it succeeds |
| `Parser.PreCommentComposed` | parser.js:207 | after the section accessor's `comment(text)`, `compose.cfg` (when it succeeds) prints `# text` and a line break directly before the section header. When the previous section ends in a key line, `# text` is glued onto that line (see the parser.js:60-61 Finding) |
| `Parser.Store.constructor` | parser.js:12 | the document starts empty, with the key table fixed |
| `Parser.Store.Comment` | parser.js:92-97 | the store's document becomes `Annotate` of the old one, the text is returned, and the invariant holds |
| `Parser.Store.Set` | parser.js:131-140 | the reply and the new document are those of `SetOutcome`, and the invariant holds |
| `Parser.Store.Invoke` | parser.js:133-139 | a bound handle comments its own pair; the unbound one comments whatever it is given |
| `Parser.Store.Call` | parser.js:204-212 | `get` reads and changes nothing; `set` and every key proxy do what `set` does; the accessor's `comment` writes the `pre` slot |
| `Accessors.PrepareFunctions` | parser.js:200-216 | for a section without a key list it throws; otherwise it yields the built-ins followed by every key's proxy, installed in key order |
| `Accessors.AccessorTable` | parser.js:204-213 | the definition of one section's accessor object, each proxy assigned in key order; `get`, `set` and `comment` are always among its names. `Accessors.AccessorNames`, `LastProxyWins`, `BuiltinKept` and `AccessorsStayInSection` state the rest |
| `Accessors.AccessorNames` | parser.js:204-213 | the accessor names are `get`, `set`, `comment` and the proxy name of every key |
| `Accessors.LastProxyWins` | parser.js:211-213 | the proxy named after a key sets that key whenever no later key has the same proxy name |
| `Accessors.BuiltinKept` | parser.js:204-208 | `get`, `set` and `comment` survive unless some key's proxy name is theirs |
| `Accessors.AccessorsStayInSection` | parser.js:204-213 | every accessor acts on its own section, and every proxy sets one of that section's keys |
| `Parser.Load` | parser.js:187-216 | loading succeeds exactly when every section has a key list. The store then starts empty and valid with the key table of `prepareKeys`, and every section is exported under its name with its own accessor object |
| `Compose.StripCommentary` | parser.js:28-33 | the clone has the same sections in the same order, each with exactly its key/value properties and no commentary |
| `Compose.StrippedReads` | parser.js:28-33 | after stripping, every section and value reads as before and no comment is left |
| `Compose.ComposeCfg` | parser.js:46-64 | the definition of `compose.cfg` as written: it throws only when some section lacks a commentary object; `Compose.ComposeCfgSucceeds`, `SectionInPlace`, `KeyLineEmitted` and the rows after them state what it prints |
| `Compose.ComposeCfgSucceeds` | parser.js:56-61 | `compose.cfg` throws exactly when some section has a key line but no commentary object |
| `Compose.ComposeCfgAppend` | parser.js:47-63 | sections are printed in document order with nothing between them |
| `Compose.SectionInPlace` | parser.js:47-63 | the text is the text of the sections before, the section's own text, and the text of those after |
| `Compose.PreCommentEmitted` | parser.js:52-53 | a section with a non-empty `pre` comment has `# pre` and a line break directly before its header. When the previous section ends in a key line, `# pre` is glued onto that line (see the parser.js:60-61 Finding) |
| `Compose.KeyLineEmitted` | parser.js:60-61 | every key other than `commentary` is printed, indented four spaces, as `key value`, followed by ` # comment` when its comment is non-empty |
| `Compose.CommentaryNeverAKeyLine` | parser.js:57 | no key line is printed for a property called `commentary` |
| `Compose.AsWrittenLineCount` | parser.js:52-61 | as written, the text has one line break per section comment and per header, and none for key lines |
| `Compose.UnterminatedKeyLines` | parser.js:60-61 | a section with two keys prints them glued together on the header's next line |
| `Compose.SetWithoutCommentThrows` | parser.js:61 | whatever the rest of the document, a section that `set` writes to and that was never commented makes `compose.cfg` throw |
| `Compose.UncommentedSectionThrows` | parser.js:61 | `set('frontend', 'bind', '*:80')` on the empty document, with no comment, makes `compose.cfg` throw |
| `Compose.ComposeCfgFixed` | parser.js:46-64 | the corrected composer never throws, and wherever the original succeeds the two texts differ only in line breaks |
| `Compose.FixedIgnoresMissingComments` | parser.js:49-61 | the corrected composer prints a section without a commentary object exactly as one with an empty commentary object |
| `Compose.FixedIsGuarded` | parser.js:49-61 | for every document, filling each missing commentary object with an empty one gives a document the original composes, and the corrected text of the unfilled document equals that composed text up to line breaks: a section without comments prints its keys with no comments |
| `Compose.FixedAppend` | parser.js:47-63 | corrected, sections are still printed in document order with nothing between them |
| `Compose.FixedKeyLineOwnLine` | parser.js:60-61 | corrected, every key of every section is printed on a line of its own: a line break directly before its key line and directly after it |
| `Compose.FixedLineCount` | parser.js:46-64 | corrected, the text has exactly as many line breaks as section comments, headers and keys together; `Compose.FixedKeyLineOwnLine` says where the key lines' breaks stand |
| `Compose.ParseCfg` | parser.js:77-79 | the definition of the `parse.cfg` stub: whatever the text, a well-formed document with no section; `Compose.CfgDoesNotRoundTrip` states the consequence |
| `Compose.CfgDoesNotRoundTrip` | parser.js:77-79 | `parse.cfg` returns an empty document, so no document with a section survives composing and parsing back |

## Left out

- `read`, `write` and `verify` (parser.js:149-182) are file and process I/O. They are not modelled. Neither is the choice of format from the file extension.
- The text that `JSON.stringify` and `JSON.parse` produce and accept (parser.js:28, 36, 68) is not modelled. `compose.json` is modelled up to its last step: the stripped value that is stringified.
- A key called `commentary` in the key table is excluded: `Parser.Load` and `Parser.Store.constructor` require that no list contains it. In the source, `set(section, 'commentary', v)` would replace the section's commentary object with a string.
- Properties inherited through JavaScript prototypes are not modelled. Examples: `get(section, 'toString')`, or a section called `constructor` in `keys`. The model also does not capture that the accessors live on the result's `__proto__`. An accessor object is a map from name to action.
- JavaScript puts integer-like property names first, in numeric order. The document model keeps every name in insertion order. The flag table is taken already in `Object.keys` order.
- Permissions.SectionKeys: flag bits are taken as 32-bit patterns, and masks are reduced modulo 2^32 as `&` does. The conversion `+bit` of a flag's property name to a number is not modelled.
- Values and comments are strings. Numbers, objects and `undefined` passed to `set`, `comment` or `get` are not modelled. Neither are arguments left out of a call, or extra ones.
- The exported accessors are a map of their own. A section name that collides with `read`, `write`, `verify` or `config` in `module.exports` (parser.js:215, 221) is not modelled.
- The exports made only when `NODE_ENV` is `testing` (parser.js:226-233) are not modelled.
- `Compose.ParseCfg` models the `parse.cfg` stub as the constant empty document.
- The `./config` module that supplies the section masks and the key table is not part of this model. Both are parameters of `Parser.Load`.

## Findings

| source | as written | input that shows it | evidently intended | confidence | as-written member | corrected member |
|---|---|---|---|---|---|---|
| parser.js:60-61 | no line break after a key line, so all of a section's key lines, and the next section's comment or header, run together on one line | a section `frontend` with `bind *:80` and `mode http` and an empty commentary object gives `frontend\n    bind *:80    mode http` | every key line ends in `\n`, as the native format shows one key per line | not executed | `Compose.UnterminatedKeyLines` | `Compose.FixedKeyLineOwnLine` |
| parser.js:61 | `comm[key]` is read without a guard, so a section that has keys but no commentary object throws a TypeError | `set('frontend', 'bind', '*:80')` on the empty document, never commented | a section without comments prints its keys with no comments | not executed | `Compose.SetWithoutCommentThrows` | `Compose.FixedIsGuarded` |
