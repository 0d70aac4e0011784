# create-data-harmonizer: a Dafny model of the scaffolder's logic

`create-data-harmonizer` is a command-line tool that builds a new
DataHarmonizer web project from a LinkML schema. It loads the schema and
copies every class's induced slots into that class's `attributes` map. It
then asks for a project name and a set of classes to use as templates. The
classes that descend from the marker interface `dh_interface` start out
checked. Finally it copies a template directory, renaming `_gitignore` to
`.gitignore`, writes `package.json`, the flattened schema and `menu.json`,
and runs `npm install`.

This project models the logic in that pipeline that does not depend on I/O:

- `Flattener` (flattener.dfy): the flattening loop. It runs over class
  definition objects whose `attributes` field is updated in place.
  `classInducedSlots` is a parameter.
- `Selector` (selector.dfy): the marker constant and the choice list of the
  class checkbox question. `classAncestors` is a parameter.
- `JsString` (jsstring.dfy): JavaScript's `indexOf` and `replace` for a
  string pattern and a plain replacement, where only the first occurrence
  is replaced.
- `Materializer` (materializer.dfy): the template file rename, the rejection
  of an empty selection, and the contents of `menu.json`.
- `Wrappers` (wrappers.dfy): `Option` (JavaScript `undefined`) and `Result`.
  A `Failure` carries the message that `err` prints before exiting with
  status 1.

The schema library, the prompt, the filesystem and `npm` are not modelled.
Their results become inputs: the class table, the induced slots, the
ancestors, the answers and the template file names.

## Model

| member | source | states |
|---|---|---|
| `Flattener.ClassDefinition.constructor` | src/main.js:41 | A class definition object holds its optional `attributes` map, the only field the flattening loop reads or writes. It starts with the map it is given. |
| `Flattener.FlattenAttributes` | src/main.js:40-49 | After the loop, every class's `attributes` equals `FlattenClass` of its previous value and its induced slots. Only the class definition objects of the table are modified. |
| `Flattener.InsertSlots` | src/main.js:46-48 | Writing the slots one by one gives a map whose keys are the old keys plus the slot names. No key is removed. |
| `Flattener.LastIndexNamed` | src/main.js:46-47 | Returns the index of a slot with the given name such that no later slot has that name. |
| `Flattener.InsertSlotsLastWins` | src/main.js:46-48 | Each slot name maps to the last slot bearing that name. |
| `Flattener.InsertSlotsKeepsOthers` | src/main.js:46-48 | An existing key that no slot names keeps its old value. |
| `Flattener.InsertSlotsIdempotent` | src/main.js:46-48 | Writing the same slots a second time leaves the map unchanged. |
| `Flattener.FlattenClass` | src/main.js:42-48 | After its turn, a class has a map exactly when it had one or has induced slots. A class with no map and no slots still has none. The keys are the old keys plus the induced names. |
| `Flattener.FlattenClassLastWins` | src/main.js:43-48 | For every induced slot name, `attributes[name]` is the last induced slot with that name. This holds whether the map existed before or was just created. |
| `Flattener.FlattenClassKeepsOthers` | src/main.js:43-48 | An existing entry whose name is not among the induced slots is unchanged and stays present. |
| `Flattener.FlattenClassIdempotent` | src/main.js:41-49 | Flattening again with the same induced slots changes no class's attributes. |
| `Selector.WithoutMarker` | src/main.js:61-62 | The filter keeps exactly the names other than `dh_interface`. |
| `Selector.WithoutMarkerCount` | src/main.js:61-62 | The filter's length drops by the number of occurrences of the marker. |
| `Selector.WithoutMarkerAppend` | src/main.js:61-62 | The filter preserves table order: it distributes over concatenation. |
| `Selector.Choices` | src/main.js:61-66 | Every offered choice is a table class other than `dh_interface`. It is checked if and only if `dh_interface` is among that class's ancestors. |
| `Selector.ChoicesOffered` | src/main.js:61-66 | A name is offered if and only if it is in the table and is not `dh_interface`. |
| `Selector.ChoicesCount` | src/main.js:61-66 | One choice per table entry, minus one per occurrence of `dh_interface`. |
| `Selector.ChoicesAppend` | src/main.js:61-66 | The choices follow table order: the list for `a + b` is the list for `a` followed by the list for `b`. |
| `Selector.ChoicesDescendantChecked` | src/main.js:12 | The marker is the name `dh_interface`: a table class other than `dh_interface` whose ancestors include `dh_interface` is offered, pre-checked. |
| `Selector.ChoicesCons` | src/main.js:62-66 | The list for a table is the first class's choice, unless that class is the marker, followed by the list for the rest. |
| `Selector.ChoicesSingle` | src/main.js:62-66 | One class yields no choice if it is `dh_interface`, and otherwise the choice `{name, checked}` with `checked` true iff `dh_interface` is among its ancestors. |
| `Selector.ChoicesScenario` | src/main.js:61-66 | For a table `a`, `b`, `dh_interface`, `c` where only `c` has the marker among its ancestors, the list is exactly `a` unchecked, `b` unchecked, `c` checked. The marker is not offered. |
| `JsString.IndexOf` | src/main.js:90 | Returns the leftmost occurrence of the pattern at or after `from`, or `None` exactly when there is no such occurrence. This is `indexOf` for `from` within the string. |
| `JsString.ReplaceFirst` | src/main.js:90 | With no occurrence, the string is unchanged. Otherwise only the first occurrence is replaced, and the prefix and the rest are kept. The length changes accordingly. |
| `Materializer.TemplateFileName` | src/main.js:90 | A name without `_gitignore` is kept. Otherwise its first `_gitignore` becomes `.gitignore` and the rest is kept. The length is preserved. |
| `Materializer.TemplateFileNameGitignore` | src/main.js:90 | `_gitignore` itself is copied as `.gitignore`. |
| `Materializer.CopySteps` | src/main.js:87-92 | There is one copy per template file, in directory order. Each target is `TemplateFileName` of its source: the source name itself when it has no `_gitignore`, and always of the same length. |
| `Materializer.MenuEntries` | src/main.js:140-149 | The fold's keys are exactly the selected class names. Each maps to `{name: <that name>, status: "published", display: true}`. |
| `Materializer.MenuEntriesBySet` | src/main.js:140-149 | Later entries overwrite earlier ones with an identical value. So the result depends only on the set of selected names, not on their order or repetition. |
| `Materializer.MenuJson` | src/main.js:139-150 | The menu has exactly one key, the schema base name. It maps to the published entry of each selected class and nothing else. |
| `Materializer.Generate` | src/main.js:73-75 | An empty selection fails with "No classes selected. Project will not be generated", and no project is produced. Every non-empty selection succeeds with the answers' project name, the copies `CopySteps` lists and the menu `MenuJson` builds. That menu has the schema base name as its only key, and the selected classes as its inner keys. |
| `Materializer.MenuOmitsMarker` | src/main.js:61-75 | When the selection is drawn from the offered choices, `dh_interface` never gets a menu entry. |

## Left out

- The `npm --version` probe, the `npm install` subprocess, its output piping and its exit handler (src/main.js:22-32, 157-186). These are subprocess I/O.
- Loading the schema and merging imports (`SchemaView.load`, `mergeImports`). Also left out is how `allClasses`, `classInducedSlots` and `classAncestors` compute their results. These are calls into the LinkML library. Their results are inputs here, so inheritance resolution is not modelled.
- The interactive prompt. Its answers are an input.
- Directory creation, directory listing, file copying and file writing, with their error messages (src/main.js:77-155). These are filesystem I/O. `CopySteps` only lists the copies. Path construction with `path.join`, `path.parse` and `path.resolve` is not modelled either: the schema base name is an input.
- The `package.json` literal and the `JSON.stringify` output of both JSON files (src/main.js:98-122, 134, 152). This is serialisation with no logic of the program's own.
- Console colouring, argument parsing and the process exit itself (src/main.js:15-18, 190-192). `err` becomes a `Failure`.
- `Flattener.FlattenAttributes`: the model assumes that `classInducedSlots` always returns an array. The guard at src/main.js:43 allows for a falsy value, but a `null` or `undefined` return would make the inner `for ... of` throw, and that failure is not modelled.
- `Flattener.FlattenAttributes`: the model assumes that every class name has its own definition object. Two names sharing one object, as a YAML alias could produce, are not modelled: the writes for one would then show through the other.
- `Flattener.InsertSlots`: a slot named `__proto__` is treated as an ordinary key. In JavaScript, assigning to that key of a plain object sets the prototype instead.
- `Materializer.MenuEntries`: a Dafny map has no key order. The JavaScript object's key order is insertion order, except that integer-like keys come first. That order only affects how `menu.json` is laid out.
- `JsString.ReplaceFirst`: does not expand the `$$`, `$&`, `` $` `` and `$'` patterns that JavaScript expands in a replacement string. The only call passes `.gitignore`, which has no `$`.
- `JsString.IndexOf`: does not model JavaScript's clamping of a `from` beyond the end of the string (`"abc".indexOf("", 5)` is 3 in JavaScript). The only call starts at 0.
