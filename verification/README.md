# folder-to-csv, modelled in Dafny

folder-to-csv is a single-page tool. The user picks a folder, sees the list of
file names it holds, deletes entries they do not want, and downloads the names
as a one-column CSV file (`filename`). Before export every name goes through
three steps:

1. its last extension is cut off at the last `.`;
2. a user-supplied prefix is prepended;
3. every match of a user-supplied regular expression is removed.

All of this lives in the `App` component (`src/App.tsx`). This project models
its three pieces of logic as pure functions over immutable values:

- `base.dfy` (module `Base`): `Option` for the nullable picker selection and
  `Result` for an export that aborts.
- `filenames.dfy` (module `FileNames`): `LastIndexOf` and `StripExtension`.
  `StripExtension` is characterised exactly: the stem is a prefix of the name,
  and the rest is one `.` followed by dot-free text. A name without `.` is
  returned unchanged. There are also lemmas for the double extension, the
  dotfile, and when stripping is idempotent.
- `arrays.dfy` (module `Arrays`) models the two array primitives the
  component applies to its list. `RemoveAt` is `filter` with an index test.
  `MapOrAbort` is `map` with a callback that may throw, where the first
  exception aborts the whole call.
- `session.dfy` (module `Session`): the page state `Session(files, prefix,
  removePattern)`, folder ingestion (`Upload`) and entry deletion
  (`RemoveFile`). The three `useState` hooks (src/App.tsx:26-28) become the
  three fields. `Initial` holds their starting values: no files, an empty
  prefix and an empty pattern.
- `export.dfy` (module `Export`): the per-name pipeline (`Derive`), the
  whole-list derivation (`DeriveAll`) and the `{ filename }` records
  (`ExportRows`). There are lemmas relating export to deletion.

The regular-expression engine is a parameter,
`compile: string -> Option<string -> string>`. For a pattern source it gives
`None` when the pattern does not compile, which is where the component's
`new RegExp` throws. Otherwise it gives the function that removes every match.
An invalid pattern aborts the whole export (`Failure(InvalidPattern(p))`), so
no partial record list exists. The component compiles the pattern inside the
per-file callback. With an empty list the pattern is therefore never compiled,
and export succeeds with no records even when the pattern is invalid
(`ExportEmptyListNeverCompiles`).

What the component does, as written:

- Upload keeps every name the picker reports. Hidden (`.`-prefixed) names,
  empty names and duplicates are all kept. The list is set to exactly the
  picked names, with no "no files found" notice, and only `File.name` is read
  (never a relative path). `ExportDotfileScenario` shows what this means: the
  list `a.txt`, `b.txt`, `.hidden` exports three rows, and the third is the
  empty name.
- Folders come in only through the `webkitdirectory` file input
  (src/App.tsx:86-91). The component has no drag-and-drop handler.
- The export function itself has no empty-list guard. Only the button is
  disabled, which is a rendering concern.

## Model

| member | source | states |
|---|---|---|
| FileNames.LastIndexOf | src/App.tsx:49 | the result is -1 exactly when the character does not occur; otherwise that position holds it and no later position does |
| FileNames.StripExtension | src/App.tsx:49-52 | the stem is a prefix of the name; a name without `.` is unchanged; otherwise what was cut is one `.` followed by dot-free text; the stem is strictly shorter exactly when the name contains `.` |
| FileNames.StripExtensionCharacterisation | src/App.tsx:49-52 | both directions: a candidate stem is the result exactly when it is a prefix whose remainder is a single extension, or the name has no `.` and the stem is the whole name |
| FileNames.StripExtensionOfSplit | src/App.tsx:49-51 | a stem followed by one extension strips back to that stem |
| FileNames.StripExtensionKeepsInnerExtension | src/App.tsx:49-51 | only the last extension goes: a stem with two extensions (`archive.tar.gz`) strips to the stem with the first extension kept (`archive.tar`) |
| FileNames.StripExtensionDotfile | src/App.tsx:49-51 | a name whose only `.` is its first character (such as `.bashrc`) strips to the empty name |
| FileNames.StripExtensionIdempotentIff | src/App.tsx:49-52 | stripping twice equals stripping once exactly when the name holds at most one `.` |
| Arrays.RemoveAt | src/App.tsx:42 | the index filter deletes exactly the element at an in-range index and keeps the rest in order (`xs[..i] + xs[i+1..]`); an out-of-range index deletes nothing |
| Arrays.RemoveAtShifts | src/App.tsx:42 | after deleting position i the length drops by one, earlier entries keep their places, and each later entry moves down one place |
| Arrays.RemoveAtMultiset | src/App.tsx:42 | deleting position i removes exactly that one element from the multiset of entries |
| Arrays.MapOrAbort | src/App.tsx:46-62 | the map succeeds exactly when every callback call does, and then gives one result per element, in order; otherwise its error is that of the first failing element, with every earlier element succeeding |
| Arrays.MapOrAbortAppend | src/App.tsx:46-62 | each element is mapped independently: a concatenation maps exactly when both parts do, and then gives the concatenation of their results |
| Arrays.MapOrAbortSlice | src/App.tsx:46-62 | mapping any slice of a list gives the same slice of the list's results |
| Arrays.MapOrAbortRemoveAt | src/App.tsx:42-62 | deleting a position and then mapping gives the full map's results with that one position deleted |
| Session.NamesOf | src/App.tsx:34-37 | the copied names are as many as the picked files, and name i is picked file i's name |
| Session.Upload | src/App.tsx:30-39 | a null selection leaves the state untouched; otherwise the list becomes the selected names, in selection order, same count, none filtered; prefix and pattern are untouched |
| Session.UploadReplaces | src/App.tsx:38 | an upload replaces the list instead of appending: after two uploads only the second selection remains |
| Session.UploadKeepsHiddenNames | src/App.tsx:34-38 | selecting `a.txt`, `b.txt`, `.hidden` lists all three in order; the hidden name is not dropped |
| Session.RemoveFile | src/App.tsx:41-43 | deleting an in-range entry removes only that entry, keeping the others in order; an out-of-range index changes nothing; prefix and pattern are untouched |
| Export.Derive | src/App.tsx:46-61 | a name fails to derive exactly when the pattern is non-empty and does not compile; with an empty pattern the result is prefix + stripped name (the `if (prefix)` test makes no difference); otherwise the compiled removal is applied last, to prefix + stripped name |
| Export.DerivePrefixVerbatim | src/App.tsx:54-56 | with no pattern the derived name begins with the prefix verbatim, ends with the stripped name, and its length is the sum of both lengths |
| Export.DeriveStripsBeforePrefixing | src/App.tsx:49-56 | stripping happens before prefixing: a dotted prefix in front of a dot-free name survives whole, whereas stripping after prefixing would cut into the prefix |
| Export.DeriveEmptySettings | src/App.tsx:54-60 | with an empty prefix and an empty pattern the derived name is just the stripped name |
| Export.DerivePrefixExample | src/App.tsx:49-56 | prefix `IMG_` on `001.jpg` gives `IMG_001`, with no separator |
| Export.DeriveAll | src/App.tsx:46-62 | the mapping aborts exactly when the list is non-empty and the pattern is non-empty and invalid; otherwise it yields one derived name per file, in order |
| Export.Rows | src/App.tsx:64 | one `{ filename }` record per derived name, in order, holding that name |
| Export.ExportRows | src/App.tsx:45-64 | export yields one record per file, in list order, each holding that file's derived name; it aborts exactly when there is a file and the pattern is non-empty and invalid, and the error then names that pattern |
| Export.RowsAfterRemove | src/App.tsx:64 | building records commutes with deleting a position |
| Export.ExportAfterRemove | src/App.tsx:41-64 | deleting entry i and then exporting gives the full export's records with record i deleted; every other record and its order are unchanged |
| Export.ExportNoSettings | src/App.tsx:46-64 | with an empty prefix and an empty pattern, record i is the stripped name of file i |
| Export.ExportDotfileScenario | src/App.tsx:46-64 | the list `a.txt`, `b.txt`, `.hidden` with no prefix and no pattern exports the records `a`, `b` and the empty name |
| Export.InitialExportsNothing | src/App.tsx:26-28 | the starting state has no files, an empty prefix and an empty pattern, and exporting it succeeds with no records |
| Export.ExportEmptyListNeverCompiles | src/App.tsx:46-62 | with no files the pattern is never compiled, so export succeeds with no records even for an invalid pattern |

## Left out

- Regular-expression semantics (`new RegExp(removePattern, "g")` and `.replace`). The engine is a parameter. Only its two observable outcomes are modelled: the pattern does not compile, or a removal function comes back.
- CSV serialisation (`Papa.unparse`, src/App.tsx:65). It is a third-party library whose quoting rules are not part of this model. The model stops at the `{ filename }` records.
- Blob, object URL, anchor element and download triggering (src/App.tsx:66-74). These are browser I/O.
- The prefix and pattern text-field bindings (src/App.tsx:103-115), MUI rendering (src/App.tsx:77-144) and the `disabled` guard on the export button (src/App.tsx:118). These are UI concerns. A text field's `onChange` only replaces `prefix` or `removePattern`, which is a record update on `Session`.
- Export does not change `files`. In this model a session is an immutable value and export returns only records, so this holds by construction rather than as a stated contract.
- Arrays.RemoveAt: the delete index is an integer. A non-integer JavaScript number, which also deletes nothing, is not modelled because the UI only passes list positions.
- FileNames.LastIndexOf: strings are sequences of Dafny characters. JavaScript's UTF-16 code units and surrogate pairs are not modelled separately; the `.` search is the same either way.
