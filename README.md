# zotero2papis in Dafny

A model of `ZoteroSQLParser`, the converter that turns a Zotero library
(its `zotero.sqlite` database and its `storage/` directory) into a papis
library: one directory per item, holding an `info.yaml` record and the
item's attachments.

The database access is replaced by its result rows, given in the order
the queries return them. On those rows, the model follows the converter
step by step:

- `getTuple` builds the SQL tuple literal spliced into the `IN` / `NOT IN`
  filters (module `SqlTuple`, with a parser that reads the literal back).
- `getFields` folds the field rows into a dictionary after the field
  renaming table (`Fields`).
- `getCreators` builds, per creator role, the `" and "`-joined
  "surname, given" string and the `<role>_list` list of people
  (`Creators`).
- `getTags` and `getCollections` collect the name lists stored under
  "tags" and "project" (`TagsCollections`).
- `re.search(r'.*Citation Key: (\w+)', extra)` picks the citation key out of
  the "extra" field (`CitationKey`). The model captures the leftmost start
  and the greedy `.*`, which does not cross a newline. So the key found is
  the last one on the first line that has one.
- `getFiles` (`Attachments`):
  - The first loop takes the basename of every primary attachment, one
    whose content type is on the whitelist. The last one fixes the target
    directory: `join(out_dir, basename(dirname(path)))`.
  - The second loop keeps every `storage:` attachment. It adds its relative
    name to the file list and makes a (original, destination) copy
    candidate.
  - The copy step itself is I/O. The model returns the candidates and the
    decision that selects those to copy.
  - `basename`, `dirname` and `join` are modelled as CPython's `posixpath`
    defines them (`PosixPath`).
- The body of `run` (`Assembler`):
  - type translation;
  - the verbose-mode read of the title;
  - the citation key;
  - the record built by successive `dict.update` calls;
  - the path of `info.yaml`;
  - the loop over the items, which stops at the first item that raises.

Each loop of the converter is a Dafny method proved equal to a function of
its input rows. The lemmas state the properties of those functions:

- the keys of each dictionary and which row's value wins;
- order and the absence of deduplication;
- round trips (tuple literal, path scheme, `join`/`dirname`/`basename`);
- when an item fails and with which error;
- what the run exports before it stops.

Behaviour of the converter worth knowing, as the model states it:

- The target directory is always named after the parent directory of the
  last primary document. A primary path in the `storage:` scheme has no
  '/', so its directory is `out_dir` itself
  (`Attachments.StoredPrimaryTarget`).
- `info.yaml` is opened with `w+` in the target directory, so a run
  rewrites it every time (`Assembler.ExportSuccessSpec` gives its path).
- With `verbose` on, which is the default of the command line, reading
  `fields["title"]` raises on an item without a title and ends the run
  (`RunError.MissingTitle`).
- An item without any primary document ends the run: `path` is read after
  the first loop without ever having been bound (`FilesError.PathUnbound`,
  `RunError.NoPrimaryFile`).
- The file list is not deduplicated. A primary document with a `storage:`
  path is listed twice under two different names: first the whole path,
  prefix included, which names no file in the target directory, then its
  relative name (`Attachments.StoredPrimaryListedTwice`).
- Field values are stored as the database returns them.
- The primary loop copies nothing. Only the second loop makes copy
  candidates, and it copies one only when both its original and its
  destination already exist (see "Findings").

## Model

| member | source | states |
|---|---|---|
| `SqlTuple.GetTuple` | zotero2papis/zotero2papis.py:49-55 | The loop builds `"(" + ... + ")"` with each element in double quotes and a comma before every element but the first: exactly `TupleLiteral(elements)`. |
| `SqlTuple.TupleRoundTrip` | zotero2papis/zotero2papis.py:49-55 | The literal determines its elements: for elements without '"', parsing the literal gives back the element list, in order. |
| `SqlTuple.QuotedListRoundTrip` | zotero2papis/zotero2papis.py:50-53 | The comma-separated quoted elements (the literal without its parentheses) parse back to the elements, for elements without '"'. |
| `SqlTuple.CommaCount` | zotero2papis/zotero2papis.py:50-53 | For elements without ',', the literal holds one comma fewer than there are elements, and none for the empty list. |
| `SqlTuple.QuotedListCommas` | zotero2papis/zotero2papis.py:50-53 | The same comma count for the list without its parentheses. |
| `SqlTuple.QuotedList` | zotero2papis/zotero2papis.py:49-54 | The quoted list is empty exactly when there are no elements. |
| `SqlTuple.ExcludedTypeTuple` | zotero2papis/zotero2papis.py:33-36 | The excluded types "note" and "attachment" give the filter `("note","attachment")`. |
| `SqlTuple.EmptyTuple` | zotero2papis/zotero2papis.py:49-55 | No elements give `()`. |
| `Fields.GetFields` | zotero2papis/zotero2papis.py:81-86 | The loop stores each row under its translated name, later rows overwriting earlier ones: exactly `FieldMap(rows)`. |
| `Fields.FieldMapKeys` | zotero2papis/zotero2papis.py:82-85 | The dictionary's keys are exactly the translated names of the rows. |
| `Fields.FieldMapLastWins` | zotero2papis/zotero2papis.py:82-85 | A row that no later row overwrites gives its key's value: last write wins. |
| `Fields.FieldKeyRenamesOnlyDoi` | zotero2papis/zotero2papis.py:20 | Only "DOI" is renamed, to "doi"; every other field name is kept. A "doi" key comes from a "DOI" row or a "doi" row. |
| `Fields.TranslateTypeOnlyJournalArticle` | zotero2papis/zotero2papis.py:21 | Only "journalArticle" is renamed, to "article"; every other item type is kept. |
| `Creators.GetCreators` | zotero2papis/zotero2papis.py:118-136 | The loop adds one row after the other to the role's string and to the role's `_list`: exactly `CreatorMap(rows)`. |
| `Creators.CreatorMapKeys` | zotero2papis/zotero2papis.py:120-135 | The keys are the roles that occur and, for each, the role followed by "_list". |
| `Creators.CreatorEntries` | zotero2papis/zotero2papis.py:120-135 | When no role is another role's `_list` key, every role holds the " and "-join of the "surname, given" of its rows, in row order. Its `_list` key holds the same people as `{given_name, surname}` entries, in the same order. |
| `Creators.TwoOfOneRole` | zotero2papis/zotero2papis.py:125-135 | Two creators of one role give exactly two keys, "A and B" in row order and the two-entry list. |
| `Creators.AddCreatorStarts` | zotero2papis/zotero2papis.py:126-135 | The first person of a role starts the string without a leading " and " and starts a one-entry list. |
| `Creators.AddCreatorExtends` | zotero2papis/zotero2papis.py:126-135 | A further person of a role appends " and " plus the person to the string, and the person to the list. |
| `Creators.PeopleOfAppend` | zotero2papis/zotero2papis.py:120-135 | The people of a role from two runs of rows are those of the first run followed by those of the second: row order is kept. |
| `Creators.JoinWithSnoc` | zotero2papis/zotero2papis.py:126-129 | Appending to a non-empty joined string adds exactly one separator and the new part. |
| `Creators.JoinWithEnds` | zotero2papis/zotero2papis.py:126-129 | The joined string starts with its first part and ends with its last: no leading or trailing " and ". |
| `Creators.JoinWithNonEmpty` | zotero2papis/zotero2papis.py:126-129 | A join whose first part is non-empty is non-empty. |
| `TagsCollections.GetTags` | zotero2papis/zotero2papis.py:156-162 | The result has the single key "tags", holding every tag row in order. Its guard compares a list with a string, so no row is ever skipped. |
| `TagsCollections.GetCollections` | zotero2papis/zotero2papis.py:184-185 | The result has the single key "project", holding every collection name in order. |
| `CitationKey.WordRun` | zotero2papis/zotero2papis.py:332 | `(\w+)` takes the longest run of word characters at its position: the run lies in the text, is all word characters, and is followed by the end of the text or a non-word character. |
| `CitationKey.LastOccurrence` | zotero2papis/zotero2papis.py:332 | Greedy `.*` on one line: the result is an occurrence of "Citation Key: " plus a word character in the given range, with none after it in that range; or there is no occurrence in the range. |
| `CitationKey.SearchFrom` | zotero2papis/zotero2papis.py:332 | A match found at or after the start position is an occurrence of the marker. |
| `CitationKey.SearchFromSpec` | zotero2papis/zotero2papis.py:332 | `re.search` finds nothing exactly when there is no occurrence. Otherwise it finds an occurrence on the first line that has one, and the last occurrence of that line. |
| `CitationKey.CitationRef` | zotero2papis/zotero2papis.py:329-334 | The reference is the item key, or a non-empty string of word characters. |
| `CitationKey.CitationRefFound` | zotero2papis/zotero2papis.py:329-334 | A non-empty "extra" holds an occurrence at p, every earlier occurrence is on p's line, and no later one is. Then the reference is the word run after the marker at p. |
| `CitationKey.CitationRefDefault` | zotero2papis/zotero2papis.py:329-334 | Without "extra", with an empty "extra" or without any occurrence, the reference is the item key. |
| `CitationKey.SecondLineExample` | zotero2papis/zotero2papis.py:329-334 | "arXiv:1234 [cs]\nCitation Key: smith2020" gives the reference "smith2020" instead of the item key. |
| `CitationKey.LineEnd` | zotero2papis/zotero2papis.py:332 | `.` stops at the first newline at or after the position, or at the end of the text. |
| `PosixPath.HeadLengthSpec` | zotero2papis/zotero2papis.py:223 | The split point of `basename` and `dirname` follows the last '/' of the path, with no '/' after it. |
| `PosixPath.HeadLengthUnique` | zotero2papis/zotero2papis.py:223 | That split point is the only one with a '/' (or the start) before it and no '/' after it. |
| `PosixPath.BasenameSplit` | zotero2papis/zotero2papis.py:230 | A path is its head followed by its basename; the basename holds no '/'. |
| `PosixPath.DirnameSpec` | zotero2papis/zotero2papis.py:223 | `dirname` gives a prefix of the path. It is empty exactly when the path has no '/', and ends in '/' only when it is all slashes. |
| `PosixPath.RStripSlashesSpec` | zotero2papis/zotero2papis.py:223 | `rstrip('/')` leaves a prefix not ending in '/', followed in the string by slashes only. |
| `PosixPath.JoinSpec` | zotero2papis/zotero2papis.py:224 | `join` ends with its second component. It starts with the first unless the second is absolute, and an absolute second component replaces the first. |
| `PosixPath.BasenameOfJoin` | zotero2papis/zotero2papis.py:227 | The basename of a directory joined with a plain name is that name. |
| `PosixPath.DirnameOfJoin` | zotero2papis/zotero2papis.py:227 | The dirname of a directory without a trailing '/' joined with a plain name is that directory. |
| `PosixPath.HeadOfSplit` | zotero2papis/zotero2papis.py:230 | Splitting after a '/' (or at the start) in front of a name without '/' is the basename split. |
| `PosixPath.JoinDirnameBasename` | zotero2papis/zotero2papis.py:223-227 | `join(dirname(p), basename(p)) == p` whenever the last separator of p is not doubled. |
| `PosixPath.LegacyDirectoryExample` | zotero2papis/zotero2papis.py:223 | The directory named by `/lib/X/Y/Title-abc.pdf` is "Y". |
| `Attachments.PrimaryRowsSpec` | zotero2papis/zotero2papis.py:199-211 | The first query returns exactly the attachments whose content type is whitelisted, and no more rows than there are. |
| `Attachments.SchemeRoundTrip` | zotero2papis/zotero2papis.py:258-261 | Every path is either "storage:" plus a relative name or a legacy path. It is the stored kind exactly when its first 8 characters are "storage:", and writing the scheme back gives the path. |
| `Attachments.RenderRoundTrip` | zotero2papis/zotero2papis.py:258-261 | A scheme is read back from its rendering, unless a legacy path starts with "storage:". |
| `Attachments.PrimaryNames` | zotero2papis/zotero2papis.py:215-230 | The first loop appends one name per primary row. |
| `Attachments.PrimaryNamesAt` | zotero2papis/zotero2papis.py:230 | The i-th name of the first loop is the basename of the i-th primary row's path. |
| `Attachments.ScanPrimary` | zotero2papis/zotero2papis.py:215-230 | The first loop's names are `PrimaryNames(primary)`. Its target directory is unbound without a primary row, and otherwise that of the last primary row. |
| `Attachments.ScanStored` | zotero2papis/zotero2papis.py:249-273 | The second loop appends the relative name of every stored attachment, in row order, and makes one copy candidate per stored attachment. A candidate is copied exactly when the test of line 267 holds: its original and its destination both exist. |
| `Attachments.GetFiles` | zotero2papis/zotero2papis.py:187-278 | Both loops together: exactly `FilesOf`, with failure when the first loop binds no path, and copies chosen by the test of line 267 (`Attachments.FilesOfSpec`). |
| `Attachments.FilesOfSpec` | zotero2papis/zotero2papis.py:215-278 | It fails exactly when there is no primary row. Otherwise the file list is every primary basename in order, then every stored name in order, with no deduplication. The target directory is `join(out_dir, basename(dirname(last primary path)))`, each candidate's destination is the target directory joined with its name, and a candidate is copied exactly when its original and its destination both exist. |
| `Attachments.StoredPrimaryListedTwice` | zotero2papis/zotero2papis.py:215-266 | A primary document with a slash-free `storage:` path is listed twice: first as the whole path, prefix included, then as its relative name, and the two differ. |
| `Attachments.StoredNamesAppend` | zotero2papis/zotero2papis.py:249-266 | The stored names of two runs of rows are those of the first followed by those of the second. |
| `Attachments.JobsMatchNames` | zotero2papis/zotero2papis.py:258-266 | The k-th stored row has a "storage:" path. The k-th name is its relative part, and the k-th candidate copies `zot_dir/storage/<key>/<name>` to `target_dir/<name>`. |
| `Attachments.StoredRowsSpec` | zotero2papis/zotero2papis.py:257-258 | The second loop keeps exactly the rows with a stored path, and none when no path is stored. |
| `Attachments.AsWrittenOnlyOverwrites` | zotero2papis/zotero2papis.py:267-273 | As written, the copy step copies exactly the candidates whose original and destination both exist, so it only ever overwrites. |
| `Attachments.FreshAttachmentNotCopied` | zotero2papis/zotero2papis.py:267-273 | An attachment present in Zotero but absent from the archive is not copied as written, and is copied by the intended test. |
| `Attachments.CopiesSpec` | zotero2papis/zotero2papis.py:267-273 | The intended copy step copies exactly the candidates whose original exists and whose destination does not. Every candidate with an existing original ends up copied or already present. |
| `Attachments.DecisionsComplementary` | zotero2papis/zotero2papis.py:267-273 | Among candidates with an existing original, the written test copies exactly those the intended test skips. |
| `Attachments.DestInTargetDir` | zotero2papis/zotero2papis.py:263 | A stored file lands in the target directory under its own name: dirname and basename of the destination give them back. |
| `Attachments.LegacyTargetExample` | zotero2papis/zotero2papis.py:223-224 | A primary path `/lib/X/Y/Title-abc.pdf` puts the item in a directory named "Y". |
| `Attachments.StoredPrimaryTarget` | zotero2papis/zotero2papis.py:223-224 | A primary path in the `storage:` scheme has no directory part, so the target directory is `join(out_dir, "")`. |
| `Assembler.TextMap` | zotero2papis/zotero2papis.py:343 | The fields enter the record under the same keys, each value as text. |
| `Assembler.ExportItem` | zotero2papis/zotero2papis.py:324-358 | One pass of the loop of `run` gives exactly `ExportOf`. It fails on a missing title in verbose mode and on a failing `getFiles`. Otherwise the record is built by the updates in order, written to `info.yaml` in the target directory. |
| `Assembler.RecordSpec` | zotero2papis/zotero2papis.py:336-352 | The record holds the reference, tags, collections and files under their own keys. It holds every creator entry not under one of those keys, and every field that no creator entry or one of those keys overrides. |
| `Assembler.RecordKeysSpec` | zotero2papis/zotero2papis.py:336-352 | The record's keys are the eight fixed keys, the field keys and the creator keys. Its "type" is the translated item type unless a field or creator entry is named "type". |
| `Assembler.KeysOfParts` | zotero2papis/zotero2papis.py:336-352 | The keys of the dictionary the updates build are the union of the keys of each update. The base "type" survives unless a later update holds the key. |
| `Assembler.RecordOfParts` | zotero2papis/zotero2papis.py:343-352 | Successive updates: a later update's value wins over an earlier one for each key, and the keys are the union. |
| `Assembler.ExportFailureSpec` | zotero2papis/zotero2papis.py:327-350 | An item fails exactly when verbose mode finds no title or no attachment is a primary document. The error is the missing title when that applies, and it names the item. |
| `Assembler.ExportSuccessSpec` | zotero2papis/zotero2papis.py:350-358 | An item with a title, or exported with verbose mode off, and with a primary document is exported. Its directory is that of the last primary document, its `info.yaml` lies in that directory under that name, and its record and copies are those built from its files (copies chosen by the test of line 267). |
| `Assembler.Outcomes` | zotero2papis/zotero2papis.py:322-358 | One outcome per item. |
| `Assembler.OutcomesAt` | zotero2papis/zotero2papis.py:322-358 | The k-th outcome is that of the k-th item. |
| `Assembler.Run` | zotero2papis/zotero2papis.py:321-358 | The loop over the item rows gives exactly `RunWith(items, Outcomes(items, ...))`. |
| `Assembler.IncludedItems` | zotero2papis/zotero2papis.py:307-319 | The item query returns exactly the items that are neither notes nor attachments: each such item is kept and no other, and never more items than there are. |
| `Assembler.IncludedItemsAppend` | zotero2papis/zotero2papis.py:307-319 | The filter keeps the order of the items: filtering two runs of items gives the filtered first run followed by the filtered second. |
| `Assembler.Kept` | zotero2papis/zotero2papis.py:307-319 | The filter keeps no more outcomes than there are items. Which outcomes it keeps is stated by `Assembler.KeptOutcomes`: those of `IncludedItems`, in order. |
| `Assembler.KeptOutcomes` | zotero2papis/zotero2papis.py:307-322 | The outcomes the loop sees are exactly those of the items the query returns, in order. |
| `Assembler.RunWithSpec` | zotero2papis/zotero2papis.py:321-358 | The run exports the kept items one by one, in order, until the first failure, whose error ends the run. Without a failure, every kept item is exported. |
| `Assembler.QuietRunStopsOnlyWithoutPrimary` | zotero2papis/zotero2papis.py:322-358 | With verbose mode off, only an item without a primary document stops the run; a missing title never does. |

## Left out

- The SQLite connection and the text of the queries: each query is
  replaced by the rows it returns, in the order the database returns them.
  The `ORDER BY` clauses of the item and creator queries are taken as given
  by that order.
- The two attachment queries have no `ORDER BY`. The model assumes the
  first returns the whitelisted rows in the order the second returns all
  rows (`Attachments.PrimaryRows`).
- `get_number_of_entries` (`zotero2papis/zotero2papis.py:280-300`): a
  count query that `run` does not use.
- File system effects. `os.path.exists` is a fixed set `existing` of the
  paths that exist before the run. Copies and directories made during the
  run do not update it.
- `shutil.copyfile`, its bare `except` and its failure message are not
  modelled. A copy into a target directory that does not exist yet fails
  in the converter, because `os.makedirs` comes only after `getFiles`
  returns. The model only yields which candidates are copied.
- `os.makedirs` and the `yaml.dump` into `info.yaml` are left out. The
  model yields the directory, the path of `info.yaml` and the record.
- All `print` output, including the verbose traces, is left out. The
  verbose-mode read of `fields["title"]` is kept, because it can raise.
- The `click` command line and `setup.py` are left out. The command line
  always passes `verbose=True`; the model takes `verbose` as a parameter.
- The `defaultFile` branch at the end of `getFiles` is not modelled. It
  reads the bare name `defaultFile`, which is not defined (only the
  attribute `self.defaultFile` is), so it would raise `NameError`. It never
  runs, because the file list is never empty once the first loop has bound
  `path`.
- The unused `original` and `dest` of the first loop of `getFiles` are
  left out: that loop copies nothing.
- `\w` is taken on ASCII letters, digits and '_'. Python matches Unicode
  word characters.
- Attachment paths and field values are strings. A NULL path, which
  makes `path[:8]` raise, is not modelled.
- Creators.CreatorEntries: requires that no creator role is another
  role's `_list` key. On such a clash the converter stores a string and a
  list under one key, and the lemma says nothing about that case.
- Creators.GetCreators and Creators.AddCreator do not model that clash as
  the converter behaves. When a row of role `x_list` follows one of role
  `x`, the converter finds the list under `x_list`, extends it with the
  characters of " and " and of the new "surname, given", and keeps that
  list; `AddCreator` replaces it with the string alone. When a row of role
  `x` follows one of role `x_list`, the converter calls `append` on the
  string under `x_list` and raises; `AddCreator` starts a new list there.
  Zotero's creator types never clash this way.
- Integers are unbounded; item IDs are only carried along.

## Findings

| source | as written | input that shows it | evidently intended | confidence | as-written member | corrected member |
|---|---|---|---|---|---|---|
| zotero2papis/zotero2papis.py:267 | A stored attachment is copied only when both its original and its destination already exist. Otherwise "Already exists" is printed. | A candidate `CopyJob("a", "b")` where only "a" exists: the original is in Zotero's storage and the archive does not have it yet. It is not copied (`Attachments.FreshAttachmentNotCopied`). | Copy when the original exists and the destination does not, as the "Already exists" message implies. | not executed | `Attachments.CopiesAsWritten` | `Attachments.Copies` |

`Attachments.AsWrittenOnlyOverwrites` proves that the test as written only
ever overwrites files that are already in the archive. `Attachments.CopiesSpec`
proves that the intended test never overwrites and leaves no candidate with
an existing original behind. `Attachments.DecisionsComplementary` proves the
two tests disagree on every candidate whose original exists. The operations
of the model follow the converter as written: the second loop of `getFiles`
(`Attachments.ScanStored`), `Attachments.FilesOf` and every export built on
them copy by `Attachments.CopiesAsWritten`. `Attachments.Copies` is the
corrected selection, to be used in their place once the test is fixed.
