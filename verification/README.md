# Translation-key reconciler, modelled in Dafny

The script `index.js` keeps a Laravel project's JSON translation files in step
with its Blade templates. It works in three phases:

1. It walks the theme's view directory and scans each template for calls
   written `{{ __('…') }}`. Every key it finds is added to the default
   dictionary `lang/en.json` with the key itself as its value, unless the
   key already has a non-empty value.
2. It sorts that dictionary's keys with a comparator and writes it back.
3. It walks the `lang` directory. Every file whose name ends in `.json`,
   but not in `en.json`, gets every default key in the same way (a missing
   or empty entry becomes the key itself). The file is then sorted, written
   back and counted.

The model keeps the script's own structure:

- `Dictionary`: a locale object as an insertion-ordered sequence of
  key/value entries. It covers lookup, JavaScript truthiness, and property
  assignment, which overwrites an existing key in place or appends a new one.
- `Extract`: the global regular expression, modelled exactly. A match is
  the leftmost one. Its capture is the shortest one followed by `') }}`
  that contains no line terminator. The scan resumes after each match.
  Per-match `replace(…, '$1')` is also modelled.
- `Merge`: the fill-in rule for falsy entries, folded over a list of keys.
- `Sorting`: a stable insertion sort standing in for `Array.prototype.sort`,
  and the rebuild of a fresh object in sorted key order.
- `TreeWalk`: `readDir` over a directory tree held in memory, as a
  recursive method with a loop.
- `Reconcile`: the forEach loops as methods with loops, each proved equal
  to a specification function. Also the locale-file selection, the
  `filesUpdated` counter, and the whole run.

Each method is proved equal to a function. The lemmas then prove what the
script promises about that function.

The script skips every path ending in `en.json`, not only the default file,
so `ben.json` and `ten.json` are skipped too (`Reconcile.SuffixExamples`). A
locale file that does not parse makes `require` throw and ends the run; that
path is not modelled.

## Model

| member | source | states |
|---|---|---|
| Dictionary.Lookup | index.js:51 | a property is found exactly when its key is among the object's keys, and what is found is an entry of the object |
| Dictionary.Put | index.js:52 | after assigning `d[k] = v`, `k` reads `v` and every other key reads what it read before |
| Dictionary.PutKeys | index.js:52 | assignment keeps an existing key in its place, and appends a new key at the end of the enumeration order |
| Dictionary.PutSameValue | index.js:52 | assigning a property the value it already has leaves the object unchanged |
| Dictionary.PutWellFormed | index.js:52 | assignment never creates a duplicate key |
| Extract.CloseFromIsLazy | index.js:47 | the lazy capture ends at the first `') }}` reached without crossing a line terminator; it fails exactly when there is no such end |
| Extract.MatchAtIsLazy | index.js:47 | a match at i is an opening literal plus the shortest capture followed by the closing literal; no match means no capture of any length works |
| Extract.FirstMatchFrom | index.js:47 | the search from i finds a match at the leftmost position where one exists, with none skipped before it |
| Extract.Scan | index.js:47 | the global search returns only real matches, in increasing position, none overlapping the previous one |
| Extract.ScanComplete | index.js:47 | every position where the pattern matches lies inside one of the matches the global search returns |
| Extract.NoMatchNoKeys | index.js:47-48 | a template yields no keys exactly when the pattern matches nowhere in it |
| Extract.CaptureShape | index.js:47 | a capture is the text between an opening literal and the first closing literal after it; it contains no line terminator and no closing literal |
| Extract.ExtractedKeyShape | index.js:47-50 | every extracted key appears in the template wrapped in the opening and closing literals, and is a clean key |
| Extract.MatchedTextMatchesAgain | index.js:50 | searching a matched string again from its start finds the same match |
| Extract.ReplaceOnMatchedText | index.js:50 | the single-match replace applied to a matched string yields exactly its capture |
| Extract.ReplaceYieldsKeys | index.js:47-50 | replacing each matched string in turn yields exactly the extracted keys, one for one |
| Extract.LogInExample | index.js:47-50 | the template `{{ __('Log in') }}` yields the single key `Log in` |
| Merge.MergeAllLookup | index.js:49-53 | after the merge, a listed key whose value was absent or empty maps to itself, and every other key keeps exactly its value |
| Merge.MergeAllKeepsOrder | index.js:51-52 | the merge removes no key and moves none: the old key order is a prefix of the new one |
| Merge.MergeAllKeys | index.js:49-53 | the keys after the merge are exactly the old keys together with the merged ones |
| Merge.MergeAllWellFormed | index.js:51-52 | the merge never creates a duplicate key |
| Merge.MergeAllSnoc | index.js:49-54 | merging one more key is one more step of the loop |
| Merge.MergeAllAppend | index.js:44-56 | merging two key lists one after the other is merging their concatenation |
| Merge.MergeAllSettled | index.js:51-52 | a dictionary in which every listed key is truthy or maps to itself is left exactly as it is |
| Merge.MergeAllIdempotent | index.js:51-52 | merging the same keys a second time changes nothing |
| Sorting.Insert | index.js:57 | inserting x gives a permutation of the list plus x |
| Sorting.SortKeys | index.js:57 | the sorted keys are a permutation of the input keys |
| Sorting.InsertSorted | index.js:57 | for a total-preorder comparator, inserting into a sorted list keeps it sorted |
| Sorting.SortKeysSorted | index.js:57 | for a total-preorder comparator, the sorted keys are in non-decreasing comparator order |
| Sorting.SortKeysOfSorted | index.js:57 | keys already in comparator order are left in place, so the sort is stable on sorted input |
| Sorting.SortKeysDistinct | index.js:57 | sorting distinct keys gives distinct keys |
| Sorting.RebuildKeys | index.js:57 | the rebuild appends the sorted keys, in their order, to the keys of the object being built |
| Sorting.RebuildLookup | index.js:57 | in the rebuilt object each copied key has its source value; any other key keeps its value in the starting object |
| Sorting.RebuildAgreeing | index.js:57 | rebuilding from two objects that agree on the copied keys gives the same object |
| Sorting.SortRebuildSamePairs | index.js:57 | sort-and-rebuild (also line 86) keeps exactly the same key/value pairs and the same size, without duplicates, in sorted key order |
| Sorting.SortRebuildOrdered | index.js:57 | for a total-preorder comparator, the rebuilt object's keys are in non-decreasing comparator order |
| Sorting.SortRebuildIdempotent | index.js:57 | sorting and rebuilding an already sorted-and-rebuilt object gives the same object |
| TreeWalk.ListingAppend | index.js:23-30 | the listing of two runs of entries is the concatenation of their listings |
| TreeWalk.ReadDir | index.js:20-32 | readDir returns the depth-first listing of the tree, in directory-listing order |
| TreeWalk.ListingIsFiles | index.js:20-32 | a path is listed exactly when it is a non-directory entry somewhere under the directory; directories never appear |
| TreeWalk.ListingUnder | index.js:24-28 | every listed path lies under the entry of the directory it came from |
| TreeWalk.UnderDisjoint | index.js:24-28 | paths under two differently named, slash-free entries of one directory are different |
| TreeWalk.ListingDistinct | index.js:20-32 | when names contain no `/` and are unique within each directory, no path is listed twice |
| TreeWalk.EveryFileOnce | index.js:20-32 | with such names, every non-directory entry under the root is listed exactly once, and nothing else is listed |
| Reconcile.TemplateKeysFound | index.js:44-56 | every key the templates contribute is a clean key that appears, wrapped in the literals, in one of the listed templates |
| Reconcile.MergeMatches | index.js:47-55 | the per-template loop leaves the dictionary equal to the merge of the template's extracted keys |
| Reconcile.CollectTemplateKeys | index.js:44-56 | the loop over templates leaves the default dictionary equal to the merge of all templates' keys, file after file |
| Reconcile.MergeKeys | index.js:79-84 | the loop over default keys leaves a locale equal to its merge with those keys |
| Reconcile.ReconciledSpec | index.js:79-86 | after merge and sort, a listed key that was absent or empty maps to itself and every other key keeps its value; the keys are the old ones plus the listed ones, with no duplicates, in comparator order |
| Reconcile.ReconciledIdempotent | index.js:79-86 | merging and sorting a second time with the same keys changes nothing |
| Reconcile.SelectedMembers | index.js:69-75 | a path is selected exactly when it is listed and ends in `.json` but not in `en.json` |
| Reconcile.SuffixExamples | index.js:69-75 | `fr.json` is processed; `en.json`, `ben.json`, `ten.json` and a `.php` file are skipped |
| Reconcile.LocaleUpdatesSpec | index.js:67-91 | exactly the selected files are written, once each in listing order, each with its own contents merged with the default keys and sorted |
| Reconcile.UpdateLocaleFiles | index.js:64-91 | the locale loop writes what the specification says, and `filesUpdated` equals the number of selected files |
| Reconcile.Run | index.js:41-91 | the whole run: the default dictionary is the merge of every template key, sorted, and the locale writes follow from it |
| Reconcile.WrittenLocale | index.js:79-86 | a written locale is a selected listed file; each default key in it keeps its non-empty value or maps to itself |
| Reconcile.RunOutcome | index.js:41-86 | after a run, the default dictionary holds every template key, and every written locale holds every default key |

## Left out

- File-system I/O is left out. Reading templates, parsing JSON with `require`, and writing files are parameters or outputs: a text per path, a parsed dictionary per path, and the list of files written.
- The `require` module cache is left out. Locale paths are distinct (`TreeWalk.EveryFileOnce`) and files ending in `en.json` are skipped, so no file is read after it has been written.
- JSON errors are left out. A malformed or missing file makes the script throw and stop; the model has no error path for it.
- JSON layout is left out. The model states the object that `JSON.stringify(…, null, 4)` receives, not its text.
- Command-line handling is left out: the `--silent`, `--verbose` and `--theme` options, logging, and the theme-directory path.
- Path glue is left out. The theme-directory strip and re-join on lines 45-46 lead back to the same file. `path.join` normalisation is taken as plain `dir + "/" + name`.
- `localeCompare` with base sensitivity is not modelled. It is a comparator parameter, and the ordering lemmas assume only that it is a total preorder.
- Sorting.SortKeys: stability is modelled by the insertion sort, but it is stated only for input that is already sorted, not for keys that compare equal in general.
- Dictionary values are strings only. Numbers, arrays or nested objects in a locale file are not modelled, and neither is their truthiness.
- JavaScript object-key quirks are not modelled: keys that look like integers being enumerated first, and `__proto__` as a key.
- Inherited properties are not modelled. The tests `!lang[key]` and `!existingLang[key]` (lines 51 and 81) also read members of `Object.prototype`, so a key such as `constructor`, `toString`, `valueOf` or `hasOwnProperty` reads as a truthy function and the script never adds it; `Merge.MergeKey` treats it as absent and adds it.
- Symbolic links are not modelled. `fs.statSync` follows them, so a link to a directory is walked as that directory and a link cycle recurses until the stack overflows; a finite tree cannot express such a cycle. FIFOs, sockets and links to files are non-directory entries and are listed like files.
- Characters are code points; JavaScript strings are UTF-16 code units. A character outside the Basic Multilingual Plane is one `char` in the model and two code units in JavaScript. This changes neither the matches (the literals are ASCII, and `.` consumes both halves of a surrogate pair) nor the `.json` and `en.json` suffix tests.
- The order in which `fs.readdirSync` lists entries is taken as given by the tree; the model does not sort it.
- TreeWalk.ListingDistinct: "exactly once" needs entry names with no `/` and unique within a directory, which a real file system guarantees.
