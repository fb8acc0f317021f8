# FileTagging tag store — a Dafny model

FileTagging is a desktop tool that attaches free-form tags to files and finds
files by tag. At its core is `FileTagManager` (`app.py`). It keeps a Python
dict from path string to a list of tags, with these parts:

- **Mutators.** `add_tags`, `add_tags_to_directory` and `remove_tag` change the dict in place.
- **Queries.** `get_tags` and `search_by_tags` read it.
- **Dirty flag.** `queue_save` sets `_pending_changes` and wakes a background saver thread.
- **Saver.** The saver thread calls `_save_db_with_retry`. That method writes the dict to a temporary file and renames it over `file_tags.json`, retrying with back-off. On win32 it first removes the old file.

This project models that core and proves what each operation does.

| file | module | contents |
|---|---|---|
| `tag_text.dfy` | `TagText` | `tag.strip().lower()`: Python's `str.isspace` set for `strip`, ASCII letters for `lower` |
| `tag_lists.dfy` | `TagLists` | The per-path list. The append loop of `add_tags` (`MergeTags`) against a reference definition (`existing + Dedup(Kept(...))`), and `list.remove` (`RemoveFirst`). |
| `tag_store.dfy` | `TagStore` | Each operation's effect on the dict, as functions on a `map` plus its key insertion order. Also search and the progress calls. |
| `save_retry.dfy` | `SaveRetry` | The retry loop as a method driven by the outcome each attempt meets, against a recursive specification `RetryFrom` |
| `manager.dfy` | `Manager` | The class `FileTagManager`, described below |

The class `FileTagManager` has these fields:

- `tagsDb`, the dict;
- `order`, its key insertion order;
- `pending`, for `_pending_changes`;
- `signals`, the wake-up tokens in the save queue;
- `persisted`, the content of the database file, or `None` once a save has removed that file without writing a new one.

Its methods loop and update those fields as the Python does, and each is
proved against the `TagStore` / `SaveRetry` functions.

The dict is a `map` plus a key sequence because `search_by_tags` returns paths
in dict iteration order. That order is insertion order: a new key goes last,
and a deleted key leaves the order. `Valid()` says the sequence lists each
key of the map exactly once.

Some behaviours of the code that a reader might not expect:

- **Empty entries.** `add_tags` with only blank tags still creates `path: []` (app.py:130-131); see `TagStore.AddBlankTagsCreatesEntry`.
- **Uncanonicalised paths.** `add_tags_to_directory` uses the joined walk paths as they are (app.py:154), while `add_tags`, `remove_tag` and `get_tags` canonicalise.
- **No doubling on the win32 branch.** When removing the old file raises `PermissionError`, the loop sleeps and continues without doubling the delay (app.py:86-88).
- **Returns without writing.** When the last attempt meets that win32 branch, the loop ends and the method returns normally without having written anything (`SaveRetry.AllRemoveDeniedReturns`, `SaveRetry.FailTwiceThenDenied`).
- **Flag cleared without a save.** The worker clears the dirty flag after that normal return as well (`Manager.FileTagManager.SaveWorkerStep`).
- **Lost database file.** On win32 an attempt can remove the old file (app.py:85) and then fail to rename (app.py:90). Later attempts skip the remove because the file no longer exists (app.py:82). If none of them writes, no database file is left (`SaveRetry.RemovedThenFailingLosesFile`, `Manager.FileTagManager.SaveWorkerStep`).
- **Worst-case sleep.** The loop sleeps 1 + 2 + 4 units only in the run Failed, Failed, RemoveDenied. Three failures sleep 1 + 2 and then raise.

`remove_tag` compares the tag as given, without normalising it (app.py:174).
So removing `"Foo"` never removes a stored `"foo"`.

## Model

| member | source | states |
|---|---|---|
| TagText.NormaliseForm | app.py:133 | A normalised tag is no longer than the input, has no white space at either end and contains no capital letter |
| TagText.NormaliseEmptyIff | app.py:133-134 | A tag normalises to the empty string, and is therefore skipped, exactly when every character is white space |
| TagText.NormaliseIdempotent | app.py:133 | Normalising an already normalised tag leaves it unchanged |
| TagText.TrimStartSpec | app.py:133 | `lstrip` removes exactly the leading white-space run: the result is a suffix, starts with a non-space, and everything removed is space |
| TagText.TrimEndSpec | app.py:133 | `rstrip` removes exactly the trailing white-space run: the result is a prefix, ends with a non-space, and everything removed is space |
| TagText.LowerSpec | app.py:133 | The ASCII `Lower` keeps the length and maps each character on its own |
| TagText.StripResult | app.py:133 | The result of `strip` has no white space at either end |
| TagText.LowerStripped | app.py:133 | Lower-casing a stripped string leaves it stripped |
| TagText.NormaliseAllIdempotent | app.py:133 | Normalising a list of tags twice gives the same list as normalising it once |
| TagLists.MergeTagsSpec | app.py:132-135 | The tag loop keeps the existing list unchanged as a prefix. It appends the non-empty normalised tags the list lacks, once each, in first-occurrence order. |
| TagLists.MergeTagsMembers | app.py:132-135 | After the loop a tag is in the list iff it was there before, or it is a non-empty normalised input tag |
| TagLists.MergeTagsNoDup | app.py:134 | A list without duplicates gets none from the loop |
| TagLists.MergeTagsIdempotent | app.py:132-135 | Running the loop again with the same tags leaves the list unchanged |
| TagLists.KeptMembers | app.py:134 | The candidates for appending are exactly the non-empty normalised tags absent from the existing list |
| TagLists.Dedup | app.py:134 | Keeping first occurrences keeps every element and leaves no duplicate |
| TagLists.RemoveFirst | app.py:174-175 | Where Python's `list.remove(x)` would raise `ValueError` because `x` is absent, the model returns the list unchanged. The source never reaches that case, because of the guard at app.py:174. |
| TagLists.RemoveFirstCount | app.py:175 | When `x` is present, exactly one `x` leaves the multiset of elements |
| TagLists.RemoveFirstNoDup | app.py:175 | On a duplicate-free list, removal leaves it duplicate-free, with exactly the other elements |
| TagLists.RemoveFirstAt | app.py:175 | Removal takes out the first occurrence only; the elements before and after it keep their order |
| TagStore.WithKey | app.py:130-131 | Assigning a key appends it to the key order if it is new and keeps its place otherwise. Duplicate-freedom is kept. |
| TagStore.WithTags | app.py:129-135 | `add_tags` on key `k` adds `k` to the keys and changes no other entry. `k`'s new list is the old one followed by the new tags in first-occurrence order. Its members are the old tags plus every non-empty normalised tag. It has no duplicates if the old list had none. |
| TagStore.AddTagsConsistent | app.py:130-135 | `add_tags` keeps the key order in step with the dict |
| TagStore.AddTagsIdempotent | app.py:130-135 | Adding the same tags to the same path twice gives the same dict and key order as adding them once |
| TagStore.AddBlankTagsCreatesEntry | app.py:130-131 | Tags that are all blank still create a new entry with an empty list |
| TagStore.ApplyToFilesSpec | app.py:151-159 | The batch loop leaves exactly the old keys plus the listed files. Each listed file's list is the tag loop applied to its old list, and every other entry is unchanged. |
| TagStore.FilesOrderSpec | app.py:153-155 | The key order becomes the old order followed by the listed files the dict lacked, each once, in order of first occurrence |
| TagStore.FilesOrderMembers | app.py:153-155 | The new key order holds exactly the old keys and the listed files, without duplicates, with the old keys first |
| TagStore.ApplyToFilesAppend | app.py:151-159 | Tagging the files batch by batch gives the same dict as tagging them all in one pass |
| TagStore.FilesOrderAppend | app.py:151-155 | Tagging the files batch by batch gives the same key order as tagging them all in one pass |
| TagStore.ApplyToFilesConsistent | app.py:151-159 | The batch loop keeps the key order in step with the dict |
| TagStore.ApplyToFilesCovers | app.py:151-159 | On return every listed file has every non-empty normalised tag |
| TagStore.RemovedTag | app.py:174-177 | If the path or the tag is absent, nothing changes. Otherwise one occurrence of the tag leaves the path's list, the entry is deleted exactly when that list had one element, and no other entry changes. |
| TagStore.RemoveTagConsistent | app.py:174-177 | `remove_tag` keeps the key order in step with the dict; a deleted key leaves the order |
| TagStore.RemoveTagEffect | app.py:174-177 | On a duplicate-free list the removed tag is gone and the other tags keep their order. The entry is deleted iff the tag was its only one. |
| TagStore.Search | app.py:194-199 | The result holds exactly the keys whose list contains every normalised query tag. They come in dict order, without duplicates. |
| TagStore.SearchEmptyQuery | app.py:196-198 | An empty query returns every key, in dict order |
| TagStore.SearchFindsAdded | app.py:194-198 | After non-blank tags are added to a path, searching for them finds the path |
| TagStore.SearchFindsStoredTag | app.py:194-198 | Searching for a stored tag as it is shown finds the path |
| TagStore.MatchesNormalised | app.py:194-198 | A path matches a query exactly when it matches the normalised query |
| TagStore.SearchNormalisedQuery | app.py:194-199 | Searching for the normalised tags returns the same paths, in the same order, as searching for the raw tags |
| TagStore.ProgressCalls | app.py:151-164 | One progress call per batch, ceil(n/100) in all, each with total `n`. The counts are 100, 200, ... up to the last, which is `n`, and strictly increase. |
| TagStore.ProgressFor250 | app.py:151-164 | 250 files are reported after 100, 200 and 250 files |
| SaveRetry.RetryOutcome | app.py:70-96 | The call writes the file iff some remaining attempt meets no error. It raises iff none does and the last attempt meets an error other than the win32 `PermissionError`, whether or not that error came after the old file was removed. |
| SaveRetry.RemovedIff | app.py:82-94 | The old database file is removed exactly when one of the attempts the call actually makes removes it on win32 and then fails |
| SaveRetry.RetryStops | app.py:70-96 | There is one sleep per attempt that did not write. The call stops at the first writing attempt, raises at the last attempt, or returns after sleeping past the last one. |
| SaveRetry.SaveWithRetry | app.py:68-96 | The loop, with its early `return` and `raise`, ends as `RetryFrom` says and sleeps the delays it lists. It reports that the old file was removed exactly as `RemovedFrom` says. |
| SaveRetry.RetrySleepDelays | app.py:84-96 | The j-th sleep follows attempt j and lasts the initial delay doubled once per earlier generic failure; the win32 branch does not double |
| SaveRetry.RetrySleepBound | app.py:68-96 | The total time slept is at most `delay * (2^max_retries - 1)` |
| SaveRetry.DefaultSleepBound | app.py:68 | With `max_retries=3, delay=1` at most 7 time units are slept |
| SaveRetry.AllFailedRaises | app.py:92-96 | When every attempt fails generically, the call raises after sleeping 1, 2, 4, ... times the delay between attempts |
| SaveRetry.AllRemoveDeniedReturns | app.py:83-88 | When every attempt meets the win32 `PermissionError`, the call sleeps the same delay after each attempt. It returns normally without writing. |
| SaveRetry.FailTwiceThenWrite | app.py:68-96 | Two failures and then a success return normally after sleeping 1 and then 2 |
| SaveRetry.FailTwiceThenDenied | app.py:83-96 | Two failures and then the win32 `PermissionError` sleep 1, 2 and 4 and then return normally without writing |
| SaveRetry.RemovedThenFailingLosesFile | app.py:82-94 | A win32 attempt that removes the old file and fails to rename, then two more failures: the call raises after sleeping 1 and 2 and leaves no database file |
| Manager.AppendNormalised | app.py:132-135 | The tag loop over a local list computes `MergeTags` of the normalised tags |
| Manager.FileTagManager.constructor | app.py:30-37 | The manager starts from the loaded dict, with a clear flag, an empty queue and the file holding that dict |
| Manager.FileTagManager.QueueSave | app.py:98-102 | Sets the flag and adds one wake-up token, changing nothing else |
| Manager.FileTagManager.AppendTags | app.py:130-135 | Creates the entry if needed and runs the tag loop; the dict becomes `WithTags`, the key order `WithKey` |
| Manager.FileTagManager.AddTags | app.py:126-136 | Canonicalises the path, applies `WithTags`, and sets the flag with one wake-up |
| Manager.FileTagManager.AddTagsToDirectory | app.py:148-166 | Returns the number of files. The dict becomes `ApplyToFiles` on the raw paths. It queues one save per batch, and with a callback reports exactly `ProgressCalls(n)`. |
| Manager.FileTagManager.TagBatch | app.py:152-159 | The batch `files[i:i+100]` is tagged in order: the dict becomes `ApplyToFiles` and the key order `FilesOrder` of the batch. Only the dict and the order may change. |
| Manager.FileTagManager.RemoveTag | app.py:170-178 | The dict becomes `RemovedTag` of the canonical path and the unnormalised tag. Flag and queue change only when the tag was present. |
| Manager.FileTagManager.GetTags | app.py:182-186 | The stored list for the canonical path, or `[]` when the path is absent |
| Manager.FileTagManager.SearchByTags | app.py:191-199 | The keys, in dict order and without duplicates, whose list holds every normalised query tag |
| Manager.FileTagManager.SaveWorkerStep | app.py:44-66 | An empty queue changes nothing. Otherwise one token is taken. A clear flag stays clear. A set flag is cleared unless the save raised. The file takes the current dict if a write succeeded. Otherwise it is gone if an attempt removed it, and unchanged if not. |

## Left out

- The PyQt user interface (`MainWindow`) and the `explorer` shell call: display and OS collaboration only.
- Threads, the queue's one-second `get` timeout, the rate limiting against `time.time()`, the lock and `task_done`. The queue is a count of wake-up tokens, and one worker turn is `SaveWorkerStep`. Edits made while a save runs are not modelled.
- File I/O: `_load_db` is replaced by the constructor's arguments. The file is taken to hold the loaded dict at start, also when it was missing, empty or unreadable and `_load_db` returned `{}`. The JSON encoding, `NamedTemporaryFile`, `fsync`, `remove` and `rename` are replaced by the outcome each attempt meets. The file's content is a snapshot of the dict. The temporary files left behind by failed attempts are not modelled.
- `time.sleep` is recorded as the list of delays, not performed.
- `os.walk`: `AddTagsToDirectory` takes the enumerated file list.
- `str(Path(p))` is the abstract function `canon`, fixed when the manager is created.
- `lower()` is modelled on ASCII letters only. Unicode case mapping is not modelled.
- The `except` branches that wrap errors in `RuntimeError` (`add_tags`, `add_tags_to_directory`, `remove_tag`) or print and return `[]` (`get_tags`, `search_by_tags`). The dict and list operations in the model cannot fail.
- TagStore.RemoveTagEffect: requires the path's list to be duplicate-free, as every list built by `add_tags` is (TagStore.WithTags). Lists read from the file are not checked by the source. For them only the weaker TagStore.RemovedTag statement holds: one occurrence fewer in the multiset.
