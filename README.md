# Drupal 7 array-pointer fixes, modelled in Dafny

`paches.php` is a bundle of diff hunks against Drupal 7 core and contributed
modules. The hunks replace PHP's removed `each()` with explicit use of an
array's internal pointer (`current`, `key`, `next`, `reset`), and they replace
`create_function` callbacks with named functions. This project models the
post-fix code of those hunks and proves what the hunks and their comments
promise.

- `php.dfy` (module `Php`): the PHP value semantics the code relies on:
  - `false`/`NULL` results as an `Option`;
  - the truthiness of a string (only `""` and `"0"` are falsy);
  - ASCII lower-casing, as `strtolower` and `strcasecmp` do it.
- `php_array.dfy` (module `PhpArray`): an insertion-ordered PHP array with its internal pointer.
  - The class `OrderedArray` stores buckets. `unset` leaves a hole. The pointer is a bucket index.
  - The pointer reads the live array. An entry appended after the pointer is reached by `next`. A pointer that has run off the end lands on the next entry appended.
  - Unsetting the entry under the pointer moves the pointer to the next live entry. Assigning to an existing key updates that entry in place.
  - Every operation is specified on the abstract view: the live entries in order (`Entries`) and the number of entries before the pointer (`Cursor`).
- `shutdown.dfy` (module `Shutdown`): the dispatch loop of `_drupal_shutdown_function`. It walks the shared `$callbacks` array, so callbacks registered by callbacks still run.
  - A callback is modelled as the tree of callbacks it registers when invoked.
  - `DispatchOrder` is the first-come-first-served order in which callbacks run.
- `module_list.dfy` (module `ModuleList`): the worklists of `module_enable` and `module_disable`.
  - Both build `$module_list` with `array_flip`, read `key()`, call `next()`, and then act on the module.
  - The rest of the loop body is a parameter `step`, which decides for each module found. It either unsets the module, or keeps it with a weight and queues the modules it pulls in (dependencies or dependents).
  - The walk is specified by the ghost function `Drain`. The methods `ModuleEnable` and `ModuleDisable` run the loop on an `OrderedArray` and are proved equal to `Drain`.
- `book.dfy` (module `Book`): the do-while searches of `book_prev` and `book_next` over the flat list of menu links. Both start with `reset()`, and `book_prev` keeps a one-step lookback.
- `features.dfy` (module `Features`): two string helpers.
  - `features_clean_title` with its callback `_features_clean_title`: a regular-expression filter followed by `strtolower`.
  - `_features_remove_recursion`: turns a serialized back-reference `r:N;` / `R:N;` into a serialized string token whose length prefix must match its payload.
- `bulk_operations.dfy` (module `BulkOperations`): `_views_bulk_operations_sort_operations_by_label`, a `strcasecmp` comparison on labels.

## Model

| member | source | states |
|---|---|---|
| Php.LowerFoldsCase | paches.php:205-207 | `Lower` (the byte mapping of `strtolower` and `strcasecmp`) leaves no upper-case ASCII letter, is idempotent, and maps two characters alike exactly when they are equal or one is the upper-case ASCII letter of the other. |
| Php.ToLower | paches.php:275 | `strtolower` keeps the length and lower-cases every character independently. |
| PhpArray.IndexOf | paches.php:96 | The position of a key, as `unset($module_list[$module])` and assignment look it up: the first entry carrying it, or the length when it is absent. |
| PhpArray.AssignKeepsKeysUnique | paches.php:76-78 | `$a[$k] = $v` keeps keys unique and binds `k` to `v`. Every other entry keeps its place and value. The array grows by at most one entry, and only by the new key. This is the specification of `Assign`. |
| PhpArray.AssignKeys | paches.php:76-78 | `Assign` keeps the key order of an existing key, and appends a new key at the end. |
| PhpArray.WithoutRemovesKey | paches.php:96 | `unset($a[$k])` keeps keys unique and leaves no entry with key `k`. Every other entry stays, in its order (`OtherEntries`); an entry survives exactly when it was there and its key is not `k`, and the array shrinks by one exactly when `k` was present. This is the specification of `Without`. |
| PhpArray.WithoutIsOtherEntries | paches.php:96 | `Without` equals the reference `OtherEntries`: the entries whose key is not `k`, in their order. |
| PhpArray.AdvanceThenUnsetKeepsPlace | paches.php:92-96 | Calling `next()` before unsetting the entry just read leaves the pointer on the entry that followed it. Nothing is skipped or read twice. This relates `Advance` and `CursorAfterUnset`. |
| PhpArray.UnsetThenAdvanceSkips | paches.php:92-96 | The opposite order (unset the current entry, then `next()`) skips the entry that followed it. |
| PhpArray.OrderedArray.FromEntries | paches.php:73 | A fresh array holds exactly the given entries, with the pointer on the first one. |
| PhpArray.OrderedArray.Current | paches.php:111 | `current()` is the value under the pointer, or `false` (None) exactly when the pointer is past the end. |
| PhpArray.OrderedArray.Key | paches.php:112 | `key()` is the key under the pointer, or `NULL` (None) exactly when the pointer is past the end. |
| PhpArray.OrderedArray.Has | paches.php:76-78 | `isset` is true exactly when some entry has the key. |
| PhpArray.OrderedArray.Reset | paches.php:106 | `reset()` moves the pointer to the first entry and changes no entry. |
| PhpArray.OrderedArray.Next | paches.php:16 | `next()` moves the pointer one entry on (or leaves it past the end) and changes no entry. |
| PhpArray.OrderedArray.Set | paches.php:76-78 | Assignment updates an existing key in place or appends a new one. The pointer keeps its position, so an entry appended to an exhausted array becomes current. |
| PhpArray.OrderedArray.Unset | paches.php:96 | `unset` removes the key's entry. The pointer's position drops by one only when the removed entry was before it. |
| Shutdown.WeightAppend | paches.php:11-13 | The number of callbacks that will ever run (`Weight`) is additive over concatenation. This is the termination measure of the dispatch loop. |
| Shutdown.Forest | paches.php:11-13 | The registration forest of a queue (each callback followed by everything it registers, recursively) has exactly `Weight(q)` members. |
| Shutdown.ForestAppend | paches.php:11-13 | The registration forest is additive over concatenation. |
| Shutdown.DispatchSplit | paches.php:14-17 | Dispatching `a + b` runs `a` first, then the dispatch of `b` followed by everything `a` registered. |
| Shutdown.PendingRunFirst | paches.php:11-13 | The callbacks already registered run first, in registration order. The callbacks they register run after them, in registration order. This is the main property of `DispatchOrder`, together with `DispatchRunsEveryCallback`. |
| Shutdown.DispatchRunsEveryCallback | paches.php:11-13 | `DispatchOrder` runs exactly the callbacks of the registration forest (`Forest`): as multisets they are equal, so every callback pending or registered along the way runs, and runs exactly once. There are `Weight(q)` of them. |
| Shutdown.RegisteredCallbacksRun | paches.php:11-13 | A callback registered by a callback that runs is itself run, later. |
| Shutdown.Values | paches.php:14 | The callbacks held by `$callbacks`, one per entry, in order. |
| Shutdown.RegisterShutdownFunction | paches.php:11-13 | `$callbacks[] = $callback` appends the callback under the next list key. The pointer does not move. |
| Shutdown.Invoke | paches.php:15 | Calling a callback appends, in order, the callbacks it registers. The pointer does not move. |
| Shutdown.RunCurrent | paches.php:15-16 | One loop pass runs the current callback and moves the pointer past it. It keeps the loop's invariant, and the work left strictly decreases. |
| Shutdown.LoopStep | paches.php:14-17 | One pass keeps the invariant: the array only grows, what ran is the stretch between the two pointers, and what ran plus the dispatch of what is pending is the full dispatch order. |
| Shutdown.DispatchStep | paches.php:14-17 | Running the head of the pending queue and queueing what it registers advances the dispatch order by exactly that head. |
| Shutdown.RunDone | paches.php:14 | With the pointer past the end, what ran is the full dispatch order and exactly the array from the starting pointer on. |
| Shutdown.DrupalShutdownFunction | paches.php:14-17 | The loop runs the pending callbacks in `DispatchOrder`, including those registered while it runs; as a multiset, what ran is the registration forest of what was pending, so each runs exactly once. The array only grows. What ran is exactly the final array's entries from the starting pointer to the end, in order. The pointer ends past the end. |
| ModuleList.Flip | paches.php:73 | `array_flip(array_values(...))` has unique keys, which are the requested names in the order of their first occurrence (`Dedup`), and each key is bound to the index of its last occurrence. |
| ModuleList.Dedup | paches.php:73 | The names in order of first occurrence: the same set of names, without repeats. |
| ModuleList.DedupDistinct | paches.php:73 | Names without repeats are their own first-occurrence order. |
| ModuleList.FlipExtend | paches.php:73 | `array_flip` stays a flip when it reads one more name and assigns it its index. |
| ModuleList.FlipFirst | paches.php:73 | The first key of the flipped list is the first requested name. |
| ModuleList.QueueOneAppends | paches.php:76-78 | Queueing one module keeps keys unique and the existing entries. Any entry it appends carries that module's name, and the module is in the list afterwards. This is the specification of `QueueOne`. |
| ModuleList.QueuePullsAppends | paches.php:76-78 | Queueing the pulled modules keeps keys unique and the existing entries. Every pulled module is in the list afterwards, and only pulled modules were appended. This is the specification of `QueuePulls`. |
| ModuleList.QueueDependencies | paches.php:76-78 | The loop that queues the pulled modules leaves the list equal to `QueuePulls` of the old list. The pointer does not move. |
| ModuleList.DropStep | paches.php:92-96 | After `next()` and `unset` of the module just read, the pointer is back on the following module, and the list behind it is the rest of the old list. |
| ModuleList.KeepShape | paches.php:76-78 | Giving the current module its weight and queueing its pulls leaves the list unchanged up to the current module. Everything after it is kept, and keys stay unique. |
| ModuleList.DrainStateExtend | paches.php:79-80 | Proof helper for the loop invariant, not a model of these lines on its own. The loop state carries over to the next position once a module is kept, and the set of kept modules strictly grows. |
| ModuleList.KeepStep | paches.php:76-80 | After `next()`, assigning the weight and queueing, the pointer is past the module. The modules ahead are still ahead, and the walk's measure decreases. |
| ModuleList.DrainDrop | paches.php:92-96 | A pass that unsets the module read continues from the same position in the shortened list. |
| ModuleList.DrainKeep | paches.php:79-80 | A pass that keeps the module read continues just past it, with its pulled modules queued. |
| ModuleList.ThenAssoc | paches.php:79 | Proof helper for the loop invariant, not a model of these lines on its own. Prefixing the modules read is associative. |
| ModuleList.StopsAtAbortCons | paches.php:81-83 | Proof helper for the loop invariant, not a model of these lines on its own. A module acted on, followed by a walk that stops at its first abort, is a walk that stops at its first abort. |
| ModuleList.DrainStopsAtAbort | paches.php:79-83 | The walk acts on every module it reads except the last. It fails exactly when the last module read aborts. With `DrainVisitsPending`, `DrainRunsPulls` and `DrainLeavesKept`, this specifies the ghost walk `Drain`. |
| ModuleList.DroppedTruthy | paches.php:92-96 | Unsetting the module read keeps every name ahead truthy. |
| ModuleList.KeepTruthy | paches.php:76-80 | Proof helper for the loop invariant, not a model of these lines on its own. Names ahead of the pointer stay truthy when only truthy names are appended. |
| ModuleList.QueuedTruthy | paches.php:76-80 | After a kept pass, the names ahead are truthy. The modules that were ahead are still ahead, in the same order. |
| ModuleList.DrainVisitsPending | paches.php:76-80 | A walk that does not abort reads every module that was ahead of the pointer, in order, before anything queued later. |
| ModuleList.VisitsPendingDrop | paches.php:92-96 | The case of `DrainVisitsPending` where the module read is unset. |
| ModuleList.VisitsPendingKeep | paches.php:76-80 | The case of `DrainVisitsPending` where the module read is kept. |
| ModuleList.PrefixCons | paches.php:79 | Proof helper for the loop invariant, not a model of these lines on its own. A prefix relation between the modules ahead and the modules read survives reading one more module. |
| ModuleList.RunsPullsDrop | paches.php:92-96 | Proof helper for the loop invariant, not a model of these lines on its own. An unset module adds no obligation to read the modules it pulls. |
| ModuleList.RunsPullsKeep | paches.php:76-78 | A kept module's pulled modules are queued, so the rest of the walk reads them. |
| ModuleList.DrainRunsPulls | paches.php:76-78 | A walk that does not abort reads every module pulled in by a module it kept, unless it was kept before the walk started. Modules added to `$module_list` inside the loop are processed. |
| ModuleList.DrainLeavesKept | paches.php:92-96 | A walk that does not abort leaves in the list only modules it kept. |
| ModuleList.ModuleEnable | paches.php:71-83 | The loop on the real array returns exactly what `Drain` specifies: the success flag, the final list and the modules read. |
| ModuleList.ModuleDisable | paches.php:84-96 | The loop on the real array never fails, and returns exactly the final list and the modules read that `Drain` specifies. |
| ModuleList.ModuleEnableAbortsAtMissing | paches.php:81-83 | `module_enable` returns FALSE exactly when the last module it read is missing from `$module_data`. Every module read before it was found, and nothing after it is read. This specifies the `module_enable` action `EnableAction`. |
| ModuleList.TruthyStart | paches.php:79 | With truthy requested names and pulls, the initial list satisfies the truthiness invariant. |
| ModuleList.ReadsRequested | paches.php:73 | Reading the whole flipped list reads every requested name. |
| ModuleList.ModuleEnableReadsRequested | paches.php:73-80 | When `module_enable` does not abort, the modules it reads start with the requested names in the order requested, repeats dropped (`Dedup`), ahead of every queued dependency; so every requested module is read. |
| ModuleList.PulledReached | paches.php:76-78 | For `module_enable`'s actions, "every pulled module is read" restated per module. |
| ModuleList.ModuleEnableReachesDependencies | paches.php:76-80 | When `module_enable` does not abort, every module pulled in by a module it read is also read. |
| ModuleList.ModuleEnableStopsAtFalsyName | paches.php:79 | When the first requested name is `""` or `"0"`, the `key()` truthiness test ends the loop before anything is read. This is where the truthiness test `FalsyString` matters. |
| ModuleList.ModuleDisableDropsDisabled | paches.php:92-96 | `module_disable` never fails and reads every requested module. The final list holds only modules present in `$module_data` and enabled. This specifies the `module_disable` action `DisableAction`. |
| Book.StopAt | paches.php:108-114 | The do-while stops at the first entry whose key is 0 or the target, or at the end of the list. No earlier entry matches either condition. |
| Book.StopAtTarget | paches.php:114-116 | For a positive target among positive keys, the search stops on the target's own entry (its first occurrence) exactly when the target is present. The final `$key == $mlid` holds exactly then. This is where PHP's loose comparison `LooseEquals` matters. |
| Book.ZeroKeyHidesTarget | paches.php:114 | A key 0 before the target ends the search there, and the final comparison fails. |
| Book.BookPrev | paches.php:104-116 | The loop runs `StopAt + 1` times. It leaves `$key` and `$curr` at the stop position and `$prev` on the entry before it (NULL when the stop is the first entry). The result of `$key == $mlid` and the pointer past the stop position are as specified, and the list is unchanged. `KeyAt` is `key()` read at the stop position. |
| Book.BookNext | paches.php:119-128 | The loop runs `StopAt + 1` times, at most the list length plus one. It leaves the pointer just past the stop position, so `current()` is the entry after the target (or false). The list is unchanged. |
| Features.CleanReplace | paches.php:275 | The replacement never lengthens the string. |
| Features.CleanChar | paches.php:270-283 | One input character yields at most one character, and it is in `[a-z0-9-]`. |
| Features.CleanTitleIsCleaned | paches.php:270-283 | `features_clean_title` equals the per-character reference. Each whitespace becomes one `-`, each letter, digit or `-` is kept and lower-cased, and anything else is deleted. This specifies `CleanTitle` and its parts: `CleanReplace`, the pattern test `MatchCleanChar` and the callback `CleanTitleCallback`. |
| Features.CleanedAppend | paches.php:270-283 | The reference cleaning distributes over concatenation. |
| Features.CleanedShape | paches.php:270-283 | The reference cleaning is no longer than its input and uses only `[a-z0-9-]`. |
| Features.CleanTitleShape | paches.php:270-276 | A clean title uses only `[a-z0-9-]` and is no longer than its input. |
| Features.CleanTitleAppend | paches.php:270-276 | Cleaning distributes over concatenation. |
| Features.CleanedKeepsClean | paches.php:270-283 | Text already made of `[a-z0-9-]` is left unchanged. |
| Features.CleanTitleIdempotent | paches.php:270-276 | Cleaning a clean title changes nothing. |
| Features.DigitChar | paches.php:257 | A digit value below 10 prints as a decimal digit. |
| Features.NatToString | paches.php:257 | A length prints as a non-empty string of decimal digits. |
| Features.DecimalValueOfNat | paches.php:257 | The printed length reads back as the same number. |
| Features.RecursionPayload | paches.php:256-257 | The payload is a NUL byte, the matched letter, `ecursion_features` and the matched digits. Its length is 19 plus the number of digits. |
| Features.DigitRun | paches.php:257 | The leading run of digits: all digits, followed by a non-digit or the end. |
| Features.DigitRunPrefix | paches.php:257 | A digit string followed by a non-digit has exactly its own length as its digit run. |
| Features.ParseSerializedString | paches.php:246 | A serialized string token parses only if it starts with `s:`, ends with `";` and is at least 7 bytes longer than its payload. |
| Features.ParseLength | paches.php:246 | The length field parses only if the rest ends with `";` and holds the payload plus 5 bytes. |
| Features.ParseBodyOf | paches.php:246 | A quoted payload reads back as itself. |
| Features.ParseLengthOf | paches.php:246 | A digit length field followed by `:` hands its decimal value to the body parser. |
| Features.ParseWellFormedToken | paches.php:246 | A token whose length prefix equals its payload's length reads back as that payload. With `ParseBodyOf` and `ParseLengthOf`, this specifies the parser `ParseSerializedString` and its body reader `ParseBody`. |
| Features.RemoveRecursionRoundTrip | paches.php:255-258 | The token `_features_remove_recursion` builds has a length prefix equal to its payload length, so `unserialize` reads back exactly the payload. This is the specification of `RemoveRecursion`. |
| BulkOperations.StrCaseCmpAntisymmetric | paches.php:205-207 | Swapping the labels negates the comparison. |
| BulkOperations.StrCaseCmpZero | paches.php:205-207 | Two labels compare as 0 exactly when they are equal after lower-casing. |
| BulkOperations.StrCaseCmpTransitive | paches.php:205-207 | "Sorts before" is transitive. |
| BulkOperations.StrCaseCmpIgnoresCase | paches.php:205-207 | Labels that differ only in case compare alike against every other label. |
| BulkOperations.SortOperationsByLabelIsPreorder | paches.php:205-207 | The sort callback is antisymmetric, is 0 exactly on case-insensitively equal labels, and is transitive. This makes it a total preorder for `uasort`. This is the specification of `SortOperationsByLabel`; `StrCaseCmpZero` and `StrCaseCmpAntisymmetric` specify `StrCaseCmp`. |

## Left out

- ModuleList.ModuleEnableReadsRequested: requires that no requested name and no pulled module is `""` or `"0"`.
- ModuleList.ModuleEnableReachesDependencies: requires that no requested name and no pulled module is `""` or `"0"`.
- ModuleList.ModuleDisableDropsDisabled: requires that no requested name and no pulled module is `""` or `"0"`.
- For these three:
  - Such a name makes `key()` falsy and ends the loop early, as `ModuleList.ModuleEnableStopsAtFalsyName` shows.
  - Drupal module machine names are never empty, so the condition holds in practice.
- Book.StopAtTarget: this requires a positive target and positive keys, as menu link ids are. A key 0 is covered by `Book.ZeroKeyHidesTarget`.
- The rest of the loop bodies of `module_enable` and `module_disable` are not in the hunks. They are the parameter `step`, which stands for the dependency and dependent lookup, `drupal_get_profile` and the weights. The sorting by weight after the loop is not modelled.
- ModuleList.QueueOne: the queueing of a pulled module, `if (!isset($module_list[$p])) $module_list[$p] = 0;`, is part of the loop body that is not in the hunks. The model assumes this code for it. It appends modules not yet in the list and moves no existing entry.
- ModuleList.ModuleEnable and ModuleList.ModuleDisable: model only the branch where `$enable_dependencies` / `$disable_dependents` is TRUE, which is where the loop runs. With FALSE the loop does not run, so a module missing from `$module_data` does not make `module_enable` return FALSE there.
- Shutdown.DrupalShutdownFunction: a callback is a finite tree of registrations, so only finite chains of registrations are covered. A callback that registers another callback every time it runs (an endless loop in PHP) cannot be expressed. Termination and "the pointer ends past the end" hold for finite chains only.
- Callbacks of `_drupal_shutdown_function` are not executed. A callback is its name, its arguments and the callbacks it registers when it runs. Exceptions they throw (the `catch` after the loop) and `chdir` are outside the model.
- The loop of `_drupal_shutdown_function` stops when `current()` returns a falsy value. A registered callback is always a non-empty array, so only the end of the array stops it.
- The bucket array is never rehashed or compacted, as PHP does on growth. Compaction changes no entry and no pointer position in the abstract view.
- Integer-like string keys are kept as strings in `$module_list`. PHP stores `"0"` as integer 0; the truthiness test gives the same answer either way.
- Features.IsSpace: `\s` is taken to include the vertical tab, as in PCRE 8.34 and later and in PCRE2. With the older PCRE bundled in some PHP versions that Drupal 7 supports, `\s` excludes it, so a vertical tab is deleted there instead of becoming `-`.
- Strings are sequences of characters taken as bytes. Case mapping is ASCII only: `strcasecmp` always maps this way, and `strtolower` does under the C locale and always from PHP 8.2 on.
- `strcasecmp` returns the difference of the first differing lower-cased bytes, or the length difference. PHP 8.2 and later normalise this to -1/0/1, which changes no sign.
- `uasort` itself is not modelled. Only the comparison callback it is given is modelled.
- `features_remove_recursion` is covered only through its callback:
  - the outer chunking loop is not in the hunks;
  - `serialize`/`unserialize` of arbitrary values is not modelled, beyond reading back one serialized string token.
- The other hunks of the file are not modelled:
  - `drupal_uninstall_modules`: now a `foreach` over a snapshot, with its body elided.
  - `_menu_load_objects` and `menu_set_active_trail`: read current then advance, which the array model covers; they depend on the menu system.
  - The locale test assertion.
  - The views_php `eval` changes: they run arbitrary user code.
  - `libraries_detect`: forwards to a foreign callback.
  - The `wetkit_bootstrap_table` theming change.
