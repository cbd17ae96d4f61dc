# poeditor_query: language mappings, modelled and proved in Dafny

`poeditor_query.py` keeps a project's translation catalogues, one
directory per local language such as `pt_BR`, in step with the
translation service POEditor, which uses codes such as `pt-br`. It pairs
every local language with its server language in a `Mapping`. A table of
fixes lists the pairs the default naming rule gets wrong. `Mappings`
holds the mappings of one project. It is built by reconciling the local
directory listing with the server's language list. It can be filtered
and sorted, and it runs a bulk download, upload or delete over the
result.

This project models that core:

- `Mapping` becomes a class with five fields and the methods that update
  them.
- `Mappings` becomes a class holding a sequence of `Mapping` objects and
  the loops over it.
- Each method is proved against a value-level model, which gives the new
  state as a function of the old one. The promised properties are
  lemmas about that model.

Modules, in dependency order:

- `Wrappers`: `Option`, `Result` and the exceptions the code raises.
- `Strings`: ASCII `lower()`/`upper()`, `replace`, `split`/`join` and
  Python's string order.
- `Codes`: the fixes table and the two code transforms.
- `Sorting`: a stable sort (Python's `list.sort`), modelled as sorting
  positions by key with the position breaking ties.
- `Languages`: the five fields as a value, `matches_code`,
  `get_mapping`, and the selection and order `iter` produces.
- `Outcomes`: what `delete_on_server`, `sync_from_server` and
  `sync_to_server` do to one mapping.
- `Reconciliation`: the loop of `from_project_name`.
- `Bulk`: the three bulk loops as folds over the order `iter` returns.
- `Projects`: `project_name_to_id` and `format_fails`.
- `Poeditor`: the two classes.

The server, the file system and the upload become parameters:

- `projects` is the server's project list.
- `langs` is its language list for the project, in order.
- `available` is its `available_languages` list of (name, code) pairs,
  in order.
- `accepted` is the set of codes for which `add_language_to_project`
  succeeds.
- `catalogs` is the set of local codes whose `.po` file exists.
- `dirs` is the list of language directories.

The fixes dictionary is an ordered sequence, because Python dictionaries
keep insertion order. A value is "set" in Python's sense (`Present`)
when it is not `None` and not empty.

## Model

| member | source | states |
|---|---|---|
| Codes.FirstFix | poeditor_query.py:67-69 | the position of the first fix in table order with either side equal to the code; `None` exactly when no fix names it |
| Codes.LocalToServerResult | poeditor_query.py:66-70 | `_local_to_server` gives the server side of the first fix naming the local code; with no such fix it gives the default code, which is lower case and has no `_` |
| Codes.ServerToLocalResult | poeditor_query.py:75-81 | `_server_to_local` gives the local side of the first fix naming the server code; with no such fix the result has no `-` and starts with the first `-`-piece of the server code |
| Codes.DefaultRulesExample | poeditor_query.py:66-81 | the default rules turn `pt_BR` into `pt-br` and `pt-br` into `pt_BR` |
| Codes.LocalRoundTrip | poeditor_query.py:66-81 | for a local code shaped like `pt_BR` such that no fix names it or its default server code, going to the server code and back gives the local code |
| Codes.ServerRoundTrip | poeditor_query.py:66-81 | for a lower-case server code without `_` such that no fix names it or its default local code, going to the local code and back gives the server code |
| Codes.FixRoundTrip | poeditor_query.py:66-81 | in a table where no code appears in two entries, each fix sends its local side to its server side and back |
| Languages.LocalSideFolds | poeditor_query.py:55-57 | the local test of `matches_code` holds exactly when the local code has no `-` and equals the code once case and `-`/`_` are ignored |
| Languages.ServerSideFolds | poeditor_query.py:58-60 | the server test holds exactly when the server code has no `_` and equals the code once case and `-`/`_` are ignored |
| Languages.MatchesCodeIsFoldedEquality | poeditor_query.py:54-61 | `matches_code` holds iff a set local code without `-`, or a set server code without `_`, equals the code apart from case and the separator |
| Languages.MatchesCodeIgnoresCaseAndSeparator | poeditor_query.py:54-61 | two codes differing only in case or in `-` versus `_` are matched by the same mappings |
| Languages.CodelessMatchesNothing | poeditor_query.py:54-61 | a mapping with neither code set matches no code |
| Languages.MatchesCodeExample | poeditor_query.py:54-61 | a mapping with local code `pt_BR` matches `pt-br`, `PT_BR` and `pt_br` |
| Languages.FindIndex | poeditor_query.py:223-227 | `find_mapping` gives the first mapping in insertion order that matches the code; `None` exactly when none matches |
| Languages.FallbackFix | poeditor_query.py:233-238 | the first fix in table order whose side, lower-cased, equals the lower-cased code and whose local side some mapping matches; `None` exactly when there is none |
| Languages.GetIndex | poeditor_query.py:222-239 | the mapping `get_mapping` returns matches the code itself or the local side of a fix the code hits |
| Languages.GetIndexResult | poeditor_query.py:222-239 | `get_mapping` returns the first direct match; failing that, the first match of the first usable fix; it raises exactly when nothing matches the code and no hit fix's local side |
| Languages.SelectUpToMembers | poeditor_query.py:246-251 | the filtering loop keeps, in increasing position, exactly the mappings some filter code matches |
| Languages.SelectionMembers | poeditor_query.py:245-253 | without a filter `iter` keeps every mapping; with one, exactly the mappings some filter code matches; in both cases in insertion order |
| Languages.OrderDefault | poeditor_query.py:244-270 | with no filter, no sort column and no `r`, `iter` gives every mapping in insertion order |
| Languages.SortSelectedRearranges | poeditor_query.py:256-265 | sorting the selection keeps its length and its members and repeats none |
| Languages.OrderRearrangesSelection | poeditor_query.py:244-270 | `iter` returns each selected mapping exactly once and no other |
| Languages.SortSelectedSorted | poeditor_query.py:256-265 | the sorted selection is in ascending key order, and mappings with equal keys stay in insertion order |
| Languages.ReversedDescending | poeditor_query.py:267-268 | reversing an ascending, stable list gives descending keys, with equal keys in reverse insertion order |
| Languages.OrderSorted | poeditor_query.py:255-270 | with a sort column, `iter` gives ascending keys with ties in insertion order; with `r` it gives descending keys with ties reversed |
| Languages.OrderDistinct | poeditor_query.py:244-270 | no mapping appears twice in what `iter` returns |
| Sorting.Insert | poeditor_query.py:256-265 | inserting a new position into positions ordered by key, then by position, keeps that order and adds exactly that one position |
| Sorting.StableSort | poeditor_query.py:256-265 | the insertion sort gives the input positions, each once, ordered by key and, for equal keys, by position |
| Sorting.StableSortOrders | poeditor_query.py:256-265 | `list.sort` by key rearranges its input into ascending key order and keeps equal keys in their original order |
| Outcomes.WithServer | poeditor_query.py:48-52 | `set_server` leaves the local code unchanged |
| Outcomes.WithLocal | poeditor_query.py:39-40 | `set_local` leaves the four server fields unchanged |
| Outcomes.DeleteOutcome | poeditor_query.py:157-165 | `delete_on_server` succeeds iff the server code is set; on success it clears the server code, name, progress and update time; otherwise nothing changes; the local code is kept |
| Outcomes.DeleteTwice | poeditor_query.py:157-165 | a second delete fails and changes nothing |
| Outcomes.DeletedMatchesLocally | poeditor_query.py:54-61 | after a delete a mapping matches a code only through its local code |
| Outcomes.DownloadOutcome | poeditor_query.py:92-118 | the download fails iff no server code is set; it never changes the server fields; on success the catalogue for the code `_server_to_local` gives exists afterwards, and the local code becomes that code only when the catalogue was new |
| Outcomes.DownloadIdempotent | poeditor_query.py:92-118 | a second download changes neither the mapping nor the catalogues |
| Outcomes.DisplayName | poeditor_query.py:120-126 | `_server_to_name` gives the name of the first available language with that code; `None` (the `KeyError`) exactly when no language has it |
| Outcomes.UploadOutcome | poeditor_query.py:128-155 | `ValueError` exactly when no local code is set; a mapping with a server code uploads unchanged; otherwise it succeeds iff the server accepts the code `_local_to_server` gives and knows its name, and then takes that code and name |
| Outcomes.UploadThenDownload | poeditor_query.py:92-155 | a `pt_BR`-shaped language such that no fix names it or its default server code, once created on the server by an upload, downloads back into its own catalogue and stays as it is |
| Outcomes.UploadTwice | poeditor_query.py:128-155 | a mapping an upload put on the server uploads again unchanged |
| Outcomes.DeleteThenUpload | poeditor_query.py:128-165 | deleting a language and uploading it again recreates it under the code `_local_to_server` gives |
| Reconciliation.LocalEntries | poeditor_query.py:203-208 | one mapping per local directory |
| Reconciliation.Adopt | poeditor_query.py:212-219 | one turn of the reconciliation loop grows the collection by one exactly when `get_mapping` raises |
| Reconciliation.AdoptEffect | poeditor_query.py:212-219 | after one turn the language is on some mapping with its code and name; no local code has changed; an appended mapping has no local code; every other mapping is unchanged |
| Reconciliation.AdoptAppendsServerOnly | poeditor_query.py:217-219 | a mapping appended by the loop is server-only, with no progress and no update time |
| Reconciliation.AdoptUpdatesFound | poeditor_query.py:213-216 | the mapping `get_mapping` finds takes the code, name, percentage and update time |
| Reconciliation.Reconcile | poeditor_query.py:212-219 | the loop keeps every mapping and adds at most one per server language |
| Reconciliation.ReconcileKeepsLocals | poeditor_query.py:212-219 | the loop changes no local code, and every mapping it adds has none |
| Reconciliation.ReconcileSize | poeditor_query.py:203-219 | the final size is the number of directories plus the number of server languages `get_mapping` found no mapping for |
| Reconciliation.PlainCodeMatches | poeditor_query.py:54-61 | for lower-case codes without separators, matching is plain equality with either code |
| Reconciliation.ReconcileExample | poeditor_query.py:196-220 | local `en`, `fr` against server `en`, `es` give three mappings: `en` on both sides, local-only `fr`, server-only `es` |
| Bulk.DeleteAll | poeditor_query.py:310-317 | the bulk delete keeps the collection's size, and its failures are positions in the collection |
| Bulk.DeleteAllEffect | poeditor_query.py:310-317 | the bulk delete deletes each selected mapping on the server and touches no other; the failures are exactly the selected mappings without a server code, each listed once |
| Bulk.DownloadAll | poeditor_query.py:282-291 | the bulk download keeps the collection's size, and its failures are positions in the collection |
| Bulk.DownloadAllEffect | poeditor_query.py:282-291 | the bulk download keeps all server fields, touches no unselected mapping, and gives a selected one at most the local code its server code maps to; it fails exactly on selected mappings without a server code; the catalogues become the old ones plus one per selected server language |
| Bulk.UploadAll | poeditor_query.py:293-302 | the bulk upload keeps the collection's size and every local code |
| Bulk.UploadAllRaises | poeditor_query.py:293-302 | the bulk upload raises `ValueError` exactly when some selected mapping has no local code |
| Bulk.UploadAllEffect | poeditor_query.py:293-302 | when it does not raise, the bulk upload uploads each selected mapping and touches no other; the failures are exactly the selected mappings whose upload returned false |
| Bulk.UploadAllStops | poeditor_query.py:293-302 | the mappings after the first one without a local code are never uploaded |
| Bulk.UploadAllRaisedStays | poeditor_query.py:293-302 | once the loop has raised, running it over a longer selection changes nothing |
| Projects.ProjectNameToId | poeditor_query.py:320-327 | the id of the first project whose lower-cased name equals the requested name; `None` exactly when there is none |
| Projects.MixedCaseNameFindsNothing | poeditor_query.py:320-327 | a requested name that is not lower case finds no project |
| Projects.FormatFails | poeditor_query.py:330-331 | `TypeError` exactly when some failed mapping has no local code set and a server code of `None` |
| Projects.FormatFailsSplits | poeditor_query.py:330-331 | when at least one mapping failed, each has a code and no code contains `,`, splitting the formatted list on `,` gives, one mapping at a time, the local code where it is set and the server code otherwise |
| Projects.FormatNoFails | poeditor_query.py:330-331 | with no failures the list is empty |
| Poeditor.Mapping.CreateLocal | poeditor_query.py:33-37 | a new mapping with only the local code set |
| Poeditor.Mapping.CreateServer | poeditor_query.py:42-46 | a new mapping with only the server code and name set |
| Poeditor.Mapping.SetLocal | poeditor_query.py:39-40 | the new state is the old one with the local code replaced |
| Poeditor.Mapping.SetServer | poeditor_query.py:48-52 | the new state is the old one with the four server fields replaced |
| Poeditor.Mapping.LocalToServer | poeditor_query.py:66-70 | the loop over the fixes table returns `Codes.LocalToServer` of the local code |
| Poeditor.Mapping.ServerToLocal | poeditor_query.py:75-81 | the loop over the fixes table returns `Codes.ServerToLocal` of the server code |
| Poeditor.Mapping.ServerToName | poeditor_query.py:120-126 | the search of the available languages returns `DisplayName` |
| Poeditor.Mapping.SyncFromServer | poeditor_query.py:92-118 | the new state, the result and the catalogues are those of `DownloadOutcome` |
| Poeditor.Mapping.SyncToServer | poeditor_query.py:128-155 | the result and the new state are those of `UploadOutcome`; on the `ValueError` nothing changes |
| Poeditor.Mapping.DeleteOnServer | poeditor_query.py:157-165 | the new state and the result are those of `DeleteOutcome` |
| Poeditor.Mappings.constructor | poeditor_query.py:189-194 | an empty collection for the given project name, id and fixes |
| Poeditor.Mappings.AddMapping | poeditor_query.py:241-242 | appends the mapping; the collection keeps distinct objects exactly when the mapping is new to it |
| Poeditor.Mappings.FindMapping | poeditor_query.py:223-227 | returns the mapping at `FindIndex`, or `null` exactly when it is `None` |
| Poeditor.Mappings.FixesFallback | poeditor_query.py:233-238 | returns the first match of the local side of `FallbackFix`, or `null` exactly when it is `None` |
| Poeditor.Mappings.GetMapping | poeditor_query.py:222-239 | returns the mapping at `GetIndex`; `KeyError` exactly when `GetIndex` is `None` |
| Poeditor.Mappings.Select | poeditor_query.py:245-253 | returns the mappings at the positions of `Selection` |
| Poeditor.Mappings.Iter | poeditor_query.py:244-270 | returns the mappings at the positions of `Order` |
| Poeditor.Mappings.PrintTable | poeditor_query.py:272-280 | counts every mapping `iter` returns and reports no failure |
| Poeditor.Mappings.DownloadAt | poeditor_query.py:287-288 | downloads the mapping at one position and no other |
| Poeditor.Mappings.DownloadEach | poeditor_query.py:283-291 | the loop's new states, count, failures and catalogues are those of `DownloadAll` |
| Poeditor.Mappings.SyncFromServer | poeditor_query.py:282-291 | the bulk download over `iter`'s order is `DownloadAll` of the old states |
| Poeditor.Mappings.UploadAt | poeditor_query.py:298-299 | uploads the mapping at one position and no other |
| Poeditor.Mappings.UploadEach | poeditor_query.py:294-302 | the loop's new states, the raise, the count and the failures are those of `UploadAll` |
| Poeditor.Mappings.SyncToServer | poeditor_query.py:293-302 | the bulk upload over `iter`'s order is `UploadAll` of the old states; `ValueError` exactly when it raises |
| Poeditor.Mappings.DeleteAt | poeditor_query.py:314 | deletes the mapping at one position on the server and no other |
| Poeditor.Mappings.DeleteEach | poeditor_query.py:310-317 | the loop's new states, count and failures are those of `DeleteAll` |
| Poeditor.Mappings.DeleteOnServer | poeditor_query.py:304-317 | without the confirmation nothing changes and `None` comes back; with it, the bulk delete over `iter`'s order is `DeleteAll` of the old states |
| Poeditor.Mappings.AdoptLanguage | poeditor_query.py:213-219 | one server language changes the states as `Adopt` does; the old mapping objects stay in place and in order, and any mapping it adds is new |
| Poeditor.Mappings.AddLocal | poeditor_query.py:208 | appends one new local-only mapping for one directory; the old mapping objects stay in place and the collection keeps distinct objects |
| Poeditor.Mappings.AddLocals | poeditor_query.py:207-208 | appends one new local-only mapping per directory, in listing order, after the old mapping objects |
| Poeditor.Mappings.ReconcileAll | poeditor_query.py:212-219 | the loop over the server languages changes the states as `Reconcile` does, keeps the old mapping objects in place and in order, and only appends new ones |
| Poeditor.Mappings.FromProjectName | poeditor_query.py:196-220 | `KeyError` exactly when no project has the name; otherwise a new collection of distinct mappings with the project's id and the states `Reconcile` gives from the directory listing |

## Left out

- The server calls are left out: `export`, `add_language_to_project`, `update_terms_definitions` and `delete_language_from_project`. Only their outcome is a parameter: `accepted` for the add, and success for the others. Their own errors are not modelled either.
- The file system is a set of local codes with a catalogue (`catalogs`). The `.po` path, `mkdir`, the rename of the downloaded file and the `msgcat` merge are not modelled.
- The directory listing is a parameter (`dirs`). `iterdir` order is whatever the caller passes.
- `table_str`, `table_header`, `FORMAT_STR`, `print`, `input`, logging and the `__main__` command-line driver are not modelled. `print_table` keeps only its count and its empty failure list.
- The language root path is dropped. The project id is kept but never used for I/O.
- Mapping.LocalToServer: requires a set local code. The source calls it only when one is set; with `None` it would raise `AttributeError`, which is not modelled. Mapping.ServerToLocal has the same requirement for the server code.
- Strings.Lower: `lower()` and `upper()` are modelled for ASCII letters only. Other characters are left unchanged, which is not true of Python for non-ASCII letters.
- Outcomes.UploadOutcome: when the server accepts the code but `_server_to_name` raises, the language is still added on the server. The model records only the mapping, which is left unchanged, and the false result.
- The completion percentage (a float) and the update time (a `datetime`) are modelled as integers. They are only stored and used as sort keys, and a missing one sorts as `0`, as `0.0` and the epoch do.
- `iter` with `sort_specs=None` would raise `TypeError` on `"l" in None`. The model takes the sort specification as a string; the command-line driver always passes one.
- The fixes dictionary is an ordered sequence. A sequence may name a key twice, which a dictionary cannot, so the model is more general here.
- `rl` puts a missing local code last: the code sorts ascending with a missing code as `""` and then reverses the list. `Languages.OrderSorted` states the descending order.
- `delete_on_server` returns `None` when the confirmation fails, and the driver's tuple unpacking then fails. The driver is not modelled; the model returns `None`.
