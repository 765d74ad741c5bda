# MiSTer plugin hook registry and loader

This project is a Dafny model of the plugin system of the MiSTer firmware
(`plugin.cpp`):

- **The hook table `plugin_hooks`.** It has 64 slots. A slot is undeclared
  (null name) or points at the storage that one `DEFINE_PLUGIN_API_HOOK`
  line creates: a callback array of fixed size, a counter and a limit.
  Exactly two hooks are declared: id 0 `plugin_handle_mister_cmd` with
  limit 5, and id 1 `plugin_test` with limit 1.
- **The bounded append `load_hook`.**
- **The fan-out invoker** that the macro generates for every hook.
- **The loader.** `load_single_plugin` validates the hook array a plugin's
  `describe_hooks` returns. `load_plugins` filters the plugin directory and
  stops after `MAX_PLUGINS` = 8 candidates.

`hook_registry.dfy` (module `HookRegistry`) holds the table:

- `Hook` is a class. It holds the statics one macro line creates: the
  name, the limit, the callback array `arr` and the counter `count`.
- `HookTable` is a class over an `array<Hook?>` of 64 slots, where `null`
  is an undeclared slot. Its ghost `View: seq<Slot>` is the abstract value
  of the table.
- The table's methods are proved against the sequence:
  - `LoadHook` against the function `AcceptHook` for one `load_hook` call;
  - `Register` against an update of the one slot it fills;
  - `DeclareHooks` against the function `InitialView` for the two declared
    hooks.
- `Hook.Invoke` is proved against the hook's registered callbacks
  `arr[..count]`.
- The registry's properties are lemmas about those functions. `Grown` is
  an independent reference definition of what a slot holds after a
  sequence of offers: its old callbacks followed by the offers, cut at the
  capacity.

`plugin_loader.dfy` (module `PluginLoader`) holds the loader:

- The outcome of `dlopen` / `dlsym` / `describe_hooks` for each file is an
  input. It is a `Library` value carried by each directory entry.
- The directory is the sequence of entries that `readdir` enumerates, or
  `None` when `opendir` fails.
- The file-name filter is a predicate.
- The two loops are methods. They are proved against `LoadLibrary`,
  `LoadLibraries`, `Candidates` and `Attempted`.

The per-plugin log line ("loaded with N hooks") does not count the hooks
that were finally accepted. The code (`plugin.cpp:145-154`) counts every
entry whose id lies in [0, 64), including entries that `load_hook` then
drops because their slot is undeclared or full. The model follows the code.
`PluginLoader.ReportedCountCountsDropped` shows a plugin whose count of 3
exceeds the single callback it actually registers.

## Model

| member | source | states |
|---|---|---|
| HookRegistry.AcceptHookCases | plugin.cpp:111-123 | one `load_hook` changes the table iff the addressed slot is declared and not full; then it appends exactly the new callback at index `count`, keeps the earlier callbacks, the name and the limit, and leaves every other slot unchanged |
| HookRegistry.AcceptHookIsGrown | plugin.cpp:111-123 | one `load_hook` grows the addressed slot by its one offer under the capacity cut, and touches no other slot |
| HookRegistry.GrownBounded | plugin.cpp:117-120 | whatever is offered to a slot, its count never exceeds its limit, and its name and limit stay as they were |
| HookRegistry.GrownAppend | plugin.cpp:111-123 | offering `x` and then `y` to a slot is the same as offering `x + y`: appends compose in order |
| HookRegistry.LoadHooksSlot | plugin.cpp:111-123 | after any sequence of `load_hook` calls, each slot holds its old callbacks followed by the callbacks addressed to it, in call order, cut at its capacity; an undeclared slot stays undeclared |
| HookRegistry.LoadHooksBounded | plugin.cpp:117-122 | `count <= limit` in every slot is preserved by any sequence of `load_hook` calls |
| HookRegistry.InitialViewDeclared | plugin.cpp:198-199 | in the declared table only ids 0 and 1 are declared, with limits 5 and 1, all slots start empty, and every slot is within its limit |
| HookRegistry.Hook.constructor | plugin.cpp:93-96 | the statics of one macro line: a callback array of `max_instances` slots, the given name and limit, and `count = 0`, so no callback is registered yet |
| HookRegistry.Hook.Invoke | plugin.cpp:97-102 | the invoker calls exactly the registered callbacks `arr[0..count-1]`, in index order, each once with the caller's argument, and returns `count`; with `count == 0` it calls nothing |
| HookRegistry.HookTable.ViewBounded | plugin.cpp:75-83 | a well-formed table has `count <= limit` in every declared slot |
| HookRegistry.HookTable.constructor | plugin.cpp:82-83 | the zero-initialised `plugin_hooks` has all 64 slots undeclared |
| HookRegistry.HookTable.Register | plugin.cpp:85-91 | `HookRegistrar` stores the hook in slot `id` when `id < 64` and ignores it otherwise; no other slot changes |
| HookRegistry.HookTable.LoadHook | plugin.cpp:111-123 | `load_hook` writes the pointer at `arr[count]` and increments `count` through the table, with the effect `AcceptHook` describes; the table stays well-formed and every slot keeps the hook it holds, because only the hooks' arrays and counters lie in its frame |
| HookRegistry.DeclareHooks | plugin.cpp:93-104 | the two `DEFINE_PLUGIN_API_HOOK` lines at plugin.cpp:198-199 give exactly `InitialView`: hook 0 `plugin_handle_mister_cmd`, limit 5, and hook 1 `plugin_test`, limit 1 |
| PluginLoader.InRangeMembers | plugin.cpp:146-150 | an array entry reaches `load_hook` iff its id lies in [0, 64) |
| PluginLoader.InRangePtrs | plugin.cpp:146-153 | skipping the out-of-range entries one by one removes nothing a slot would receive: per slot, the callbacks offered are those of the whole array, in array order |
| PluginLoader.RejectedLoadsNothing | plugin.cpp:125-144 | a failed `dlopen`, a missing `describe_hooks`, a null array, or a count outside [1, 64] registers nothing |
| PluginLoader.LoadLibrariesSlot | plugin.cpp:146-153 | after loading several plugins, each slot holds its old callbacks followed by the callbacks offered to it, by plugin order and then by array order, cut at its capacity |
| PluginLoader.ReportedCountCountsDropped | plugin.cpp:145-154 | the reported "loaded" count includes in-range entries that `load_hook` drops: three entries are counted while only one callback is stored |
| PluginLoader.LoadHookArray | plugin.cpp:145-153 | the entry loop hands exactly the in-range entries to `load_hook`, in array order, and counts them |
| PluginLoader.LoadSinglePlugin | plugin.cpp:125-155 | each failure mode (open, symbol, and invalid array, with its count) is reported iff it occurs; a rejected plugin changes nothing; otherwise the table becomes `LoadLibrary` of the old one, and the reported count is the number of in-range entries |
| PluginLoader.LibrarySuffixSpelled | plugin.cpp:182-183 | the suffix test holds iff the name is longer than 3 characters and ends in '.', 's' or 'S', 'o' or 'O' |
| PluginLoader.Candidates | plugin.cpp:175-183 | the candidate indices lie within the directory |
| PluginLoader.CandidatesExact | plugin.cpp:176-183 | the candidates are exactly the entries that are regular files, do not start with '.', contain no '/' and end in `.so` in any case; each appears once, in enumeration order |
| PluginLoader.CandidatesPrefix | plugin.cpp:175 | the candidates seen after a prefix of the scan are a prefix of all candidates |
| PluginLoader.CandidatesIgnoreLibraries | plugin.cpp:176-183 | candidacy depends only on the entry's type and name |
| PluginLoader.Attempted | plugin.cpp:175 | at most `MAX_PLUGINS` = 8 entries are attempted |
| PluginLoader.AttemptedExact | plugin.cpp:175-189 | only candidates are attempted, in enumeration order, and a candidate is skipped only when 8 earlier candidates were already attempted |
| PluginLoader.ScanEnd | plugin.cpp:175 | the scan stops at the end of the directory or at the cap; either way, the candidates it saw are the attempted ones |
| PluginLoader.SeenAttempted | plugin.cpp:175-188 | while fewer than 8 candidates have been attempted, the candidates the scan has seen are the first of the attempted ones |
| PluginLoader.AttemptedIgnoresLibraries | plugin.cpp:187-188 | every attempted candidate counts toward the cap, whether or not opening it succeeds |
| PluginLoader.AllCandidates | plugin.cpp:176-183 | in a directory of candidates only, every index is a candidate |
| PluginLoader.OfferedConcat | plugin.cpp:175-189 | the offers of two runs of plugins concatenate in load order |
| PluginLoader.OfferedNothing | plugin.cpp:126-144 | plugins that fail to open, lack `describe_hooks` or return a rejected array offer nothing to any slot |
| PluginLoader.NineFileAttempted | plugin.cpp:175-188 | with nine candidates, exactly the first eight are attempted |
| PluginLoader.FirstFileOffers | plugin.cpp:146-153 | a plugin with entries for ids 0 and 99 offers its first callback to hook 0 and nothing to any other slot |
| PluginLoader.NineFileOffers | plugin.cpp:175-189 | the nine-file directory offers exactly one callback, to hook 0 |
| PluginLoader.NinthPluginNeverOpened | plugin.cpp:145-189 | nine candidates, the first returning ids 0 and 99 and the rest failing to open: the first reports one hook, hook 0 holds exactly that callback, no other slot of the declared table changes, and the ninth file is never attempted |
| PluginLoader.LoadPlugins | plugin.cpp:159-194 | an unopenable directory changes nothing; otherwise exactly `Attempted` is loaded, in order, and the table becomes `LoadLibraries` of the old one over those entries; the slots keep the hooks they hold, since only the hooks' arrays and counters are written |
| PluginLoader.StartThenHandleCommand | plugin.cpp:97-102 | after the hooks at plugin.cpp:198-199 are declared and `load_plugins` has run, the invoker `plugin_handle_mister_cmd(cmd)` calls exactly the first five callbacks the attempted plugins offered to hook 0, in load order and then array order, each once with `cmd`, and returns their number |

## Left out

- `dlopen`, `dlsym` and `dlerror`, and running the plugin's `describe_hooks`, are foreign calls. Their outcome for each file is an input, the `Library` value of each directory entry.
- A plugin that is attempted and writes a `hooks_count` larger than its array is excluded by `AbiConforming`. The C code reads past the array in that case, which is undefined behaviour. Entries that are never opened (non-candidates, and candidates past the cap) are not constrained.
- `opendir`, `readdir`, `closedir`, `perror` and `getRootDir` are directory I/O. The directory is given as a sequence of entries, or `None` when it cannot be opened.
- The `readdir` loop reads one more entry after the cap is reached, before testing `loaded`. That read has no effect on the table and is not modelled.
- The `firm_api_*` wrappers and `FirmwareAPI` (version 1) only forward to OSD, menu, file and scheduler functions that are not part of this model. The model does not pass the structure to `describe_hooks`.
- Path building with `sprintf` / `snprintf` and the buffer sizes are string formatting. The directory path and each plugin's full path are not modelled; entry names are, as input to the name filter.
- The text of the `fprintf(stderr, …)` diagnostics and the `SPIKE_FUNCTION` profiling call are not modelled. `LoadResult` models only what each branch reports.
- Calling through a callback is not modelled, so `Invoke` returns the trace of calls it makes. The function-pointer casts and the registrars' static-initialisation order are C++ ABI details; callbacks are opaque numbers.
- HookRegistry.HookTable.Register requires `id >= 0`. `HookRegistrar` checks only `id < 64`, and a negative id would write outside `plugin_hooks`. The two declared ids are 0 and 1.
- Hook names are `string` values without a terminating NUL.
- `int` widths are not modelled. A hook's counter never exceeds its limit of at most 5, the per-plugin count never exceeds 64, and the scan counter never exceeds 8. `hooks_count` and the array ids come from the plugin and may be any `int`, but the code only compares them with 0 and 64, so unbounded integers give the same outcome.
