/** The plugin loader: the file-name filter and the cap on the directory
    scan (`load_plugins`), and the validation of the hook array a plugin
    returns (`load_single_plugin`).

    What `dlopen`, `dlsym` and the plugin's `describe_hooks` do is not
    computed here: each directory entry carries, as a `Library` value, the
    outcome that loading that file yields. */
module PluginLoader {
  import opened HookRegistry

  /** At most this many candidate files are loaded. */
  const MAX_PLUGINS: nat := 8

  datatype Option<T> = None | Some(value: T)

  /** The outcome of opening one candidate file: `dlopen` fails, the
      library has no `describe_hooks`, or `describe_hooks` returns an array
      (`None` for a null pointer) and writes `hooksCount`. */
  datatype Library =
    | OpenFails
    | NoDescribeHooks
    | DescribesHooks(hooks: Option<seq<HookPair>>, hooksCount: int)

  /** One directory entry as `readdir` reports it: whether it is a regular
      file, its name, and what loading it yields. */
  datatype DirEntry = DirEntry(isRegular: bool, name: string, library: Library)

  /** What `load_single_plugin` reports for one plugin. */
  datatype LoadResult =
    | OpenFailed
    | SymbolMissing
    | InvalidHooksArray(hooksCount: int)
    | Loaded(hooks: nat)

  /** The whole-array check: a non-null array whose count lies in [1, 64]. */
  predicate ArrayAccepted(lib: Library)
  {
    lib.DescribesHooks? && lib.hooks.Some? && 0 < lib.hooksCount <= MAX_PLUGIN_HOOKS
  }

  /** A plugin whose array passes the whole-array check holds at least
      `hooksCount` entries; the loader reads that many without checking. */
  predicate AbiConforming(lib: Library)
  {
    ArrayAccepted(lib) ==> lib.hooksCount <= |lib.hooks.value|
  }

  /** The entries the loader goes through: the first `hooksCount` of an
      accepted array, none otherwise. */
  function Entries(lib: Library): (r: seq<HookPair>)
    requires AbiConforming(lib)
    ensures !ArrayAccepted(lib) ==> r == []
    ensures ArrayAccepted(lib) ==> |r| == lib.hooksCount && r == lib.hooks.value[..lib.hooksCount]
  {
    if ArrayAccepted(lib) then lib.hooks.value[..lib.hooksCount] else []
  }

  /** The entries whose id lies in [0, 64), in array order. */
  function InRange(ps: seq<HookPair>): (r: seq<HookPair>)
    ensures |r| <= |ps|
    ensures forall k :: 0 <= k < |r| ==> 0 <= r[k].id < MAX_PLUGIN_HOOKS
    decreases |ps|
  {
    if |ps| == 0 then []
    else
      var last := ps[|ps| - 1];
      InRange(ps[..|ps| - 1]) + (if 0 <= last.id < MAX_PLUGIN_HOOKS then [last] else [])
  }

  /** One more array entry adds itself to the in-range entries when its id
      is in range. */
  lemma InRangeStep(ps: seq<HookPair>, i: nat)
    requires i < |ps|
    ensures InRange(ps[..i + 1]) ==
              InRange(ps[..i]) + (if 0 <= ps[i].id < MAX_PLUGIN_HOOKS then [ps[i]] else [])
  {
    assert ps[..i + 1][..i] == ps[..i];
  }

  /** An entry is kept exactly when it is in the array and its id lies in
      [0, 64). */
  lemma {:induction false} InRangeMembers(ps: seq<HookPair>)
    ensures forall x :: x in InRange(ps) <==> x in ps && 0 <= x.id < MAX_PLUGIN_HOOKS
    decreases |ps|
  {
    if |ps| > 0 {
      var init, last := ps[..|ps| - 1], ps[|ps| - 1];
      InRangeMembers(init);
      assert ps == init + [last];
    }
  }

  /** Skipping the out-of-range entries takes nothing away from any slot. */
  lemma {:induction false} InRangePtrs(ps: seq<HookPair>, s: int)
    requires 0 <= s < MAX_PLUGIN_HOOKS
    ensures PtrsFor(InRange(ps), s) == PtrsFor(ps, s)
    decreases |ps|
  {
    if |ps| > 0 {
      var init, last := ps[..|ps| - 1], ps[|ps| - 1];
      InRangePtrs(init, s);
      if 0 <= last.id < MAX_PLUGIN_HOOKS {
        var r := InRange(init) + [last];
        assert InRange(ps) == r;
        assert r[..|r| - 1] == InRange(init);
      } else {
        assert InRange(ps) == InRange(init) + [] == InRange(init);
        assert PtrsFor(ps, s) == PtrsFor(init, s) + [] == PtrsFor(init, s);
      }
    }
  }

  /** The effect of loading one plugin on the table. */
  function LoadLibrary(v: seq<Slot>, lib: Library): (w: seq<Slot>)
    requires |v| == MAX_PLUGIN_HOOKS && AbiConforming(lib)
    ensures |w| == MAX_PLUGIN_HOOKS
  {
    LoadHooks(v, InRange(Entries(lib)))
  }

  /** A plugin that fails to open, lacks `describe_hooks`, or returns a null
      array or a count outside [1, 64] registers nothing at all. */
  lemma RejectedLoadsNothing(v: seq<Slot>, lib: Library)
    requires |v| == MAX_PLUGIN_HOOKS && !ArrayAccepted(lib)
    ensures LoadLibrary(v, lib) == v
  {
  }

  /** The plugins `idx` are entries of `d`, and each of them honours the
      array count it reports.  Entries that are never opened are not
      constrained. */
  predicate ConformingAt(d: seq<DirEntry>, idx: seq<nat>)
  {
    forall k :: 0 <= k < |idx| ==> idx[k] < |d| && AbiConforming(d[idx[k]].library)
  }

  /** The effect of loading the entries `idx` of `d`, in that order. */
  function LoadLibraries(v: seq<Slot>, d: seq<DirEntry>, idx: seq<nat>): (w: seq<Slot>)
    requires |v| == MAX_PLUGIN_HOOKS && ConformingAt(d, idx)
    ensures |w| == MAX_PLUGIN_HOOKS
    decreases |idx|
  {
    if |idx| == 0 then v
    else LoadLibrary(LoadLibraries(v, d, idx[..|idx| - 1]), d[idx[|idx| - 1]].library)
  }

  /** The callbacks that the plugins `idx` of `d` offer to slot `s`: plugin
      by plugin in load order, and within a plugin in array order. */
  function Offered(d: seq<DirEntry>, idx: seq<nat>, s: int): seq<Callback>
    requires ConformingAt(d, idx)
    decreases |idx|
  {
    if |idx| == 0 then []
    else Offered(d, idx[..|idx| - 1], s) + PtrsFor(Entries(d[idx[|idx| - 1]].library), s)
  }

  /** Registration order: after loading the plugins `idx`, slot `s` holds
      its old callbacks followed by every callback offered to it, first by
      plugin order and then by array order, cut off at its capacity. */
  lemma {:induction false} LoadLibrariesSlot(v: seq<Slot>, d: seq<DirEntry>, idx: seq<nat>, s: int)
    requires |v| == MAX_PLUGIN_HOOKS && ConformingAt(d, idx)
    requires 0 <= s < MAX_PLUGIN_HOOKS && SlotBounded(v[s])
    ensures LoadLibraries(v, d, idx)[s] == Grown(v[s], Offered(d, idx, s))
    decreases |idx|
  {
    if |idx| == 0 {
      match v[s]
      case Undeclared =>
      case Declared(name, limit, c) => assert c + [] == c;
    } else {
      var init := idx[..|idx| - 1];
      var entries := Entries(d[idx[|idx| - 1]].library);
      var mid := LoadLibraries(v, d, init);
      LoadLibrariesSlot(v, d, init, s);
      GrownBounded(v[s], Offered(d, init, s));
      LoadHooksSlot(mid, InRange(entries), s);
      InRangePtrs(entries, s);
      GrownAppend(v[s], Offered(d, init, s), PtrsFor(entries, s));
    }
  }

  /** The "loaded" number `load_single_plugin` reports counts the in-range
      entries, including those that `load_hook` then drops: of three
      in-range entries, the second exceeds the capacity of hook 1 and the
      third names the undeclared id 7, yet all three are counted. */
  lemma ReportedCountCountsDropped(v: seq<Slot>, name: string, p: Callback, q: Callback)
    requires |v| == MAX_PLUGIN_HOOKS && v[1] == Declared(name, 1, []) && v[7] == Undeclared
    ensures var lib := DescribesHooks(Some([HookPair(1, p), HookPair(1, q), HookPair(7, p)]), 3);
            |InRange(Entries(lib))| == 3 &&
            LoadLibrary(v, lib) == v[1 := Declared(name, 1, [p])]
  {
    var ps := [HookPair(1, p), HookPair(1, q), HookPair(7, p)];
    var a, b := [HookPair(1, p)], [HookPair(1, p), HookPair(1, q)];
    assert ps[..3] == ps && ps[..2] == b && b[..1] == a && a[..0] == [];
    assert InRange(a) == a;
    assert InRange(b) == b;
    assert InRange(ps) == ps;
    var once := v[1 := Declared(name, 1, [p])];
    assert [] + [p] == [p];
    assert LoadHooks(v, a) == AcceptHook(v, HookPair(1, p)) == once;
    assert LoadHooks(v, b) == AcceptHook(once, HookPair(1, q)) == once;
    assert LoadHooks(v, ps) == AcceptHook(once, HookPair(7, p)) == once;
  }

  /** `d_type != DT_REG`, a name starting with '.', or a name containing
      '/': the entry is passed over. */
  predicate Skipped(e: DirEntry)
  {
    !e.isRegular || (|e.name| > 0 && e.name[0] == '.') || '/' in e.name
  }

  /** `tolower` in the C locale. */
  function ToLowerAscii(c: char): char
  {
    if 'A' <= c <= 'Z' then (c as int + ('a' as int - 'A' as int)) as char else c
  }

  /** `strncasecmp(a, b, |a|) == 0` for strings of equal length. */
  predicate EqualsIgnoringCase(a: string, b: string)
  {
    |a| == |b| && forall k :: 0 <= k < |a| ==> ToLowerAscii(a[k]) == ToLowerAscii(b[k])
  }

  /** Longer than three characters and ending in ".so", in any case. */
  predicate HasLibrarySuffix(name: string)
  {
    |name| > 3 && EqualsIgnoringCase(name[|name| - 3..], ".so")
  }

  predicate IsCandidate(e: DirEntry)
  {
    !Skipped(e) && HasLibrarySuffix(e.name)
  }

  /** The suffix test spelled out: a dot, then 's' or 'S', then 'o' or 'O'. */
  lemma LibrarySuffixSpelled(name: string)
    ensures HasLibrarySuffix(name) <==>
              |name| > 3 && name[|name| - 3] == '.' &&
              (name[|name| - 2] == 's' || name[|name| - 2] == 'S') &&
              (name[|name| - 1] == 'o' || name[|name| - 1] == 'O')
  {
    if |name| > 3 {
      var tail := name[|name| - 3..];
      assert tail[0] == name[|name| - 3] && tail[1] == name[|name| - 2] && tail[2] == name[|name| - 1];
    }
  }

  /** The indices of the candidate entries of `d`, in enumeration order. */
  function Candidates(d: seq<DirEntry>): (r: seq<nat>)
    ensures forall k :: 0 <= k < |r| ==> r[k] < |d|
    decreases |d|
  {
    if |d| == 0 then []
    else Candidates(d[..|d| - 1]) + (if IsCandidate(d[|d| - 1]) then [|d| - 1] else [])
  }

  /** The candidates are exactly the entries that pass the filter, each
      once and in enumeration order. */
  lemma {:induction false} CandidatesExact(d: seq<DirEntry>)
    ensures forall k :: 0 <= k < |Candidates(d)| ==> IsCandidate(d[Candidates(d)[k]])
    ensures forall k, l :: 0 <= k < l < |Candidates(d)| ==> Candidates(d)[k] < Candidates(d)[l]
    ensures forall j :: 0 <= j < |d| && IsCandidate(d[j]) ==> j in Candidates(d)
    decreases |d|
  {
    if |d| > 0 {
      var init := d[..|d| - 1];
      CandidatesExact(init);
      assert forall k :: 0 <= k < |init| ==> init[k] == d[k];
    }
  }

  /** One more `readdir` step adds the entry's index when it is a candidate. */
  lemma CandidatesStep(d: seq<DirEntry>, i: nat)
    requires i < |d|
    ensures Candidates(d[..i + 1]) == Candidates(d[..i]) + (if IsCandidate(d[i]) then [i] else [])
  {
    assert d[..i + 1][..i] == d[..i];
  }

  /** Loading one more plugin after the plugins `idx`. */
  lemma LoadLibrariesStep(v: seq<Slot>, d: seq<DirEntry>, idx: seq<nat>, k: nat)
    requires |v| == MAX_PLUGIN_HOOKS && ConformingAt(d, idx)
    requires k < |d| && AbiConforming(d[k].library)
    ensures ConformingAt(d, idx + [k])
    ensures LoadLibraries(v, d, idx + [k]) == LoadLibrary(LoadLibraries(v, d, idx), d[k].library)
  {
    assert (idx + [k])[..|idx|] == idx;
  }

  /** The candidates of a prefix of the directory are a prefix of its
      candidates. */
  lemma {:induction false} CandidatesPrefix(d: seq<DirEntry>, i: nat)
    requires i <= |d|
    ensures Candidates(d[..i]) <= Candidates(d)
    decreases |d|
  {
    if i < |d| {
      var init := d[..|d| - 1];
      assert init[..i] == d[..i];
      CandidatesPrefix(init, i);
    } else {
      assert d[..i] == d;
    }
  }

  /** Which candidates depend only on the entries' types and names, not on
      whether loading them succeeds. */
  lemma {:induction false} CandidatesIgnoreLibraries(d: seq<DirEntry>, d': seq<DirEntry>)
    requires |d| == |d'|
    requires forall k :: 0 <= k < |d| ==> d[k].isRegular == d'[k].isRegular && d[k].name == d'[k].name
    ensures Candidates(d) == Candidates(d')
    decreases |d|
  {
    if |d| > 0 {
      CandidatesIgnoreLibraries(d[..|d| - 1], d'[..|d| - 1]);
      assert IsCandidate(d[|d| - 1]) == IsCandidate(d'[|d| - 1]);
    }
  }

  /** The entries `load_plugins` attempts: the first MAX_PLUGINS
      candidates, in enumeration order. */
  function Attempted(d: seq<DirEntry>): (r: seq<nat>)
    ensures |r| <= MAX_PLUGINS
    ensures forall k :: 0 <= k < |r| ==> r[k] < |d|
  {
    Take(Candidates(d), MAX_PLUGINS)
  }

  /** Only candidates are attempted, in enumeration order, and a candidate
      is left out only when MAX_PLUGINS earlier candidates were attempted. */
  lemma AttemptedExact(d: seq<DirEntry>)
    ensures forall k :: 0 <= k < |Attempted(d)| ==> IsCandidate(d[Attempted(d)[k]])
    ensures forall k, l :: 0 <= k < l < |Attempted(d)| ==> Attempted(d)[k] < Attempted(d)[l]
    ensures forall j :: 0 <= j < |d| && IsCandidate(d[j]) && j !in Attempted(d) ==>
              |Attempted(d)| == MAX_PLUGINS && forall k :: 0 <= k < |Attempted(d)| ==> Attempted(d)[k] < j
  {
    CandidatesExact(d);
  }

  /** Where the scan stops: at the end of the directory, or as soon as
      MAX_PLUGINS candidates were attempted; either way the candidates seen
      so far are exactly the attempted ones. */
  lemma ScanEnd(d: seq<DirEntry>, i: nat)
    requires i <= |d| && |Candidates(d[..i])| <= MAX_PLUGINS
    requires i == |d| || |Candidates(d[..i])| == MAX_PLUGINS
    ensures Candidates(d[..i]) == Attempted(d)
  {
    CandidatesPrefix(d, i);
    if i == |d| {
      assert d[..i] == d;
    }
  }

  /** While fewer than MAX_PLUGINS candidates have been attempted, the
      candidates seen so far are the first of the attempted ones. */
  lemma SeenAttempted(d: seq<DirEntry>, i: nat)
    requires i <= |d| && |Candidates(d[..i])| <= MAX_PLUGINS
    ensures Candidates(d[..i]) <= Attempted(d)
  {
    CandidatesPrefix(d, i);
    var seen, all := Candidates(d[..i]), Candidates(d);
    assert forall k :: 0 <= k < |seen| ==> seen[k] == all[k] == Attempted(d)[k];
  }

  /** Every attempted candidate counts toward the cap, whether or not
      opening it succeeds: the attempted entries do not depend on the
      libraries' outcomes. */
  lemma AttemptedIgnoresLibraries(d: seq<DirEntry>, d': seq<DirEntry>)
    requires |d| == |d'|
    requires forall k :: 0 <= k < |d| ==> d[k].isRegular == d'[k].isRegular && d[k].name == d'[k].name
    ensures Attempted(d) == Attempted(d')
  {
    CandidatesIgnoreLibraries(d, d');
  }

  /** When every entry is a candidate, the candidates are all indices. */
  lemma {:induction false} AllCandidates(d: seq<DirEntry>)
    requires forall k :: 0 <= k < |d| ==> IsCandidate(d[k])
    ensures Candidates(d) == seq(|d|, k => k)
    decreases |d|
  {
    if |d| > 0 {
      AllCandidates(d[..|d| - 1]);
    }
  }

  /** A prefix of a run of conforming plugins is conforming. */
  lemma ConformingPrefix(d: seq<DirEntry>, x: seq<nat>, y: seq<nat>)
    requires x <= y && ConformingAt(d, y)
    ensures ConformingAt(d, x)
  {
    assert forall k :: 0 <= k < |x| ==> x[k] == y[k];
  }

  /** Offers of two runs of plugins concatenate. */
  lemma {:induction false} OfferedConcat(d: seq<DirEntry>, x: seq<nat>, y: seq<nat>, s: int)
    requires ConformingAt(d, x) && ConformingAt(d, y) && ConformingAt(d, x + y)
    ensures Offered(d, x + y, s) == Offered(d, x, s) + Offered(d, y, s)
    decreases |y|
  {
    if |y| == 0 {
      assert x + y == x;
    } else {
      var init := y[..|y| - 1];
      assert (x + y)[..|x + y| - 1] == x + init;
      ConformingPrefix(d, init, y);
      ConformingPrefix(d, x + init, x + y);
      OfferedConcat(d, x, init, s);
    }
  }

  /** Plugins that fail to open, lack `describe_hooks` or return a rejected
      array offer nothing. */
  lemma {:induction false} OfferedNothing(d: seq<DirEntry>, idx: seq<nat>, s: int)
    requires forall k :: 0 <= k < |idx| ==> idx[k] < |d| && !ArrayAccepted(d[idx[k]].library)
    ensures Offered(d, idx, s) == []
    decreases |idx|
  {
    if |idx| > 0 {
      OfferedNothing(d, idx[..|idx| - 1], s);
    }
  }

  /** The plugin directory of the nine-file example below. */
  predicate NineFileDirectory(d: seq<DirEntry>, p: Callback, q: Callback)
  {
    (forall k :: 0 <= k < |d| ==> IsCandidate(d[k])) && NineFileLibraries(d, p, q)
  }

  /** What opening each of the nine files yields. */
  predicate NineFileLibraries(d: seq<DirEntry>, p: Callback, q: Callback)
  {
    |d| == 9 &&
    d[0].library == DescribesHooks(Some([HookPair(0, p), HookPair(99, q)]), 2) &&
    (forall k :: 1 <= k < 9 ==> d[k].library == OpenFails)
  }

  /** With nine candidates, the first eight are attempted. */
  lemma NineFileAttempted(d: seq<DirEntry>, p: Callback, q: Callback)
    requires NineFileDirectory(d, p, q)
    ensures Attempted(d) == [0, 1, 2, 3, 4, 5, 6, 7]
    ensures ConformingAt(d, Attempted(d))
  {
    AllCandidates(d);
  }

  /** The first of the nine files offers `p` to hook 0 and nothing to any
      other slot: its entry for id 99 matches no slot. */
  lemma FirstFileOffers(d: seq<DirEntry>, p: Callback, q: Callback, s: int)
    requires |d| > 0
    requires d[0].library == DescribesHooks(Some([HookPair(0, p), HookPair(99, q)]), 2)
    requires 0 <= s < MAX_PLUGIN_HOOKS
    ensures ConformingAt(d, [0])
    ensures Offered(d, [0], s) == if s == 0 then [p] else []
  {
    var ps := [HookPair(0, p), HookPair(99, q)];
    assert Entries(d[0].library) == ps by {
      assert ps[..2] == ps;
    }
    assert Offered(d, [0], s) == [] + PtrsFor(ps, s) by {
      assert [0][..0] == [];
    }
    var first := [HookPair(0, p)];
    assert ps[..1] == first && first[..0] == [];
    assert PtrsFor(ps, s) == PtrsFor(first, s) + [];
    assert PtrsFor(first, s) == [] + (if s == 0 then [p] else []);
  }

  /** Slot by slot, the nine-file directory offers `p` to hook 0 and
      nothing to any other slot. */
  lemma NineFileOffers(d: seq<DirEntry>, p: Callback, q: Callback, s: int)
    requires NineFileLibraries(d, p, q) && 0 <= s < MAX_PLUGIN_HOOKS
    ensures ConformingAt(d, [0, 1, 2, 3, 4, 5, 6, 7])
    ensures Offered(d, [0, 1, 2, 3, 4, 5, 6, 7], s) == if s == 0 then [p] else []
  {
    var att: seq<nat> := [0, 1, 2, 3, 4, 5, 6, 7];
    var rest := att[1..];
    assert att == [0] + rest;
    OfferedConcat(d, [0], rest, s);
    OfferedNothing(d, rest, s);
    FirstFileOffers(d, p, q, s);
  }

  /** Nine candidate files, the first offering one hook for id 0 and one for
      the out-of-range id 99, the others failing to open: `a.so` reports one
      hook, hook 0 holds exactly that callback, no other slot changes, and
      the ninth file is never attempted. */
  lemma NinthPluginNeverOpened(d: seq<DirEntry>, p: Callback, q: Callback)
    requires NineFileDirectory(d, p, q)
    ensures Attempted(d) == [0, 1, 2, 3, 4, 5, 6, 7] && 8 !in Attempted(d)
    ensures ConformingAt(d, Attempted(d))
    ensures |InRange(Entries(d[0].library))| == 1
    ensures LoadLibraries(InitialView(), d, Attempted(d))[0] == Declared("plugin_handle_mister_cmd", 5, [p])
    ensures forall s :: 1 <= s < MAX_PLUGIN_HOOKS ==> LoadLibraries(InitialView(), d, Attempted(d))[s] == InitialView()[s]
  {
    NineFileAttempted(d, p, q);
    var ps := [HookPair(0, p), HookPair(99, q)];
    assert ps[..2] == ps && ps[..1] == [HookPair(0, p)] && ps[..0] == [];
    assert InRange(ps) == [HookPair(0, p)];
    var v := InitialView();
    var w := LoadLibraries(v, d, Attempted(d));
    InitialViewDeclared();
    forall s | 0 <= s < MAX_PLUGIN_HOOKS
      ensures w[s] == Grown(v[s], if s == 0 then [p] else [])
    {
      LoadLibrariesSlot(v, d, Attempted(d), s);
      NineFileOffers(d, p, q, s);
    }
    assert [] + [p] == [p];
    forall s | 1 <= s < MAX_PLUGIN_HOOKS
      ensures w[s] == v[s]
    {
      assert w[s] == Grown(v[s], []);
      if v[s].Declared? {
        assert v[s].callbacks + [] == v[s].callbacks;
      }
    }
  }

  /** The loop of `load_single_plugin` over the first `n` entries of the
      `hooks` array: an entry whose id is not a slot index is skipped, every
      other one is handed to `load_hook`.  Returns the number handed on. */
  method LoadHookArray(t: HookTable, arr: seq<HookPair>, n: int) returns (loaded: nat)
    requires t.Valid() && 0 <= n <= |arr|
    modifies t.Repr - {t.table}
    ensures t.Valid() && t.Repr == old(t.Repr)
    ensures t.View == LoadHooks(old(t.View), InRange(arr[..n]))
    ensures loaded == |InRange(arr[..n])|
  {
    ghost var v0 := t.View;
    loaded := 0;
    var i := 0;
    while i < n
      invariant 0 <= i <= n
      invariant t.Valid() && t.Repr == old(t.Repr)
      invariant loaded == |InRange(arr[..i])|
      invariant t.View == LoadHooks(v0, InRange(arr[..i]))
    {
      InRangeStep(arr, i);
      if arr[i].id < 0 || arr[i].id >= MAX_PLUGIN_HOOKS {
        assert InRange(arr[..i + 1]) == InRange(arr[..i]) + [] == InRange(arr[..i]);
        i := i + 1;
        continue;
      }
      LoadHooksStep(v0, InRange(arr[..i]), arr[i]);
      t.LoadHook(arr[i]);
      loaded := loaded + 1;
      i := i + 1;
    }
  }

  /** `load_single_plugin`, once `dlopen` and `dlsym` have produced `lib`. */
  method LoadSinglePlugin(t: HookTable, lib: Library) returns (r: LoadResult)
    requires t.Valid() && AbiConforming(lib)
    modifies t.Repr - {t.table}
    ensures t.Valid() && t.Repr == old(t.Repr)
    ensures t.View == LoadLibrary(old(t.View), lib)
    ensures r.OpenFailed? <==> lib.OpenFails?
    ensures r.SymbolMissing? <==> lib.NoDescribeHooks?
    ensures r.InvalidHooksArray? <==> lib.DescribesHooks? && !ArrayAccepted(lib)
    ensures r.InvalidHooksArray? ==> r.hooksCount == lib.hooksCount
    ensures r.Loaded? ==> r.hooks == |InRange(Entries(lib))|
    ensures !ArrayAccepted(lib) ==> t.View == old(t.View)
  {
    match lib
    case OpenFails =>
      return OpenFailed;
    case NoDescribeHooks =>
      return SymbolMissing;
    case DescribesHooks(hooks, hooksCount) =>
      if hooks.None? || hooksCount <= 0 || hooksCount > MAX_PLUGIN_HOOKS {
        return InvalidHooksArray(hooksCount);
      }
      var loaded := LoadHookArray(t, hooks.value, hooksCount);
      assert hooks.value[..hooksCount] == Entries(lib);
      return Loaded(loaded);
  }

  /** `load_plugins`, with the directory given as the sequence `readdir`
      enumerates (`None` when it cannot be opened).  Returns the indices of
      the entries it attempted to load. */
  method LoadPlugins(t: HookTable, dir: Option<seq<DirEntry>>) returns (attempted: seq<nat>)
    requires t.Valid()
    requires dir.Some? ==> ConformingAt(dir.value, Attempted(dir.value))
    modifies t.Repr - {t.table}
    ensures t.Valid() && t.Repr == old(t.Repr)
    ensures dir.None? ==> attempted == [] && t.View == old(t.View)
    ensures dir.Some? ==> attempted == Attempted(dir.value) &&
                          t.View == LoadLibraries(old(t.View), dir.value, attempted)
  {
    attempted := [];
    if dir.None? {
      return;
    }
    var d := dir.value;
    ghost var v0 := t.View;
    var loaded := 0;
    var i := 0;
    while i < |d| && loaded < MAX_PLUGINS
      invariant 0 <= i <= |d|
      invariant attempted == Candidates(d[..i])
      invariant forall k :: 0 <= k < |attempted| ==> attempted[k] < i
      invariant attempted <= Attempted(d) && ConformingAt(d, attempted)
      invariant loaded == |attempted| <= MAX_PLUGINS
      invariant t.Valid() && t.Repr == old(t.Repr)
      invariant t.View == LoadLibraries(v0, d, attempted)
    {
      var e := d[i];
      CandidatesStep(d, i);
      i := i + 1;
      if IsCandidate(e) {
        SeenAttempted(d, i);
        assert Attempted(d)[|attempted|] == i - 1;
        ghost var before := t.View;
        var result := LoadSinglePlugin(t, e.library);
        assert t.View == LoadLibrary(before, d[i - 1].library);
        LoadLibrariesStep(v0, d, attempted, i - 1);
        attempted := attempted + [i - 1];
        loaded := loaded + 1;
      }
    }
    ScanEnd(d, i);
  }

  /** Start-up followed by one command: the two hooks are declared, the
      plugins of `dir` are loaded, and the invoker
      `plugin_handle_mister_cmd(cmd)` then calls exactly the first five
      callbacks the attempted plugins offered to hook 0, in load and array
      order, and returns how many it called. */
  method StartThenHandleCommand<A>(dir: Option<seq<DirEntry>>, cmd: A) returns (calls: seq<(Callback, A)>, n: int)
    requires dir.Some? ==> ConformingAt(dir.value, Attempted(dir.value))
    ensures var accepted := Take(if dir.Some? then Offered(dir.value, Attempted(dir.value), 0) else [], 5);
            n == |calls| == |accepted| &&
            forall k :: 0 <= k < |calls| ==> calls[k] == (accepted[k], cmd)
  {
    var t, handleMisterCmd, test := DeclareHooks();
    ghost var v := t.View;
    var attempted := LoadPlugins(t, dir);
    assert t.table[0] == handleMisterCmd;
    ghost var offers: seq<Callback> := [];
    if dir.Some? {
      offers := Offered(dir.value, attempted, 0);
      InitialViewDeclared();
      LoadLibrariesSlot(v, dir.value, attempted, 0);
    }
    assert [] + offers == offers;
    assert t.View[0] == Declared("plugin_handle_mister_cmd", 5, Take(offers, 5));
    calls, n := handleMisterCmd.Invoke(cmd);
  }
}
