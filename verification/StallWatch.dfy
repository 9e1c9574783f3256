// stalled in agent/src/engine.rs: the bounded scan of the job directory and the stall timer.
module StallWatch {
  import opened Basics

  type Path = seq<string>

  // A directory entry. Skipped: a symlink or special file, or one whose type or size cannot be read.
  // A folder holds the entries that listing it yields: none if it cannot be read.
  datatype Entry = File(name: string, size: nat) | Folder(name: string, entries: seq<Entry>) | Skipped(name: string)

  const BUDGET: nat := 4096

  // ---- the tree, as a reader sees it

  function Find(entries: seq<Entry>, name: string): Option<Entry> {
    if entries == [] then None
    else if entries[0].name == name then Some(entries[0])
    else Find(entries[1..], name)
  }

  // The entry at a path.
  function EntryAt(entries: seq<Entry>, path: Path): Option<Entry>
    decreases |path|
  {
    if path == [] then None
    else match Find(entries, path[0])
      case None => None
      case Some(e) =>
        if |path| == 1 then Some(e) else if e.Folder? then EntryAt(e.entries, path[1..]) else None
  }

  // The size of the regular file at a path.
  function Lookup(entries: seq<Entry>, path: Path): Option<nat> {
    match EntryAt(entries, path)
    case Some(File(_, size)) => Some(size)
    case _ => None
  }

  // The entries of the folder at a path.
  function At(entries: seq<Entry>, path: Path): Option<seq<Entry>> {
    if path == [] then Some(entries)
    else match EntryAt(entries, path)
      case Some(Folder(_, inner)) => Some(inner)
      case _ => None
  }

  // No folder lists a name twice.
  ghost predicate WellNamed(entries: seq<Entry>) {
    && (forall i, j | 0 <= i < j < |entries| :: entries[i].name != entries[j].name)
    && forall e | e in entries && e.Folder? :: WellNamed(e.entries)
  }

  function Count(entries: seq<Entry>): nat {
    if entries == [] then 0
    else 1 + (if entries[0].Folder? then Count(entries[0].entries) else 0) + Count(entries[1..])
  }

  lemma {:induction false} FindListed(entries: seq<Entry>, i: nat)
    requires i < |entries| && forall j, k | 0 <= j < k < |entries| :: entries[j].name != entries[k].name
    ensures Find(entries, entries[i].name) == Some(entries[i])
  {
    if i > 0 {
      assert entries[0].name != entries[i].name;
      FindListed(entries[1..], i - 1);
    }
  }

  // Below a folder, the tree is what the folder holds.
  lemma {:induction false} EntryBelow(entries: seq<Entry>, path: Path, rest: Path)
    requires At(entries, path).Some? && rest != []
    ensures EntryAt(entries, path + rest) == EntryAt(At(entries, path).value, rest)
    decreases |path|
  {
    if path == [] {
      assert path + rest == rest;
    } else {
      assert (path + rest)[1..] == path[1..] + rest;
      EntryBelow(Find(entries, path[0]).value.entries, path[1..], rest);
    }
  }

  // The paths of all entries of a folder and below it.
  ghost function Below(folder: Path, entries: seq<Entry>): multiset<Path>
    decreases entries
  {
    if entries == [] then multiset{}
    else
      var path := folder + [entries[0].name];
      multiset{path} + (if entries[0].Folder? then Below(path, entries[0].entries) else multiset{})
      + Below(folder, entries[1..])
  }

  ghost function Everything(root: seq<Entry>): multiset<Path> { Below([], root) }

  lemma {:induction false} BelowCount(folder: Path, entries: seq<Entry>)
    ensures |Below(folder, entries)| == Count(entries)
    decreases entries
  {
    if entries != [] {
      BelowCount(folder, entries[1..]);
      if entries[0].Folder? {
        BelowCount(folder + [entries[0].name], entries[0].entries);
      }
    }
  }

  lemma {:induction false} BelowInside(folder: Path, entries: seq<Entry>)
    ensures forall path | path in Below(folder, entries) :: folder < path
    decreases entries
  {
    if entries != [] {
      BelowInside(folder, entries[1..]);
      if entries[0].Folder? {
        BelowInside(folder + [entries[0].name], entries[0].entries);
      }
    }
  }

  lemma {:induction false} FindNone(entries: seq<Entry>, name: string)
    requires forall i | 0 <= i < |entries| :: entries[i].name != name
    ensures Find(entries, name).None?
  {
    if entries != [] {
      FindNone(entries[1..], name);
    }
  }

  // The entry at a path that leads through one entry.
  ghost function Through(e: Entry, path: Path): Option<Entry>
    requires path != []
  {
    if e.name != path[0] then None
    else if |path| == 1 then Some(e)
    else if e.Folder? then EntryAt(e.entries, path[1..])
    else None
  }

  lemma EntryCons(entries: seq<Entry>, path: Path)
    requires entries != [] && path != [] && WellNamed(entries)
    ensures EntryAt(entries, path) ==
            if Through(entries[0], path).Some? then Through(entries[0], path) else EntryAt(entries[1..], path)
    ensures Through(entries[0], path).Some? ==> EntryAt(entries[1..], path).None?
  {
    FindNone(entries[1..], entries[0].name);
  }

  lemma BelowCons(folder: Path, entries: seq<Entry>, path: Path)
    requires entries != []
    ensures var (e, here) := (entries[0], folder + [entries[0].name]);
            Below(folder, entries)[path] ==
            (if path == here then 1 else 0) + (if e.Folder? then Below(here, e.entries)[path] else 0)
            + Below(folder, entries[1..])[path]
  {
  }

  lemma BelowOne(folder: Path, e: Entry, path: Path)
    requires path != []
    requires var here := folder + [e.name];
             e.Folder? ==>
               Below(here, e.entries)[here + path[1..]] == if EntryAt(e.entries, path[1..]).Some? then 1 else 0
    ensures var (all, here) := (folder + path, folder + [e.name]);
            (if all == here then 1 else 0) + (if e.Folder? then Below(here, e.entries)[all] else 0)
            == if Through(e, path).Some? then 1 else 0
  {
    var all, here := folder + path, folder + [e.name];
    if path[0] == e.name {
      Deeper(folder, path);
    } else {
      assert all[|folder|] == path[0] && here[|folder|] == e.name;
      if e.Folder? {
        BelowInside(here, e.entries);
      }
    }
    hide Below, EntryAt;
  }

  lemma Deeper(folder: Path, path: Path)
    requires path != []
    ensures folder + path == folder + [path[0]] + path[1..]
    ensures folder + path == folder + [path[0]] <==> |path| == 1
  {
    if |path| == 1 {
      assert path == [path[0]];
    }
  }

  ghost predicate Once(folder: Path, entries: seq<Entry>, path: Path) {
    Below(folder, entries)[folder + path] == if EntryAt(entries, path).Some? then 1 else 0
  }

  lemma OnceCons(folder: Path, entries: seq<Entry>, path: Path)
    requires entries != [] && path != [] && WellNamed(entries) && Once(folder, entries[1..], path)
    requires entries[0].Folder? ==> Once(folder + [entries[0].name], entries[0].entries, path[1..])
    ensures Once(folder, entries, path)
  {
    hide Below, EntryAt, Through, WellNamed;
    BelowOne(folder, entries[0], path);
    BelowCons(folder, entries, folder + path);
    EntryCons(entries, path);
  }

  // Of a well-named tree these are exactly the paths that lead to an entry, each once.
  lemma {:induction false} BelowExact(folder: Path, entries: seq<Entry>, path: Path)
    requires WellNamed(entries)
    ensures Once(folder, entries, path)
    decreases entries
  {
    if path == [] {
      assert folder + path == folder;
      BelowInside(folder, entries);
    } else if entries != [] {
      hide Once;
      BelowExact(folder, entries[1..], path);
      if entries[0].Folder? {
        BelowExact(folder + [entries[0].name], entries[0].entries, path[1..]);
      }
      OnceCons(folder, entries, path);
    }
  }

  lemma EverythingExact(root: seq<Entry>, path: Path)
    requires WellNamed(root)
    ensures Everything(root)[path] == if EntryAt(root, path).Some? then 1 else 0
  {
    BelowExact([], root, path);
    assert [] + path == path;
  }

  // ---- the scan

  datatype Pending = Pending(path: Path, entries: seq<Entry>)

  ghost function Unread(p: Pending): multiset<Path> { Below(p.path, p.entries) }

  ghost function AllUnread(pending: seq<Pending>): multiset<Path> {
    if pending == [] then multiset{} else AllUnread(pending[..|pending| - 1]) + Unread(pending[|pending| - 1])
  }

  ghost predicate Listed(root: seq<Entry>, p: Pending) {
    At(root, p.path) == Some(p.entries) && WellNamed(p.entries)
  }

  ghost predicate Sound(root: seq<Entry>, sizes: map<Path, nat>) {
    forall path | path in sizes :: Lookup(root, path) == Some(sizes[path])
  }

  ghost predicate AllRecorded(root: seq<Entry>, sizes: map<Path, nat>) {
    forall path | Lookup(root, path).Some? :: path in sizes
  }

  // What was recorded is exactly the regular files among the entries seen, with their sizes.
  ghost predicate Recorded(root: seq<Entry>, sizes: map<Path, nat>, seen: multiset<Path>) {
    && Sound(root, sizes)
    && forall path :: path in sizes <==> path in seen && Lookup(root, path).Some?
  }

  lemma ReadEntry(root: seq<Entry>, p: Pending, i: nat)
    requires Listed(root, p) && i < |p.entries|
    ensures EntryAt(root, p.path + [p.entries[i].name]) == Some(p.entries[i])
    ensures p.entries[i].Folder? ==> Listed(root, Pending(p.path + [p.entries[i].name], p.entries[i].entries))
  {
    FindListed(p.entries, i);
    EntryBelow(root, p.path, [p.entries[i].name]);
  }

  lemma UnreadStep(p: Pending, i: nat)
    requires i < |p.entries|
    ensures var (e, path) := (p.entries[i], p.path + [p.entries[i].name]);
            Unread(Pending(p.path, p.entries[i..])) ==
            multiset{path} + (if e.Folder? then Unread(Pending(path, e.entries)) else multiset{})
            + Unread(Pending(p.path, p.entries[i + 1..]))
  {
    assert p.entries[i..][1..] == p.entries[i + 1..] && p.entries[i..][0] == p.entries[i];
  }

  lemma AllUnreadAppend(pending: seq<Pending>, p: Pending)
    ensures AllUnread(pending + [p]) == AllUnread(pending) + Unread(p)
  {
    assert (pending + [p])[..|pending|] == pending;
  }

  // What was seen and what is unread make up the tree.
  ghost predicate Divided(root: seq<Entry>, seen: multiset<Path>, pending: seq<Pending>, rest: Pending) {
    seen + AllUnread(pending) + Unread(rest) == Everything(root)
  }

  lemma DividedReads(root: seq<Entry>, seen: multiset<Path>, pending: seq<Pending>, p: Pending, i: nat,
                     pending': seq<Pending>)
    requires i < |p.entries| && Divided(root, seen, pending, Pending(p.path, p.entries[i..]))
    requires var e := p.entries[i];
             pending' == if e.Folder? then pending + [Pending(p.path + [e.name], e.entries)] else pending
    ensures Divided(root, seen + multiset{p.path + [p.entries[i].name]}, pending', Pending(p.path, p.entries[i + 1..]))
  {
    var e, path := p.entries[i], p.path + [p.entries[i].name];
    UnreadStep(p, i);
    if e.Folder? {
      AllUnreadAppend(pending, Pending(path, e.entries));
    }
    hide AllUnread, Unread, Everything;
  }

  // A scan that has seen some entries, with the unread rest of one folder at hand.
  ghost predicate Scanning(root: seq<Entry>, sizes: map<Path, nat>, seen: multiset<Path>, pending: seq<Pending>,
                           rest: Pending) {
    && Divided(root, seen, pending, rest)
    && |sizes| <= |seen|
    && Recorded(root, sizes, seen)
    && forall p | p in pending :: Listed(root, p)
  }

  lemma ScanStarts(root: seq<Entry>, done: Pending)
    requires WellNamed(root) && done.entries == []
    ensures Scanning(root, map[], multiset{}, [Pending([], root)], done)
  {
    AllUnreadAppend([], Pending([], root));
  }

  lemma ScanPops(root: seq<Entry>, sizes: map<Path, nat>, seen: multiset<Path>, pending: seq<Pending>, done: Pending)
    requires Scanning(root, sizes, seen, pending, done) && done.entries == [] && pending != []
    ensures |seen| <= Count(root) && Listed(root, pending[|pending| - 1])
    ensures Scanning(root, sizes, seen, pending[..|pending| - 1], pending[|pending| - 1])
  {
    BelowCount([], root);
    hide Listed, Recorded;
    assert pending[|pending| - 1] in pending;
  }

  lemma RecordedMore(root: seq<Entry>, sizes: map<Path, nat>, seen: multiset<Path>, path: Path, e: Entry)
    requires Recorded(root, sizes, seen) && EntryAt(root, path) == Some(e)
    ensures Recorded(root, if e.File? then sizes[path := e.size] else sizes, seen + multiset{path})
  {
    hide EntryAt;
  }

  lemma ScanReads(root: seq<Entry>, sizes: map<Path, nat>, seen: multiset<Path>, pending: seq<Pending>,
                  p: Pending, i: nat, sizes': map<Path, nat>, pending': seq<Pending>)
    requires i < |p.entries| && Listed(root, p)
    requires Scanning(root, sizes, seen, pending, Pending(p.path, p.entries[i..]))
    requires var e := p.entries[i];
             && sizes' == (if e.File? then sizes[p.path + [e.name] := e.size] else sizes)
             && pending' == (if e.Folder? then pending + [Pending(p.path + [e.name], e.entries)] else pending)
    ensures var seen' := seen + multiset{p.path + [p.entries[i].name]};
            Scanning(root, sizes', seen', pending', Pending(p.path, p.entries[i + 1..]))
  {
    var e, path := p.entries[i], p.path + [p.entries[i].name];
    ReadEntry(root, p, i);
    RecordedMore(root, sizes, seen, path, e);
    DividedReads(root, seen, pending, p, i, pending');
    hide Recorded, Listed, EntryAt, Divided;
  }

  lemma ScanContinues(root: seq<Entry>, sizes: map<Path, nat>, seen: multiset<Path>, pending: seq<Pending>,
                      p: Pending, i: nat)
    requires i < |p.entries| && Scanning(root, sizes, seen, pending, Pending(p.path, p.entries[i..]))
    ensures |sizes| <= |seen| < Count(root) && Recorded(root, sizes, seen) && seen <= Everything(root)
  {
    BelowCount([], root);
    UnreadStep(p, i);
    hide Recorded, Listed, AllUnread, Unread, Below;
    var more := AllUnread(pending) + Unread(Pending(p.path, p.entries[i..]));
    assert p.path + [p.entries[i].name] in more;
    assert |Everything(root)| == |seen| + |more|;
  }

  lemma ScanEnds(root: seq<Entry>, sizes: map<Path, nat>, seen: multiset<Path>, done: Pending)
    requires WellNamed(root) && Scanning(root, sizes, seen, [], done) && done.entries == [] && |seen| <= BUDGET
    ensures |sizes| <= |seen| == Count(root) && Shows(root, sizes, seen)
  {
    BelowCount([], root);
    assert seen == Everything(root);
    forall path | Lookup(root, path).Some? ensures path in sizes {
      EverythingExact(root, path);
    }
    ScanShows(root, sizes, seen);
  }

  // The inner loop: one folder, up to its end or to the first entry over the budget.
  method ReadFolder(ghost root: seq<Entry>, current: Pending, sizes0: map<Path, nat>, pending0: seq<Pending>,
                    inspected0: nat, ghost seen0: multiset<Path>)
    returns (sizes: map<Path, nat>, pending: seq<Pending>, inspected: nat, ghost seen: multiset<Path>)
    requires WellNamed(root) && inspected0 == |seen0| <= BUDGET
    requires Listed(root, current) && Scanning(root, sizes0, seen0, pending0, current)
    ensures inspected == Min(inspected0 + |current.entries|, BUDGET + 1) && |seen| == Min(inspected, BUDGET)
    ensures current.entries == [] ==> pending == pending0
    ensures inspected <= BUDGET ==> Scanning(root, sizes, seen, pending, Pending(current.path, []))
    ensures inspected > BUDGET ==>
              |sizes| <= |seen| && inspected <= Count(root) && Shows(root, sizes, seen)
  {
    hide Listed, Scanning, Recorded, Count, Everything, Shows, WellNamed;
    sizes, pending, inspected, seen := sizes0, pending0, inspected0, seen0;
    var i := 0;
    assert current.entries[0..] == current.entries;
    while i < |current.entries|
      invariant 0 <= i <= |current.entries|
      invariant inspected == inspected0 + i == |seen| <= BUDGET
      invariant i == 0 ==> pending == pending0
      invariant Scanning(root, sizes, seen, pending, Pending(current.path, current.entries[i..]))
    {
      ScanContinues(root, sizes, seen, pending, current, i);
      inspected := inspected + 1;
      if inspected > BUDGET {
        ScanShows(root, sizes, seen);
        return;
      }
      ghost var sizes1, pending1 := sizes, pending;
      var entry := current.entries[i];
      if entry.Folder? {
        pending := pending + [Pending(current.path + [entry.name], entry.entries)];
      } else if entry.File? {
        sizes := sizes[current.path + [entry.name] := entry.size];
      }
      ScanReads(root, sizes1, seen, pending1, current, i, sizes, pending);
      seen := seen + multiset{current.path + [entry.name]};
      i := i + 1;
    }
    assert current.entries[i..] == [];
  }

  // What a scan shows of a tree: it has seen as many distinct entries as the budget allows, and records
  // exactly the regular files among them; within the budget that is every file.
  ghost predicate Shows(root: seq<Entry>, sizes: map<Path, nat>, seen: multiset<Path>) {
    && |seen| == Min(Count(root), BUDGET)
    && (forall path :: seen[path] <= 1)
    && (forall path | path in seen :: EntryAt(root, path).Some?)
    && Recorded(root, sizes, seen)
    && (Count(root) <= BUDGET ==> AllRecorded(root, sizes))
  }

  // One scan. It ends on any finite tree and inspects at most one entry more than the budget.
  method Scan(root: seq<Entry>) returns (sizes: map<Path, nat>, inspected: nat, ghost seen: multiset<Path>)
    requires WellNamed(root)
    ensures inspected == Min(Count(root), BUDGET + 1)
    ensures |sizes| <= |seen| && Shows(root, sizes, seen)
  {
    sizes, inspected, seen := map[], 0, multiset{};
    var pending := [Pending([], root)];
    ghost var done := Pending([], []);
    ScanStarts(root, done);
    hide Lookup, EntryAt, WellNamed, Listed, Recorded, Scanning, Count, Everything, AllRecorded, Shows;
    while pending != []
      invariant inspected == |seen| <= BUDGET
      invariant done.entries == [] && Scanning(root, sizes, seen, pending, done)
      decreases Count(root) - inspected, |pending|
    {
      ScanPops(root, sizes, seen, pending, done);
      var current := pending[|pending| - 1];
      pending := pending[..|pending| - 1];
      sizes, pending, inspected, seen := ReadFolder(root, current, sizes, pending, inspected, seen);
      if inspected > BUDGET {
        return;
      }
      done := Pending(current.path, []);
    }
    ScanEnds(root, sizes, seen, done);
  }

  lemma ScanShows(root: seq<Entry>, sizes: map<Path, nat>, seen: multiset<Path>)
    requires WellNamed(root) && seen <= Everything(root) && Recorded(root, sizes, seen)
    requires |seen| == Min(Count(root), BUDGET) && (Count(root) <= BUDGET ==> AllRecorded(root, sizes))
    ensures Shows(root, sizes, seen)
  {
    hide Everything, EntryAt, Recorded, AllRecorded, Count, WellNamed;
    forall path ensures seen[path] <= 1 && (path in seen ==> EntryAt(root, path).Some?) {
      EverythingExact(root, path);
    }
  }

  // ---- the timer

  // Some file is larger than it was, a new file counting as having had no bytes.
  predicate Grown(sizes: map<Path, nat>, previous: map<Path, nat>) {
    exists path | path in sizes :: sizes[path] > if path in previous then previous[path] else 0
  }

  // Some file of the tree is larger than in the earlier tree, an absent one having no bytes.
  ghost predicate TreeGrew(earlier: seq<Entry>, later: seq<Entry>) {
    exists path :: Lookup(later, path).Some? &&
      Lookup(later, path).value > (if Lookup(earlier, path).Some? then Lookup(earlier, path).value else 0)
  }

  // What the comparison of two scans says about the trees: exactly that a file recorded now is larger
  // than it was when it was recorded before, if it was. If both scans are complete, it is exactly
  // that some file of the tree has grown.
  lemma GrowthExact(earlier: seq<Entry>, later: seq<Entry>, previous: map<Path, nat>, sizes: map<Path, nat>)
    requires Sound(earlier, previous) && Sound(later, sizes)
    ensures Grown(sizes, previous) <==>
            exists path | path in sizes ::
              Lookup(later, path).value > if path in previous then Lookup(earlier, path).value else 0
    ensures AllRecorded(earlier, previous) && AllRecorded(later, sizes) ==>
              (Grown(sizes, previous) <==> TreeGrew(earlier, later))
  {
    hide Lookup;
    if Grown(sizes, previous) {
      var path :| path in sizes && sizes[path] > if path in previous then previous[path] else 0;
      assert Lookup(later, path).value > if path in previous then Lookup(earlier, path).value else 0;
    }
  }

  // What the stall future sees in time order: touches by the transfers, by FFmpeg's counters and by
  // phase changes, and its own polls, each with the sizes its scan found.
  datatype Tick = Touch(at: nat) | Poll(at: nat, sizes: map<Path, nat>)

  ghost predicate Ordered(start: nat, ticks: seq<Tick>) {
    && (forall i | 0 <= i < |ticks| :: start <= ticks[i].at)
    && forall i, j | 0 <= i < j < |ticks| :: ticks[i].at <= ticks[j].at
  }

  // The sizes of the last poll before tick i.
  function Previous(ticks: seq<Tick>, i: nat): map<Path, nat>
    requires i <= |ticks|
  {
    if i == 0 then map[]
    else if ticks[i - 1].Poll? then ticks[i - 1].sizes
    else Previous(ticks, i - 1)
  }

  predicate IsProgress(ticks: seq<Tick>, i: nat)
    requires i < |ticks|
  {
    ticks[i].Touch? || Grown(ticks[i].sizes, Previous(ticks, i))
  }

  // At tick i, a poll, the timeout has passed since the start and since every progress so far.
  ghost predicate StallsAt(start: nat, timeout: nat, ticks: seq<Tick>, i: nat) {
    && i < |ticks| && ticks[i].Poll?
    && ticks[i].at >= start + timeout
    && forall j: nat | j <= i && IsProgress(ticks, j) :: ticks[i].at >= ticks[j].at + timeout
  }

  // A mark is the start, 0, or a progress, counted with the ticks up to it.
  ghost predicate IsMark(ticks: seq<Tick>, n: nat) {
    n == 0 || (n <= |ticks| && IsProgress(ticks, n - 1))
  }

  function MarkTime(start: nat, ticks: seq<Tick>, n: nat): nat
    requires n <= |ticks|
  {
    if n == 0 then start else ticks[n - 1].at
  }

  // The last progress within the first n ticks, counted like n.
  function LastProgress(ticks: seq<Tick>, n: nat): (last: nat)
    requires n <= |ticks|
    ensures last <= n && IsMark(ticks, last)
    ensures forall k | last <= k < n :: !IsProgress(ticks, k)
  {
    if n == 0 || IsProgress(ticks, n - 1) then n else LastProgress(ticks, n - 1)
  }

  // It is enough to know the last progress.
  lemma {:induction false} StallsExact(start: nat, timeout: nat, ticks: seq<Tick>, i: nat)
    requires Ordered(start, ticks) && i < |ticks|
    ensures LastProgress(ticks, i + 1) == if IsProgress(ticks, i) then i + 1 else LastProgress(ticks, i)
    ensures StallsAt(start, timeout, ticks, i) <==>
            ticks[i].Poll? && ticks[i].at >= MarkTime(start, ticks, LastProgress(ticks, i + 1)) + timeout
  {
    hide IsProgress;
    var n := LastProgress(ticks, i + 1);
    assert n > 0 ==> IsProgress(ticks, n - 1) && start <= ticks[n - 1].at;
    forall j: nat | j <= i && IsProgress(ticks, j) ensures j < n && ticks[j].at <= MarkTime(start, ticks, n) {
    }
  }

  // What `stalled` meets: touches, and its polls, each with the tree that it scans.
  datatype Look = Touched(at: nat) | Looked(at: nat, root: seq<Entry>)

  ghost predicate LooksOrdered(start: nat, looks: seq<Look>) {
    && (forall i | 0 <= i < |looks| :: start <= looks[i].at && (looks[i].Looked? ==> WellNamed(looks[i].root)))
    && forall i, j | 0 <= i < j < |looks| :: looks[i].at <= looks[j].at
  }

  // The tick that a scan of the tree makes of a poll.
  ghost predicate Seen(look: Look, tick: Tick) {
    match look
    case Touched(at) => tick == Touch(at)
    case Looked(at, root) =>
      tick.Poll? && tick.at == at && exists seen :: Shows(root, tick.sizes, seen)
  }

  ghost predicate AllSeen(looks: seq<Look>, ticks: seq<Tick>) {
    |ticks| <= |looks| && forall i | 0 <= i < |ticks| :: Seen(looks[i], ticks[i])
  }

  ghost predicate WithinBudget(looks: seq<Look>) {
    forall i | 0 <= i < |looks| && looks[i].Looked? :: Count(looks[i].root) <= BUDGET
  }

  // The tree at the last poll before look i.
  function PreviousRoot(looks: seq<Look>, i: nat): seq<Entry>
    requires i <= |looks|
  {
    if i == 0 then []
    else if looks[i - 1].Looked? then looks[i - 1].root
    else PreviousRoot(looks, i - 1)
  }

  ghost predicate IsTreeProgress(looks: seq<Look>, i: nat)
    requires i < |looks|
  {
    looks[i].Touched? || TreeGrew(PreviousRoot(looks, i), looks[i].root)
  }

  // At look i, a poll, the timeout has passed since the start, every touch and every growth of the tree.
  ghost predicate TreeStallsAt(start: nat, timeout: nat, looks: seq<Look>, i: nat) {
    && i < |looks| && looks[i].Looked?
    && looks[i].at >= start + timeout
    && forall j: nat | j <= i && IsTreeProgress(looks, j) :: looks[i].at >= looks[j].at + timeout
  }

  lemma {:induction false} PreviousSeen(looks: seq<Look>, ticks: seq<Tick>, i: nat)
    requires AllSeen(looks, ticks) && WithinBudget(looks) && i <= |ticks|
    ensures Sound(PreviousRoot(looks, i), Previous(ticks, i))
    ensures AllRecorded(PreviousRoot(looks, i), Previous(ticks, i))
  {
    if i > 0 {
      assert Seen(looks[i - 1], ticks[i - 1]);
      if looks[i - 1].Touched? {
        PreviousSeen(looks, ticks, i - 1);
      }
    }
  }

  lemma ProgressSeen(looks: seq<Look>, ticks: seq<Tick>, i: nat)
    requires AllSeen(looks, ticks) && WithinBudget(looks) && i < |ticks|
    ensures IsProgress(ticks, i) <==> IsTreeProgress(looks, i)
    ensures ticks[i].at == looks[i].at && (ticks[i].Poll? <==> looks[i].Looked?)
  {
    assert Seen(looks[i], ticks[i]);
    PreviousSeen(looks, ticks, i);
    hide Sound, AllRecorded, Grown, TreeGrew;
    if looks[i].Looked? {
      GrowthExact(PreviousRoot(looks, i), looks[i].root, Previous(ticks, i), ticks[i].sizes);
    }
  }

  // So a verdict over scans within the budget is a verdict over the trees.
  lemma StallsSeen(start: nat, timeout: nat, looks: seq<Look>, ticks: seq<Tick>, i: nat)
    requires AllSeen(looks, ticks) && WithinBudget(looks) && i < |ticks|
    ensures StallsAt(start, timeout, ticks, i) <==> TreeStallsAt(start, timeout, looks, i)
  {
    forall j: nat | j <= i
      ensures IsProgress(ticks, j) <==> IsTreeProgress(looks, j)
      ensures ticks[j].at == looks[j].at && (ticks[j].Poll? <==> looks[j].Looked?)
    {
      ProgressSeen(looks, ticks, j);
    }
    hide IsProgress, IsTreeProgress, AllSeen, WithinBudget;
  }

  // ---- one tick more

  lemma {:induction false} PreviousKept(ticks: seq<Tick>, tick: Tick, n: nat)
    requires n <= |ticks|
    ensures Previous(ticks + [tick], n) == Previous(ticks, n)
  {
    if n > 0 {
      PreviousKept(ticks, tick, n - 1);
    }
  }

  lemma {:induction false} LastProgressKept(ticks: seq<Tick>, tick: Tick, n: nat)
    requires n <= |ticks|
    ensures LastProgress(ticks + [tick], n) == LastProgress(ticks, n)
  {
    if n > 0 {
      PreviousKept(ticks, tick, n - 1);
      LastProgressKept(ticks, tick, n - 1);
    }
  }

  lemma StallsKept(start: nat, timeout: nat, ticks: seq<Tick>, tick: Tick, i: nat)
    requires i < |ticks|
    ensures StallsAt(start, timeout, ticks + [tick], i) <==> StallsAt(start, timeout, ticks, i)
  {
    forall j: nat | j <= i ensures IsProgress(ticks + [tick], j) == IsProgress(ticks, j) {
      PreviousKept(ticks, tick, j);
    }
    hide IsProgress;
  }

  // The two variables of the loop after some ticks without a verdict.
  ghost predicate Watching(start: nat, timeout: nat, ticks: seq<Tick>, previous: map<Path, nat>, lastProgress: nat) {
    && Ordered(start, ticks)
    && previous == Previous(ticks, |ticks|)
    && lastProgress == MarkTime(start, ticks, LastProgress(ticks, |ticks|))
    && forall i: nat | i < |ticks| :: !StallsAt(start, timeout, ticks, i)
  }

  lemma WatchStep(start: nat, timeout: nat, ticks: seq<Tick>, previous: map<Path, nat>, lastProgress: nat,
                  tick: Tick, previous': map<Path, nat>, lastProgress': nat)
    requires Watching(start, timeout, ticks, previous, lastProgress) && Ordered(start, ticks + [tick])
    requires previous' == if tick.Poll? then tick.sizes else previous
    requires lastProgress' == if tick.Touch? || Grown(tick.sizes, previous) then tick.at else lastProgress
    ensures StallsAt(start, timeout, ticks + [tick], |ticks|) <==> tick.Poll? && tick.at >= lastProgress' + timeout
    ensures forall i: nat | i < |ticks| :: !StallsAt(start, timeout, ticks + [tick], i)
    ensures !StallsAt(start, timeout, ticks + [tick], |ticks|) ==>
              Watching(start, timeout, ticks + [tick], previous', lastProgress')
  {
    var n, more := |ticks|, ticks + [tick];
    forall i: nat | i < n ensures !StallsAt(start, timeout, more, i) {
      StallsKept(start, timeout, ticks, tick, i);
    }
    PreviousKept(ticks, tick, n);
    LastProgressKept(ticks, tick, n);
    StallsExact(start, timeout, more, n);
    assert IsProgress(more, n) <==> tick.Touch? || Grown(tick.sizes, previous);
    hide StallsAt, Grown, IsProgress, LastProgress;
  }

  lemma StartsWatching(start: nat, timeout: nat)
    ensures Watching(start, timeout, [], map[], start)
  {
  }

  lemma StillQuiet(start: nat, timeout: nat, ticks: seq<Tick>, previous: map<Path, nat>, lastProgress: nat)
    requires Watching(start, timeout, ticks, previous, lastProgress)
    ensures forall i: nat | i < |ticks| :: !StallsAt(start, timeout, ticks, i)
  {
  }

  // stalled, from the touch at dequeue on: it returns at the first poll that finds the job stalled. The
  // scans it made are the ghost result; with trees within the budget the verdict is one over the trees.
  method Watch(start: nat, timeout: nat, looks: seq<Look>) returns (verdict: Option<nat>, ghost ticks: seq<Tick>)
    requires LooksOrdered(start, looks)
    ensures |ticks| == (if verdict.Some? then verdict.value + 1 else |looks|) <= |looks| && AllSeen(looks, ticks)
    ensures verdict.Some? ==> StallsAt(start, timeout, ticks, verdict.value)
    ensures forall i: nat | i < |looks| && (verdict.None? || i < verdict.value) :: !StallsAt(start, timeout, ticks, i)
    ensures WithinBudget(looks) ==>
              && (verdict.Some? ==> TreeStallsAt(start, timeout, looks, verdict.value))
              && forall i: nat | i < |looks| && (verdict.None? || i < verdict.value) ::
                   !TreeStallsAt(start, timeout, looks, i)
  {
    hide Grown, StallsAt, TreeStallsAt, Watching, WithinBudget, Shows;
    var lastProgress := start;
    var previous: map<Path, nat> := map[];
    ticks := [];
    StartsWatching(start, timeout);
    var n := 0;
    while n < |looks|
      invariant 0 <= n <= |looks| && |ticks| == n
      invariant AllSeen(looks, ticks)
      invariant Watching(start, timeout, ticks, previous, lastProgress)
    {
      ghost var before, previous0, lastProgress0 := ticks, previous, lastProgress;
      match looks[n] {
        case Touched(at) =>
          lastProgress := at;
          ticks := before + [Touch(at)];
          WatchStep(start, timeout, before, previous0, lastProgress0, Touch(at), previous, lastProgress);
        case Looked(at, root) =>
          var sizes, _, seen := Scan(root);
          if Grown(sizes, previous) {
            lastProgress := at;
          }
          previous := sizes;
          ticks := before + [Poll(at, sizes)];
          WatchStep(start, timeout, before, previous0, lastProgress0, Poll(at, sizes), previous, lastProgress);
          if at - lastProgress >= timeout {
            verdict := Some(n);
            VerdictSeen(start, timeout, looks, ticks);
            return;
          }
      }
      n := n + 1;
    }
    verdict := None;
    StillQuiet(start, timeout, ticks, previous, lastProgress);
    VerdictSeen(start, timeout, looks, ticks);
  }

  lemma VerdictSeen(start: nat, timeout: nat, looks: seq<Look>, ticks: seq<Tick>)
    requires AllSeen(looks, ticks)
    ensures WithinBudget(looks) ==>
              forall i: nat | i < |ticks| ::
                StallsAt(start, timeout, ticks, i) <==> TreeStallsAt(start, timeout, looks, i)
  {
    if WithinBudget(looks) {
      forall i: nat | i < |ticks|
        ensures StallsAt(start, timeout, ticks, i) <==> TreeStallsAt(start, timeout, looks, i)
      {
        StallsSeen(start, timeout, looks, ticks, i);
      }
    }
  }

  // From every mark the next progress comes before the timeout does.
  ghost predicate Busy(start: nat, timeout: nat, ticks: seq<Tick>) {
    forall n: nat, i: nat
      | IsMark(ticks, n) && n <= i < |ticks| && ticks[i].at >= MarkTime(start, ticks, n) + timeout ::
      exists k :: n <= k < i && IsProgress(ticks, k)
  }

  // A job touched more often than the timeout is never stalled.
  lemma BusyNeverStalls(start: nat, timeout: nat, ticks: seq<Tick>, i: nat)
    requires Busy(start, timeout, ticks) && timeout > 0
    ensures !StallsAt(start, timeout, ticks, i)
  {
    if i < |ticks| && !IsProgress(ticks, i) {
      var n := LastProgress(ticks, i);
      assert ticks[i].at < MarkTime(start, ticks, n) + timeout;
      assert n > 0 ==> IsProgress(ticks, n - 1);
    }
  }

  // A job without progress after tick p stalls at exactly the first poll that comes the timeout after p.
  lemma {:induction false} QuietStalls(start: nat, timeout: nat, ticks: seq<Tick>, p: nat, i: nat)
    requires Ordered(start, ticks) && timeout > 0
    requires p <= i < |ticks| && IsProgress(ticks, p) && ticks[i].Poll?
    requires forall j | p < j <= i :: !IsProgress(ticks, j)
    ensures StallsAt(start, timeout, ticks, i) <==> ticks[i].at >= ticks[p].at + timeout
  {
    if ticks[i].at >= ticks[p].at + timeout {
      forall j: nat | j <= i && IsProgress(ticks, j) ensures ticks[i].at >= ticks[j].at + timeout {
        assert j <= p;
      }
    }
  }
}
