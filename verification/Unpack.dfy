/** The accounting and the directory cache of the archive unpacker in `accounts-db/src/hardened_unpack.rs`. */
module Unpack {
  import opened Prelude

  // ---------------------------------------------------------------- archives

  type Path = seq<string>
  type File = nat

  /** `Opaque` is a name that is not valid UTF-8; `Root` stands for root and prefix components. */
  datatype Component = CurDir | ParentDir | Root | Opaque | Normal(name: string)

  datatype Verdict = Valid(dst: Path) | Ignore | Invalid

  /** What reading an entry, the entry checker and writing the entry out come to. */
  datatype Entry = Entry(readable: bool, path: seq<Component>, legacyDir: bool, verdict: Verdict,
                         size: Option<u64>, entrySize: Option<u64>, writable: bool)

  /** What the file system does with a path: whether its directories can be created, where it leads once all links
      are followed, and what opening it gives. */
  datatype FileSystem = FileSystem(create: Path -> bool, canon: Path -> Option<Path>, open: Path -> Option<File>)

  /** `starts` is whether the file creator and the archive can be set up, `drains` whether the creator finishes all
      files at the end. */
  datatype Config = Config(apparentLimit: u64, actualLimit: u64, countLimit: u64, fs: FileSystem, starts: bool,
                           drains: bool)

  datatype UnpackError = Io | Archive

  // ---------------------------------------------------------------- checked sums

  function CheckedTotalSizeSum(total: nat, size: nat, limit: nat): Result<nat, UnpackError> {
    var sum := SaturatingAdd(total, size);
    if sum > limit then Err(Archive) else Ok(sum)
  }

  function CheckedTotalCountIncrement(count: nat, limit: nat): Result<nat, UnpackError> {
    if count + 1 > limit then Err(Archive) else Ok(count + 1)
  }

  // ---------------------------------------------------------------- paths

  predicate Forbidden(c: Component) { c.ParentDir? || c.Root? || c.Opaque? }

  function Names(path: seq<Component>): Path {
    if path == [] then []
    else Names(path[..|path| - 1]) + (if path[|path| - 1].Normal? then [path[|path| - 1].name] else [])
  }

  /** An account file is stored directly under its account path. */
  function Stripped(path: seq<Component>): seq<Component> {
    if |path| == 2 && path[0] == Normal("accounts") && (path[1].Normal? || path[1].CurDir?) then path[1..] else path
  }

  /** Where an entry goes; `None` when it is skipped. */
  function Destination(path: seq<Component>, dst: Path): (r: Option<Path>)
    ensures r.Some? ==> r.value != []
  {
    if ParentDir in path || Names(path) == [] then None else Some(dst + Names(path))
  }

  function Parent(p: Path): Path
    requires p != []
  {
    p[..|p| - 1]
  }

  // ---------------------------------------------------------------- unpacking with a plain map

  /** The running totals, the directories open so far, the order of opening them, and the files placed in order. */
  datatype Progress = Progress(apparent: nat, actual: nat, count: nat, cache: map<Path, File>, openings: seq<Path>,
                               placed: seq<(Path, File)>)

  const START := Progress(0, 0, 0, map[], [], [])

  /** Sizes and count of a valid entry are checked before anything is written. */
  function Account(c: Config, p: Progress, e: Entry): Result<Progress, UnpackError> {
    if e.size.None? then Err(Io)
    else
      var apparent :- CheckedTotalSizeSum(p.apparent, e.size.value, c.apparentLimit);
      if e.entrySize.None? then Err(Io)
      else
        var actual :- CheckedTotalSizeSum(p.actual, e.entrySize.value, c.actualLimit);
        var count :- CheckedTotalCountIncrement(p.count, c.countLimit);
        Ok(p.(apparent := apparent, actual := actual, count := count))
  }

  /** The directory lies inside `dst` once all links are followed. */
  predicate InsideDst(fs: FileSystem, dst: Path, dir: Path) {
    fs.canon(dir).Some? && fs.canon(dst).Some? && fs.canon(dst).value <= fs.canon(dir).value
  }

  /** A directory is created, validated and opened only when it is not open yet. */
  function OpenDir(c: Config, p: Progress, dst: Path, dir: Path): (r: Result<Progress, UnpackError>)
    ensures r.Ok? ==> dir in r.value.cache
  {
    if dir in p.cache then Ok(p)
    else if !c.fs.create(dir) then Err(Io)
    else if !InsideDst(c.fs, dst, dir) then Err(Archive)
    else
      var file := c.fs.open(dir);
      if file.None? then Err(Io) else Ok(p.(cache := p.cache[dir := file.value], openings := p.openings + [dir]))
  }

  function Write(c: Config, p: Progress, e: Entry, dst: Path): Result<Progress, UnpackError> {
    var target := Destination(Stripped(e.path), dst);
    if target.None? then Ok(p)
    else
      var q :- OpenDir(c, p, dst, Parent(target.value));
      if !e.writable then Err(Archive)
      else Ok(q.(placed := q.placed + [(target.value, q.cache[Parent(target.value)])]))
  }

  function UnpackOne(c: Config, p: Progress, e: Entry): Result<Progress, UnpackError> {
    if !e.readable then Err(Io)
    else if e.legacyDir || exists x :: x in e.path && Forbidden(x) then Err(Archive)
    else
      match e.verdict
      case Invalid => Err(Archive)
      case Ignore => Ok(p)
      case Valid(dst) =>
        var q :- Account(c, p, e);
        Write(c, q, e, dst)
  }

  function UnpackAll(c: Config, es: seq<Entry>): Result<Progress, UnpackError> {
    if es == [] then Ok(START)
    else
      var p :- UnpackAll(c, es[..|es| - 1]);
      UnpackOne(c, p, es[|es| - 1])
  }

  function Unpacked(c: Config, es: seq<Entry>): Result<Progress, UnpackError> {
    if !c.starts then Err(Io)
    else
      var p :- UnpackAll(c, es);
      if c.drains then Ok(p) else Err(Io)
  }

  // ---------------------------------------------------------------- the sorted vector

  datatype Ordering = Less | Equal | Greater

  ghost predicate TotalOrder(cmp: (Path, Path) -> Ordering) {
    && (forall x, y :: cmp(x, y) == Equal <==> x == y)
    && (forall x, y :: cmp(x, y) == Less <==> cmp(y, x) == Greater)
    && (forall x, y, z :: cmp(x, y) == Less && cmp(y, z) == Less ==> cmp(x, z) == Less)
  }

  type Dirs = seq<(Path, File)>

  ghost predicate Descending(cmp: (Path, Path) -> Ordering, dirs: Dirs) {
    forall i, j :: 0 <= i < j < |dirs| ==> cmp(dirs[i].0, dirs[j].0) == Greater
  }

  /** Where `dir` stands, or where it belongs, under the reversed comparison. */
  method BinarySearch(cmp: (Path, Path) -> Ordering, dirs: Dirs, dir: Path) returns (found: bool, at: nat)
    requires TotalOrder(cmp) && Descending(cmp, dirs)
    ensures found ==> at < |dirs| && dirs[at].0 == dir
    ensures !found ==> at <= |dirs| && Splits(cmp, dirs, dir, at)
  {
    var lo: nat, hi: nat := 0, |dirs|;
    while lo < hi
      invariant lo <= hi <= |dirs|
      invariant forall i :: 0 <= i < lo ==> cmp(dir, dirs[i].0) == Less
      invariant forall i :: hi <= i < |dirs| ==> cmp(dir, dirs[i].0) == Greater
    {
      var mid := (lo + hi) / 2;
      match cmp(dir, dirs[mid].0)
      case Equal => return true, mid;
      case Less => lo := mid + 1;
      case Greater => hi := mid;
    }
    return false, lo;
  }

  /** All before `at` are greater than `dir`, and all from there on smaller. */
  ghost predicate Splits(cmp: (Path, Path) -> Ordering, dirs: Dirs, dir: Path, at: nat) {
    && (forall i :: 0 <= i < at && i < |dirs| ==> cmp(dir, dirs[i].0) == Less)
    && (forall i :: at <= i < |dirs| ==> cmp(dir, dirs[i].0) == Greater)
  }

  /** Each directory of the vector is in the map, and the other way round. */
  ghost predicate Lists(dirs: Dirs, m: map<Path, File>) {
    && (forall i :: 0 <= i < |dirs| ==> dirs[i].0 in m && m[dirs[i].0] == dirs[i].1)
    && (forall k :: k in m ==> Listed(dirs, k))
  }

  ghost predicate Listed(dirs: Dirs, k: Path) { exists i :: 0 <= i < |dirs| && dirs[i].0 == k }

  lemma Flip(cmp: (Path, Path) -> Ordering, x: Path, y: Path)
    requires TotalOrder(cmp)
    ensures cmp(x, y) == Less ==> cmp(y, x) == Greater
    ensures cmp(x, y) != Equal <==> x != y
  {
  }

  lemma NotThere(cmp: (Path, Path) -> Ordering, dirs: Dirs, m: map<Path, File>, dir: Path, at: nat)
    requires TotalOrder(cmp) && Lists(dirs, m) && Splits(cmp, dirs, dir, at)
    ensures dir !in m
  {
    hide TotalOrder;
    forall i | 0 <= i < |dirs| ensures dirs[i].0 != dir {
      Flip(cmp, dir, dirs[i].0);
    }
  }

  function Insert(dirs: Dirs, at: nat, d: (Path, File)): Dirs
    requires at <= |dirs|
  {
    dirs[..at] + [d] + dirs[at..]
  }

  /** Inserting where the search points keeps the order. */
  lemma InsertDescending(cmp: (Path, Path) -> Ordering, dirs: Dirs, dir: Path, file: File, at: nat)
    requires TotalOrder(cmp) && Descending(cmp, dirs) && at <= |dirs| && Splits(cmp, dirs, dir, at)
    ensures Descending(cmp, Insert(dirs, at, (dir, file)))
  {
    hide TotalOrder;
    var dirs' := Insert(dirs, at, (dir, file));
    forall i, j | 0 <= i < j < |dirs'| ensures cmp(dirs'[i].0, dirs'[j].0) == Greater {
      if j == at {
        Flip(cmp, dir, dirs[i].0);
      }
    }
  }

  /** ... and adds exactly that directory. */
  lemma InsertLists(dirs: Dirs, m: map<Path, File>, dir: Path, file: File, at: nat)
    requires Lists(dirs, m) && at <= |dirs| && dir !in m
    ensures Lists(Insert(dirs, at, (dir, file)), m[dir := file])
  {
    var dirs', m' := Insert(dirs, at, (dir, file)), m[dir := file];
    assert dirs'[at] == (dir, file);
    forall k | k in m' ensures Listed(dirs', k) {
      if k != dir {
        assert Listed(dirs, k);
        var i :| 0 <= i < |dirs| && dirs[i].0 == k;
        assert dirs'[if i < at then i else i + 1].0 == k;
      }
    }
  }

  // ---------------------------------------------------------------- the unpack loop

  /** What the loop keeps in its variables: the same as above, but for the sorted vector of directories. */
  datatype Work = Work(apparent: nat, actual: nat, count: nat, dirs: Dirs, openings: seq<Path>, placed: seq<(Path, File)>)

  ghost predicate Tracks(cmp: (Path, Path) -> Ordering, w: Work, p: Progress) {
    && w.apparent == p.apparent && w.actual == p.actual && w.count == p.count
    && w.openings == p.openings && w.placed == p.placed
    && Descending(cmp, w.dirs) && Lists(w.dirs, p.cache)
  }

  ghost predicate Matches(cmp: (Path, Path) -> Ordering, r: Result<Work, UnpackError>, q: Result<Progress, UnpackError>) {
    if q.Ok? then r.Ok? && Tracks(cmp, r.value, q.value) else r == Err(q.error)
  }

  /** Looks the directory up in the vector, or creates, validates, opens and inserts it. */
  method OpenDstDir(cmp: (Path, Path) -> Ordering, c: Config, w: Work, dst: Path, dir: Path, ghost p: Progress)
    returns (r: Result<Work, UnpackError>, file: File)
    requires TotalOrder(cmp) && Tracks(cmp, w, p)
    ensures Matches(cmp, r, OpenDir(c, p, dst, dir))
    ensures r.Ok? ==> var q := OpenDir(c, p, dst, dir).value; dir in q.cache && q.cache[dir] == file
  {
    hide TotalOrder, Descending, Splits;
    file := 0;
    var found, at := BinarySearch(cmp, w.dirs, dir);
    if found {
      assert w.dirs[at].0 in p.cache;
      return Ok(w), w.dirs[at].1;
    }
    NotThere(cmp, w.dirs, p.cache, dir, at);
    if !c.fs.create(dir) {
      return Err(Io), file;
    }
    if !InsideDst(c.fs, dst, dir) {
      return Err(Archive), file;
    }
    var handle := c.fs.open(dir);
    if handle.None? {
      return Err(Io), file;
    }
    InsertDescending(cmp, w.dirs, dir, handle.value, at);
    InsertLists(w.dirs, p.cache, dir, handle.value, at);
    r := Ok(w.(dirs := Insert(w.dirs, at, (dir, handle.value)), openings := w.openings + [dir]));
    file := handle.value;
  }

  method WriteEntry(cmp: (Path, Path) -> Ordering, c: Config, w: Work, e: Entry, dst: Path, ghost p: Progress)
    returns (r: Result<Work, UnpackError>)
    requires TotalOrder(cmp) && Tracks(cmp, w, p)
    ensures Matches(cmp, r, Write(c, p, e, dst))
  {
    hide TotalOrder, Descending, Lists, Destination, Stripped, OpenDir;
    var target := Destination(Stripped(e.path), dst);
    if target.None? {
      return Ok(w);
    }
    var file;
    r, file := OpenDstDir(cmp, c, w, dst, Parent(target.value), p);
    if r.Err? {
      return;
    }
    if !e.writable {
      return Err(Archive);
    }
    r := Ok(r.value.(placed := r.value.placed + [(target.value, file)]));
  }

  method UnpackEntry(cmp: (Path, Path) -> Ordering, c: Config, w: Work, e: Entry, ghost p: Progress)
    returns (r: Result<Work, UnpackError>)
    requires TotalOrder(cmp) && Tracks(cmp, w, p)
    ensures Matches(cmp, r, UnpackOne(c, p, e))
  {
    hide TotalOrder, Descending, Lists, Write;
    if !e.readable {
      return Err(Io);
    }
    if e.legacyDir || exists x :: x in e.path && Forbidden(x) {
      return Err(Archive);
    }
    if e.verdict.Invalid? {
      return Err(Archive);
    }
    if e.verdict.Ignore? {
      return Ok(w);
    }
    if e.size.None? {
      return Err(Io);
    }
    var apparent := CheckedTotalSizeSum(w.apparent, e.size.value, c.apparentLimit);
    if apparent.Err? {
      return Err(apparent.error);
    }
    if e.entrySize.None? {
      return Err(Io);
    }
    var actual := CheckedTotalSizeSum(w.actual, e.entrySize.value, c.actualLimit);
    if actual.Err? {
      return Err(actual.error);
    }
    var count := CheckedTotalCountIncrement(w.count, c.countLimit);
    if count.Err? {
      return Err(count.error);
    }
    var w' := w.(apparent := apparent.value, actual := actual.value, count := count.value);
    r := WriteEntry(cmp, c, w', e, e.verdict.dst, Account(c, p, e).value);
  }

  /** The loop with its sorted vector does what unpacking with a plain map does. */
  method UnpackArchive(cmp: (Path, Path) -> Ordering, c: Config, es: seq<Entry>) returns (r: Result<Work, UnpackError>)
    requires TotalOrder(cmp)
    ensures Matches(cmp, r, Unpacked(c, es))
  {
    hide TotalOrder, Descending, Lists, UnpackOne;
    if !c.starts {
      return Err(Io);
    }
    var w := Work(0, 0, 0, [], [], []);
    assert Tracks(cmp, w, START) by { NothingTracked(cmp); }
    for i := 0 to |es|
      invariant UnpackAll(c, es[..i]).Ok? && Tracks(cmp, w, UnpackAll(c, es[..i]).value)
    {
      assert es[..i + 1][..i] == es[..i];
      r := UnpackEntry(cmp, c, w, es[i], UnpackAll(c, es[..i]).value);
      if r.Err? {
        ErrorStays(c, es, i + 1);
        return;
      }
      w := r.value;
    }
    assert es[..|es|] == es;
    r := if c.drains then Ok(w) else Err(Io);
  }

  lemma NothingTracked(cmp: (Path, Path) -> Ordering)
    ensures Tracks(cmp, Work(0, 0, 0, [], [], []), START)
  {
  }

  lemma {:induction false} ErrorStays(c: Config, es: seq<Entry>, n: nat)
    requires n <= |es| && UnpackAll(c, es[..n]).Err?
    ensures UnpackAll(c, es) == UnpackAll(c, es[..n])
  {
    if n == |es| {
      assert es[..n] == es;
    } else {
      assert es[..|es| - 1][..n] == es[..n];
      ErrorStays(c, es[..|es| - 1], n);
    }
  }

  // ---------------------------------------------------------------- limits

  function Apparent(e: Entry): nat { if e.verdict.Valid? && e.size.Some? then e.size.value else 0 }

  function Actual(e: Entry): nat { if e.verdict.Valid? && e.entrySize.Some? then e.entrySize.value else 0 }

  /** The true sums, without saturation, over all valid entries. */
  function SumApparent(es: seq<Entry>): nat {
    if es == [] then 0 else SumApparent(es[..|es| - 1]) + Apparent(es[|es| - 1])
  }

  function SumActual(es: seq<Entry>): nat {
    if es == [] then 0 else SumActual(es[..|es| - 1]) + Actual(es[|es| - 1])
  }

  function CountValid(es: seq<Entry>): nat {
    if es == [] then 0 else CountValid(es[..|es| - 1]) + (if es[|es| - 1].verdict.Valid? then 1 else 0)
  }

  function Saturated(n: nat): nat { if n <= U64_MAX then n else U64_MAX }

  // ---------------------------------------------------------------- where files end up

  function Target(e: Entry): Option<Path> {
    if e.verdict.Valid? then Destination(Stripped(e.path), e.verdict.dst) else None
  }

  /** The names of a path are its normal components in order. */
  lemma {:induction false} NamesAppend(p: seq<Component>, q: seq<Component>)
    ensures Names(p + q) == Names(p) + Names(q)
  {
    if q == [] {
      assert p + q == p;
    } else {
      var n := |q| - 1;
      NamesAppend(p, q[..n]);
      assert (p + q)[..|p + q| - 1] == p + q[..n];
    }
  }

  lemma NamesOne(c: Component)
    ensures Names([c]) == if c.Normal? then [c.name] else []
  {
    assert [c][..0] == [];
  }

  predicate NamesNothing(path: seq<Component>) { forall i :: 0 <= i < |path| ==> !path[i].Normal? }

  lemma NothingPush(path: seq<Component>, c: Component)
    ensures NamesNothing(path + [c]) <==> NamesNothing(path) && !c.Normal?
  {
    if NamesNothing(path + [c]) {
      assert (path + [c])[|path|] == c;
      assert forall i :: 0 <= i < |path| ==> (path + [c])[i] == path[i];
    }
  }

  lemma {:induction false} NoNames(path: seq<Component>)
    ensures Names(path) == [] <==> NamesNothing(path)
  {
    hide NamesNothing;
    if path == [] {
      assert NamesNothing([]) by { NothingNamed(); }
    } else {
      var n := |path| - 1;
      assert path == path[..n] + [path[n]];
      NoNames(path[..n]);
      NothingPush(path[..n], path[n]);
    }
  }

  lemma NothingNamed()
    ensures NamesNothing([])
  {
  }

  /** A path that climbs, or names nothing, is skipped; any other leads to its names below the destination. */
  lemma DestinationExactly(path: seq<Component>, dst: Path)
    ensures Destination(path, dst) ==
            if (exists i :: 0 <= i < |path| && path[i] == ParentDir) || NamesNothing(path) then None
            else Some(dst + Names(path))
  {
    NoNames(path);
  }

  /** A path that is accepted is spelled by current-directory marks and normal components alone. */
  predicate Plain(path: seq<Component>) { forall i :: 0 <= i < |path| ==> path[i].Normal? || path[i].CurDir? }

  /** A plain path of a valid entry is placed at all its names, in order, below its destination; only a file directly
      under `accounts` loses that name; a path without a name is skipped. */
  lemma TargetExactly(e: Entry, file: Component)
    requires e.verdict.Valid? && Plain(e.path)
    ensures e.path == [Normal("accounts"), file] ==>
              Target(e) == if file.Normal? then Some(e.verdict.dst + [file.name]) else None
    ensures (forall c :: e.path != [Normal("accounts"), c]) ==>
              Target(e) == if Names(e.path) == [] then None else Some(e.verdict.dst + Names(e.path))
  {
    NamesOne(file);
    if e.path == [Normal("accounts"), file] {
      assert file == e.path[1] && e.path[1..] == [file];
    } else if |e.path| == 2 {
      assert e.path == [e.path[0], e.path[1]];
    }
  }

  /** The destinations of the entries that are not ignored or skipped, in order. */
  function Targets(es: seq<Entry>): seq<Path> {
    if es == [] then []
    else Targets(es[..|es| - 1]) + (if Target(es[|es| - 1]).Some? then [Target(es[|es| - 1]).value] else [])
  }

  ghost predicate PlacedAt(placed: seq<(Path, File)>, paths: seq<Path>) {
    |placed| == |paths| && forall i :: 0 <= i < |placed| ==> placed[i].0 == paths[i]
  }

  lemma StepPlaces(c: Config, p: Progress, e: Entry)
    requires UnpackOne(c, p, e).Ok?
    ensures var placed, target := UnpackOne(c, p, e).value.placed, Target(e);
            if target.None? then placed == p.placed
            else |placed| == |p.placed| + 1 && placed[..|p.placed|] == p.placed && placed[|p.placed|].0 == target.value
  {
    hide Stripped, Destination;
  }

  /** A successful run places exactly the destinations of its entries, in order. */
  lemma {:induction false} PlacedExactly(c: Config, es: seq<Entry>)
    requires UnpackAll(c, es).Ok?
    ensures PlacedAt(UnpackAll(c, es).value.placed, Targets(es))
  {
    hide UnpackOne, Target;
    if es != [] {
      PlacedExactly(c, es[..|es| - 1]);
      StepPlaces(c, UnpackAll(c, es[..|es| - 1]).value, es[|es| - 1]);
    }
  }

  /** `path` is spelled as the directory that the checker chose for `e`, followed by names that the archive gave. */
  ghost predicate Below(e: Entry, path: Path) {
    e.verdict.Valid? && e.verdict.dst < path && forall i :: |e.verdict.dst| <= i < |path| ==> Normal(path[i]) in e.path
  }

  lemma {:induction false} NamesAreNormal(path: seq<Component>)
    ensures forall i :: 0 <= i < |Names(path)| ==> Normal(Names(path)[i]) in path
  {
    if path != [] {
      NamesAreNormal(path[..|path| - 1]);
    }
  }

  lemma TargetBelow(e: Entry)
    requires Target(e).Some?
    ensures Below(e, Target(e).value)
  {
    var names := Names(Stripped(e.path));
    NamesAreNormal(Stripped(e.path));
    assert Target(e).value == e.verdict.dst + names;
    assert forall i :: 0 <= i < |names| ==> Normal(names[i]) in e.path;
  }

  /** Each destination is spelled below the directory chosen for its own entry, through normal names only. */
  lemma {:induction false} TargetsBelow(es: seq<Entry>, path: Path)
    requires path in Targets(es)
    ensures exists e :: e in es && Target(e) == Some(path) && Below(e, path)
  {
    hide Target, Below;
    var last := es[|es| - 1];
    if Target(last).Some? && path == Target(last).value {
      TargetBelow(last);
    } else {
      TargetsBelow(es[..|es| - 1], path);
    }
  }

  // ---------------------------------------------------------------- which directories are opened

  /** The directory that the file of an entry goes into. */
  function Dir(e: Entry): (dir: Option<Path>)
    ensures dir.Some? ==> e.verdict.Valid?
  {
    if Target(e).Some? then Some(Parent(Target(e).value)) else None
  }

  ghost predicate Used(es: seq<Entry>, dir: Path) { exists i :: 0 <= i < |es| && Dir(es[i]) == Some(dir) }

  /** Entry `i` is the first that goes into its directory. */
  ghost predicate FirstUse(es: seq<Entry>, i: nat)
    requires i < |es|
    ensures FirstUse(es, i) ==> Dir(es[i]).Some?
  {
    Dir(es[i]).Some? && !Used(es[..i], Dir(es[i]).value)
  }

  lemma {:induction false} FirstUser(es: seq<Entry>, i: nat) returns (j: nat)
    requires i < |es| && Dir(es[i]).Some?
    ensures j <= i && FirstUse(es, j) && Dir(es[j]) == Dir(es[i])
  {
    hide Dir;
    j := i;
    if !FirstUse(es, i) {
      var k :| 0 <= k < i && Dir(es[..i][k]) == Dir(es[i]);
      j := FirstUser(es, k);
    }
  }

  lemma UsedPush(es: seq<Entry>, e: Entry, dir: Path)
    ensures Used(es + [e], dir) <==> Used(es, dir) || Dir(e) == Some(dir)
  {
    hide Dir;
    if Used(es, dir) {
      var i :| 0 <= i < |es| && Dir(es[i]) == Some(dir);
      assert Dir((es + [e])[i]) == Some(dir);
    }
    if Dir(e) == Some(dir) {
      assert Dir((es + [e])[|es|]) == Some(dir);
    }
  }

  /** Directories are opened once each, in the cache exactly when opened, and with the handle that opening gave. */
  ghost predicate CacheExact(fs: FileSystem, p: Progress) {
    && (forall k :: k in p.cache <==> k in p.openings)
    && (forall k :: k in p.cache ==> fs.open(k) == Some(p.cache[k]))
    && (forall i, j :: 0 <= i < j < |p.openings| ==> p.openings[i] != p.openings[j])
    && (forall f :: f in p.placed ==> f.0 != [] && fs.open(Parent(f.0)) == Some(f.1))
  }

  lemma OpenCacheExact(c: Config, p: Progress, dst: Path, dir: Path)
    requires CacheExact(c.fs, p) && OpenDir(c, p, dst, dir).Ok?
    ensures CacheExact(c.fs, OpenDir(c, p, dst, dir).value)
  {
  }

  lemma StepCacheExact(c: Config, p: Progress, e: Entry)
    requires CacheExact(c.fs, p) && UnpackOne(c, p, e).Ok?
    ensures CacheExact(c.fs, UnpackOne(c, p, e).value)
  {
    hide OpenDir, Destination, Stripped;
    if Dir(e).Some? {
      OpenCacheExact(c, Account(c, p, e).value, e.verdict.dst, Dir(e).value);
    }
  }

  /** Each parent directory is opened once in a run, and each file is placed with the handle of its own parent. */
  lemma {:induction false} OpenedOnce(c: Config, es: seq<Entry>)
    requires UnpackAll(c, es).Ok?
    ensures CacheExact(c.fs, UnpackAll(c, es).value)
  {
    hide CacheExact, UnpackOne;
    if es == [] {
      assert CacheExact(c.fs, START) by { NothingCached(c.fs); }
    } else {
      OpenedOnce(c, es[..|es| - 1]);
      StepCacheExact(c, UnpackAll(c, es[..|es| - 1]).value, es[|es| - 1]);
    }
  }

  lemma NothingCached(fs: FileSystem)
    ensures CacheExact(fs, START)
  {
  }

  /** The open directories are those of the entries so far. */
  ghost predicate CacheIsUsed(es: seq<Entry>, p: Progress) {
    forall dir :: dir in p.cache <==> Used(es, dir)
  }

  // ---------------------------------------------------------------- exactly when it succeeds

  /** The entry in itself is fine: it can be read, checked, sized and written. */
  predicate Acceptable(e: Entry) {
    && e.readable && !e.legacyDir && !(exists x :: x in e.path && Forbidden(x)) && !e.verdict.Invalid?
    && (e.verdict.Valid? ==> e.size.Some? && e.entrySize.Some? && (Dir(e).Some? ==> e.writable))
  }

  predicate Openable(fs: FileSystem, dst: Path, dir: Path) {
    fs.create(dir) && InsideDst(fs, dst, dir) && fs.open(dir).Some?
  }

  /** Each directory can be opened for the first entry that goes there; later entries are not asked. */
  ghost predicate FirstUsesOpen(fs: FileSystem, es: seq<Entry>) {
    forall i :: 0 <= i < |es| && FirstUse(es, i) ==> Openable(fs, es[i].verdict.dst, Dir(es[i]).value)
  }

  ghost predicate AllAcceptable(es: seq<Entry>) { forall i :: 0 <= i < |es| ==> Acceptable(es[i]) }

  ghost predicate Within(c: Config, es: seq<Entry>) {
    && Saturated(SumApparent(es)) <= c.apparentLimit && Saturated(SumActual(es)) <= c.actualLimit
    && CountValid(es) <= c.countLimit
  }

  ghost predicate TotalsTrue(p: Progress, es: seq<Entry>) {
    p.apparent == Saturated(SumApparent(es)) && p.actual == Saturated(SumActual(es)) && p.count == CountValid(es)
  }

  lemma FirstUsesPush(fs: FileSystem, es: seq<Entry>, e: Entry)
    ensures FirstUsesOpen(fs, es + [e]) <==>
            && FirstUsesOpen(fs, es)
            && (Dir(e).Some? && !Used(es, Dir(e).value) ==> Openable(fs, e.verdict.dst, Dir(e).value))
  {
    hide Dir, Openable, Used;
    var all := es + [e];
    assert all[..|es|] == es;
    forall i | 0 <= i < |es| ensures FirstUse(all, i) == FirstUse(es, i) {
      assert all[..i] == es[..i];
    }
    assert FirstUse(all, |es|) <==> Dir(e).Some? && !Used(es, Dir(e).value);
    if FirstUsesOpen(fs, all) {
      forall i | 0 <= i < |es| && FirstUse(es, i) ensures Openable(fs, es[i].verdict.dst, Dir(es[i]).value) {
        assert FirstUse(all, i);
      }
    }
  }

  lemma AcceptablePush(es: seq<Entry>, e: Entry)
    ensures AllAcceptable(es + [e]) <==> AllAcceptable(es) && Acceptable(e)
  {
    hide Acceptable;
    if AllAcceptable(es + [e]) {
      assert forall i :: 0 <= i < |es| ==> es[i] == (es + [e])[i];
      assert (es + [e])[|es|] == e;
    }
  }

  /** Accounting for a valid entry succeeds exactly when its sizes are known and the new totals are within limits. */
  lemma AccountExactly(c: Config, p: Progress, es: seq<Entry>, e: Entry)
    requires TotalsTrue(p, es) && Within(c, es) && e.verdict.Valid?
    ensures Account(c, p, e).Ok? <==> e.size.Some? && e.entrySize.Some? && Within(c, es + [e])
    ensures Account(c, p, e).Ok? ==>
              TotalsTrue(Account(c, p, e).value, es + [e]) && Account(c, p, e).value.cache == p.cache
  {
    assert (es + [e])[..|es|] == es;
  }

  lemma IgnoredTotals(c: Config, p: Progress, es: seq<Entry>, e: Entry)
    requires TotalsTrue(p, es) && Within(c, es) && !e.verdict.Valid?
    ensures TotalsTrue(p, es + [e]) && Within(c, es + [e])
  {
    assert (es + [e])[..|es|] == es;
  }

  /** Writing succeeds exactly when a new directory can be opened and the entry written. */
  lemma WriteExactly(c: Config, p: Progress, e: Entry)
    requires e.verdict.Valid?
    ensures var r, dir := Write(c, p, e, e.verdict.dst), Dir(e);
            && (r.Ok? <==>
                (dir.Some? ==> e.writable && (dir.value !in p.cache ==> Openable(c.fs, e.verdict.dst, dir.value))))
            && (r.Ok? ==> r.value.apparent == p.apparent && r.value.actual == p.actual && r.value.count == p.count)
            && (r.Ok? ==> r.value.cache.Keys == p.cache.Keys + (if dir.Some? then {dir.value} else {}))
  {
    hide Destination, Stripped;
  }

  lemma CacheGrows(es: seq<Entry>, e: Entry, p: Progress, q: Progress)
    requires CacheIsUsed(es, p) && q.cache.Keys == p.cache.Keys + (if Dir(e).Some? then {Dir(e).value} else {})
    ensures CacheIsUsed(es + [e], q)
  {
    hide Used, Dir;
    forall dir: Path ensures Used(es + [e], dir) <==> Used(es, dir) || Dir(e) == Some(dir) {
      UsedPush(es, e, dir);
    }
    assert forall dir :: dir in q.cache <==> dir in q.cache.Keys;
  }

  lemma OneSucceedsExactly(c: Config, p: Progress, es: seq<Entry>, e: Entry)
    requires TotalsTrue(p, es) && Within(c, es) && CacheIsUsed(es, p)
    ensures UnpackOne(c, p, e).Ok? <==>
            && Acceptable(e) && Within(c, es + [e])
            && (Dir(e).Some? && !Used(es, Dir(e).value) ==> Openable(c.fs, e.verdict.dst, Dir(e).value))
    ensures UnpackOne(c, p, e).Ok? ==> TotalsTrue(UnpackOne(c, p, e).value, es + [e])
    ensures UnpackOne(c, p, e).Ok? ==> CacheIsUsed(es + [e], UnpackOne(c, p, e).value)
  {
    hide Used, Dir, Account, Write, Within, Openable;
    if e.verdict.Valid? {
      AccountExactly(c, p, es, e);
      if Account(c, p, e).Ok? {
        WriteExactly(c, Account(c, p, e).value, e);
      }
    } else {
      IgnoredTotals(c, p, es, e);
    }
    if UnpackOne(c, p, e).Ok? {
      CacheGrows(es, e, p, UnpackOne(c, p, e).value);
    }
  }

  /** The loop succeeds exactly when every entry is acceptable, every directory can be opened for its first user and the
      totals, saturated, are within the limits. */
  lemma {:induction false} LoopSucceedsExactly(c: Config, es: seq<Entry>)
    ensures UnpackAll(c, es).Ok? <==> AllAcceptable(es) && FirstUsesOpen(c.fs, es) && Within(c, es)
    ensures UnpackAll(c, es).Ok? ==> TotalsTrue(UnpackAll(c, es).value, es) && CacheIsUsed(es, UnpackAll(c, es).value)
  {
    hide UnpackOne, TotalsTrue, CacheIsUsed, AllAcceptable, FirstUsesOpen, Acceptable, Openable;
    if es == [] {
      NoEntries(c);
    } else {
      var n := |es| - 1;
      assert es == es[..n] + [es[n]];
      LoopSucceedsExactly(c, es[..n]);
      AcceptablePush(es[..n], es[n]);
      FirstUsesPush(c.fs, es[..n], es[n]);
      assert Within(c, es) ==> Within(c, es[..n]);
      if UnpackAll(c, es[..n]).Ok? {
        OneSucceedsExactly(c, UnpackAll(c, es[..n]).value, es[..n], es[n]);
      }
    }
  }

  lemma NoEntries(c: Config)
    ensures AllAcceptable([]) && FirstUsesOpen(c.fs, []) && TotalsTrue(START, []) && CacheIsUsed([], START)
  {
  }

  /** An archive with an entry that climbs, starts at a root, is not valid UTF-8, is a disguised directory or is not
      wanted is never unpacked. */
  lemma BadEntryRejected(c: Config, es: seq<Entry>, e: Entry)
    requires e in es
    requires ParentDir in e.path || Root in e.path || Opaque in e.path || e.legacyDir || e.verdict == Invalid
    ensures UnpackAll(c, es).Err?
  {
    LoopSucceedsExactly(c, es);
    var i :| 0 <= i < |es| && es[i] == e;
    assert !Acceptable(es[i]);
  }

  lemma AcceptedIsPlain(e: Entry)
    requires Acceptable(e)
    ensures Plain(e.path)
  {
    forall i | 0 <= i < |e.path| ensures e.path[i].Normal? || e.path[i].CurDir? {
      assert e.path[i] in e.path;
    }
  }

  // ---------------------------------------------------------------- with which error it fails

  type Checks = seq<(bool, UnpackError)>

  /** The error of the first check that fails. */
  function FirstError(checks: Checks): Option<UnpackError> {
    if checks == [] then None else if !checks[0].0 then Some(checks[0].1) else FirstError(checks[1..])
  }

  predicate FailsWith(r: Result<Progress, UnpackError>, error: Option<UnpackError>) {
    if error.Some? then r == Err(error.value) else r.Ok?
  }

  function EntryChecks(e: Entry): Checks {
    [(e.readable, Io), (!e.legacyDir && Plain(e.path), Archive), (!e.verdict.Invalid?, Archive)]
  }

  function TotalChecks(c: Config, es: seq<Entry>, e: Entry): Checks {
    [(e.size.Some?, Io), (Saturated(SumApparent(es + [e])) <= c.apparentLimit, Archive),
     (e.entrySize.Some?, Io), (Saturated(SumActual(es + [e])) <= c.actualLimit, Archive),
     (CountValid(es + [e]) <= c.countLimit, Archive)]
  }

  function OpenChecks(fs: FileSystem, dst: Path, dir: Path): Checks {
    [(fs.create(dir), Io), (InsideDst(fs, dst, dir), Archive), (fs.open(dir).Some?, Io)]
  }

  /** What an entry that comes after `es` has to pass, in order, with the error where it fails. */
  ghost function AllChecks(c: Config, es: seq<Entry>, e: Entry): Checks {
    EntryChecks(e) +
    (if !e.verdict.Valid? then []
     else TotalChecks(c, es, e) +
          (if Dir(e).None? then []
           else (if Used(es, Dir(e).value) then [] else OpenChecks(c.fs, e.verdict.dst, Dir(e).value)) +
                [(e.writable, Archive)]))
  }

  lemma {:induction false} FirstErrorAppend(a: Checks, b: Checks)
    ensures FirstError(a + b) == if FirstError(a).Some? then FirstError(a) else FirstError(b)
  {
    if a == [] {
      assert a + b == b;
    } else {
      assert (a + b)[1..] == a[1..] + b;
      FirstErrorAppend(a[1..], b);
    }
  }

  lemma FirstOfThree(x: (bool, UnpackError), y: (bool, UnpackError), z: (bool, UnpackError))
    ensures FirstError([x, y, z]) ==
            if !x.0 then Some(x.1) else if !y.0 then Some(y.1) else if !z.0 then Some(z.1) else None
    ensures FirstError([x]) == if !x.0 then Some(x.1) else None
    ensures FirstError([x, y]) == if !x.0 then Some(x.1) else if !y.0 then Some(y.1) else None
  {
    assert [x, y, z][1..] == [y, z] && [y, z][1..] == [z] && [z][1..] == [] && [x][1..] == [] && [x, y][1..] == [y];
    assert [y][1..] == [];
    assert FirstError([z]) == if !z.0 then Some(z.1) else None;
    assert FirstError([y, z]) == if !y.0 then Some(y.1) else FirstError([z]);
  }

  lemma TotalsFail(c: Config, p: Progress, es: seq<Entry>, e: Entry)
    requires TotalsTrue(p, es) && Within(c, es) && e.verdict.Valid?
    ensures FailsWith(Account(c, p, e), FirstError(TotalChecks(c, es, e)))
  {
    assert (es + [e])[..|es|] == es;
    var t := TotalChecks(c, es, e);
    assert t == [t[0], t[1], t[2]] + [t[3], t[4]];
    FirstErrorAppend([t[0], t[1], t[2]], [t[3], t[4]]);
    FirstOfThree(t[0], t[1], t[2]);
    FirstOfThree(t[3], t[4], t[4]);
  }

  lemma OpeningFails(c: Config, p: Progress, dst: Path, dir: Path)
    ensures FailsWith(OpenDir(c, p, dst, dir), if dir in p.cache then None else FirstError(OpenChecks(c.fs, dst, dir)))
  {
    var t := OpenChecks(c.fs, dst, dir);
    FirstOfThree(t[0], t[1], t[2]);
  }

  lemma WritingFails(c: Config, p: Progress, es: seq<Entry>, e: Entry)
    requires e.verdict.Valid? && CacheIsUsed(es, p)
    ensures FailsWith(Write(c, p, e, e.verdict.dst),
              if Dir(e).None? then None
              else FirstError((if Used(es, Dir(e).value) then [] else OpenChecks(c.fs, e.verdict.dst, Dir(e).value)) +
                              [(e.writable, Archive)]))
  {
    assert FirstError([]) == None;
    hide Destination, Stripped, OpenDir, OpenChecks, Used, FirstError;
    if Dir(e).Some? {
      var dir := Dir(e).value;
      OpeningFails(c, p, e.verdict.dst, dir);
      FirstErrorAppend(if Used(es, dir) then [] else OpenChecks(c.fs, e.verdict.dst, dir), [(e.writable, Archive)]);
      FirstOfThree((e.writable, Archive), (true, Io), (true, Io));
    }
  }

  lemma FormFails(e: Entry)
    ensures e.legacyDir || (exists x :: x in e.path && Forbidden(x)) <==> e.legacyDir || !Plain(e.path)
  {
    if !(exists x :: x in e.path && Forbidden(x)) {
      forall i | 0 <= i < |e.path| ensures e.path[i].Normal? || e.path[i].CurDir? {
        assert e.path[i] in e.path;
      }
    }
  }

  lemma OneFails(c: Config, p: Progress, es: seq<Entry>, e: Entry)
    requires TotalsTrue(p, es) && Within(c, es) && CacheIsUsed(es, p)
    ensures FailsWith(UnpackOne(c, p, e), FirstError(AllChecks(c, es, e)))
  {
    assert FirstError([]) == None;
    hide Account, Write, Used, Dir, TotalChecks, OpenChecks, FirstError, Plain, Forbidden, Within;
    FormFails(e);
    var t := EntryChecks(e);
    FirstOfThree(t[0], t[1], t[2]);
    var rest := AllChecks(c, es, e)[3..];
    assert AllChecks(c, es, e) == t + rest;
    FirstErrorAppend(t, rest);
    if e.verdict.Valid? {
      TotalsFail(c, p, es, e);
      var tail := if Dir(e).None? then []
                  else (if Used(es, Dir(e).value) then [] else OpenChecks(c.fs, e.verdict.dst, Dir(e).value)) +
                       [(e.writable, Archive)];
      assert rest == TotalChecks(c, es, e) + tail;
      FirstErrorAppend(TotalChecks(c, es, e), tail);
      if Account(c, p, e).Ok? {
        AccountExactly(c, p, es, e);
        WritingFails(c, Account(c, p, e).value, es, e);
      }
    }
  }

  /** An archive fails at the first entry that fails a check, with the error of the first check that it fails. */
  lemma FailsExactly(c: Config, es: seq<Entry>, i: nat)
    requires i < |es| && UnpackAll(c, es[..i]).Ok?
    ensures var error := FirstError(AllChecks(c, es[..i], es[i]));
            if error.Some? then UnpackAll(c, es) == Err(error.value) else UnpackAll(c, es[..i + 1]).Ok?
  {
    hide AllChecks, FirstError, UnpackOne;
    LoopSucceedsExactly(c, es[..i]);
    OneFails(c, UnpackAll(c, es[..i]).value, es[..i], es[i]);
    assert es[..i + 1][..i] == es[..i];
    if UnpackAll(c, es[..i + 1]).Err? {
      ErrorStays(c, es, i + 1);
    }
  }

  // ---------------------------------------------------------------- corollaries

  /** ... and unpacking when it can start and finish besides. */
  lemma SucceedsExactly(c: Config, es: seq<Entry>)
    ensures Unpacked(c, es).Ok? <==>
            c.starts && c.drains && AllAcceptable(es) && FirstUsesOpen(c.fs, es) && Within(c, es)
    ensures c.starts && UnpackAll(c, es).Err? ==> Unpacked(c, es) == UnpackAll(c, es)
    ensures !c.starts || (UnpackAll(c, es).Ok? && !c.drains) ==> Unpacked(c, es) == Err(Io)
  {
    LoopSucceedsExactly(c, es);
  }

  /** With limits below the largest 64-bit number, success means that the true totals respect them. */
  lemma LimitsRespected(c: Config, es: seq<Entry>)
    requires UnpackAll(c, es).Ok?
    ensures c.apparentLimit < U64_MAX ==> SumApparent(es) <= c.apparentLimit
    ensures c.actualLimit < U64_MAX ==> SumActual(es) <= c.actualLimit
    ensures CountValid(es) <= c.countLimit
  {
    LoopSucceedsExactly(c, es);
  }

  /** A limit of the largest 64-bit number limits nothing. */
  lemma LargestLimitIsNone(c: Config, e: Entry)
    requires c.apparentLimit == U64_MAX && c.actualLimit >= 2 && c.countLimit >= 2
    requires Acceptable(e) && e.verdict.Valid? && e.size == Some(U64_MAX) && e.entrySize == Some(1)
    requires Dir(e).Some? ==> Openable(c.fs, e.verdict.dst, Dir(e).value)
    ensures UnpackAll(c, [e, e]).Ok? && SumApparent([e, e]) > c.apparentLimit
  {
    hide Acceptable, Openable, Dir;
    assert [e, e][..1] == [e];
    assert SumApparent([e, e]) == SumApparent([e]) + U64_MAX && SumApparent([e]) == U64_MAX;
    assert SumActual([e, e]) == SumActual([e]) + 1 && SumActual([e]) == 1;
    assert CountValid([e, e]) == CountValid([e]) + 1 && CountValid([e]) == 1;
    assert FirstUsesOpen(c.fs, [e, e]);
    LoopSucceedsExactly(c, [e, e]);
  }

  // ---------------------------------------------------------------- containment

  /** The file of the entry ends up inside the directory chosen for it, once all links are followed. */
  ghost predicate Contained(fs: FileSystem, e: Entry) {
    Dir(e).Some? ==> InsideDst(fs, e.verdict.dst, Dir(e).value)
  }

  /** Each file's directory was validated, but for the first entry that went there. */
  lemma PlacedValidated(c: Config, es: seq<Entry>, i: nat) returns (j: nat)
    requires UnpackAll(c, es).Ok? && i < |es| && Dir(es[i]).Some?
    ensures j <= i && Dir(es[j]) == Dir(es[i]) && InsideDst(c.fs, es[j].verdict.dst, Dir(es[i]).value)
  {
    hide Dir;
    LoopSucceedsExactly(c, es);
    j := FirstUser(es, i);
  }

  /** `n` validations of a run lead from `from` to `to`. */
  ghost predicate Leads(es: seq<Entry>, from: Path, to: Path, n: nat)
    decreases n
  {
    if n == 0 then from == to
    else exists j :: && 0 <= j < |es| && FirstUse(es, j) && Dir(es[j]).value == to
                     && Leads(es, from, es[j].verdict.dst, n - 1)
  }

  ghost predicate Linked(es: seq<Entry>, from: Path, to: Path) { exists n: nat :: Leads(es, from, to, n) }

  /** Validations lead from the directory chosen for the entry to where its file goes; known from the entries alone. */
  ghost predicate Covered(es: seq<Entry>, e: Entry) {
    Dir(e).Some? ==> Linked(es, e.verdict.dst, Dir(e).value)
  }

  lemma {:induction false} LeadsInside(fs: FileSystem, es: seq<Entry>, from: Path, to: Path, n: nat)
    requires FirstUsesOpen(fs, es) && fs.canon(to).Some? && Leads(es, from, to, n)
    ensures InsideDst(fs, from, to)
    decreases n
  {
    hide Dir, FirstUse;
    if n > 0 {
      var j :| 0 <= j < |es| && FirstUse(es, j) && Dir(es[j]).value == to && Leads(es, from, es[j].verdict.dst, n - 1);
      assert Openable(fs, es[j].verdict.dst, to);
      LeadsInside(fs, es, from, es[j].verdict.dst, n - 1);
    }
  }

  /** A file that validations lead to is contained, whatever the file system. */
  lemma CoveredIsContained(c: Config, es: seq<Entry>, i: nat)
    requires UnpackAll(c, es).Ok? && i < |es| && Covered(es, es[i])
    ensures Contained(c.fs, es[i])
  {
    hide Dir, Leads, UnpackAll;
    if Dir(es[i]).Some? {
      var _ := PlacedValidated(c, es, i);
      var n: nat :| Leads(es, es[i].verdict.dst, Dir(es[i]).value, n);
      LoopSucceedsExactly(c, es);
      LeadsInside(c.fs, es, es[i].verdict.dst, Dir(es[i]).value, n);
    }
  }

  /** A file system in which exactly what validations lead to from `from` lies inside `from`. */
  ghost function Separating(es: seq<Entry>, from: Path): FileSystem {
    FileSystem(_ => true, x => Some(if Linked(es, from, x) then ["linked"] else []), _ => Some(0))
  }

  lemma SeparatingOpens(es: seq<Entry>, from: Path)
    ensures FirstUsesOpen(Separating(es, from), es)
  {
    hide Dir, FirstUse;
    forall j | 0 <= j < |es| && FirstUse(es, j)
      ensures Openable(Separating(es, from), es[j].verdict.dst, Dir(es[j]).value)
    {
      var to := Dir(es[j]).value;
      if Linked(es, from, es[j].verdict.dst) {
        var n: nat :| Leads(es, from, es[j].verdict.dst, n);
        assert Leads(es, from, to, n + 1);
      }
    }
  }

  /** Any other file escapes in some file system in which the archive unpacks. */
  lemma UncoveredEscapes(c: Config, es: seq<Entry>, i: nat)
    requires AllAcceptable(es) && Within(c, es) && i < |es| && !Covered(es, es[i])
    ensures var fs := Separating(es, es[i].verdict.dst);
            UnpackAll(c.(fs := fs), es).Ok? && !Contained(fs, es[i])
  {
    hide Dir, AllAcceptable, FirstUsesOpen;
    var from := es[i].verdict.dst;
    SeparatingOpens(es, from);
    LoopSucceedsExactly(c.(fs := Separating(es, from)), es);
    assert Leads(es, from, from, 0);
  }

  /** Every file is contained in every file system in which the archive unpacks, exactly when validations lead to every
      file; nothing else has to be known of the links. */
  lemma ContainedExactly(c: Config, es: seq<Entry>)
    requires AllAcceptable(es) && Within(c, es)
    ensures (forall fs: FileSystem :: UnpackAll(c.(fs := fs), es).Ok? ==>
               forall i :: 0 <= i < |es| ==> Contained(fs, es[i]))
       <==> forall i :: 0 <= i < |es| ==> Covered(es, es[i])
  {
    hide Contained, Covered, UnpackAll;
    if forall i :: 0 <= i < |es| ==> Covered(es, es[i]) {
      forall fs: FileSystem, i | UnpackAll(c.(fs := fs), es).Ok? && 0 <= i < |es| ensures Contained(fs, es[i]) {
        CoveredIsContained(c.(fs := fs), es, i);
      }
    } else {
      var i :| 0 <= i < |es| && !Covered(es, es[i]);
      UncoveredEscapes(c, es, i);
    }
  }

  /** In particular, it is enough that entries that go into the same directory were given the same one to go below. */
  lemma SharedDstContained(c: Config, es: seq<Entry>, i: nat)
    requires UnpackAll(c, es).Ok? && i < |es|
    requires forall j :: 0 <= j < |es| && Dir(es[j]).Some? && Dir(es[j]) == Dir(es[i]) ==>
               es[j].verdict.dst == es[i].verdict.dst
    ensures Contained(c.fs, es[i])
  {
    hide Dir, UnpackAll;
    if Dir(es[i]).Some? {
      var j := PlacedValidated(c, es, i);
    }
  }

  /** An account file and a snapshot file that go into the same directory, which is a link that leads elsewhere. */
  const ACCOUNT := Entry(true, [Normal("accounts"), Normal("1.2")], false, Valid(["ledger", "snapshots"]), Some(1),
                         Some(1), true)
  const SNAPSHOT := Entry(true, [Normal("snapshots"), Normal("status_cache")], false, Valid(["ledger"]), Some(1),
                          Some(1), true)

  function LinkedSnapshots(): FileSystem {
    FileSystem(_ => true, (x: Path) => Some(if x == ["ledger", "snapshots"] then ["elsewhere"] else x), _ => Some(0))
  }

  lemma ExampleDirs()
    ensures Dir(ACCOUNT) == Dir(SNAPSHOT) == Some(["ledger", "snapshots"])
  {
    var a, s := Stripped(ACCOUNT.path), Stripped(SNAPSHOT.path);
    assert a == [Normal("1.2")] && a[..0] == [];
    assert Names(a) == ["1.2"];
    assert s == [Normal("snapshots"), Normal("status_cache")] && s[..1] == [Normal("snapshots")] && s[..1][..0] == [];
    assert Names(s[..1]) == ["snapshots"];
    assert Names(s) == ["snapshots", "status_cache"];
    var target, other := ["ledger", "snapshots"] + ["1.2"], ["ledger"] + ["snapshots", "status_cache"];
    assert Target(ACCOUNT) == Some(target) && Parent(target) == ["ledger", "snapshots"];
    assert Target(SNAPSHOT) == Some(other) && Parent(other) == ["ledger", "snapshots"];
  }

  /** The second use of a directory is not validated: after the account file the snapshot file escapes, while in the
      other order the same archive is rejected. */
  lemma OrderMatters(c: Config)
    requires c.apparentLimit >= 2 && c.actualLimit >= 2 && c.countLimit >= 2 && c.fs == LinkedSnapshots()
    ensures UnpackAll(c, [ACCOUNT, SNAPSHOT]).Ok? && !Contained(c.fs, SNAPSHOT)
    ensures UnpackAll(c, [SNAPSHOT, ACCOUNT]).Err?
  {
    hide Dir, UnpackAll, FirstUsesOpen, Used;
    ExampleDirs();
    TwoEntries(c, ACCOUNT, SNAPSHOT);
    TwoEntries(c, SNAPSHOT, ACCOUNT);
    assert ["elsewhere"][0] != ["ledger"][0];
  }

  lemma TwoEntries(c: Config, a: Entry, b: Entry)
    requires Dir(a).Some? && Dir(a) == Dir(b) && Acceptable(a) && Acceptable(b)
    requires a.size == b.size == a.entrySize == b.entrySize == Some(1) && a.verdict.Valid? && b.verdict.Valid?
    requires c.apparentLimit >= 2 && c.actualLimit >= 2 && c.countLimit >= 2
    ensures UnpackAll(c, [a, b]).Ok? <==> Openable(c.fs, a.verdict.dst, Dir(a).value)
  {
    hide Dir, Acceptable, Openable;
    var es := [a, b];
    assert es[..1] == [a] && [a][..0] == [] && [a] + [b] == es && [] + [a] == [a];
    assert SumApparent(es) == SumApparent([a]) + 1 && SumApparent([a]) == 1;
    assert SumActual(es) == SumActual([a]) + 1 && SumActual([a]) == 1;
    assert CountValid(es) == CountValid([a]) + 1 && CountValid([a]) == 1;
    UsedPush([], a, Dir(a).value);
    FirstUsesPush(c.fs, [], a);
    FirstUsesPush(c.fs, [a], b);
    LoopSucceedsExactly(c, es);
    NoEntries(c);
  }
}
