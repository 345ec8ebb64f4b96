/** The files of one project in the content-addressed store: the object store, the quarantine folders and the incoming
    area, with the garbage collector's moves and sweeps. Every change of the disk is recorded in a trace. */
module CasFiles {
  import opened BlobCodec
  import CivilDate

  type Hex = string
  type Date = CivilDate.Date

  datatype Path = ObjectFile(hex: Hex) | QuarantineFile(date: Date, hex: Hex) | IncomingFile(name: string)

  type Files = map<Path, Bytes>

  /** How the file system answers a move: it links, it refuses to link, or it refuses to copy as well. */
  datatype Fault = Works | LinkRefused | CopyRefused

  const MS_PER_DAY := 24 * 60 * 60 * 1000
  const QUARANTINE_MIN_DAYS := 30

  // ---------- dates ----------

  /** The date a clock that reads `ms` gives to a quarantine folder. */
  ghost predicate IsDateOf(d: Date, ms: int) {
    CivilDate.ValidDate(d) && CivilDate.DayNumber(d) == ms / MS_PER_DAY
  }

  /** A folder name that parses as a date. A day past the end of its month, up to the 31st, runs over into the next. */
  predicate Parses(d: Date) {
    1 <= d.month <= 12 && 1 <= d.day <= 31
  }

  function Midnight(d: Date): int
    requires Parses(d)
  {
    CivilDate.DayNumber(d) * MS_PER_DAY
  }

  predicate OldEnough(d: Date, now: int) {
    Parses(d) && now - Midnight(d) >= QUARANTINE_MIN_DAYS * MS_PER_DAY
  }

  /** A folder old enough to sweep was dated by a reading more than 29 days ago, and one of 30 days ago is old enough. */
  lemma SweepAge(d: Date, ms: int, now: int)
    requires IsDateOf(d, ms)
    ensures OldEnough(d, now) ==> now - ms > 29 * 86_400_000
    ensures now - ms >= 30 * 86_400_000 ==> OldEnough(d, now)
  {
    hide CivilDate.DayNumber;
    assert ms == ms / MS_PER_DAY * MS_PER_DAY + ms % MS_PER_DAY;
  }

  // ---------- traces ----------

  ghost predicate Quarantined(files: Files, hex: Hex) {
    exists date :: QuarantineFile(date, hex) in files
  }

  /** A digest that leaves the object store has a quarantine entry of its name. */
  ghost predicate SafeStep(before: Files, after: Files) {
    forall hex :: ObjectFile(hex) in before && ObjectFile(hex) !in after ==> Quarantined(after, hex)
  }

  ghost predicate SafeTrace(trace: seq<Files>) {
    forall i, j :: 0 <= i && j == i + 1 && j < |trace| ==> SafeStep(trace[i], trace[j])
  }

  function Moved(files: Files, hex: Hex, date: Date): Files {
    var source, dest := ObjectFile(hex), QuarantineFile(date, hex);
    if source !in files then files
    else files[dest := if dest in files then files[dest] else files[source]] - {source}
  }

  /** What marking leaves alone: reachable and forbidden objects. */
  ghost predicate Spared(hex: Hex, reachable: set<Hex>, forbidden: Hex -> bool) {
    hex in reachable || forbidden(hex)
  }

  ghost predicate KeepsSpared(before: Files, after: Files, reachable: set<Hex>, forbidden: Hex -> bool) {
    forall hex :: Spared(hex, reachable, forbidden) && ObjectFile(hex) in before ==>
      ObjectFile(hex) in after && after[ObjectFile(hex)] == before[ObjectFile(hex)]
  }

  /** What marking does to one path. */
  ghost predicate MarkedAt(before: Files, after: Files, date: Date, path: Path) {
    match path
    case IncomingFile(_) => (path in before <==> path in after) && (path in before ==> after[path] == before[path])
    case ObjectFile(hex) =>
      if path in after then path in before && after[path] == before[path]
      else path in before ==> QuarantineFile(date, hex) in after
    case QuarantineFile(d, hex) =>
      if path in before then path in after && after[path] == before[path]
      else path in after ==> d == date && ObjectFile(hex) in before && ObjectFile(hex) !in after
                             && after[path] == before[ObjectFile(hex)]
  }

  ghost predicate Marked(before: Files, after: Files, date: Date) {
    forall path :: MarkedAt(before, after, date, path)
  }

  lemma MoveMarks(start: Files, files: Files, hex: Hex, date: Date)
    requires Marked(start, files, date)
    ensures Marked(start, Moved(files, hex, date), date)
  {
    var after := Moved(files, hex, date);
    forall path ensures MarkedAt(start, after, date, path) {
      assert MarkedAt(start, files, date, path);
      if path.QuarantineFile? { assert MarkedAt(start, files, date, ObjectFile(path.hex)); }
      if path.ObjectFile? { assert MarkedAt(start, files, date, QuarantineFile(date, path.hex)); }
    }
  }

  /** What a sweep removes. */
  predicate Expired(path: Path, now: int, forbidden: (Date, Hex) -> bool) {
    path.QuarantineFile? && OldEnough(path.date, now) && !forbidden(path.date, path.hex)
  }

  function Swept(files: Files, now: int, forbidden: (Date, Hex) -> bool): Files {
    map path | path in files && !Expired(path, now, forbidden) :: files[path]
  }

  class Store {
    var files: Files
    ghost var trace: seq<Files>

    ghost predicate Valid()
      reads this
    {
      trace != [] && trace[|trace| - 1] == files && SafeTrace(trace)
    }

    constructor (disk: Files)
      ensures Valid() && files == disk
    {
      files := disk;
      trace := [disk];
    }

    method AddFile(path: Path, bytes: Bytes)
      requires Valid()
      modifies this
      ensures Valid() && files == old(files)[path := bytes] && trace == old(trace) + [files]
    {
      files := files[path := bytes];
      trace := trace + [files];
    }

    method Unlink(path: Path)
      requires Valid() && path in files
      requires path.ObjectFile? ==> Quarantined(files, path.hex)
      modifies this
      ensures Valid() && files == old(files) - {path} && trace == old(trace) + [files]
    {
      assert SafeStep(files, files - {path}) by {
        if path.ObjectFile? {
          var date :| QuarantineFile(date, path.hex) in files;
          assert QuarantineFile(date, path.hex) in files - {path};
        }
      }
      files := files - {path};
      trace := trace + [files];
    }

    /** Links the object into the dated folder, or copies it where linking fails, and only then removes it. */
    method MoveToQuarantine(hex: Hex, date: Date, fault: Fault) returns (ok: bool)
      requires Valid()
      modifies this
      ensures Valid() && old(trace) <= trace && |trace| <= |old(trace)| + 2
      ensures files == if ok then Moved(old(files), hex, date) else old(files)
      ensures ok <==> fault != CopyRefused || ObjectFile(hex) !in old(files)
      ensures forall k :: |old(trace)| <= k < |trace| ==>
                forall other :: other != hex && ObjectFile(other) in old(files) ==>
                  ObjectFile(other) in trace[k] && trace[k][ObjectFile(other)] == old(files)[ObjectFile(other)]
    {
      var source, dest := ObjectFile(hex), QuarantineFile(date, hex);
      if source !in files { return true; }
      if fault == Works {
        if dest !in files { AddFile(dest, files[source]); }
        assert dest in files;
        Unlink(source);
        return true;
      }
      if fault == CopyRefused { return false; }
      if dest !in files { AddFile(dest, files[source]); }
      assert dest in files;
      Unlink(source);
      return true;
    }

    /** Moves every stored object that is neither reachable nor forbidden. At every moment the spared objects are in
        place and unchanged; at the end nothing else is left, each object moved is in the dated folder, and nothing in
        quarantine was overwritten. */
    method MarkUnreachable(reachable: set<Hex>, forbidden: Hex -> bool, date: Date, faultOf: Hex -> Fault)
      returns (ok: bool)
      requires Valid()
      modifies this
      ensures Valid() && old(trace) <= trace && Marked(old(files), files, date)
      ensures forall k :: |old(trace)| <= k < |trace| ==> KeepsSpared(old(files), trace[k], reachable, forbidden)
      ensures ok ==> forall hex :: ObjectFile(hex) in files ==> Spared(hex, reachable, forbidden)
      ensures (forall hex :: faultOf(hex) != CopyRefused) ==> ok
    {
      ghost var start := files;
      var stored := set path | path in files && path.ObjectFile? :: path.hex;
      assert Marked(start, files, date);
      while stored != {}
        invariant Valid() && old(trace) <= trace && Marked(start, files, date)
        invariant forall k :: |old(trace)| <= k < |trace| ==> KeepsSpared(start, trace[k], reachable, forbidden)
        invariant KeepsSpared(start, files, reachable, forbidden)
        invariant forall hex :: ObjectFile(hex) in files ==> hex in stored || Spared(hex, reachable, forbidden)
        decreases stored
      {
        hide SafeTrace, Marked, MarkedAt;
        var hex :| hex in stored;
        stored := stored - {hex};
        if hex !in reachable && !forbidden(hex) {
          MoveMarks(start, files, hex, date);
          ghost var before := files;
          ghost var length := |trace|;
          ok := MoveToQuarantine(hex, date, faultOf(hex));
          forall k | length <= k < |trace| ensures KeepsSpared(start, trace[k], reachable, forbidden) { }
          MovedKeepsOthers(before, hex, date);
          if !ok { return false; }
        }
      }
      return true;
    }

    /** Removes exactly the quarantine entries that are old enough and not forbidden. */
    method SweepQuarantine(now: int, forbidden: (Date, Hex) -> bool)
      requires Valid()
      modifies this
      ensures Valid() && old(trace) <= trace && files == Swept(old(files), now, forbidden)
    {
      ghost var start := files;
      var folders := set path | path in files && path.QuarantineFile? :: path.date;
      ghost var done: set<Date> := {};
      while folders != {}
        invariant Valid() && old(trace) <= trace
        invariant files == SweptFolders(start, now, forbidden, done)
        invariant forall path :: path in start && path.QuarantineFile? ==> path.date in folders + done
        decreases folders
      {
        hide SafeTrace, OldEnough;
        var date :| date in folders;
        folders := folders - {date};
        if OldEnough(date, now) {
          SweepFolder(date, now, forbidden, start, done);
        } else {
          YoungFolder(start, now, forbidden, done, date);
        }
        done := done + {date};
      }
      AllFolders(start, now, forbidden, done);
    }

    method SweepFolder(date: Date, now: int, forbidden: (Date, Hex) -> bool, ghost start: Files, ghost done: set<Date>)
      requires Valid() && OldEnough(date, now) && files == SweptFolders(start, now, forbidden, done)
      modifies this
      ensures Valid() && old(trace) <= trace && files == SweptFolders(start, now, forbidden, done + {date})
    {
      hide SafeTrace, OldEnough;
      var names := set path | path in files && path.QuarantineFile? && path.date == date :: path.hex;
      ghost var before := files;
      while names != {}
        invariant Valid() && old(trace) <= trace
        invariant forall path :: path in files ==> path in before && files[path] == before[path]
        invariant forall path :: path in before && path !in files ==>
                    path.QuarantineFile? && path.date == date && !forbidden(path.date, path.hex)
        invariant forall path :: path in files && path.QuarantineFile? && path.date == date ==>
                    path.hex in names || forbidden(path.date, path.hex)
        invariant forall hex :: hex in names ==> QuarantineFile(date, hex) in files
        decreases names
      {
        var hex :| hex in names;
        names := names - {hex};
        if !forbidden(date, hex) {
          Unlink(QuarantineFile(date, hex));
        }
      }
      FolderSwept(start, before, files, now, forbidden, done, date);
    }
  }

  /** The files with the expired entries of some folders gone. */
  ghost function SweptFolders(files: Files, now: int, forbidden: (Date, Hex) -> bool, done: set<Date>): Files {
    map path | path in files && !(Expired(path, now, forbidden) && path.date in done) :: files[path]
  }

  lemma MovedKeepsOthers(files: Files, hex: Hex, date: Date)
    ensures ObjectFile(hex) !in Moved(files, hex, date)
    ensures forall other :: other != hex ==>
              (ObjectFile(other) in Moved(files, hex, date) <==> ObjectFile(other) in files)
              && (ObjectFile(other) in files ==> Moved(files, hex, date)[ObjectFile(other)] == files[ObjectFile(other)])
  {
  }

  lemma YoungFolder(files: Files, now: int, forbidden: (Date, Hex) -> bool, done: set<Date>, date: Date)
    requires !OldEnough(date, now)
    ensures SweptFolders(files, now, forbidden, done + {date}) == SweptFolders(files, now, forbidden, done)
  {
    hide OldEnough;
  }

  lemma AllFolders(files: Files, now: int, forbidden: (Date, Hex) -> bool, done: set<Date>)
    requires forall path :: path in files && path.QuarantineFile? ==> path.date in done
    ensures SweptFolders(files, now, forbidden, done) == Swept(files, now, forbidden)
  {
    hide OldEnough;
  }

  lemma FolderSwept(start: Files, before: Files, after: Files, now: int, forbidden: (Date, Hex) -> bool, done: set<Date>, date: Date)
    requires before == SweptFolders(start, now, forbidden, done) && OldEnough(date, now)
    requires forall path :: path in after ==> path in before && after[path] == before[path]
    requires forall path :: path in before && path !in after ==>
               path.QuarantineFile? && path.date == date && !forbidden(path.date, path.hex)
    requires forall path :: path in after && path.QuarantineFile? && path.date == date ==> forbidden(path.date, path.hex)
    ensures after == SweptFolders(start, now, forbidden, done + {date})
  {
    hide OldEnough;
  }

  /** An entry survives a sweep exactly when it is forbidden or its folder is too young; objects and incoming files stay. */
  lemma SweepExactly(files: Files, now: int, forbidden: (Date, Hex) -> bool, path: Path)
    requires path in files
    ensures path in Swept(files, now, forbidden) <==> !Expired(path, now, forbidden)
    ensures path in Swept(files, now, forbidden) ==> Swept(files, now, forbidden)[path] == files[path]
    ensures path.QuarantineFile? && path !in Swept(files, now, forbidden) ==>
              !forbidden(path.date, path.hex) && forall ms :: IsDateOf(path.date, ms) ==> now - ms > 29 * MS_PER_DAY
  {
    if Expired(path, now, forbidden) {
      forall ms | IsDateOf(path.date, ms) ensures now - ms > 29 * MS_PER_DAY { SweepAge(path.date, ms, now); }
    }
  }

  /** An object marked at one clock reading keeps an entry for 29 days: until then no sweep removes it. The entry holds
      the object's bytes exactly when the day's folder held none of its name before, or one with the same bytes. */
  lemma MarkedObjectsRecoverable(
    before: Files, marked: Files, date: Date, ms: int, now: int, forbidden: (Date, Hex) -> bool, hex: Hex)
    requires Marked(before, marked, date) && IsDateOf(date, ms) && ObjectFile(hex) in before
    requires now - ms <= 29 * MS_PER_DAY
    ensures var source, entry := ObjectFile(hex), QuarantineFile(date, hex);
      var after := Swept(marked, now, forbidden);
      if source in marked then source in after && after[source] == before[source]
      else entry in after && (after[entry] == before[source] <==> entry !in before || before[entry] == before[source])
  {
    SweepAge(date, ms, now);
    hide OldEnough;
    assert MarkedAt(before, marked, date, ObjectFile(hex));
    assert MarkedAt(before, marked, date, QuarantineFile(date, hex));
  }

  /** The losing input: a damaged copy was moved aside earlier that day and the object was put again. Marking it drops
      the good bytes at once. */
  lemma DamagedEntryKeepsItsPlace(hex: Hex, date: Date, good: Bytes, damaged: Bytes)
    requires good != damaged
    ensures var before := map[ObjectFile(hex) := good, QuarantineFile(date, hex) := damaged];
      var after := Moved(before, hex, date);
      Marked(before, after, date) && after == map[QuarantineFile(date, hex) := damaged] && good !in after.Values
  {
    var before := map[ObjectFile(hex) := good, QuarantineFile(date, hex) := damaged];
    assert Marked(before, before, date);
    MoveMarks(before, before, hex, date);
    assert Moved(before, hex, date) == map[QuarantineFile(date, hex) := damaged];
  }
}
