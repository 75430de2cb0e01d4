/**
 * findDuplicates: processFile is applied to every entry of every scan root
 * that exists and is a directory (direct children for scan level 0, the
 * whole subtree otherwise), then the recorded table is grouped pairwise.
 * An exception from readFile ends the whole scan.
 */
module Scan {
  import opened Types
  import opened Fingerprints
  import opened Filter
  import opened Grouping

  /** A configured scan root: whether fs::exists and fs::is_directory hold for it,
      and the entries that directory_iterator (`children`) and
      recursive_directory_iterator (`subtree`) yield for it, in their order. */
  datatype Root = Root(path: Path, present: bool, isDirectory: bool, children: seq<Entry>, subtree: seq<Entry>)

  predicate Scannable(root: Root)
  {
    root.present && root.isDirectory
  }

  /** The entries visited in a scannable root at the given scan level. */
  function EntriesOf(root: Root, scanLevel: int): seq<Entry>
  {
    if scanLevel == 0 then root.children else root.subtree
  }

  /** processFile over `entries` in order, stopping at the first exception. */
  function RecordAll(crc: Hasher, entries: seq<Entry>, cfg: Config, allFiles: Table): Result<Table>
    requires cfg.blockSize > 0
    decreases |entries|
  {
    if entries == [] then Ok(allFiles)
    else match Record(crc, entries[0], cfg, allFiles)
      case Err(e) => Err(e)
      case Ok(t) => RecordAll(crc, entries[1..], cfg, t)
  }

  /** The root loop of findDuplicates: roots that are missing or not directories are skipped. */
  function CollectAll(crc: Hasher, roots: seq<Root>, cfg: Config, allFiles: Table): Result<Table>
    requires cfg.blockSize > 0
    decreases |roots|
  {
    if roots == [] then Ok(allFiles)
    else if !Scannable(roots[0]) then CollectAll(crc, roots[1..], cfg, allFiles)
    else match RecordAll(crc, EntriesOf(roots[0], cfg.scanLevel), cfg, allFiles)
      case Err(e) => Err(e)
      case Ok(t) => CollectAll(crc, roots[1..], cfg, t)
  }

  /** The entries of the scannable roots, root after root. */
  function ScannedEntries(roots: seq<Root>, scanLevel: int): seq<Entry>
    decreases |roots|
  {
    if roots == [] then []
    else (if Scannable(roots[0]) then EntriesOf(roots[0], scanLevel) else []) + ScannedEntries(roots[1..], scanLevel)
  }

  /** The paths of the entries of `entries` that pass the filter. */
  function QualifiedPaths(entries: seq<Entry>, cfg: Config): set<Path>
  {
    set e | e in entries && Qualifies(e, cfg) :: e.path
  }

  /** entries[i] passes the filter, has path p, and no later entry that passes has path p:
      it is the one whose fingerprint allFiles keeps for p. */
  predicate LastRecorded(entries: seq<Entry>, cfg: Config, p: Path, i: int)
  {
    0 <= i < |entries| && Qualifies(entries[i], cfg) && entries[i].path == p &&
    forall j :: i < j < |entries| && Qualifies(entries[j], cfg) ==> entries[j].path != p
  }

  // ---------------------------------------------------------------------

  lemma {:induction false} RecordAllAppend(crc: Hasher, a: seq<Entry>, b: seq<Entry>, cfg: Config, t: Table)
    requires cfg.blockSize > 0
    ensures RecordAll(crc, a + b, cfg, t) ==
      match RecordAll(crc, a, cfg, t)
      case Err(e) => Err(e)
      case Ok(t') => RecordAll(crc, b, cfg, t')
    decreases |a|
  {
    if a == [] {
      assert a + b == b;
    } else {
      assert (a + b)[0] == a[0];
      assert (a + b)[1..] == a[1..] + b;
      match Record(crc, a[0], cfg, t)
      case Err(e) =>
      case Ok(t1) => RecordAllAppend(crc, a[1..], b, cfg, t1);
    }
  }

  /** The nested root and entry loops record exactly what one pass over the
      scannable roots' entries, concatenated, records. */
  lemma {:induction false} CollectIsRecordAll(crc: Hasher, roots: seq<Root>, cfg: Config, t: Table)
    requires cfg.blockSize > 0
    ensures CollectAll(crc, roots, cfg, t) == RecordAll(crc, ScannedEntries(roots, cfg.scanLevel), cfg, t)
    decreases |roots|
  {
    if roots != [] {
      var here := if Scannable(roots[0]) then EntriesOf(roots[0], cfg.scanLevel) else [];
      RecordAllAppend(crc, here, ScannedEntries(roots[1..], cfg.scanLevel), cfg, t);
      match RecordAll(crc, here, cfg, t)
      case Err(e) =>
      case Ok(t1) => CollectIsRecordAll(crc, roots[1..], cfg, t1);
    }
  }

  /** A root that does not exist or is not a directory contributes nothing:
      the scan is the same without it. */
  lemma {:induction false} InvalidRootSkipped(crc: Hasher, roots: seq<Root>, cfg: Config, t: Table, i: nat)
    requires cfg.blockSize > 0 && i < |roots| && !Scannable(roots[i])
    ensures CollectAll(crc, roots, cfg, t) == CollectAll(crc, roots[..i] + roots[i + 1..], cfg, t)
    decreases i
  {
    var without := roots[..i] + roots[i + 1..];
    if i == 0 {
      assert without == roots[1..];
    } else {
      assert without[0] == roots[0];
      assert without[1..] == roots[1..][..i - 1] + roots[1..][i..];
      match (if Scannable(roots[0]) then RecordAll(crc, EntriesOf(roots[0], cfg.scanLevel), cfg, t) else Ok(t))
      case Err(e) =>
      case Ok(t1) => InvalidRootSkipped(crc, roots[1..], cfg, t1, i - 1);
    }
  }

  lemma QualifiedPathsCons(entries: seq<Entry>, cfg: Config)
    requires entries != []
    ensures QualifiedPaths(entries, cfg) ==
      QualifiedPaths(entries[1..], cfg) + (if Qualifies(entries[0], cfg) then {entries[0].path} else {})
  {
    assert forall x :: x in entries <==> x == entries[0] || x in entries[1..];
  }

  /** On success every entry that passes the filter could be opened. */
  lemma {:induction false} RecordAllReadable(crc: Hasher, entries: seq<Entry>, cfg: Config, t: Table)
    requires cfg.blockSize > 0 && RecordAll(crc, entries, cfg, t).Ok?
    ensures forall i :: 0 <= i < |entries| && Qualifies(entries[i], cfg) ==> entries[i].file.Bytes?
    decreases |entries|
  {
    if entries != [] {
      RecordAllReadable(crc, entries[1..], cfg, Record(crc, entries[0], cfg, t).value);
      assert forall i :: 0 < i < |entries| ==> entries[i] == entries[1..][i - 1];
    }
  }

  /** On success the recorded paths are the earlier ones plus those of the entries that pass the filter. */
  lemma {:induction false} RecordAllKeys(crc: Hasher, entries: seq<Entry>, cfg: Config, t: Table)
    requires cfg.blockSize > 0 && RecordAll(crc, entries, cfg, t).Ok?
    ensures RecordAll(crc, entries, cfg, t).value.Keys == t.Keys + QualifiedPaths(entries, cfg)
    decreases |entries|
  {
    if entries != [] {
      RecordAllKeys(crc, entries[1..], cfg, Record(crc, entries[0], cfg, t).value);
      QualifiedPathsCons(entries, cfg);
    }
  }

  /** On success each recorded path holds the fingerprint of the last entry
      recorded under it, or keeps its earlier value when no entry passing the
      filter has that path. */
  lemma {:induction false} RecordAllValues(crc: Hasher, entries: seq<Entry>, cfg: Config, t: Table, p: Path)
    requires cfg.blockSize > 0 && RecordAll(crc, entries, cfg, t).Ok? && p in RecordAll(crc, entries, cfg, t).value
    ensures var t' := RecordAll(crc, entries, cfg, t).value;
      (p in t && p !in QualifiedPaths(entries, cfg) && t'[p] == t[p]) ||
      (exists i :: LastRecorded(entries, cfg, p, i) && entries[i].file.Bytes? &&
         t'[p] == Fingerprint(crc, entries[i].file.data, cfg.blockSize))
    decreases |entries|
  {
    if entries != [] {
      var e, rest := entries[0], entries[1..];
      var t1 := Record(crc, e, cfg, t).value;
      var t' := RecordAll(crc, entries, cfg, t).value;
      assert t' == RecordAll(crc, rest, cfg, t1).value;
      RecordAllValues(crc, rest, cfg, t1, p);
      QualifiedPathsCons(entries, cfg);
      if i' :| LastRecorded(rest, cfg, p, i') && rest[i'].file.Bytes? &&
               t'[p] == Fingerprint(crc, rest[i'].file.data, cfg.blockSize) {
        assert LastRecorded(entries, cfg, p, i' + 1);
      } else if Qualifies(e, cfg) && e.path == p {
        assert LastRecorded(entries, cfg, p, 0);
      }
    }
  }

  /** A failed scan failed on an entry that passes the filter and cannot be opened. */
  lemma {:induction false} RecordAllFailure(crc: Hasher, entries: seq<Entry>, cfg: Config, t: Table)
    requires cfg.blockSize > 0 && RecordAll(crc, entries, cfg, t).Err?
    ensures exists i ::
      0 <= i < |entries| && Qualifies(entries[i], cfg) && entries[i].file.Unopenable? &&
      RecordAll(crc, entries, cfg, t).error == CannotOpen(entries[i].path)
    decreases |entries|
  {
    match Record(crc, entries[0], cfg, t)
    case Err(e) =>
      assert Qualifies(entries[0], cfg) && entries[0].file.Unopenable?;
    case Ok(t1) =>
      RecordAllFailure(crc, entries[1..], cfg, t1);
      var i :| 0 <= i < |entries[1..]| && Qualifies(entries[1..][i], cfg) && entries[1..][i].file.Unopenable? &&
        RecordAll(crc, entries[1..], cfg, t1).error == CannotOpen(entries[1..][i].path);
      assert entries[i + 1] == entries[1..][i];
  }

  /** A successful scan records exactly the paths of the entries of the
      scannable roots that pass the filter; missing roots and non-directories
      contribute none. */
  lemma ScanRecordsQualifiedPaths(crc: Hasher, roots: seq<Root>, cfg: Config)
    requires cfg.blockSize > 0 && CollectAll(crc, roots, cfg, map[]).Ok?
    ensures CollectAll(crc, roots, cfg, map[]).value.Keys == QualifiedPaths(ScannedEntries(roots, cfg.scanLevel), cfg)
  {
    CollectIsRecordAll(crc, roots, cfg, map[]);
    RecordAllKeys(crc, ScannedEntries(roots, cfg.scanLevel), cfg, map[]);
  }

  // ---------------------------------------------------------------------

  /** findDuplicates: the duplicate groups of everything recorded from the
      scannable roots, or the exception of the first qualifying file that
      cannot be opened. */
  method FindDuplicates(crc: Hasher, directories: seq<Root>, cfg: Config) returns (r: Result<Duplicates>)
    requires cfg.blockSize > 0
    ensures match CollectAll(crc, directories, cfg, map[])
      case Err(e) => r == Err(e)
      case Ok(t) => r == Ok(Groups(t))
  {
    var allFiles: Table := map[];
    for d := 0 to |directories|
      invariant CollectAll(crc, directories, cfg, map[]) == CollectAll(crc, directories[d..], cfg, allFiles)
    {
      var dir := directories[d];
      assert directories[d..][1..] == directories[d + 1..];
      // A root that is missing or not a directory is reported on stderr and skipped.
      if dir.present && dir.isDirectory {
        var entries := if cfg.scanLevel == 0 then dir.children else dir.subtree;
        for k := 0 to |entries|
          invariant CollectAll(crc, directories, cfg, map[]) ==
            match RecordAll(crc, entries[k..], cfg, allFiles)
            case Err(e) => Err(e)
            case Ok(t) => CollectAll(crc, directories[d + 1..], cfg, t)
        {
          assert entries[k..][1..] == entries[k + 1..];
          var failure;
          allFiles, failure := ProcessFile(crc, entries[k], cfg, allFiles);
          if failure.Some? {
            return Err(failure.value);
          }
        }
        assert entries[|entries|..] == [];
      }
    }
    var paths := EnumerateKeys(allFiles);
    var duplicates := GroupDuplicates(allFiles, paths);
    return Ok(duplicates);
  }
}
