/**
 * The candidate filter and recording step (processFile): an entry is
 * fingerprinted and written into the path-keyed table only when it is a
 * regular file, its parent directory is not one of the exclusions (compared
 * for exact equality), its size is at least the minimum and its name matches
 * the mask.
 */
module Filter {
  import opened Types
  import opened Fingerprints

  /** A directory entry as processFile sees it. `size` is entry.file_size();
      `file` is what opening entry.path() for reading yields. */
  datatype Entry = Entry(path: Path, parent: Path, name: string, isRegular: bool, size: nat, file: FileData)

  /** The scan parameters. `mask` stands for std::regex_match against the mask
      regex, compiled case-insensitively; `scanLevel` 0 means direct children only. */
  datatype Config = Config(exclusions: seq<Path>, minSize: nat, blockSize: nat, scanLevel: int, mask: string -> bool)

  /** Every condition of processFile's rejection chain passes. */
  predicate Qualifies(e: Entry, cfg: Config)
  {
    e.isRegular && e.parent !in cfg.exclusions && e.size >= cfg.minSize && cfg.mask(e.name)
  }

  /** The effect of processFile on allFiles, or the exception it lets through. */
  function Record(crc: Hasher, e: Entry, cfg: Config, allFiles: Table): Result<Table>
    requires cfg.blockSize > 0
  {
    if !Qualifies(e, cfg) then Ok(allFiles)
    else match e.file
      case Unopenable => Err(CannotOpen(e.path))
      case Bytes(data) => Ok(allFiles[e.path := Fingerprint(crc, data, cfg.blockSize)])
  }

  /** Recording touches at most the entry's own path. */
  lemma RecordFrame(crc: Hasher, e: Entry, cfg: Config, allFiles: Table, p: Path)
    requires cfg.blockSize > 0 && Record(crc, e, cfg, allFiles).Ok? && p != e.path
    ensures var t := Record(crc, e, cfg, allFiles).value;
      (p in t <==> p in allFiles) && (p in allFiles ==> t[p] == allFiles[p])
  {
  }

  /** processFile. On the exception of readFile the table is left as it was and
      the error is reported in `failure`. */
  method ProcessFile(crc: Hasher, entry: Entry, cfg: Config, allFiles: Table) returns (allFiles': Table, failure: Option<IoError>)
    requires cfg.blockSize > 0
    ensures !Qualifies(entry, cfg) ==> allFiles' == allFiles && failure == None
    ensures Qualifies(entry, cfg) && entry.file.Unopenable? ==>
              allFiles' == allFiles && failure == Some(CannotOpen(entry.path))
    ensures Qualifies(entry, cfg) && entry.file.Bytes? ==>
              failure == None &&
              allFiles' == allFiles[entry.path := Fingerprint(crc, entry.file.data, cfg.blockSize)]
    ensures forall p :: p != entry.path ==>
              (p in allFiles' <==> p in allFiles) && (p in allFiles ==> allFiles'[p] == allFiles[p])
    ensures Record(crc, entry, cfg, allFiles) == if failure.Some? then Err(failure.value) else Ok(allFiles')
  {
    allFiles', failure := allFiles, None;
    if entry.isRegular {
      if entry.parent in cfg.exclusions {
        return;
      }
      if entry.size < cfg.minSize {
        return;
      }
      if !cfg.mask(entry.name) {
        return;
      }
      var hashes := ReadFile(crc, entry.path, entry.file, cfg.blockSize);
      match hashes
      case Err(e) => failure := Some(e);
      case Ok(h) => allFiles' := allFiles[entry.path := h];
    }
  }
}
