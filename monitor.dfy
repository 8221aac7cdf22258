/** `ZipMonitor.on_created`: the handler the file-system watcher calls for
    every new entry in the downloads folder. */
module Monitor {
  import opened PathNames
  import opened Files
  import opened Processor

  /** A creation notification: the new path and whether it is a directory. */
  datatype Event = Event(srcPath: Path, isDirectory: bool)

  /** Hands an archive to `process_zip` and ignores every other event;
      `None` means the event was ignored. */
  method OnCreated(fs: FileSystem, cfg: Config, event: Event, env: Environment)
    returns (handled: Option<Outcome>)
    requires ValidConfig(cfg)
    modifies fs
    ensures handled.Some? <==> IsArchiveEvent(event.isDirectory, event.srcPath, cfg.extArchive)
    ensures handled.Some? ==>
      handled.value == Process(old(fs.entries), cfg, event.srcPath, env).outcome &&
      fs.entries == Process(old(fs.entries), cfg, event.srcPath, env).entries
    ensures handled.None? ==> fs.entries == old(fs.entries)
  {
    var p := event.srcPath;
    if !event.isDirectory && Lower(Suffix(Name(p))) == cfg.extArchive {
      var outcome := ProcessZip(fs, cfg, p, env);
      handled := Some(outcome);
    } else {
      handled := None;
    }
  }

  /** With the archive extension loaded from the settings in any case, a new
      file is processed exactly when its name is longer than the extension
      and ends with it, ignoring case on both sides. */
  lemma {:induction false} LoadedFilterIff(libRoot: Path, checkInterval: nat, maxWait: int,
                                           archive: string, symbol: string, event: Event)
    requires IsPlainExtension(archive)
    ensures var cfg := LoadConfig(libRoot, checkInterval, maxWait, archive, symbol);
      IsArchiveEvent(event.isDirectory, event.srcPath, cfg.extArchive) <==>
        && !event.isDirectory
        && |Name(event.srcPath)| > |archive|
        && EndsWith(Lower(Name(event.srcPath)), Lower(archive))
  {
  }
}
