/** `process_zip`: wait for the archive to settle, check that it holds a
    symbol file, create its library folder, move it there, extract it and
    delete it, each step with the failure handling of the source. */
module Processor {
  import opened PathNames
  import opened Stability
  import opened Files

  /** The settings `process_zip` reads; times are in ticks. */
  datatype Config = Config(
    libRoot: Path,
    checkInterval: nat,
    maxWait: int,
    extArchive: string,
    extSymbol: string)

  /** A zero interval would keep the polling loop from ever timing out. */
  predicate ValidConfig(cfg: Config) {
    cfg.checkInterval > 0
  }

  /** The settings as loaded: both extensions are lowercased once, so every
      later comparison against them ignores case. */
  function LoadConfig(libRoot: Path, checkInterval: nat, maxWait: int,
                      archive: string, symbol: string): (cfg: Config)
    ensures IsLower(cfg.extArchive) && Lower(cfg.extArchive) == Lower(archive)
    ensures IsLower(cfg.extSymbol) && Lower(cfg.extSymbol) == Lower(symbol)
    ensures cfg.libRoot == libRoot && cfg.checkInterval == checkInterval && cfg.maxWait == maxWait
  {
    var c := Config(libRoot, checkInterval, maxWait, Lower(archive), Lower(symbol));
    LowerFixesLowercase(c.extArchive);
    LowerFixesLowercase(c.extSymbol);
    c
  }

  /** What opening the archive with `zipfile.ZipFile` gives: its members, a
      `BadZipFile`, or another error (the file vanished, no permission). */
  datatype Opening = Opened(members: seq<Member>) | BadZipFile | OpenError

  /** Everything outside the tree that decides how a run goes. */
  datatype Environment = Environment(
    sizes: nat -> Observation,
    archive: Opening,
    moveFails: bool,
    extraction: Extraction,
    unlinkFails: bool)

  /** The unguarded steps whose exception leaves `process_zip`: a `stat`
      error other than a missing file while polling, opening the archive,
      creating the folder, moving the archive. */
  datatype Step = StatStep | OpenStep | MkdirStep | MoveStep

  datatype Outcome =
    | NeverStabilized
    | BadZip
    | NoSymbol
    | Raised(step: Step)
    | Processed(extracted: bool, deleted: bool)

  datatype Run = Run(outcome: Outcome, entries: Tree)

  function MemberNames(members: seq<Member>): (names: seq<string>)
    ensures |names| == |members|
    ensures forall k :: 0 <= k < |members| ==> names[k] == members[k].name
  {
    seq(|members|, k requires 0 <= k < |members| => members[k].name)
  }

  /** The outcomes that end the run before the destination folder is touched. */
  predicate EndsBeforeRelocation(o: Outcome) {
    o.NeverStabilized? || o.BadZip? || o.NoSymbol? || o == Raised(StatStep) || o == Raised(OpenStep)
  }

  /** One run of `process_zip` on the tree `fs`. */
  function Process(fs: Tree, cfg: Config, zipPath: Path, env: Environment): Run
    requires ValidConfig(cfg)
  {
    var destFolder := DestFolder(cfg.libRoot, zipPath);
    var destZip := DestZip(cfg.libRoot, zipPath);
    var verdict := Poll(env.sizes, cfg.checkInterval, cfg.maxWait).verdict;
    if verdict.StatRaised? then Run(Raised(StatStep), fs)
    else if !verdict.Stable? then Run(NeverStabilized, fs)
    else match env.archive
      case OpenError => Run(Raised(OpenStep), fs)
      case BadZipFile => Run(BadZip, fs)
      case Opened(members) =>
        if !Qualifies(MemberNames(members), cfg.extSymbol) then Run(NoSymbol, fs)
        else match AfterMkdirs(fs, destFolder)
          case None => Run(Raised(MkdirStep), fs)
          case Some(prepared) =>
            match AfterMove(prepared, zipPath, destZip, env.moveFails)
            case None => Run(Raised(MoveStep), prepared)
            case Some(moved) => Finish(moved, destZip, destFolder, members, env)
  }

  /** Steps 5 and 6, once the archive sits at `destZip`: extract, then delete
      whether or not the extraction raised. */
  function Finish(moved: Tree, destZip: Path, destFolder: Path, members: seq<Member>, env: Environment): Run {
    var (extracted, unpacked) := AfterExtract(moved, destZip, destFolder, members, env.extraction);
    match AfterUnlink(unpacked, destZip, env.unlinkFails)
    case None => Run(Processed(extracted, false), unpacked)
    case Some(cleaned) => Run(Processed(extracted, true), cleaned)
  }

  /** `process_zip(zip_path)` on the file system `fs`; the outcome says where the run ended. */
  method ProcessZip(fs: FileSystem, cfg: Config, zipPath: Path, env: Environment) returns (outcome: Outcome)
    requires ValidConfig(cfg)
    modifies fs
    ensures outcome == Process(old(fs.entries), cfg, zipPath, env).outcome
    ensures fs.entries == Process(old(fs.entries), cfg, zipPath, env).entries
  {
    var part := Stem(Name(zipPath));

    // 1) Ensure it is fully written
    var stable, statRaised, _ := IsStableFile(env.sizes, cfg.checkInterval, cfg.maxWait);
    if statRaised {
      return Raised(StatStep);
    }
    if !stable {
      return NeverStabilized;
    }

    // 2) Check for a symbol file inside
    var members;
    match env.archive {
      case OpenError =>
        return Raised(OpenStep);
      case BadZipFile =>
        return BadZip;
      case Opened(ms) =>
        members := ms;
    }
    if !Qualifies(MemberNames(members), cfg.extSymbol) {
      return NoSymbol;
    }

    // 3) Prepare the destination folder
    var destFolder := Join(cfg.libRoot, part);
    var raised := fs.Mkdirs(destFolder);
    if raised {
      return Raised(MkdirStep);
    }

    // 4) Move the archive into it; nothing catches a failure here
    var destZip := Join(destFolder, Name(zipPath));
    raised := fs.Move(zipPath, destZip, env.moveFails);
    if raised {
      return Raised(MoveStep);
    }

    // 5) Extract, logging a failure
    var extractRaised := fs.ExtractAll(destZip, destFolder, members, env.extraction);

    // 6) Delete the moved archive, logging a failure
    var unlinkRaised := fs.Unlink(destZip, env.unlinkFails);
    outcome := Processed(!extractRaised, !unlinkRaised);
  }

  // ---------------------------------------------------------------------------
  // Where a run ends

  /** The run reaches the folder creation exactly when the file settled, the
      archive opened and it holds an entry ending in the symbol extension. */
  lemma {:induction false} ReachesFolderIff(fs: Tree, cfg: Config, zipPath: Path, env: Environment)
    requires ValidConfig(cfg)
    ensures !EndsBeforeRelocation(Process(fs, cfg, zipPath, env).outcome) <==>
      && Poll(env.sizes, cfg.checkInterval, cfg.maxWait).verdict.Stable?
      && env.archive.Opened?
      && exists k :: 0 <= k < |env.archive.members| &&
           EndsWith(Lower(env.archive.members[k].name), cfg.extSymbol)
  {
  }

  /** An unstable, unreadable, unopenable, corrupt or unqualified archive is left alone:
      no folder is created and nothing moves. So is one whose folder cannot be created. */
  lemma RejectedArchiveUntouched(fs: Tree, cfg: Config, zipPath: Path, env: Environment)
    requires ValidConfig(cfg)
    ensures EndsBeforeRelocation(Process(fs, cfg, zipPath, env).outcome)
      || Process(fs, cfg, zipPath, env).outcome == Raised(MkdirStep)
      ==> Process(fs, cfg, zipPath, env).entries == fs
  {
  }

  /** A failed move propagates: the folder has been created (and stays), the
      archive is where it was. */
  lemma {:induction false} MoveFailureLeavesArchive(fs: Tree, cfg: Config, zipPath: Path, env: Environment)
    requires ValidConfig(cfg)
    ensures var destFolder := DestFolder(cfg.libRoot, zipPath);
      Process(fs, cfg, zipPath, env).outcome == Raised(MoveStep) ==>
      && AfterMkdirs(fs, destFolder).Some?
      && Process(fs, cfg, zipPath, env).entries == AfterMkdirs(fs, destFolder).value
      && (destFolder == [] || Process(fs, cfg, zipPath, env).entries[destFolder] == Dir)
      && (zipPath in fs ==> Process(fs, cfg, zipPath, env).entries[zipPath] == fs[zipPath])
  {
  }

  /** A run that got past the move: the library folder exists, every member
      is extracted when extraction succeeded, and the moved archive is gone
      exactly when the delete succeeded, whatever became of the extraction.
      The source path is then empty, unless the archive already sat in its
      own library folder and could not be deleted. */
  lemma {:induction false} ProcessedArchiveRelocated(fs: Tree, cfg: Config, zipPath: Path, env: Environment)
    requires ValidConfig(cfg)
    requires |zipPath| > 0 && IsNormalPath(zipPath)
    ensures var r := Process(fs, cfg, zipPath, env);
      var destFolder := DestFolder(cfg.libRoot, zipPath);
      var destZip := DestZip(cfg.libRoot, zipPath);
      r.outcome.Processed? ==>
      && (Parent(zipPath) != destFolder || r.outcome.deleted ==> zipPath !in r.entries)
      && (destFolder == [] || (destFolder in r.entries && r.entries[destFolder] == Dir))
      && (r.outcome.deleted <==> !env.unlinkFails)
      && (r.outcome.deleted ==> destZip !in r.entries)
      && (!r.outcome.deleted ==> destZip in r.entries && r.entries[destZip].File?)
      && (r.outcome.extracted ==>
            env.extraction.ExtractsAll? &&
            forall m :: m in env.archive.members && destFolder + [m.name] != destZip ==>
              destFolder + [m.name] in r.entries)
  {
    var destFolder := DestFolder(cfg.libRoot, zipPath);
    var destZip := DestZip(cfg.libRoot, zipPath);
    if Process(fs, cfg, zipPath, env).outcome.Processed? {
      var members := env.archive.members;
      ReachedFinish(fs, cfg, zipPath, env);
      var prepared := AfterMkdirs(fs, destFolder).value;
      var moved := AfterMove(prepared, zipPath, destZip, env.moveFails).value;
      MovedIntoFolder(prepared, zipPath, destFolder, env.moveFails);
      FinishKeepsFolder(moved, destZip, destFolder, members, env);
      if Parent(zipPath) != destFolder {
        FinishRelocates(moved, zipPath, destZip, destFolder, members, env);
      }
    }
  }

  /** Extracting and deleting keep the folder a directory, leave the archive a
      file exactly when the delete fails, and place every member on success. */
  lemma {:induction false} FinishKeepsFolder(moved: Tree, destZip: Path, destFolder: Path,
                                             members: seq<Member>, env: Environment)
    requires destZip in moved && moved[destZip].File?
    requires destFolder == [] || (destFolder in moved && moved[destFolder] == Dir)
    ensures var r := Finish(moved, destZip, destFolder, members, env);
      && r.outcome.Processed?
      && (destFolder == [] || (destFolder in r.entries && r.entries[destFolder] == Dir))
      && (r.outcome.deleted <==> !env.unlinkFails)
      && (r.outcome.deleted ==> destZip !in r.entries)
      && (!r.outcome.deleted ==> destZip in r.entries && r.entries[destZip].File?)
      && (r.outcome.extracted ==>
            env.extraction.ExtractsAll? &&
            forall m :: m in members && destFolder + [m.name] != destZip ==> destFolder + [m.name] in r.entries)
  {
  }

  /** A run that got past the move went through every earlier step successfully. */
  lemma ReachedFinish(fs: Tree, cfg: Config, zipPath: Path, env: Environment)
    requires ValidConfig(cfg)
    ensures var destFolder := DestFolder(cfg.libRoot, zipPath);
      var destZip := DestZip(cfg.libRoot, zipPath);
      Process(fs, cfg, zipPath, env).outcome.Processed? ==>
      && env.archive.Opened?
      && AfterMkdirs(fs, destFolder).Some?
      && AfterMove(AfterMkdirs(fs, destFolder).value, zipPath, destZip, env.moveFails).Some?
      && Process(fs, cfg, zipPath, env) ==
         Finish(AfterMove(AfterMkdirs(fs, destFolder).value, zipPath, destZip, env.moveFails).value,
                destZip, destFolder, env.archive.members, env)
  {
  }

  /** A successful move into a freshly created folder puts the archive right
      below that folder and, unless it already sat there, takes it out of its
      source folder. */
  lemma {:induction false} MovedIntoFolder(prepared: Tree, zipPath: Path, destFolder: Path, fails: bool)
    requires destFolder == [] || (destFolder in prepared && prepared[destFolder] == Dir)
    requires |zipPath| > 0 && IsNormalPath(zipPath)
    requires AfterMove(prepared, zipPath, Join(destFolder, Name(zipPath)), fails).Some?
    ensures var destZip := Join(destFolder, Name(zipPath));
      var moved := AfterMove(prepared, zipPath, destZip, fails).value;
      && destZip == destFolder + [Name(zipPath)]
      && destZip in moved && moved[destZip].File?
      && (Parent(zipPath) != destFolder <==> zipPath != destZip)
      && (Parent(zipPath) != destFolder ==> zipPath !in moved)
      && (destFolder == [] || (destFolder in moved && moved[destFolder] == Dir))
  {
  }

  /** What steps 5 and 6 leave behind. */
  lemma {:induction false} FinishRelocates(moved: Tree, zipPath: Path, destZip: Path, destFolder: Path,
                                           members: seq<Member>, env: Environment)
    requires destZip in moved && moved[destZip].File? && zipPath !in moved
    requires destFolder == [] || (destFolder in moved && moved[destFolder] == Dir)
    requires |zipPath| > 0 && Parent(zipPath) != destFolder
    ensures var r := Finish(moved, destZip, destFolder, members, env);
      && r.outcome.Processed?
      && zipPath !in r.entries
      && (destFolder == [] || (destFolder in r.entries && r.entries[destFolder] == Dir))
      && (r.outcome.deleted <==> !env.unlinkFails)
      && (r.outcome.deleted ==> destZip !in r.entries)
      && (!r.outcome.deleted ==> destZip in r.entries && r.entries[destZip].File?)
      && (r.outcome.extracted ==>
            env.extraction.ExtractsAll? &&
            forall m :: m in members && destFolder + [m.name] != destZip ==> destFolder + [m.name] in r.entries)
  {
    var (extracted, unpacked) := AfterExtract(moved, destZip, destFolder, members, env.extraction);
    assert !(|zipPath| == |destFolder| + 1 && zipPath[..|destFolder|] == destFolder) by {
      assert Parent(zipPath) == zipPath[..|zipPath| - 1];
    }
    assert destZip in unpacked && unpacked[destZip].File?;
  }

  /** The run the monitor exists for: a settled archive that opens and holds a
      symbol file, with nothing in the way of its folder, its new path or its
      members, is moved, fully extracted, and deleted unless the delete fails. */
  lemma {:induction false} QualifyingArchiveProcessed(fs: Tree, cfg: Config, zipPath: Path, env: Environment)
    requires ValidConfig(cfg)
    requires Poll(env.sizes, cfg.checkInterval, cfg.maxWait).verdict.Stable?
    requires env.archive.Opened? && Qualifies(MemberNames(env.archive.members), cfg.extSymbol)
    requires |zipPath| > 0 && IsNormalPath(zipPath) && zipPath in fs && fs[zipPath].File?
    requires forall q :: q in Ancestry(DestFolder(cfg.libRoot, zipPath)) && q in fs ==> fs[q] == Dir
    requires !(DestZip(cfg.libRoot, zipPath) in fs && fs[DestZip(cfg.libRoot, zipPath)].Dir?)
    requires NoDirTarget(fs, DestFolder(cfg.libRoot, zipPath), env.archive.members)
    requires !env.moveFails && env.extraction == ExtractsAll
    ensures Process(fs, cfg, zipPath, env).outcome == Processed(true, !env.unlinkFails)
  {
    var destFolder := DestFolder(cfg.libRoot, zipPath);
    var destZip := DestZip(cfg.libRoot, zipPath);
    var members := env.archive.members;
    assert destZip == destFolder + [Name(zipPath)];
    var prepared := AfterMkdirs(fs, destFolder).value;
    assert destZip !in Ancestry(destFolder);
    assert ParentIsDir(prepared, destZip) by {
      if |destZip| > 1 {
        assert Parent(destZip) == destFolder;
      }
    }
    var moved := AfterMove(prepared, zipPath, destZip, env.moveFails).value;
    assert NoDirTarget(moved, destFolder, members) by {
      forall m | m in members
        ensures !(destFolder + [m.name] in moved && moved[destFolder + [m.name]].Dir?)
      {
        assert destFolder + [m.name] !in Ancestry(destFolder);
      }
    }
    MoveFinishes(moved, destZip, destFolder, members, env);
  }

  /** Once the archive sits at `destZip` as a file and no member lands on a
      directory, a full extraction succeeds and the delete decides the rest. */
  lemma {:induction false} MoveFinishes(moved: Tree, destZip: Path, destFolder: Path,
                                        members: seq<Member>, env: Environment)
    requires destZip in moved && moved[destZip].File?
    requires NoDirTarget(moved, destFolder, members) && env.extraction == ExtractsAll
    ensures Finish(moved, destZip, destFolder, members, env).outcome == Processed(true, !env.unlinkFails)
  {
  }

  /** A run destroys nothing but the archive: every other existing entry
      survives with its kind, the ones not directly inside the library folder
      keep their value, and what is new is the folder with its ancestors or
      lies directly inside it. */
  lemma {:induction false} ProcessFrame(fs: Tree, cfg: Config, zipPath: Path, env: Environment)
    requires ValidConfig(cfg)
    ensures var r := Process(fs, cfg, zipPath, env);
      var destFolder := DestFolder(cfg.libRoot, zipPath);
      var destZip := DestZip(cfg.libRoot, zipPath);
      && (forall q :: q in fs && q != zipPath && q != destZip ==>
            q in r.entries && (r.entries[q].Dir? <==> fs[q].Dir?))
      && (forall q :: q in fs && q != zipPath && q != destZip && !InFolder(q, destFolder) ==>
            q in r.entries && r.entries[q] == fs[q])
      && (forall q :: q in r.entries && q !in fs ==>
            q in Ancestry(destFolder) || q == destZip || InFolder(q, destFolder))
  {
    var destFolder := DestFolder(cfg.libRoot, zipPath);
    var destZip := DestZip(cfg.libRoot, zipPath);
    var r := Process(fs, cfg, zipPath, env);
    if r.outcome.Processed? {
      ReachedFinish(fs, cfg, zipPath, env);
      var prepared := AfterMkdirs(fs, destFolder).value;
      var moved := AfterMove(prepared, zipPath, destZip, env.moveFails).value;
      FinishFrame(moved, destZip, destFolder, env.archive.members, env);
    }
  }

  /** `q` lies directly inside `folder`. */
  predicate InFolder(q: Path, folder: Path) {
    |q| == |folder| + 1 && q[..|folder|] == folder
  }

  /** Extracting and deleting remove nothing but the archive and change no
      entry's kind; they change values only directly inside the folder. */
  lemma {:induction false} FinishFrame(moved: Tree, destZip: Path, destFolder: Path,
                                       members: seq<Member>, env: Environment)
    ensures var r := Finish(moved, destZip, destFolder, members, env);
      && (forall q :: q in moved && q != destZip ==> q in r.entries && (r.entries[q].Dir? <==> moved[q].Dir?))
      && (forall q :: q in moved && q != destZip && !InFolder(q, destFolder) ==>
            q in r.entries && r.entries[q] == moved[q])
      && (forall q :: q in r.entries && q !in moved ==> InFolder(q, destFolder))
  {
  }

  /** A failed extraction does not stop the delete: the moved archive is
      removed all the same unless the delete itself fails. */
  lemma {:induction false} ExtractionFailureStillDeletes(fs: Tree, cfg: Config, zipPath: Path, env: Environment)
    requires ValidConfig(cfg)
    requires env.extraction.FailsAfter?
    ensures Process(fs, cfg, zipPath, env).outcome.Processed? ==>
      Process(fs, cfg, zipPath, env).outcome == Processed(false, !env.unlinkFails)
    ensures Process(fs, cfg, zipPath, env).outcome.Processed? && !env.unlinkFails ==>
      DestZip(cfg.libRoot, zipPath) !in Process(fs, cfg, zipPath, env).entries
  {
    ReachedFinish(fs, cfg, zipPath, env);
  }

  /** Every run keeps the tree well formed: nothing ends up below a file or a missing folder. */
  lemma {:induction false} ProcessKeepsWellFormed(fs: Tree, cfg: Config, zipPath: Path, env: Environment)
    requires ValidConfig(cfg) && WellFormed(fs)
    ensures WellFormed(Process(fs, cfg, zipPath, env).entries)
  {
    var destFolder := DestFolder(cfg.libRoot, zipPath);
    var destZip := DestZip(cfg.libRoot, zipPath);
    if Poll(env.sizes, cfg.checkInterval, cfg.maxWait).verdict.Stable? && env.archive.Opened?
       && Qualifies(MemberNames(env.archive.members), cfg.extSymbol)
       && AfterMkdirs(fs, destFolder).Some?
    {
      var prepared := AfterMkdirs(fs, destFolder).value;
      MkdirsKeepsWellFormed(fs, destFolder);
      if AfterMove(prepared, zipPath, destZip, env.moveFails).Some? {
        MoveKeepsFolder(prepared, zipPath, destZip, destFolder, env.moveFails);
        var moved := AfterMove(prepared, zipPath, destZip, env.moveFails).value;
        MoveKeepsWellFormed(prepared, zipPath, destZip, env.moveFails);
        FinishKeepsWellFormed(moved, destZip, destFolder, env.archive.members, env);
      }
    }
  }

  /** A move leaves an existing folder a folder. */
  lemma MoveKeepsFolder(prepared: Tree, zipPath: Path, destZip: Path, destFolder: Path, fails: bool)
    requires destFolder == [] || (destFolder in prepared && prepared[destFolder] == Dir)
    requires AfterMove(prepared, zipPath, destZip, fails).Some?
    ensures var moved := AfterMove(prepared, zipPath, destZip, fails).value;
      destFolder == [] || (destFolder in moved && moved[destFolder] == Dir)
  {
  }

  /** Extracting and deleting keep the tree well formed. */
  lemma {:induction false} FinishKeepsWellFormed(moved: Tree, destZip: Path, destFolder: Path,
                                                 members: seq<Member>, env: Environment)
    requires WellFormed(moved) && (destFolder == [] || (destFolder in moved && moved[destFolder] == Dir))
    ensures WellFormed(Finish(moved, destZip, destFolder, members, env).entries)
  {
    ExtractKeepsWellFormed(moved, destZip, destFolder, members, env.extraction);
    var unpacked := AfterExtract(moved, destZip, destFolder, members, env.extraction).1;
    if AfterUnlink(unpacked, destZip, env.unlinkFails).Some? {
      UnlinkKeepsWellFormed(unpacked, destZip, env.unlinkFails);
    }
  }
}
