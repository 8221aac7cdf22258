/** Concrete runs of the monitor: an archive holding a symbol, one holding
    only a read-me, and an empty placeholder. One tick stands for half a
    second in the first and for one second in the last. */
module Scenarios {
  import opened PathNames
  import opened Stability
  import opened Files
  import opened Processor

  const WidgetZip: Path := ["downloads", "widget-A1.zip"]
  const ReadmeZip: Path := ["downloads", "readme.zip"]
  const Library: Path := ["lib"]

  function Settings(maxWait: int): (cfg: Config)
    ensures ValidConfig(cfg)
  {
    Config(Library, 1, maxWait, ".zip", ".kicad_sym")
  }

  /** The downloads folder holding one archive, next to an empty library. */
  function Downloads(zipPath: Path, data: string): Tree {
    map[["downloads"] := Dir, zipPath := File(data), Library := Dir]
  }

  /** A 4096-byte archive settles after two samples. */
  lemma {:induction false} WidgetArchiveSettles(sizes: nat -> Observation)
    requires forall j :: sizes(j) == Size(4096)
    ensures Poll(sizes, 1, 10) == Polling(Stable, 2)
  {
  }

  /** `widget-A1.zip` goes to `lib/widget-A1/widget-A1.zip`. */
  lemma WidgetDestination()
    ensures DestFolder(Library, WidgetZip) == ["lib", "widget-A1"]
    ensures DestZip(Library, WidgetZip) == ["lib", "widget-A1", "widget-A1.zip"]
  {
    var name := "widget-A1.zip";
    assert LastIndexOf(name, '.') == 9 by {
      assert LastIndexOf(name[..12], '.') == LastIndexOf(name[..11], '.') == LastIndexOf(name[..10], '.');
    }
    assert Stem(name) == "widget-A1";
  }

  /** An archive whose first member is `widget-A1.kicad_sym` qualifies. */
  lemma WidgetQualifies(members: seq<Member>)
    requires |members| > 0 && members[0].name == "widget-A1.kicad_sym"
    ensures Qualifies(MemberNames(members), ".kicad_sym")
  {
  }

  /** The whole `widget-A1.zip` run: a settled archive holding
      `widget-A1.kicad_sym` and `widget-A1.kicad_mod` is moved to
      `lib/widget-A1`, fully extracted there and deleted, so the archive is
      gone from `downloads` and from the library and both files are in the
      folder. */
  lemma {:induction false} WidgetArchiveProcessed(sizes: nat -> Observation, data: string,
                                                  members: seq<Member>, fs: Tree, env: Environment)
    requires forall j :: sizes(j) == Size(4096)
    requires |members| == 2 && members[0].name == "widget-A1.kicad_sym" && members[1].name == "widget-A1.kicad_mod"
    requires fs == Downloads(WidgetZip, data)
    requires env == Environment(sizes, Opened(members), false, ExtractsAll, false)
    ensures Process(fs, Settings(10), WidgetZip, env).outcome == Processed(true, true)
    ensures var r := Process(fs, Settings(10), WidgetZip, env);
      && WidgetZip !in r.entries
      && ["lib", "widget-A1", "widget-A1.zip"] !in r.entries
      && ["lib", "widget-A1"] in r.entries && r.entries[["lib", "widget-A1"]] == Dir
      && ["lib", "widget-A1", "widget-A1.kicad_sym"] in r.entries
      && ["lib", "widget-A1", "widget-A1.kicad_mod"] in r.entries
  {
    WidgetArchiveCompletes(sizes, data, members, fs, env);
    WidgetArchiveRelocated(fs, Settings(10), WidgetZip, env, members);
  }

  /** The outcome half of `WidgetArchiveProcessed`. */
  lemma {:induction false} WidgetArchiveCompletes(sizes: nat -> Observation, data: string,
                                                  members: seq<Member>, fs: Tree, env: Environment)
    requires forall j :: sizes(j) == Size(4096)
    requires |members| == 2 && members[0].name == "widget-A1.kicad_sym" && members[1].name == "widget-A1.kicad_mod"
    requires fs == Downloads(WidgetZip, data)
    requires env == Environment(sizes, Opened(members), false, ExtractsAll, false)
    ensures Process(fs, Settings(10), WidgetZip, env).outcome == Processed(true, true)
  {
    var folder := ["lib", "widget-A1"];
    WidgetArchiveSettles(sizes);
    WidgetDestination();
    WidgetQualifies(members);
    forall q | q in Ancestry(folder) && q in fs
      ensures fs[q] == Dir
    {
      assert q == ["lib"] || q == folder;
    }
    assert NoDirTarget(fs, folder, members) by {
      forall m | m in members
        ensures !(folder + [m.name] in fs && fs[folder + [m.name]].Dir?)
      {
        assert |folder + [m.name]| == 3;
      }
    }
    assert WidgetZip[1] == "widget-A1.zip";
    QualifyingArchiveProcessed(fs, Settings(10), WidgetZip, env);
  }

  /** Where a processed `widget-A1.zip` run leaves things, whatever else the
      tree holds: the archive is gone from the downloads folder and from the
      library, and both files are in `lib/widget-A1`. */
  lemma {:induction false} WidgetArchiveRelocated(fs: Tree, cfg: Config, zipPath: Path, env: Environment,
                                                  members: seq<Member>)
    requires cfg == Settings(10) && zipPath == WidgetZip
    requires |members| == 2 && members[0].name == "widget-A1.kicad_sym" && members[1].name == "widget-A1.kicad_mod"
    requires env.archive == Opened(members)
    requires Process(fs, cfg, zipPath, env).outcome == Processed(true, true)
    ensures var r := Process(fs, cfg, zipPath, env);
      && zipPath !in r.entries
      && ["lib", "widget-A1", "widget-A1.zip"] !in r.entries
      && ["lib", "widget-A1"] in r.entries && r.entries[["lib", "widget-A1"]] == Dir
      && ["lib", "widget-A1", "widget-A1.kicad_sym"] in r.entries
      && ["lib", "widget-A1", "widget-A1.kicad_mod"] in r.entries
  {
    WidgetDestination();
    var folder := DestFolder(cfg.libRoot, zipPath);
    assert folder == ["lib", "widget-A1"];
    assert Name(zipPath) == "widget-A1.zip";
    ProcessedArchiveRelocated(fs, cfg, zipPath, env);
    assert members[0] in members && members[1] in members;
    assert folder + [members[0].name] == ["lib", "widget-A1", "widget-A1.kicad_sym"];
    assert folder + [members[1].name] == ["lib", "widget-A1", "widget-A1.kicad_mod"];
  }

  /** An archive holding only a read-me is skipped: nothing in the tree changes. */
  lemma {:induction false} ReadmeArchiveIsSkipped(sizes: nat -> Observation, data: string, text: string)
    requires Poll(sizes, 1, 10).verdict == Stable
    ensures var r := Process(Downloads(ReadmeZip, data), Settings(10), ReadmeZip,
                             Environment(sizes, Opened([Member("README.txt", text)]), false, ExtractsAll, false));
      r.outcome == NoSymbol && r.entries == Downloads(ReadmeZip, data)
  {
    var names := MemberNames([Member("README.txt", text)]);
    assert !EndsWith(Lower(names[0]), ".kicad_sym") by {
      assert Lower(names[0])[0] == 'r';
    }
    assert !Qualifies(names, ".kicad_sym");
  }

  /** An empty placeholder that never grows, polled once a tick for five
      ticks, is given up after five samples and processing stops there. */
  lemma {:induction false} EmptyPlaceholderTimesOut(sizes: nat -> Observation, env: Environment, fs: Tree)
    requires forall j :: sizes(j) == Size(0)
    requires env.sizes == sizes
    ensures Poll(sizes, 1, 5) == Polling(TimedOut, 5)
    ensures Process(fs, Settings(5), WidgetZip, env) == Run(NeverStabilized, fs)
  {
    EmptyFileNeverStable(sizes, 1, 5);
  }
}
