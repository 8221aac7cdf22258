/** The file system the monitor changes: a map from paths to entries, the
    four operations `process_zip` performs on it (`mkdir(parents=True,
    exist_ok=True)`, `shutil.move`, `ZipFile.extractall`, `Path.unlink`) as
    functions that say whether the call raised and what the tree is after it,
    and a class whose methods perform them in place. Whether a move, an
    extraction or a delete fails for a reason the tree cannot show
    (permissions, a corrupt archive, a full disk) is an oracle input; folder
    creation fails only when a file is in the way. */
module Files {
  import opened PathNames

  datatype Option<T> = None | Some(value: T)

  datatype Entry = Dir | File(data: string)

  type Tree = map<Path, Entry>

  /** One member of a ZIP archive. */
  datatype Member = Member(name: string, data: string)

  /** How `extractall` goes: it writes every member, or it raises after
      writing the first `written` of them. */
  datatype Extraction = ExtractsAll | FailsAfter(written: nat)

  /** `p` with its last component dropped. */
  function Parent(p: Path): Path
    requires |p| > 0
  {
    p[..|p| - 1]
  }

  /** Every path in the tree sits below directories that are in the tree. */
  ghost predicate WellFormed(fs: Tree) {
    forall p :: p in fs && |p| > 1 ==> Parent(p) in fs && fs[Parent(p)] == Dir
  }

  /** The parent of `p` is a directory (the root always is). */
  predicate ParentIsDir(fs: Tree, p: Path) {
    |p| <= 1 || (Parent(p) in fs && fs[Parent(p)] == Dir)
  }

  /** `p` and its non-empty prefixes: what `mkdir(parents=True)` may create. */
  function Ancestry(p: Path): (r: set<Path>)
    ensures p != [] ==> p in r
    ensures forall q :: q in r ==> 0 < |q| <= |p| && q == p[..|q|]
  {
    assert |p| > 0 ==> p[..|p|] == p;
    set i | 1 <= i <= |p| :: p[..i]
  }

  // ---------------------------------------------------------------------------
  // The operations as functions

  /** `mkdir(parents=True, exist_ok=True)`: raises when the path or one of its
      ancestors is a file; otherwise every missing ancestor becomes a directory. */
  function AfterMkdirs(fs: Tree, p: Path): (r: Option<Tree>)
    ensures r.None? <==> exists q :: q in Ancestry(p) && q in fs && fs[q].File?
    ensures r.Some? ==> p == [] || (p in r.value && r.value[p] == Dir)
    ensures r.Some? ==> forall q :: q in fs ==> q in r.value && r.value[q] == fs[q]
    ensures r.Some? ==> forall q :: q in r.value ==> q in fs || (q in Ancestry(p) && r.value[q] == Dir)
  {
    if exists q :: q in Ancestry(p) && q in fs && fs[q].File? then None
    else Some(map q | q in fs.Keys + Ancestry(p) :: if q in fs then fs[q] else Dir)
  }

  /** Creating the folders a second time is the first creation again (`exist_ok=True`). */
  lemma MkdirsIdempotent(fs: Tree, p: Path)
    requires AfterMkdirs(fs, p).Some?
    ensures AfterMkdirs(AfterMkdirs(fs, p).value, p) == AfterMkdirs(fs, p)
  {
    var once := AfterMkdirs(fs, p).value;
    forall q | q in Ancestry(p) && q in once
      ensures once[q] == Dir
    {
      if q !in fs {
        assert once[q] == Dir;
      }
    }
    var twice := AfterMkdirs(once, p);
    assert twice.Some?;
    assert twice.value.Keys == once.Keys;
    assert forall q :: q in once ==> twice.value[q] == once[q];
    assert twice.value == once;
  }

  /** Creating a folder keeps a tree well formed. */
  lemma MkdirsKeepsWellFormed(fs: Tree, p: Path)
    requires WellFormed(fs) && AfterMkdirs(fs, p).Some?
    ensures WellFormed(AfterMkdirs(fs, p).value)
  {
    var r := AfterMkdirs(fs, p).value;
    forall q | q in r && |q| > 1
      ensures Parent(q) in r && r[Parent(q)] == Dir
    {
      if q !in fs {
        assert q in Ancestry(p) && q == p[..|q|];
        assert Parent(q) == p[..|q| - 1];
        assert Parent(q) in Ancestry(p);
        if Parent(q) in fs {
          assert fs[Parent(q)] == Dir;
        }
      }
    }
  }

  /** `shutil.move(src, dst)` of a file to a path whose folder exists: raises
      when the oracle says so, when `src` is not a file, when `dst` is a
      directory or its folder is missing. Moving a file onto itself changes nothing. */
  function AfterMove(fs: Tree, src: Path, dst: Path, fails: bool): (r: Option<Tree>)
    ensures r.None? <==> fails || src !in fs || fs[src].Dir? || (dst in fs && fs[dst].Dir?) || !ParentIsDir(fs, dst)
    ensures r.Some? ==> dst in r.value && r.value[dst] == fs[src]
    ensures r.Some? && src != dst ==> src !in r.value
    ensures r.Some? ==> forall q :: q != src && q != dst ==> (q in r.value <==> q in fs) && (q in fs ==> r.value[q] == fs[q])
  {
    if fails || src !in fs || fs[src].Dir? || (dst in fs && fs[dst].Dir?) || !ParentIsDir(fs, dst) then None
    else if src == dst then Some(fs)
    else Some((fs - {src})[dst := fs[src]])
  }

  lemma MoveKeepsWellFormed(fs: Tree, src: Path, dst: Path, fails: bool)
    requires WellFormed(fs) && AfterMove(fs, src, dst, fails).Some?
    ensures WellFormed(AfterMove(fs, src, dst, fails).value)
  {
  }

  /** The paths extraction writes: each member's name directly inside `folder`. */
  function Targets(folder: Path, members: seq<Member>): (r: set<Path>)
    ensures forall q :: q in r ==> |q| == |folder| + 1 && q[..|folder|] == folder
  {
    if |members| == 0 then {}
    else Targets(folder, members[..|members| - 1]) + {folder + [members[|members| - 1].name]}
  }

  /** Writing a prefix of the members writes a subset of the targets. */
  lemma {:induction false} PrefixTargets(folder: Path, members: seq<Member>, n: nat)
    requires n <= |members|
    ensures Targets(folder, members[..n]) <= Targets(folder, members)
    decreases |members|
  {
    if n < |members| {
      assert members[..|members| - 1][..n] == members[..n];
      PrefixTargets(folder, members[..|members| - 1], n);
    } else {
      assert members[..n] == members;
    }
  }

  /** No member would land on a directory of `fs`. */
  predicate NoDirTarget(fs: Tree, folder: Path, members: seq<Member>) {
    forall m :: m in members ==> !(folder + [m.name] in fs && fs[folder + [m.name]].Dir?)
  }

  /** Member `k` is the last one with its name, so its data is what stays. */
  predicate LastOfName(members: seq<Member>, k: int) {
    0 <= k < |members| && forall j :: k < j < |members| ==> members[j].name != members[k].name
  }

  /** Writes the members in order into `folder`, each at `folder + [name]`;
      stops, reporting false, at a member whose path is a directory. Only
      member targets change, existing directories stay directories, and what
      is added are files. */
  function WriteMembers(fs: Tree, folder: Path, members: seq<Member>): (r: (bool, Tree))
    ensures forall q :: q in fs ==> q in r.1 && (r.1[q].Dir? <==> fs[q].Dir?)
    ensures forall q :: q in fs && q !in Targets(folder, members) ==> r.1[q] == fs[q]
    ensures forall q :: q in r.1 && q !in fs ==> q in Targets(folder, members) && r.1[q].File?
    ensures r.0 ==> forall m :: m in members ==> folder + [m.name] in r.1
  {
    if |members| == 0 then (true, fs)
    else
      var prefix := members[..|members| - 1];
      var (ok, before) := WriteMembers(fs, folder, prefix);
      var last := members[|members| - 1];
      var target := folder + [last.name];
      if !ok || (target in before && before[target].Dir?) then (false, before)
      else
        assert forall m :: m in members ==> m in prefix || m == last;
        (true, before[target := File(last.data)])
  }

  /** Writing succeeds exactly when no member lands on a directory. */
  lemma {:induction false} WriteSucceedsIff(fs: Tree, folder: Path, members: seq<Member>)
    ensures WriteMembers(fs, folder, members).0 <==> NoDirTarget(fs, folder, members)
  {
    if |members| > 0 {
      var prefix := members[..|members| - 1];
      var last := members[|members| - 1];
      WriteSucceedsIff(fs, folder, prefix);
      assert forall m :: m in members <==> m in prefix || m == last;
    }
  }

  /** When no member lands on a directory, a name ends up holding the data of
      the last member with that name. */
  lemma {:induction false} WriteHoldsData(fs: Tree, folder: Path, members: seq<Member>, k: int)
    requires NoDirTarget(fs, folder, members) && LastOfName(members, k)
    ensures folder + [members[k].name] in WriteMembers(fs, folder, members).1
    ensures WriteMembers(fs, folder, members).1[folder + [members[k].name]] == File(members[k].data)
  {
    var prefix := members[..|members| - 1];
    var last := members[|members| - 1];
    WriteSucceedsIff(fs, folder, members);
    if k < |prefix| {
      assert NoDirTarget(fs, folder, prefix) by {
        assert forall m :: m in prefix ==> m in members;
      }
      assert prefix[k] == members[k];
      assert LastOfName(prefix, k);
      WriteHoldsData(fs, folder, prefix, k);
      assert folder + [members[k].name] != folder + [last.name] by {
        assert (folder + [members[k].name])[|folder|] != (folder + [last.name])[|folder|];
      }
    }
  }

  /** `ZipFile(archive).extractall(folder)`: raises when the archive is not a
      file, when a member lands on a directory, or when the oracle says so
      (after writing a prefix of the members). True means it did not raise. */
  function AfterExtract(fs: Tree, archive: Path, folder: Path, members: seq<Member>,
                        extraction: Extraction): (r: (bool, Tree))
    ensures r.0 <==> extraction.ExtractsAll? && archive in fs && fs[archive].File?
                     && NoDirTarget(fs, folder, members)
    ensures r.0 ==> forall m :: m in members ==> folder + [m.name] in r.1
    ensures r.0 ==> forall k :: LastOfName(members, k) ==>
      folder + [members[k].name] in r.1 && r.1[folder + [members[k].name]] == File(members[k].data)
    ensures forall q :: q in fs ==> q in r.1 && (r.1[q].Dir? <==> fs[q].Dir?)
    ensures forall q :: q in fs && q !in Targets(folder, members) ==> r.1[q] == fs[q]
    ensures forall q :: q in r.1 && q !in fs ==> q in Targets(folder, members) && r.1[q].File?
  {
    if archive !in fs || fs[archive].Dir? then (false, fs)
    else match extraction
      case ExtractsAll =>
        WriteSucceedsIff(fs, folder, members);
        var r := WriteMembers(fs, folder, members);
        assert r.0 ==> forall k :: LastOfName(members, k) ==>
          folder + [members[k].name] in r.1 && r.1[folder + [members[k].name]] == File(members[k].data) by {
          if r.0 {
            forall k | LastOfName(members, k)
              ensures folder + [members[k].name] in r.1 && r.1[folder + [members[k].name]] == File(members[k].data)
            {
              WriteHoldsData(fs, folder, members, k);
            }
          }
        }
        r
      case FailsAfter(n) =>
        var written := members[..if n < |members| then n else |members|];
        PrefixTargets(folder, members, |written|);
        (false, WriteMembers(fs, folder, written).1)
  }

  /** Extracting into a folder that is a directory keeps a tree well formed. */
  lemma ExtractKeepsWellFormed(fs: Tree, archive: Path, folder: Path, members: seq<Member>,
                               extraction: Extraction)
    requires WellFormed(fs) && (|folder| == 0 || (folder in fs && fs[folder] == Dir))
    ensures WellFormed(AfterExtract(fs, archive, folder, members, extraction).1)
  {
  }

  /** `Path.unlink()`: raises when the oracle says so or `p` is not a file. */
  function AfterUnlink(fs: Tree, p: Path, fails: bool): (r: Option<Tree>)
    ensures r.None? <==> fails || p !in fs || fs[p].Dir?
    ensures r.Some? ==> r.value.Keys == fs.Keys - {p}
    ensures r.Some? ==> forall q :: q in r.value ==> r.value[q] == fs[q]
  {
    if fails || p !in fs || fs[p].Dir? then None else Some(fs - {p})
  }

  /** Removing a file keeps a tree well formed: no path sits below a file. */
  lemma UnlinkKeepsWellFormed(fs: Tree, p: Path, fails: bool)
    requires WellFormed(fs) && AfterUnlink(fs, p, fails).Some?
    ensures WellFormed(AfterUnlink(fs, p, fails).value)
  {
  }

  // ---------------------------------------------------------------------------
  // The file system as mutable state

  class FileSystem {
    var entries: Tree

    constructor (initial: Tree)
      ensures entries == initial
    {
      entries := initial;
    }

    /** Returns true when the call raised. */
    method Mkdirs(p: Path) returns (raised: bool)
      modifies this
      ensures raised == AfterMkdirs(old(entries), p).None?
      ensures entries == if raised then old(entries) else AfterMkdirs(old(entries), p).value
    {
      var r := AfterMkdirs(entries, p);
      raised := r.None?;
      if !raised {
        entries := r.value;
      }
    }

    method Move(src: Path, dst: Path, fails: bool) returns (raised: bool)
      modifies this
      ensures raised == AfterMove(old(entries), src, dst, fails).None?
      ensures entries == if raised then old(entries) else AfterMove(old(entries), src, dst, fails).value
    {
      var r := AfterMove(entries, src, dst, fails);
      raised := r.None?;
      if !raised {
        entries := r.value;
      }
    }

    method ExtractAll(archive: Path, folder: Path, members: seq<Member>, extraction: Extraction)
      returns (raised: bool)
      modifies this
      ensures raised == !AfterExtract(old(entries), archive, folder, members, extraction).0
      ensures entries == AfterExtract(old(entries), archive, folder, members, extraction).1
    {
      var r := AfterExtract(entries, archive, folder, members, extraction);
      raised := !r.0;
      entries := r.1;
    }

    method Unlink(p: Path, fails: bool) returns (raised: bool)
      modifies this
      ensures raised == AfterUnlink(old(entries), p, fails).None?
      ensures entries == if raised then old(entries) else AfterUnlink(old(entries), p, fails).value
    {
      var r := AfterUnlink(entries, p, fails);
      raised := r.None?;
      if !raised {
        entries := r.value;
      }
    }
  }
}
