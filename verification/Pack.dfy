/**
 `rr pack`: make a trace directory self-contained. The disk may be looked at after any of its
 changes, because packing may be interrupted there.
 */
module Pack {
  import opened TraceDirectory
  import opened PackPlan

  // ---------------------------------------------------------------- states on the way

  /** The list is the original one, and no file is gone or different. */
  ghost predicate Grown(j: Job, d: Disk) {
    d.mmaps == j.d0.mmaps && Extends(j.d0.fs, d.fs)
  }

  /** Nothing but copies is new. */
  ghost predicate Early(j: Job, d: Disk) {
    Grown(j, d) && forall p :: p in d.fs && p !in j.d0.fs ==> CopyName(j.dir, p)
  }

  ghost predicate EarlyFrom(j: Job, history: seq<Disk>, n: nat) {
    forall k :: n <= k < |history| ==> Early(j, history[k])
  }

  /** A new list that was not put in its place; with it, a run of `rr pack` fails. */
  predicate LeftOver(dir: string, d: Disk) { ListPath(dir) in d.fs }

  ghost predicate WritingFrom(j: Job, history: seq<Disk>, n: nat) {
    forall k :: n <= k < |history| ==> Grown(j, history[k]) && LeftOver(j.dir, history[k])
  }

  lemma GrownSafe(j: Job, d: Disk)
    requires Safe(j.dir, j.d0, j.d0) && Grown(j, d)
    ensures Safe(j.dir, j.d0, d)
  {
    hide Safe, Extends;
    ExtendsSafe(j.dir, j.d0, j.d0, d);
  }

  lemma EarlyNew(j: Job, d: Disk, path: string, data: Bytes)
    requires Early(j, d) && path !in d.fs && CopyName(j.dir, path)
    ensures Early(j, Disk(d.fs[path := data], d.mmaps))
  {
    hide CopyName;
  }

  lemma GrownNew(j: Job, d: Disk, path: string, data: Bytes)
    requires Grown(j, d) && path !in d.fs
    ensures Grown(j, Disk(d.fs[path := data], d.mmaps))
  {
  }

  lemma EarlyLeftOver(j: Job, d: Disk)
    requires Early(j, d)
    ensures LeftOver(j.dir, d) <==> LeftOver(j.dir, j.d0)
  {
    hide CopyName, ListPath;
    ListIsNoCopy(j.dir);
  }

  lemma CopyPathIs(dir: string, i: nat, base: string)
    ensures CopyPath(dir, i, base) == dir + "/mmap_pack_" + Decimal(i) + "_" + base
  {
    hide Decimal;
    assert "/mmap_pack_" == "/" + "mmap_pack_";
  }

  lemma UpdateTwice(fs: Files, path: string, a: Bytes, b: Bytes)
    ensures fs[path := a][path := b] == fs[path := b]
  {
  }

  class Packer {
    const dir: string
    var fs: Files
    var mmaps: seq<Entry>
    ghost var history: seq<Disk>

    constructor (dir: string, fs: Files, mmaps: seq<Entry>)
      ensures this.dir == dir && this.fs == fs && this.mmaps == mmaps && history == [Now()]
    {
      this.dir, this.fs, this.mmaps := dir, fs, mmaps;
      history := [Disk(fs, mmaps)];
    }

    ghost function Now(): Disk
      reads this
    {
      Disk(fs, mmaps)
    }

    // ---------------------------------------------------------------- the disk

    /** Exclusive creation. */
    method Create(path: string) returns (ok: bool)
      modifies this`fs, this`history
      ensures ok <==> path !in old(fs)
      ensures fs == if ok then old(fs)[path := []] else old(fs)
      ensures history == if ok then old(history) + [Now()] else old(history)
    {
      ok := path !in fs;
      if ok {
        fs := fs[path := []];
        history := history + [Now()];
      }
    }

    method Append(path: string, chunk: Bytes)
      requires path in fs
      modifies this`fs, this`history
      ensures fs == old(fs)[path := old(fs)[path] + chunk]
      ensures history == old(history) + [Now()]
    {
      fs := fs[path := fs[path] + chunk];
      history := history + [Now()];
    }

    // ---------------------------------------------------------------- copying

    /** A new file with a name that was free. */
    method CreateCopy(base: string, start: nat) returns (path: string, index: nat)
      requires '/' !in base
      modifies this`fs, this`history
      ensures path !in old(fs) && fs == old(fs)[path := []] && CopyName(dir, path)
      ensures index > start && path == dir + "/mmap_pack_" + Decimal(index - 1) + "_" + base
      ensures forall i: nat :: start <= i < index - 1 ==> dir + "/mmap_pack_" + Decimal(i) + "_" + base in old(fs)
      ensures history == old(history) + [Now()]
    {
      hide CopyPath, CopyName, Tried;
      index := start;
      ghost var tried: set<string> := {};
      var ok := false;
      path := CopyPath(dir, index, base);
      NothingTried(dir, base, index);
      while !ok
        invariant !ok ==> fs == old(fs) && history == old(history) && Tried(dir, base, tried, index)
        invariant ok ==> path !in old(fs) && fs == old(fs)[path := []] && history == old(history) + [Now()]
        invariant ok ==> CopyName(dir, path)
        invariant ok ==> index > start && path == CopyPath(dir, index - 1, base)
        invariant start <= index
        invariant forall i: nat :: start <= i < (if ok then index - 1 else index) ==> CopyPath(dir, i, base) in old(fs)
        decreases !ok, fs.Keys - tried
      {
        path := CopyPath(dir, index, base);
        NextTry(dir, base, tried, index);
        index := index + 1;
        ok := Create(path);
        tried := tried + {path};
      }
      CopyPathIs(dir, index - 1, base);
      forall i: nat | start <= i < index - 1 ensures dir + "/mmap_pack_" + Decimal(i) + "_" + base in old(fs) {
        CopyPathIs(dir, i, base);
      }
    }

    /** Write the data piece by piece to a new copy, which nothing refers to yet. */
    method FillCopy(path: string, data: Bytes, ghost j: Job, ghost d: Disk)
      requires dir == j.dir && Early(j, d) && path !in d.fs && CopyName(dir, path)
      requires fs == d.fs[path := []] && mmaps == d.mmaps
      modifies this`fs, this`history
      ensures fs == d.fs[path := data]
      ensures old(history) <= history && EarlyFrom(j, history, |old(history)|)
    {
      hide Early, CopyName;
      var done := 0;
      while done < |data|
        invariant 0 <= done <= |data| && fs == d.fs[path := data[..done]]
        invariant old(history) <= history && EarlyFrom(j, history, |old(history)|)
      {
        var n :| 0 < n <= |data| - done;
        assert data[..done] + data[done..done + n] == data[..done + n];
        UpdateTwice(d.fs, path, data[..done], data[..done + n]);
        Append(path, data[done..done + n]);
        done := done + n;
        EarlyNew(j, d, path, data[..done]);
      }
      assert data[..done] == data;
    }

    method CopyIntoTrace(name: string, start: nat, ghost j: Job) returns (path: string, index: nat)
      requires dir == j.dir && name in fs && Early(j, Now())
      modifies this`fs, this`history
      ensures path !in old(fs) && fs == old(fs)[path := old(fs)[name]] && CopyName(dir, path)
      ensures index > start && CopyOf(dir, name, index - 1, path)
      ensures old(history) <= history && EarlyFrom(j, history, |old(history)|) && Early(j, Now())
    {
      hide CopyName, Base, Early;
      ghost var before := Now();
      var data := fs[name];
      StripMeans(Base(name));
      path, index := CreateCopy(StripHardlink(Base(name)), start);
      EarlyNew(j, before, path, []);
      FillCopy(path, data, j, before);
      EarlyNew(j, before, path, data);
    }

    /** One copy for every hash whose file cannot stay where it is. */
    method CopyAll(infos: seq<FileInfo>, chosen: map<nat, nat>, ghost j: Job) returns (names: map<nat, string>)
      requires dir == j.dir && infos == j.infos && Now() == j.d0
      requires forall h :: h in chosen ==> chosen[h] < |infos| && infos[chosen[h]].name in fs
      modifies this`fs, this`history
      ensures names.Keys == chosen.Keys && Named(j, chosen, names, fs) && Early(j, Now())
      ensures forall h :: h in names ==> KeptOrCopied(dir, old(fs), infos[chosen[h]], fs, names[h])
      ensures old(history) <= history && EarlyFrom(j, history, |old(history)|)
    {
      hide Named, Early, KeptOrCopied;
      names := CopyEach(infos, chosen, j);
      NamedMeans(j, chosen, names, fs);
    }

    method CopyEach(infos: seq<FileInfo>, chosen: map<nat, nat>, ghost j: Job) returns (names: map<nat, string>)
      requires dir == j.dir && infos == j.infos && Now() == j.d0
      requires forall h :: h in chosen ==> chosen[h] < |infos| && infos[chosen[h]].name in fs
      modifies this`fs, this`history
      ensures names.Keys == chosen.Keys && Named(j, chosen, names, fs) && Early(j, Now())
      ensures old(history) <= history && EarlyFrom(j, history, |old(history)|)
    {
      names := map[];
      var index: nat := 0;
      var remaining := chosen.Keys;
      assert Named(j, chosen, names, fs) && Early(j, Now());
      hide Named, Early, Kept, CopyName, CopyOf;
      while remaining != {}
        invariant remaining <= chosen.Keys && names.Keys == chosen.Keys - remaining
        invariant Named(j, chosen, names, fs) && Early(j, Now())
        invariant old(history) <= history && EarlyFrom(j, history, |old(history)|)
        decreases remaining
      {
        var h :| h in remaining;
        var name;
        name, index := CopyIfNeeded(infos[chosen[h]], index, j, chosen, names, h);
        names := names[h := name];
        remaining := remaining - {h};
      }
    }

    /** The name that stands for one hash. */
    method CopyIfNeeded(info: FileInfo, start: nat, ghost j: Job, ghost chosen: map<nat, nat>,
                        ghost names: map<nat, string>, ghost h: nat)
      returns (name: string, index: nat)
      requires dir == j.dir && (forall h :: h in chosen ==> chosen[h] < |j.infos|) && h in chosen && h !in names
      requires info == j.infos[chosen[h]] && info.name in j.d0.fs && Named(j, chosen, names, fs) && Early(j, Now())
      modifies this`fs, this`history
      ensures Named(j, chosen, names[h := name], fs) && Early(j, Now())
      ensures old(history) <= history && EarlyFrom(j, history, |old(history)|)
    {
      hide Named, Early, Kept, CopyName, CopyOf;
      name, index := info.name, start;
      if !Kept(dir, info) {
        ghost var before := fs;
        UnchangedSoFar(j, Now(), name);
        name, index := CopyIntoTrace(name, index, j);
        OneCopy(j, chosen, names, before, h, name);
      } else {
        OneKept(j, chosen, names, fs, h);
      }
    }

    // ---------------------------------------------------------------- switching over

    /** Write the entries with their new names to a file that nothing refers to yet. */
    method WriteEntries(fileMap: map<string, string>, encode: Entry -> Bytes, ghost j: Job, ghost d: Disk)
      returns (es: seq<Entry>)
      requires dir == j.dir && Grown(j, d) && !LeftOver(dir, d) && mmaps == d.mmaps
      requires AllMapped(dir, fileMap, mmaps) && LeftOver(dir, Now())
      requires fs == d.fs[ListPath(dir) := fs[ListPath(dir)]]
      modifies this`fs, this`history
      ensures es == Renamed(dir, fileMap, mmaps)
      ensures LeftOver(dir, Now()) && fs == d.fs[ListPath(dir) := fs[ListPath(dir)]]
      ensures old(history) <= history && WritingFrom(j, history, |old(history)|)
    {
      hide Renamed, Resolve, Grown, ListPath, NewEntry;
      var path := ListPath(dir);
      es := [];
      while |es| < |mmaps|
        invariant |es| <= |mmaps| && AllMapped(dir, fileMap, mmaps[..|es|])
        invariant es == Renamed(dir, fileMap, mmaps[..|es|])
        invariant path in fs && fs == d.fs[path := fs[path]]
        invariant old(history) <= history && WritingFrom(j, history, |old(history)|)
      {
        var e := mmaps[|es|];
        RenamedNext(dir, fileMap, mmaps, |es|);
        assert e in mmaps;
        Append(path, encode(NewEntry(dir, fileMap, e)));
        GrownNew(j, d, path, fs[path]);
        es := es + [NewEntry(dir, fileMap, e)];
      }
      assert mmaps[..|mmaps|] == mmaps;
    }

    /**
     Write the new list beside the old one, and put it in its place. Interrupted in between, the new
     list is left over.
     */
    method RewriteMmaps(fileMap: map<string, string>, encode: Entry -> Bytes, ghost j: Job) returns (ok: bool)
      requires dir == j.dir && Grown(j, Now()) && AllMapped(dir, fileMap, mmaps)
      modifies this`fs, this`mmaps, this`history
      ensures ok <==> !LeftOver(dir, old(Now()))
      ensures !ok ==> Now() == old(Now()) && history == old(history)
      ensures ok ==> fs == old(fs) && mmaps == Renamed(dir, fileMap, old(mmaps))
      ensures ok ==> old(history) <= history && |old(history)| < |history| - 1 && history[|history| - 1] == Now()
      ensures ok ==> WritingFrom(j, history[..|history| - 1], |old(history)|)
    {
      hide Renamed, ListPath, Resolve, Grown;
      ghost var before := Now();
      ok := Create(ListPath(dir));
      if !ok {
        return;
      }
      GrownNew(j, before, ListPath(dir), []);
      var es := WriteEntries(fileMap, encode, j, before);
      fs, mmaps := fs - {ListPath(dir)}, es;
      assert fs == before.fs;
      ghost var earlier := history;
      history := history + [Now()];
      assert history[..|history| - 1] == earlier;
    }

    /** Remove the mapped files of the trace directory that nothing uses any more. */
    method DeleteUnnecessary(retain: set<string>)
      requires history != [] && history[|history| - 1] == Now()
      modifies this`fs, this`history
      ensures fs == map p | p in old(fs) && !Deletable(dir, retain, p) :: old(fs)[p]
      ensures old(history) <= history && history[|history| - 1] == Now()
      ensures ThinnedFrom(dir, retain, Disk(old(fs), mmaps), history, |old(history)|)
    {
      hide Deletable;
      var remaining := set p | p in fs && Deletable(dir, retain, p);
      while remaining != {}
        invariant forall p :: p in remaining <==> p in fs && Deletable(dir, retain, p)
        invariant Thinned(dir, retain, old(fs), fs)
        invariant old(history) <= history && history[|history| - 1] == Now()
        invariant ThinnedFrom(dir, retain, Disk(old(fs), mmaps), history, |old(history)|)
        decreases remaining
      {
        var p :| p in remaining;
        fs := fs - {p};
        history := history + [Now()];
        remaining := remaining - {p};
      }
    }

    // ---------------------------------------------------------------- everything together

    /** Choose, copy and name; what would be an internal error never is one. */
    method Prepare(infos: seq<FileInfo>, ghost j: Job)
      returns (fileMap: map<string, string>, fatal: bool, ghost p: Plan)
      requires dir == j.dir && infos == j.infos && Now() == j.d0 && j.Valid()
      modifies this`fs, this`history
      ensures !fatal && Planned(j, p, fs) && p.fileMap == fileMap && Early(j, Now())
      ensures old(history) <= history && EarlyFrom(j, history, |old(history)|)
    {
      hide Gathered, CollisionFree, Named, Chosen, Mapped, Early, EarlyFrom, InTraceDir;
      FilesListed(j);
      var chosen := ChooseFiles(dir, infos);
      var names := CopyAll(infos, chosen, j);
      NamesInDir(j, chosen, names, fs);
      fileMap, fatal := AssignNames(dir, infos, names);
      p := Plan(chosen, names, fileMap);
    }

    /**
     Before the switch to the new list every state of the disk is safe; from the switch on, each one
     is safe exactly if the trace was packable. Exactly the states from `created` to `switch` have a
     left-over list, with which a later run fails.
     */
    method PackTrace(infos: seq<FileInfo>, ghost hash: Bytes -> nat, encode: Entry -> Bytes)
      returns (ok: bool, fatal: bool, ghost created: nat, ghost switch: nat)
      requires Job(dir, Now(), hash, infos).Valid() && Safe(dir, Now(), Now())
      modifies this
      ensures !fatal && (ok <==> !LeftOver(dir, old(Now())))
      ensures old(history) <= history && |old(history)| <= created <= switch <= |history|
      ensures forall k :: |old(history)| <= k < switch ==> Safe(dir, old(Now()), history[k])
      ensures !ok ==> switch == |history| && Safe(dir, old(Now()), Now())
      ensures ok ==> created < switch < |history| && history[|history| - 1] == Now()
      ensures ok ==> forall k :: |old(history)| <= k < |history| ==>
        (LeftOver(dir, history[k]) <==> created <= k < switch)
      ensures ok ==> forall k :: switch <= k < |history| ==>
        (Safe(dir, old(Now()), history[k]) <==> Packable(dir, old(Now()), infos))
      ensures ok ==> Shared(Job(dir, old(Now()), hash, infos), mmaps) && NoneUnused(dir, Now())
      ensures ok ==> Detached(Job(dir, old(Now()), hash, infos), mmaps) && Untouched(dir, old(fs), fs)
    {
      hide Detached, Untouched;
      hide Gathered, CollisionFree, Planned, Safe, Packable, Early, Grown, Renamed, AllMapped, Shared, NoneUnused,
        ListPath, Deletable, Phases, WritingFrom, EarlyFrom, ThinnedFrom;
      ghost var j, n0 := Job(dir, Now(), hash, infos), |history|;
      var fileMap;
      ghost var p;
      fileMap, fatal, p := Prepare(infos, j);
      ghost var copied := history;
      created, switch := |history|, |history|;
      EarlyStates(j, history, n0, Now());
      PlanFacts(j, p, fs, Now());
      ghost var prepared := Now();
      ok := RewriteMmaps(fileMap, encode, j);
      if !ok {
        return;
      }
      switch := |history| - 1;
      ghost var d1, switched := Now(), history;
      DeleteUnnecessary(fileMap.Values);
      assert history[..created] == copied && history[..switch] == switched[..switch];
      MakePhases(j, p, d1, history, n0, created, switch);
      BeforeSwitch(j, p, d1, history, n0, created, switch);
      LeftOverStates(j, p, d1, history, n0, created, switch);
      AfterSwitch(j, p, d1, history, n0, created, switch);
      SwitchShares(j, p, d1.fs);
      SwitchDetaches(j, p, d1.fs);
      AllUsed(j, p, d1.fs, fs);
      OthersUntouched(j, fileMap.Values, prepared, fs);
    }
  }

  lemma OthersUntouched(j: Job, retain: set<string>, d: Disk, fs: Files)
    requires Early(j, d) && fs == map p | p in d.fs && !Deletable(j.dir, retain, p) :: d.fs[p]
    ensures Untouched(j.dir, j.d0.fs, fs)
  {
    hide Base;
  }

  lemma UnchangedSoFar(j: Job, d: Disk, name: string)
    requires Early(j, d) && name in j.d0.fs
    ensures name in d.fs && d.fs[name] == j.d0.fs[name]
  {
    hide CopyName;
  }

  // ---------------------------------------------------------------- choosing and naming

  /** For every hash, the position of the file that stands for it. */
  method ChooseFiles(dir: string, infos: seq<FileInfo>) returns (chosen: map<nat, nat>)
    ensures forall k :: 0 <= k < |infos| ==> infos[k].hash in chosen
    ensures forall h :: h in chosen ==>
      chosen[h] < |infos| && infos[chosen[h]].hash == h && Chosen(dir, infos, |infos|, chosen[h])
    ensures forall h :: h in chosen ==> Representative(dir, infos, chosen[h])
  {
    hide Kept;
    chosen := map[];
    var i := 0;
    while i < |infos|
      invariant 0 <= i <= |infos|
      invariant forall k :: 0 <= k < i ==> infos[k].hash in chosen
      invariant forall h :: h in chosen ==> Chosen(dir, infos, i, chosen[h]) && infos[chosen[h]].hash == h
    {
      var h := infos[i].hash;
      if h in chosen && Kept(dir, infos[chosen[h]]) {
      } else {
        chosen := chosen[h := i];
      }
      i := i + 1;
    }
    forall h | h in chosen ensures Representative(dir, infos, chosen[h]) {
      ChosenRepresents(dir, infos, chosen[h]);
    }
  }

  /** The new name of every file; `fatal` exactly if some name does not pass for one in the trace directory. */
  method AssignNames(dir: string, infos: seq<FileInfo>, names: map<nat, string>)
    returns (fileMap: map<string, string>, fatal: bool)
    requires forall k :: 0 <= k < |infos| ==> infos[k].hash in names
    requires forall i, k :: 0 <= i < k < |infos| ==> infos[i].name != infos[k].name
    ensures fatal <==> exists k :: 0 <= k < |infos| && !InTraceDir(names[infos[k].hash], dir)
    ensures !fatal ==> Mapped(infos, names, fileMap)
  {
    hide Base, InTraceDir;
    fileMap, fatal := map[], false;
    var i := 0;
    while i < |infos|
      invariant 0 <= i <= |infos| && !fatal
      invariant forall k :: 0 <= k < i ==> InTraceDir(names[infos[k].hash], dir)
      invariant forall k :: 0 <= k < i ==>
        infos[k].name in fileMap && fileMap[infos[k].name] == Base(names[infos[k].hash])
      invariant forall p :: p in fileMap ==> IsListed(infos, p) && '/' !in fileMap[p]
    {
      var name := names[infos[i].hash];
      if !InTraceDir(name, dir) {
        fatal := true;
        return;
      }
      fileMap := fileMap[infos[i].name := Base(name)];
      i := i + 1;
    }
  }

  // ---------------------------------------------------------------- the whole history

  ghost predicate ThinnedFrom(dir: string, retain: set<string>, d1: Disk, history: seq<Disk>, n: nat) {
    forall k :: n <= k < |history| ==> history[k].mmaps == d1.mmaps && Thinned(dir, retain, d1.fs, history[k].fs)
  }

  lemma EarlyStates(j: Job, history: seq<Disk>, n: nat, d: Disk)
    requires EarlyFrom(j, history, n) && Early(j, d) && Safe(j.dir, j.d0, j.d0)
    ensures forall k :: n <= k < |history| ==> Safe(j.dir, j.d0, history[k])
    ensures Safe(j.dir, j.d0, d) && Grown(j, d) && (LeftOver(j.dir, d) <==> LeftOver(j.dir, j.d0))
  {
    hide Safe, Grown, ListPath, CopyName;
    forall k | n <= k < |history| ensures Safe(j.dir, j.d0, history[k]) { GrownSafe(j, history[k]); }
    GrownSafe(j, d);
    EarlyLeftOver(j, d);
  }

  lemma PlanFacts(j: Job, p: Plan, fs: Files, d: Disk)
    requires Planned(j, p, fs) && Grown(j, d)
    ensures AllMapped(j.dir, p.fileMap, j.d0.mmaps) && d.mmaps == j.d0.mmaps
    ensures forall k :: 0 <= k < |j.infos| ==> j.infos[k].name in j.d0.fs
  {
    hide AllMapped, Named, Choice, Mapped, Gathered, CollisionFree;
    EntriesMapped(j, p, fs);
    FilesListed(j);
  }

  /** Copies, then the new list beside the old one, then the new list with fewer and fewer files. */
  ghost predicate Phases(j: Job, p: Plan, d1: Disk, history: seq<Disk>, n0: nat, created: nat, switch: nat) {
    && n0 <= created < switch < |history|
    && (forall k :: n0 <= k < created ==> Early(j, history[k]))
    && (forall k :: created <= k < switch ==> Grown(j, history[k]) && LeftOver(j.dir, history[k]))
    && history[switch] == d1 && !LeftOver(j.dir, d1)
    && (forall k :: switch < k < |history| ==>
          history[k].mmaps == d1.mmaps && Thinned(j.dir, p.fileMap.Values, d1.fs, history[k].fs))
  }

  lemma MakePhases(j: Job, p: Plan, d1: Disk, history: seq<Disk>, n0: nat, created: nat, switch: nat)
    requires n0 <= created < switch < |history| && history[switch] == d1 && !LeftOver(j.dir, d1)
    requires EarlyFrom(j, history[..created], n0) && WritingFrom(j, history[..switch], created)
    requires ThinnedFrom(j.dir, p.fileMap.Values, d1, history, switch + 1)
    ensures Phases(j, p, d1, history, n0, created, switch)
  {
    hide Early, Grown, LeftOver, Thinned;
    forall k | n0 <= k < created ensures Early(j, history[k]) { assert history[..created][k] == history[k]; }
    forall k | created <= k < switch ensures Grown(j, history[k]) && LeftOver(j.dir, history[k]) {
      assert history[..switch][k] == history[k];
    }
  }

  lemma BeforeSwitch(j: Job, p: Plan, d1: Disk, history: seq<Disk>, n0: nat, created: nat, switch: nat)
    requires Phases(j, p, d1, history, n0, created, switch) && Safe(j.dir, j.d0, j.d0)
    ensures forall k :: n0 <= k < switch ==> Safe(j.dir, j.d0, history[k])
  {
    hide Safe, Thinned, ListPath, Extends, CopyName;
    forall k | n0 <= k < switch ensures Safe(j.dir, j.d0, history[k]) {
      assert Grown(j, history[k]) by { if k < created { assert Early(j, history[k]); } }
      GrownSafe(j, history[k]);
    }
  }

  lemma LeftOverStates(j: Job, p: Plan, d1: Disk, history: seq<Disk>, n0: nat, created: nat, switch: nat)
    requires Phases(j, p, d1, history, n0, created, switch) && !LeftOver(j.dir, j.d0)
    ensures forall k :: n0 <= k < |history| ==> (LeftOver(j.dir, history[k]) <==> created <= k < switch)
  {
    hide Early, Grown, ListPath, Deletable;
    forall k | n0 <= k < |history| ensures LeftOver(j.dir, history[k]) <==> created <= k < switch {
      if k < created { EarlyLeftOver(j, history[k]); }
    }
  }

  lemma AfterSwitch(j: Job, p: Plan, d1: Disk, history: seq<Disk>, n0: nat, created: nat, switch: nat)
    requires Phases(j, p, d1, history, n0, created, switch) && Planned(j, p, d1.fs)
    requires AllMapped(j.dir, p.fileMap, j.d0.mmaps) && d1.mmaps == Renamed(j.dir, p.fileMap, j.d0.mmaps)
    requires forall k :: 0 <= k < |j.infos| ==> j.infos[k].name in j.d0.fs
    ensures forall k :: switch <= k < |history| ==>
      (Safe(j.dir, j.d0, history[k]) <==> Packable(j.dir, j.d0, j.infos))
  {
    hide Safe, Packable, Early, Grown, Thinned, Renamed, AllMapped, Named, Choice, ListPath, Gathered, CollisionFree;
    SwitchExact(j, p, d1.fs);
    forall k | switch <= k < |history| ensures Safe(j.dir, j.d0, history[k]) <==> Packable(j.dir, j.d0, j.infos) {
      if k > switch { ThinnedSafe(j.dir, j.d0, p.fileMap, d1, history[k]); }
    }
  }
}
