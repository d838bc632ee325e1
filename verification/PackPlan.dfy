/** What `rr pack` decides before it changes the list of mapped files, and what follows for every entry. */
module PackPlan {
  import opened TraceDirectory

  /** What packing starts from: the directory, the disk, and the files that the entries use. */
  datatype Job = Job(dir: string, d0: Disk, hash: Bytes -> nat, infos: seq<FileInfo>) {
    ghost predicate Valid() {
      Gathered(dir, d0, hash, infos) && CollisionFree(d0, hash)
    }
  }

  /** For every hash the position of a file and the name that stands for it; for every file its new name. */
  datatype Plan = Plan(chosen: map<nat, nat>, names: map<nat, string>, fileMap: map<string, string>)

  // ---------------------------------------------------------------- names of copies

  function CopyPath(dir: string, index: nat, base: string): string { Child(dir, PackName(index, base)) }

  /** Directly in the trace directory, with a copy's prefix. */
  predicate CopyName(dir: string, path: string) {
    path == Child(dir, Base(path)) && "mmap_pack_" <= Base(path)
  }

  /** The copy of file `name` with number `i`: its last component, without the prefix and number of a hard link. */
  ghost predicate CopyOf(dir: string, name: string, i: nat, path: string) {
    exists base: string :: WithoutLink(Base(name), base) && path == dir + "/mmap_pack_" + Decimal(i) + "_" + base
  }

  /** The names that were taken. */
  ghost predicate Tried(dir: string, base: string, tried: set<string>, index: nat) {
    forall p :: p in tried ==> exists j: nat :: j < index && p == CopyPath(dir, j, base)
  }

  lemma NothingTried(dir: string, base: string, index: nat)
    ensures Tried(dir, base, {}, index)
  {
  }

  lemma CopyPathInjective(dir: string, i: nat, j: nat, base: string)
    requires CopyPath(dir, i, base) == CopyPath(dir, j, base)
    ensures i == j
  {
    hide PackName;
    assert CopyPath(dir, i, base)[|dir| + 1..] == PackName(i, base);
    assert CopyPath(dir, j, base)[|dir| + 1..] == PackName(j, base);
    PackNameInjective(i, j, base);
  }

  lemma NextTry(dir: string, base: string, tried: set<string>, index: nat)
    requires '/' !in base && Tried(dir, base, tried, index)
    ensures var path := CopyPath(dir, index, base);
      path !in tried && Tried(dir, base, tried + {path}, index + 1) && CopyName(dir, path)
  {
    var path := CopyPath(dir, index, base);
    assert CopyName(dir, path) by { BaseOfChild(dir, PackName(index, base)); }
    hide CopyPath, CopyName;
    forall j: nat | j < index ensures path != CopyPath(dir, j, base) {
      if path == CopyPath(dir, j, base) { CopyPathInjective(dir, index, j, base); }
    }
    forall p | p in tried + {path} ensures exists j: nat :: j < index + 1 && p == CopyPath(dir, j, base) {
      if p in tried { var j: nat :| j < index && p == CopyPath(dir, j, base); }
    }
  }

  /** Where the new list is written. */
  function ListPath(dir: string): string { Child(dir, "pack_mmaps") }

  lemma ListIsNoCopy(dir: string)
    ensures !CopyName(dir, ListPath(dir)) && Base(ListPath(dir)) == "pack_mmaps"
  {
    BaseOfChild(dir, "pack_mmaps");
  }

  // ---------------------------------------------------------------- which file stands for a hash

  /** Every file's hash has a file that stands for it. */
  ghost predicate Choice(j: Job, chosen: map<nat, nat>) {
    && (forall k :: 0 <= k < |j.infos| ==> j.infos[k].hash in chosen)
    && (forall h :: h in chosen ==>
          chosen[h] < |j.infos| && j.infos[chosen[h]].hash == h && Chosen(j.dir, j.infos, |j.infos|, chosen[h]))
  }

  /** The name that stands for a hash: the chosen file itself, or a new copy of it in the trace directory. */
  ghost predicate Stands(dir: string, fs0: Files, c: FileInfo, fs: Files, name: string) {
    if Kept(dir, c) then name == c.name
    else c.name in fs0 && name !in fs0 && CopyName(dir, name) && name in fs && fs[name] == fs0[c.name]
  }

  /**
   What stands for a hash: a file that is no hard link and whose name begins with the directory's, or
   else a file that was not there, directly in the directory, with the same contents.
   */
  ghost predicate KeptOrCopied(dir: string, fs0: Files, c: FileInfo, fs: Files, name: string) {
    if !c.hardlink && dir <= c.name then name == c.name
    else
      && name !in fs0 && c.name in fs0 && name in fs && fs[name] == fs0[c.name]
      && name == dir + "/" + Base(name) && "mmap_pack_" <= Base(name)
  }

  lemma StandsMeans(dir: string, fs0: Files, c: FileInfo, fs: Files, name: string)
    requires Stands(dir, fs0, c, fs, name)
    ensures KeptOrCopied(dir, fs0, c, fs, name)
  {
    hide Base;
  }

  lemma NamedMeans(j: Job, chosen: map<nat, nat>, names: map<nat, string>, fs: Files)
    requires (forall h :: h in chosen ==> chosen[h] < |j.infos|) && Named(j, chosen, names, fs)
    ensures forall h :: h in names ==>
      h in chosen && KeptOrCopied(j.dir, j.d0.fs, j.infos[chosen[h]], fs, names[h])
  {
    hide Stands, KeptOrCopied, IsCopy, Extends;
    forall h | h in names ensures h in chosen && KeptOrCopied(j.dir, j.d0.fs, j.infos[chosen[h]], fs, names[h]) {
      StandsMeans(j.dir, j.d0.fs, j.infos[chosen[h]], fs, names[h]);
    }
  }

  /** The path is the copy that was made for some hash. */
  ghost predicate IsCopy(j: Job, chosen: map<nat, nat>, names: map<nat, string>, path: string)
    requires forall h :: h in chosen ==> chosen[h] < |j.infos|
  {
    exists h :: h in names && h in chosen && names[h] == path && !Kept(j.dir, j.infos[chosen[h]])
  }

  /** The names given so far are right, nothing on disk is changed, and nothing but the copies is new. */
  ghost predicate Named(j: Job, chosen: map<nat, nat>, names: map<nat, string>, fs: Files)
    requires forall h :: h in chosen ==> chosen[h] < |j.infos|
  {
    && (forall h :: h in names ==> h in chosen && Stands(j.dir, j.d0.fs, j.infos[chosen[h]], fs, names[h]))
    && Extends(j.d0.fs, fs)
    && (forall p :: p in fs && p !in j.d0.fs ==> IsCopy(j, chosen, names, p))
  }

  lemma IsCopyMore(j: Job, chosen: map<nat, nat>, names: map<nat, string>, h: nat, name: string, path: string)
    requires (forall h :: h in chosen ==> chosen[h] < |j.infos|) && h !in names
    requires IsCopy(j, chosen, names, path)
    ensures IsCopy(j, chosen, names[h := name], path)
  {
    hide Kept;
    var g :| g in names && g in chosen && names[g] == path && !Kept(j.dir, j.infos[chosen[g]]);
    assert names[h := name][g] == path;
  }

  lemma StandsLater(dir: string, fs0: Files, c: FileInfo, fs: Files, name: string, path: string, data: Bytes)
    requires Stands(dir, fs0, c, fs, name) && path !in fs
    ensures Stands(dir, fs0, c, fs[path := data], name)
  {
  }

  lemma OneCopy(j: Job, chosen: map<nat, nat>, names: map<nat, string>, fs: Files, h: nat, path: string)
    requires forall h :: h in chosen ==> chosen[h] < |j.infos|
    requires Named(j, chosen, names, fs) && h in chosen && h !in names
    requires !Kept(j.dir, j.infos[chosen[h]]) && j.infos[chosen[h]].name in j.d0.fs
    requires path !in fs && CopyName(j.dir, path)
    ensures Named(j, chosen, names[h := path], fs[path := j.d0.fs[j.infos[chosen[h]].name]])
  {
    hide Kept, CopyName, Stands, IsCopy;
    var data := j.d0.fs[j.infos[chosen[h]].name];
    var names', fs' := names[h := path], fs[path := data];
    forall g | g in names' ensures g in chosen && Stands(j.dir, j.d0.fs, j.infos[chosen[g]], fs', names'[g]) {
      if g == h {
        NewStands(j.dir, j.d0.fs, j.infos[chosen[h]], fs, path);
      } else {
        StandsLater(j.dir, j.d0.fs, j.infos[chosen[g]], fs, names[g], path, data);
      }
    }
    forall p | p in fs' && p !in j.d0.fs ensures IsCopy(j, chosen, names', p) {
      if p == path { NewIsCopy(j, chosen, names, h, path); } else { IsCopyMore(j, chosen, names, h, path, p); }
    }
  }

  lemma NewStands(dir: string, fs0: Files, c: FileInfo, fs: Files, path: string)
    requires !Kept(dir, c) && c.name in fs0 && Extends(fs0, fs) && path !in fs && CopyName(dir, path)
    ensures Stands(dir, fs0, c, fs[path := fs0[c.name]], path)
  {
    hide Kept, CopyName;
  }

  lemma NewIsCopy(j: Job, chosen: map<nat, nat>, names: map<nat, string>, h: nat, path: string)
    requires (forall h :: h in chosen ==> chosen[h] < |j.infos|) && h in chosen && !Kept(j.dir, j.infos[chosen[h]])
    ensures IsCopy(j, chosen, names[h := path], path)
  {
    hide Kept;
    assert names[h := path][h] == path;
  }

  lemma OneKept(j: Job, chosen: map<nat, nat>, names: map<nat, string>, fs: Files, h: nat)
    requires forall h :: h in chosen ==> chosen[h] < |j.infos|
    requires Named(j, chosen, names, fs) && h in chosen && h !in names && Kept(j.dir, j.infos[chosen[h]])
    ensures Named(j, chosen, names[h := j.infos[chosen[h]].name], fs)
  {
    hide Kept, CopyName, IsCopy;
    var name := j.infos[chosen[h]].name;
    forall p | p in fs && p !in j.d0.fs ensures IsCopy(j, chosen, names[h := name], p) {
      IsCopyMore(j, chosen, names, h, name, p);
    }
  }

  lemma NamesInDir(j: Job, chosen: map<nat, nat>, names: map<nat, string>, fs: Files)
    requires (forall h :: h in chosen ==> chosen[h] < |j.infos|) && Named(j, chosen, names, fs)
    ensures forall h :: h in names ==> InTraceDir(names[h], j.dir)
  {
    hide IsCopy, Base;
    forall h | h in names ensures InTraceDir(names[h], j.dir) {
      assert Stands(j.dir, j.d0.fs, j.infos[chosen[h]], fs, names[h]);
    }
  }

  // ---------------------------------------------------------------- the plan

  /** Every file has the last name component of what stands for its hash, and no other name is given. */
  ghost predicate Mapped(infos: seq<FileInfo>, names: map<nat, string>, fileMap: map<string, string>) {
    && (forall k :: 0 <= k < |infos| ==>
          && infos[k].hash in names && infos[k].name in fileMap
          && fileMap[infos[k].name] == Base(names[infos[k].hash]))
    && (forall p :: p in fileMap ==> IsListed(infos, p) && '/' !in fileMap[p])
  }

  ghost predicate Planned(j: Job, p: Plan, fs: Files) {
    && j.Valid() && Choice(j, p.chosen) && Named(j, p.chosen, p.names, fs) && Mapped(j.infos, p.names, p.fileMap)
  }

  /** The plan for one file. */
  lemma PlannedFile(j: Job, p: Plan, fs: Files, k: nat)
    requires Planned(j, p, fs) && k < |j.infos|
    ensures var info := j.infos[k];
      && info.hash in p.chosen && info.hash in p.names && p.chosen[info.hash] < |j.infos|
      && info.name in p.fileMap && p.fileMap[info.name] == Base(p.names[info.hash])
      && var c := j.infos[p.chosen[info.hash]];
         && c.hash == info.hash && Chosen(j.dir, j.infos, |j.infos|, p.chosen[info.hash])
         && Listed(j.d0, j.hash, info) && Listed(j.d0, j.hash, c)
         && j.d0.fs[info.name] == j.d0.fs[c.name]
         && Stands(j.dir, j.d0.fs, c, fs, p.names[info.hash])
  {
    hide Base, Stands, Extends, IsCopy, IsListed, IsUsed, Chosen;
    var info := j.infos[k];
    var c := j.infos[p.chosen[info.hash]];
    assert Listed(j.d0, j.hash, info) && Listed(j.d0, j.hash, c);
  }

  /** A copy made for another hash has other contents. */
  lemma OtherHash(j: Job, p: Plan, fs: Files, path: string, h: nat)
    requires Planned(j, p, fs) && path in fs && path !in j.d0.fs
    requires h in p.chosen && Kept(j.dir, j.infos[p.chosen[h]])
    ensures j.hash(fs[path]) != h
  {
    hide Kept, CopyName, Base, Extends, IsListed, IsUsed, Chosen, Mapped;
    assert IsCopy(j, p.chosen, p.names, path);
    var g :| g in p.names && g in p.chosen && p.names[g] == path && !Kept(j.dir, j.infos[p.chosen[g]]);
    assert Stands(j.dir, j.d0.fs, j.infos[p.chosen[g]], fs, path);
    assert Listed(j.d0, j.hash, j.infos[p.chosen[g]]);
  }

  /**
   What stands for a chosen file has its contents, unless the file was kept and its last name
   component leads elsewhere.
   */
  lemma TargetContents(dir: string, fs0: Files, fs: Files, c: FileInfo, name: string)
    requires c.name in fs0 && Stands(dir, fs0, c, fs, name) && Extends(fs0, fs)
    requires var target := Child(dir, Base(name));
      Kept(dir, c) && target in fs && target !in fs0 ==> fs[target] != fs0[c.name]
    ensures var target := Child(dir, Base(name));
      (target in fs && fs[target] == fs0[c.name]) <==> KeptIsChild(dir, fs0, c)
  {
    hide Base, Kept, Child;
  }

  lemma ResolveBase(dir: string, name: string)
    ensures Resolve(dir, Base(name)) == Child(dir, Base(name))
  {
  }

  lemma PlannedExtends(j: Job, p: Plan, fs: Files)
    requires Planned(j, p, fs)
    ensures Extends(j.d0.fs, fs)
  {
    hide Extends, Stands, IsCopy, Mapped, Choice;
  }

  /** Where a file's entry leads after the switch. */
  lemma TargetOf(j: Job, p: Plan, fs: Files, k: nat)
    requires Planned(j, p, fs) && k < |j.infos|
    requires j.infos[k].name in p.fileMap && j.infos[k].hash in p.chosen && p.chosen[j.infos[k].hash] < |j.infos|
    requires j.infos[k].name in j.d0.fs && j.infos[p.chosen[j.infos[k].hash]].name in j.d0.fs
    ensures var c := j.infos[p.chosen[j.infos[k].hash]];
      var target := Resolve(j.dir, p.fileMap[j.infos[k].name]);
      && j.d0.fs[j.infos[k].name] == j.d0.fs[c.name]
      && ((target in fs && fs[target] == j.d0.fs[c.name]) <==> KeptIsChild(j.dir, j.d0.fs, c))
  {
    hide Planned, Base, Child, Resolve, Stands, KeptIsChild, Extends, Kept;
    PlannedFile(j, p, fs, k);
    PlannedExtends(j, p, fs);
    var h := j.infos[k].hash;
    var c, name := j.infos[p.chosen[h]], p.names[h];
    ResolveBase(j.dir, name);
    var target := Child(j.dir, Base(name));
    if Kept(j.dir, c) && target in fs && target !in j.d0.fs {
      OtherHash(j, p, fs, target, h);
    }
    TargetContents(j.dir, j.d0.fs, fs, c, name);
  }

  // ---------------------------------------------------------------- the new list

  function NewEntry(dir: string, fileMap: map<string, string>, e: Entry): Entry
    requires e.FileEntry? ==> Resolve(dir, e.name) in fileMap
  {
    if e.FileEntry? then e.(name := fileMap[Resolve(dir, e.name)]) else e
  }

  /** Every file entry has a new name. */
  ghost predicate AllMapped(dir: string, fileMap: map<string, string>, es: seq<Entry>) {
    forall e :: e in es && e.FileEntry? ==> Resolve(dir, e.name) in fileMap
  }

  /** The mapped files with their new names. */
  function Renamed(dir: string, fileMap: map<string, string>, es: seq<Entry>): (r: seq<Entry>)
    requires AllMapped(dir, fileMap, es)
    ensures |r| == |es|
    ensures forall k :: 0 <= k < |es| ==> r[k] == NewEntry(dir, fileMap, es[k])
  {
    seq(|es|, k requires 0 <= k < |es| => NewEntry(dir, fileMap, es[k]))
  }

  lemma RenamedNext(dir: string, fileMap: map<string, string>, es: seq<Entry>, n: nat)
    requires n < |es| && AllMapped(dir, fileMap, es)
    ensures AllMapped(dir, fileMap, es[..n]) && AllMapped(dir, fileMap, es[..n + 1])
    ensures Renamed(dir, fileMap, es[..n + 1]) == Renamed(dir, fileMap, es[..n]) + [NewEntry(dir, fileMap, es[n])]
  {
    hide Resolve;
  }

  lemma EntriesMapped(j: Job, p: Plan, fs: Files)
    requires Planned(j, p, fs)
    ensures AllMapped(j.dir, p.fileMap, j.d0.mmaps)
  {
    hide Resolve, Named, Choice, Base, IsUsed, Listed;
    forall e | e in j.d0.mmaps && e.FileEntry? ensures Resolve(j.dir, e.name) in p.fileMap {
      var i :| 0 <= i < |j.d0.mmaps| && j.d0.mmaps[i] == e;
      assert IsListed(j.infos, Resolve(j.dir, j.d0.mmaps[i].name));
    }
  }

  lemma ListedEntry(j: Job, e: nat) returns (k: nat)
    requires j.Valid() && e < |j.d0.mmaps| && j.d0.mmaps[e].FileEntry?
    ensures k < |j.infos| && j.infos[k].name == Resolve(j.dir, j.d0.mmaps[e].name)
  {
    hide Resolve, IsUsed, Listed, CollisionFree;
    assert IsListed(j.infos, Resolve(j.dir, j.d0.mmaps[e].name));
    k :| 0 <= k < |j.infos| && j.infos[k].name == Resolve(j.dir, j.d0.mmaps[e].name);
  }

  lemma UsedFile(j: Job, k: nat) returns (e: nat)
    requires j.Valid() && k < |j.infos|
    ensures e < |j.d0.mmaps| && Uses(j.dir, j.d0.mmaps[e], j.infos[k].name)
  {
    hide Uses, IsListed, Listed, CollisionFree;
    assert IsUsed(j.dir, j.d0, j.infos[k].name);
    e :| 0 <= e < |j.d0.mmaps| && Uses(j.dir, j.d0.mmaps[e], j.infos[k].name);
  }

  lemma FilesListed(j: Job)
    requires j.Valid()
    ensures forall k :: 0 <= k < |j.infos| ==> j.infos[k].name in j.d0.fs
    ensures forall i, k :: 0 <= i < k < |j.infos| ==> j.infos[i].name != j.infos[k].name
  {
    hide IsListed, IsUsed, CollisionFree;
    forall k | 0 <= k < |j.infos| ensures j.infos[k].name in j.d0.fs { assert Listed(j.d0, j.hash, j.infos[k]); }
  }

  /** One entry is safe after the switch exactly if the file that stands for its hash was a child of the directory. */
  lemma EntrySwitch(j: Job, p: Plan, fs: Files, k: nat, e: Entry, d: Disk)
    requires Planned(j, p, fs) && k < |j.infos| && d.fs == fs
    requires e.FileEntry? && Resolve(j.dir, e.name) == j.infos[k].name
    ensures j.infos[k].name in p.fileMap && j.infos[k].hash in p.chosen && p.chosen[j.infos[k].hash] < |j.infos|
    ensures j.infos[p.chosen[j.infos[k].hash]].name in j.d0.fs
    ensures SafeEntry(j.dir, j.d0, e, d, NewEntry(j.dir, p.fileMap, e))
            <==> KeptIsChild(j.dir, j.d0.fs, j.infos[p.chosen[j.infos[k].hash]])
  {
    hide Planned, KeptIsChild, Resolve, Stands, Base;
    PlannedFile(j, p, fs, k);
    TargetOf(j, p, fs, k);
  }

  lemma ChosenUnique(dir: string, infos: seq<FileInfo>, i: nat, k: nat)
    requires Chosen(dir, infos, |infos|, i) && Chosen(dir, infos, |infos|, k) && infos[i].hash == infos[k].hash
    ensures i == k
  {
    hide Kept;
  }

  lemma PackableEntry(j: Job, p: Plan, fs: Files, e: nat, d: Disk)
    requires Planned(j, p, fs) && AllMapped(j.dir, p.fileMap, j.d0.mmaps) && e < |j.d0.mmaps| && d.fs == fs
    requires (forall k :: 0 <= k < |j.infos| ==> j.infos[k].name in j.d0.fs) && Packable(j.dir, j.d0, j.infos)
    ensures j.d0.mmaps[e] in j.d0.mmaps
    ensures SafeEntry(j.dir, j.d0, j.d0.mmaps[e], d, NewEntry(j.dir, p.fileMap, j.d0.mmaps[e]))
  {
    hide KeptIsChild, Resolve, Chosen, Choice, Named, Mapped, Gathered, CollisionFree;
    if j.d0.mmaps[e].FileEntry? {
      var k := ListedEntry(j, e);
      EntrySwitch(j, p, fs, k, j.d0.mmaps[e], d);
      PlannedFile(j, p, fs, k);
    }
  }

  lemma SafeMeansPackable(j: Job, p: Plan, fs: Files, k: nat, d: Disk)
    requires Planned(j, p, fs) && AllMapped(j.dir, p.fileMap, j.d0.mmaps)
    requires d == Disk(fs, Renamed(j.dir, p.fileMap, j.d0.mmaps)) && Safe(j.dir, j.d0, d)
    requires k < |j.infos| && Chosen(j.dir, j.infos, |j.infos|, k) && j.infos[k].name in j.d0.fs
    ensures KeptIsChild(j.dir, j.d0.fs, j.infos[k])
  {
    hide KeptIsChild, Resolve, Chosen, Choice, Named, Mapped, Gathered, CollisionFree, SafeEntry, NewEntry;
    var e := UsedFile(j, k);
    assert SafeEntry(j.dir, j.d0, j.d0.mmaps[e], d, d.mmaps[e]);
    EntrySwitch(j, p, fs, k, j.d0.mmaps[e], d);
    PlannedFile(j, p, fs, k);
    ChosenUnique(j.dir, j.infos, k, p.chosen[j.infos[k].hash]);
  }

  /** After the switch the trace means the same exactly if it was packable. */
  lemma SwitchExact(j: Job, p: Plan, fs: Files)
    requires Planned(j, p, fs) && AllMapped(j.dir, p.fileMap, j.d0.mmaps)
    requires forall k :: 0 <= k < |j.infos| ==> j.infos[k].name in j.d0.fs
    ensures Safe(j.dir, j.d0, Disk(fs, Renamed(j.dir, p.fileMap, j.d0.mmaps))) <==> Packable(j.dir, j.d0, j.infos)
  {
    hide Planned, KeptIsChild, SafeEntry, Resolve, Chosen, NewEntry;
    var d := Disk(fs, Renamed(j.dir, p.fileMap, j.d0.mmaps));
    if Packable(j.dir, j.d0, j.infos) {
      forall e | 0 <= e < |d.mmaps| ensures SafeEntry(j.dir, j.d0, j.d0.mmaps[e], d, d.mmaps[e]) {
        PackableEntry(j, p, fs, e, d);
      }
    }
    if Safe(j.dir, j.d0, d) {
      forall k | 0 <= k < |j.infos| && Chosen(j.dir, j.infos, |j.infos|, k)
        ensures KeptIsChild(j.dir, j.d0.fs, j.infos[k])
      {
        SafeMeansPackable(j, p, fs, k, d);
      }
    }
  }

  // ---------------------------------------------------------------- shared and used

  predicate SameHash(j: Job, a: Entry, b: Entry) {
    && a.FileEntry? && b.FileEntry? && Resolve(j.dir, a.name) in j.d0.fs && Resolve(j.dir, b.name) in j.d0.fs
    && j.hash(j.d0.fs[Resolve(j.dir, a.name)]) == j.hash(j.d0.fs[Resolve(j.dir, b.name)])
  }

  /** The name leads to a file directly in the directory. */
  predicate Inside(dir: string, name: string) {
    '/' !in name && Resolve(dir, name) == Child(dir, name)
  }

  /** Files with the same hash get the same name, and every name stays inside the trace directory. */
  ghost predicate Shared(j: Job, es: seq<Entry>) {
    && |es| == |j.d0.mmaps|
    && (forall a :: 0 <= a < |es| && es[a].FileEntry? ==> Inside(j.dir, es[a].name))
    && (forall a, b :: 0 <= a < |es| && 0 <= b < |es| && SameHash(j, j.d0.mmaps[a], j.d0.mmaps[b]) ==>
          es[a].FileEntry? && es[b].FileEntry? && es[a].name == es[b].name)
  }

  lemma NewNameOf(j: Job, p: Plan, fs: Files, e: nat)
    requires Planned(j, p, fs) && AllMapped(j.dir, p.fileMap, j.d0.mmaps)
    requires e < |j.d0.mmaps| && j.d0.mmaps[e].FileEntry?
    ensures j.d0.mmaps[e] in j.d0.mmaps
    ensures var path := Resolve(j.dir, j.d0.mmaps[e].name);
      path in j.d0.fs && j.hash(j.d0.fs[path]) in p.names && p.fileMap[path] == Base(p.names[j.hash(j.d0.fs[path])])
  {
    hide Resolve, Stands, Base, Choice, Named, Mapped, Gathered, CollisionFree;
    var k := ListedEntry(j, e);
    PlannedFile(j, p, fs, k);
  }

  /** The new names are single components, one for each hash. */
  lemma SwitchShares(j: Job, p: Plan, fs: Files)
    requires Planned(j, p, fs) && AllMapped(j.dir, p.fileMap, j.d0.mmaps)
    ensures Shared(j, Renamed(j.dir, p.fileMap, j.d0.mmaps))
  {
    hide Planned, SameHash, Resolve, Base, AllMapped, Inside;
    var es := Renamed(j.dir, p.fileMap, j.d0.mmaps);
    forall a | 0 <= a < |es| && es[a].FileEntry? ensures Inside(j.dir, es[a].name) {
      NewNameOf(j, p, fs, a);
      BaseInside(j.dir, p.names[j.hash(j.d0.fs[Resolve(j.dir, j.d0.mmaps[a].name)])]);
    }
    forall a, b | 0 <= a < |es| && 0 <= b < |es| && SameHash(j, j.d0.mmaps[a], j.d0.mmaps[b])
      ensures es[a].FileEntry? && es[b].FileEntry? && es[a].name == es[b].name
    {
      SameHashMeans(j, j.d0.mmaps[a], j.d0.mmaps[b]);
      NewNameOf(j, p, fs, a);
      NewNameOf(j, p, fs, b);
    }
  }

  lemma BaseInside(dir: string, name: string)
    ensures Inside(dir, Base(name))
  {
    ResolveBase(dir, name);
  }

  lemma SameHashMeans(j: Job, a: Entry, b: Entry)
    requires SameHash(j, a, b)
    ensures a.FileEntry? && b.FileEntry? && Resolve(j.dir, a.name) in j.d0.fs && Resolve(j.dir, b.name) in j.d0.fs
    ensures j.hash(j.d0.fs[Resolve(j.dir, a.name)]) == j.hash(j.d0.fs[Resolve(j.dir, b.name)])
  {
  }

  ghost predicate HasName(es: seq<Entry>, name: string) {
    exists e :: 0 <= e < |es| && es[e].FileEntry? && es[e].name == name
  }

  /** Every `mmap_` file in the trace directory is used. */
  ghost predicate NoneUnused(dir: string, d: Disk) {
    forall p :: p in d.fs && p == Child(dir, Base(p)) && "mmap_" <= Base(p) ==> HasName(d.mmaps, Base(p))
  }

  /** A file of the trace directory that is removed unless it is used. */
  predicate Deletable(dir: string, retain: set<string>, path: string) {
    path == Child(dir, Base(path)) && "mmap_" <= Base(path) && Base(path) !in retain
  }

  /** A new name is the name of some entry. */
  lemma NameUsed(j: Job, p: Plan, fs: Files, q: string)
    requires Planned(j, p, fs) && AllMapped(j.dir, p.fileMap, j.d0.mmaps) && q in p.fileMap
    ensures HasName(Renamed(j.dir, p.fileMap, j.d0.mmaps), p.fileMap[q])
  {
    hide Resolve, Choice, Named, Gathered, CollisionFree, Base;
    assert IsListed(j.infos, q);
    var k :| 0 <= k < |j.infos| && j.infos[k].name == q;
    var e := UsedFile(j, k);
    var es := Renamed(j.dir, p.fileMap, j.d0.mmaps);
    assert es[e] == NewEntry(j.dir, p.fileMap, j.d0.mmaps[e]);
  }

  /** What is left of the mapped files is used. */
  lemma AllUsed(j: Job, p: Plan, fs: Files, left: Files)
    requires Planned(j, p, fs) && AllMapped(j.dir, p.fileMap, j.d0.mmaps)
    requires forall q :: q in left ==> !Deletable(j.dir, p.fileMap.Values, q)
    ensures NoneUnused(j.dir, Disk(left, Renamed(j.dir, p.fileMap, j.d0.mmaps)))
  {
    hide Planned, Base, Child, Resolve, Renamed, HasName;
    var es := Renamed(j.dir, p.fileMap, j.d0.mmaps);
    forall f | f in left && f == Child(j.dir, Base(f)) && "mmap_" <= Base(f) ensures HasName(es, Base(f)) {
      assert Base(f) in p.fileMap.Values;
      var q :| q in p.fileMap && p.fileMap[q] == Base(f);
      NameUsed(j, p, fs, q);
    }
  }

  // ---------------------------------------------------------------- what the entries name

  /** The entry uses a file that did not exist before. */
  predicate NamesCopy(dir: string, fs0: Files, name: string) {
    "mmap_pack_" <= name && '/' !in name && dir + "/" + name !in fs0
  }

  /** The entry uses a file that an entry used before, which is no hard link and began with the directory's name. */
  predicate NamesKept(j: Job, name: string, q: string) {
    && q in j.d0.fs && j.dir <= q && Base(q) == name && !("mmap_hardlink_" <= name)
  }

  /** Some file with the contents that the entry had need not be copied. */
  ghost predicate NeedsNoCopy(j: Job, path: string)
    requires path in j.d0.fs
  {
    exists q :: q in j.d0.fs && IsUsed(j.dir, j.d0, q) && j.hash(j.d0.fs[q]) == j.hash(j.d0.fs[path])
      && j.dir <= q && !("mmap_hardlink_" <= Base(q))
  }

  ghost predicate KeptSomewhere(j: Job, path: string, name: string)
    requires path in j.d0.fs
  {
    exists q :: NamesKept(j, name, q) && IsUsed(j.dir, j.d0, q) && j.hash(j.d0.fs[q]) == j.hash(j.d0.fs[path])
  }

  /** No entry uses a hard link; an entry uses a copy exactly if no file with its contents could stay. */
  ghost predicate Detached(j: Job, es: seq<Entry>) {
    && |es| == |j.d0.mmaps|
    && forall e :: 0 <= e < |es| && es[e].FileEntry? ==> DetachedEntry(j, j.d0.mmaps[e], es[e])
  }

  ghost predicate DetachedEntry(j: Job, e0: Entry, e: Entry)
    requires e.FileEntry?
  {
    && e0.FileEntry? && Resolve(j.dir, e0.name) in j.d0.fs && !("mmap_hardlink_" <= e.name)
    && if NeedsNoCopy(j, Resolve(j.dir, e0.name)) then KeptSomewhere(j, Resolve(j.dir, e0.name), e.name)
       else NamesCopy(j.dir, j.d0.fs, e.name)
  }

  lemma StayingFile(j: Job, p: Plan, fs: Files, k: nat, q: string)
    requires Planned(j, p, fs) && k < |j.infos| && q in j.d0.fs && IsUsed(j.dir, j.d0, q)
    requires j.hash(j.d0.fs[q]) == j.infos[k].hash && j.dir <= q && !("mmap_hardlink_" <= Base(q))
    requires Representative(j.dir, j.infos, k)
    ensures !j.infos[k].hardlink && j.dir <= j.infos[k].name
  {
    hide Base, Named, Choice, Mapped, CollisionFree, Resolve;
    var e :| 0 <= e < |j.d0.mmaps| && Uses(j.dir, j.d0.mmaps[e], q);
    var i := ListedEntry(j, e);
    assert Listed(j.d0, j.hash, j.infos[i]);
  }

  lemma EntryDetached(j: Job, p: Plan, fs: Files, k: nat, e0: Entry)
    requires Planned(j, p, fs) && k < |j.infos| && e0.FileEntry? && Resolve(j.dir, e0.name) == j.infos[k].name
    ensures j.infos[k].name in p.fileMap && DetachedEntry(j, e0, NewEntry(j.dir, p.fileMap, e0))
  {
    hide Planned, Base, Resolve, Stands, Extends, IsUsed, Representative, KeptOrCopied, NeedsNoCopy, KeptSomewhere,
      NamesCopy, Chosen;
    PlannedFile(j, p, fs, k);
    var h, path := j.infos[k].hash, j.infos[k].name;
    var c, name := j.infos[p.chosen[h]], p.names[h];
    ChosenRepresents(j.dir, j.infos, p.chosen[h]);
    StandsMeans(j.dir, j.d0.fs, c, fs, name);
    UsedName(j, p, fs, p.chosen[h]);
    if NeedsNoCopy(j, path) {
      StayingOne(j, p, fs, p.chosen[h], path);
      KeptName(j.dir, j.d0.fs, c, fs, name);
      KeptHere(j, path, c.name);
    } else {
      if !c.hardlink && j.dir <= c.name { NoCopyNeeded(j, path, c.name); }
      CopyIsNew(j.dir, j.d0.fs, c, fs, name);
    }
  }

  lemma StayingOne(j: Job, p: Plan, fs: Files, k: nat, path: string)
    requires Planned(j, p, fs) && k < |j.infos| && path in j.d0.fs && NeedsNoCopy(j, path)
    requires j.hash(j.d0.fs[path]) == j.infos[k].hash && Representative(j.dir, j.infos, k)
    ensures !j.infos[k].hardlink && j.dir <= j.infos[k].name
  {
    hide Planned, Base, IsUsed, Representative;
    var q :| q in j.d0.fs && IsUsed(j.dir, j.d0, q) && j.hash(j.d0.fs[q]) == j.hash(j.d0.fs[path])
      && j.dir <= q && !("mmap_hardlink_" <= Base(q));
    StayingFile(j, p, fs, k, q);
  }

  lemma KeptHere(j: Job, path: string, q: string)
    requires path in j.d0.fs && q in j.d0.fs && IsUsed(j.dir, j.d0, q) && j.dir <= q && !("mmap_hardlink_" <= Base(q))
    requires j.d0.fs[q] == j.d0.fs[path]
    ensures KeptSomewhere(j, path, Base(q))
  {
    hide Base, IsUsed;
    assert NamesKept(j, Base(q), q);
  }

  lemma NoCopyNeeded(j: Job, path: string, q: string)
    requires path in j.d0.fs && q in j.d0.fs && IsUsed(j.dir, j.d0, q) && j.dir <= q && !("mmap_hardlink_" <= Base(q))
    requires j.d0.fs[q] == j.d0.fs[path]
    ensures NeedsNoCopy(j, path)
  {
    hide Base, IsUsed;
  }

  lemma UsedName(j: Job, p: Plan, fs: Files, k: nat)
    requires Planned(j, p, fs) && k < |j.infos|
    ensures IsUsed(j.dir, j.d0, j.infos[k].name)
  {
    hide Base, Named, Choice, Mapped, CollisionFree, Resolve, IsListed, Listed, IsUsed;
  }

  lemma KeptName(dir: string, fs0: Files, c: FileInfo, fs: Files, name: string)
    requires KeptOrCopied(dir, fs0, c, fs, name) && !c.hardlink && dir <= c.name
    ensures name == c.name
  {
    hide Base;
  }

  lemma CopyIsNew(dir: string, fs0: Files, c: FileInfo, fs: Files, name: string)
    requires KeptOrCopied(dir, fs0, c, fs, name) && (c.hardlink || !(dir <= c.name))
    ensures NamesCopy(dir, fs0, Base(name)) && !("mmap_hardlink_" <= Base(name))
  {
    var base := Base(name);
    hide Base;
    assert base[5] == "mmap_pack_"[5] != "mmap_hardlink_"[5];
  }

  /** After the switch no entry uses a hard link, and only those use a copy that have to. */
  lemma SwitchDetaches(j: Job, p: Plan, fs: Files)
    requires Planned(j, p, fs) && AllMapped(j.dir, p.fileMap, j.d0.mmaps)
    ensures Detached(j, Renamed(j.dir, p.fileMap, j.d0.mmaps))
  {
    hide Planned, Resolve, DetachedEntry;
    var es := Renamed(j.dir, p.fileMap, j.d0.mmaps);
    forall e | 0 <= e < |es| && es[e].FileEntry? ensures DetachedEntry(j, j.d0.mmaps[e], es[e]) {
      assert j.d0.mmaps[e] in j.d0.mmaps;
      assert j.Valid() by { PlannedValid(j, p, fs); }
      var k := ListedEntry(j, e);
      EntryDetached(j, p, fs, k, j.d0.mmaps[e]);
    }
  }

  lemma PlannedValid(j: Job, p: Plan, fs: Files)
    requires Planned(j, p, fs)
    ensures j.Valid()
  {
    hide Named, Choice, Mapped, Gathered, CollisionFree;
  }

  // ---------------------------------------------------------------- deleting

  /** Only files that may go are gone, and nothing is new or different. */
  ghost predicate Thinned(dir: string, retain: set<string>, fs: Files, fs': Files) {
    && (forall p :: p in fs' ==> p in fs && fs'[p] == fs[p])
    && (forall p :: p in fs && !Deletable(dir, retain, p) ==> p in fs')
  }

  /** Everything but the mapped files directly in the directory is as it was, and nothing but copies is new. */
  ghost predicate Untouched(dir: string, fs0: Files, fs: Files) {
    && (forall p :: p in fs0 && !(p == dir + "/" + Base(p) && "mmap_" <= Base(p)) ==> p in fs && fs[p] == fs0[p])
    && (forall p :: p in fs && p in fs0 ==> fs[p] == fs0[p])
    && (forall p :: p in fs && p !in fs0 ==> p == dir + "/" + Base(p) && "mmap_pack_" <= Base(p))
  }

  lemma NotDeletable(dir: string, retain: set<string>, name: string)
    requires '/' !in name && name in retain
    ensures !Deletable(dir, retain, Resolve(dir, name))
  {
    BaseOfChild(dir, name);
  }

  lemma ThinnedEntry(dir: string, d0: Disk, fileMap: map<string, string>, e: Entry, d1: Disk, d: Disk)
    requires e.FileEntry? ==> Resolve(dir, e.name) in fileMap
    requires (forall p :: p in fileMap ==> '/' !in fileMap[p]) && Thinned(dir, fileMap.Values, d1.fs, d.fs)
    ensures var e' := NewEntry(dir, fileMap, e);
      SafeEntry(dir, d0, e, d, e') <==> SafeEntry(dir, d0, e, d1, e')
  {
    hide Resolve, Deletable;
    if e.FileEntry? { NotDeletable(dir, fileMap.Values, fileMap[Resolve(dir, e.name)]); }
  }

  /** Deleting files that no entry uses changes nothing for any entry. */
  lemma ThinnedSafe(dir: string, d0: Disk, fileMap: map<string, string>, d1: Disk, d: Disk)
    requires AllMapped(dir, fileMap, d0.mmaps) && (forall p :: p in fileMap ==> '/' !in fileMap[p])
    requires d.mmaps == d1.mmaps == Renamed(dir, fileMap, d0.mmaps) && Thinned(dir, fileMap.Values, d1.fs, d.fs)
    ensures Safe(dir, d0, d) <==> Safe(dir, d0, d1)
  {
    hide Renamed, Resolve, SafeEntry, Thinned, NewEntry;
    forall e | 0 <= e < |d.mmaps|
      ensures SafeEntry(dir, d0, d0.mmaps[e], d, d.mmaps[e]) <==> SafeEntry(dir, d0, d0.mmaps[e], d1, d1.mmaps[e])
    {
      assert d0.mmaps[e] in d0.mmaps;
      ThinnedEntry(dir, d0, fileMap, d0.mmaps[e], d1, d);
    }
  }

  // ---------------------------------------------------------------- packable traces

  /** It is enough that everything which passes the prefix test lies directly in the trace directory. */
  lemma ChildrenSuffice(dir: string, d: Disk, infos: seq<FileInfo>)
    requires forall k :: 0 <= k < |infos| ==> infos[k].name in d.fs
    requires forall k :: 0 <= k < |infos| && InTraceDir(infos[k].name, dir) ==>
      infos[k].name == Child(dir, Base(infos[k].name))
    ensures Packable(dir, d, infos)
  {
    hide Base, Child;
  }

  /** A trace that is not packable: its file lies in another directory whose name starts with this one's. */
  lemma SiblingNotPackable() returns (j: Job)
    ensures j.Valid() && Safe(j.dir, j.d0, j.d0)
    ensures (forall k :: 0 <= k < |j.infos| ==> j.infos[k].name in j.d0.fs) && !Packable(j.dir, j.d0, j.infos)
  {
    hide Base, Child, InTraceDir;
    var name := "/t2/x";
    SiblingNames(name);
    var d := Disk(map[name := [1]], [FileEntry(name, 0)]);
    j := Job("/t", d, _ => 0, [FileInfo(name, 0, false)]);
    assert Uses(j.dir, d.mmaps[0], name) && IsUsed(j.dir, d, name);
    assert j.infos[0].name == Resolve(j.dir, d.mmaps[0].name) && IsListed(j.infos, name);
    assert Listed(d, j.hash, j.infos[0]);
    assert Chosen(j.dir, j.infos, |j.infos|, 0);
    assert !KeptIsChild(j.dir, d.fs, j.infos[0]);
  }

  lemma SiblingNames(name: string)
    requires name == "/t2/x"
    ensures !("mmap_hardlink_" <= Base(name)) && InTraceDir(name, "/t") && Child("/t", Base(name)) != name
  {
    assert name == "/t2" + "/" + "x";
    BaseOfChild("/t2", "x");
    assert name[..2] == "/t";
    assert Child("/t", "x")[2] != name[2];
  }
}
