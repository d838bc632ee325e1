/** Names, files and the list of mapped files in a trace directory, as `rr pack` sees them. */
module TraceDirectory {
  import opened Common

  type Bytes = seq<byte>
  type Files = map<string, Bytes>

  /** An entry of the `mmaps` file: backed by a file, under a stored name, or not. */
  datatype Entry = FileEntry(name: string, rest: nat) | OtherEntry(rest: nat)

  /** What is on disk: files under their absolute names, and the current `mmaps`. */
  datatype Disk = Disk(fs: Files, mmaps: seq<Entry>)

  /** Relative names are relative to the trace directory. */
  function Resolve(dir: string, name: string): string {
    if name != [] && name[0] == '/' then name else Child(dir, name)
  }

  function Child(dir: string, name: string): string { dir + "/" + name }

  /** What follows the last slash. */
  function Base(name: string): (r: string)
    ensures '/' !in r && |r| <= |name| && name[|name| - |r|..] == r
    ensures |r| < |name| ==> name[|name| - |r| - 1] == '/'
  {
    if name == [] || name[|name| - 1] == '/' then [] else Base(name[..|name| - 1]) + [name[|name| - 1]]
  }

  lemma {:induction false} BaseOfChild(dir: string, name: string)
    requires '/' !in name
    ensures Base(Child(dir, name)) == name
  {
    var p := Child(dir, name);
    if name != [] {
      BaseOfChild(dir, name[..|name| - 1]);
      assert p[..|p| - 1] == Child(dir, name[..|name| - 1]);
    }
  }

  /** The stored prefix test: it does not ask for a slash after the directory's name. */
  predicate InTraceDir(name: string, dir: string) { dir <= name }

  // ---------------------------------------------------------------- names of copies

  function Decimal(n: nat): (r: string)
    ensures r != [] && '/' !in r
  {
    if n < 10 then ["0123456789"[n]] else Decimal(n / 10) + ["0123456789"[n % 10]]
  }

  predicate IsDigit(c: char) { '0' <= c <= '9' }

  function DigitValue(c: char): int
    requires IsDigit(c)
  {
    c as int - '0' as int
  }

  /** The number that a sequence of digits means. */
  function NumberOf(digits: string): int
    requires forall i :: 0 <= i < |digits| ==> IsDigit(digits[i])
  {
    if digits == [] then 0 else 10 * NumberOf(digits[..|digits| - 1]) + DigitValue(digits[|digits| - 1])
  }

  lemma {:induction false} DecimalMeans(n: nat)
    ensures forall i :: 0 <= i < |Decimal(n)| ==> IsDigit(Decimal(n)[i])
    ensures NumberOf(Decimal(n)) == n && (n > 0 ==> Decimal(n)[0] != '0')
  {
    var r := Decimal(n);
    var last := "0123456789"[n % 10];
    assert IsDigit(last) && DigitValue(last) == n % 10;
    if n >= 10 {
      DecimalMeans(n / 10);
      assert r == Decimal(n / 10) + [last] && r[..|r| - 1] == Decimal(n / 10);
    } else {
      assert r == [last] && r[..0] == [];
    }
  }

  lemma DecimalInjective(a: nat, b: nat)
    requires Decimal(a) == Decimal(b)
    ensures a == b
  {
    DecimalMeans(a);
    DecimalMeans(b);
  }

  function PackName(index: nat, base: string): string { "mmap_pack_" + Decimal(index) + "_" + base }

  lemma PackNameInjective(i: nat, j: nat, base: string)
    requires PackName(i, base) == PackName(j, base)
    ensures i == j
  {
    var di, dj := Decimal(i), Decimal(j);
    assert |di| == |dj|;
    assert PackName(i, base)[10..10 + |di|] == di && PackName(j, base)[10..10 + |dj|] == dj;
    DecimalInjective(i, j);
  }

  /** A hard link's name loses its prefix and its number. */
  function StripHardlink(base: string): (r: string)
    ensures '/' !in base ==> '/' !in r
  {
    if "mmap_hardlink_" <= base then AfterUnderscore(base[14..]) else base
  }

  function AfterUnderscore(s: string): (r: string)
    ensures '/' !in s ==> '/' !in r
  {
    if s == [] then [] else if s[0] == '_' then s[1..] else AfterUnderscore(s[1..])
  }

  /** `r` is the name without the prefix and the number of a hard link. */
  ghost predicate WithoutLink(base: string, r: string) {
    if "mmap_hardlink_" <= base then
      var rest := base[14..];
      if '_' in rest then exists number: string :: '_' !in number && rest == number + "_" + r else r == ""
    else r == base
  }

  lemma StripMeans(base: string)
    ensures WithoutLink(base, StripHardlink(base))
  {
    if "mmap_hardlink_" <= base { var number := AfterMeans(base[14..]); }
  }

  lemma {:induction false} AfterMeans(s: string) returns (number: string)
    ensures '_' !in number
    ensures if '_' in s then s == number + "_" + AfterUnderscore(s) else AfterUnderscore(s) == ""
  {
    if s == [] || s[0] == '_' {
      number := [];
    } else {
      var tail := AfterMeans(s[1..]);
      number := [s[0]] + tail;
      assert s == [s[0]] + s[1..];
    }
  }

  // ---------------------------------------------------------------- safety

  /** Every entry of `d` finds the contents that it had on `d0`. */
  ghost predicate Safe(dir: string, d0: Disk, d: Disk) {
    && |d.mmaps| == |d0.mmaps|
    && (forall e :: 0 <= e < |d.mmaps| ==> SafeEntry(dir, d0, d0.mmaps[e], d, d.mmaps[e]))
  }

  ghost predicate SafeEntry(dir: string, d0: Disk, e0: Entry, d: Disk, e: Entry) {
    && e.rest == e0.rest && (e.FileEntry? <==> e0.FileEntry?)
    && (e.FileEntry? ==>
        && Resolve(dir, e.name) in d.fs && Resolve(dir, e0.name) in d0.fs
        && d.fs[Resolve(dir, e.name)] == d0.fs[Resolve(dir, e0.name)])
  }

  /** Nothing that was there is gone or different. */
  ghost predicate Extends(fs: Files, fs': Files) {
    forall p :: p in fs ==> p in fs' && fs'[p] == fs[p]
  }

  lemma ExtendsSafe(dir: string, d0: Disk, d: Disk, d': Disk)
    requires Safe(dir, d0, d) && d'.mmaps == d.mmaps && Extends(d.fs, d'.fs)
    ensures Safe(dir, d0, d')
  {
    forall e | 0 <= e < |d'.mmaps| ensures SafeEntry(dir, d0, d0.mmaps[e], d', d'.mmaps[e]) {
      assert SafeEntry(dir, d0, d0.mmaps[e], d, d.mmaps[e]);
    }
  }

  // ---------------------------------------------------------------- which file stands for a hash

  datatype FileInfo = FileInfo(name: string, hash: nat, hardlink: bool)

  /** A file that packing leaves where it is. */
  predicate Kept(dir: string, i: FileInfo) { !i.hardlink && InTraceDir(i.name, dir) }

  /** Among the first `n` files, the one that stands for its hash: the first that can stay, or else the last. */
  ghost predicate Chosen(dir: string, infos: seq<FileInfo>, n: nat, k: nat)
    requires n <= |infos|
  {
    && k < n
    && if Kept(dir, infos[k])
       then forall j :: 0 <= j < k && infos[j].hash == infos[k].hash ==> !Kept(dir, infos[j])
       else forall j :: 0 <= j < n && infos[j].hash == infos[k].hash ==> j <= k && !Kept(dir, infos[j])
  }

  /**
   The file stands for its hash: the first that is no hard link and whose name begins with the
   directory's, or the last of all if there is none.
   */
  ghost predicate Representative(dir: string, infos: seq<FileInfo>, k: nat)
    requires k < |infos|
  {
    if exists j :: 0 <= j < |infos| && infos[j].hash == infos[k].hash && !infos[j].hardlink && dir <= infos[j].name
    then
      && !infos[k].hardlink && dir <= infos[k].name
      && forall j :: 0 <= j < k && infos[j].hash == infos[k].hash ==> infos[j].hardlink || !(dir <= infos[j].name)
    else forall j :: 0 <= j < |infos| && infos[j].hash == infos[k].hash ==> j <= k
  }

  lemma ChosenRepresents(dir: string, infos: seq<FileInfo>, k: nat)
    requires Chosen(dir, infos, |infos|, k)
    ensures Representative(dir, infos, k)
  {
    if j :| 0 <= j < |infos| && infos[j].hash == infos[k].hash && !infos[j].hardlink && dir <= infos[j].name {
      assert Kept(dir, infos[j]);
    }
  }

  /** The list of files is right: every file entry is listed, once, under its hash. */
  ghost predicate Gathered(dir: string, d: Disk, hash: Bytes -> nat, infos: seq<FileInfo>) {
    && (forall j, k :: 0 <= j < k < |infos| ==> infos[j].name != infos[k].name)
    && (forall k :: 0 <= k < |infos| ==> Listed(d, hash, infos[k]))
    && (forall e :: 0 <= e < |d.mmaps| && d.mmaps[e].FileEntry? ==> IsListed(infos, Resolve(dir, d.mmaps[e].name)))
    && (forall k :: 0 <= k < |infos| ==> IsUsed(dir, d, infos[k].name))
  }

  ghost predicate IsListed(infos: seq<FileInfo>, name: string) {
    exists k :: 0 <= k < |infos| && infos[k].name == name
  }

  ghost predicate IsUsed(dir: string, d: Disk, name: string) {
    exists e :: 0 <= e < |d.mmaps| && Uses(dir, d.mmaps[e], name)
  }

  predicate Uses(dir: string, e: Entry, name: string) { e.FileEntry? && Resolve(dir, e.name) == name }

  predicate Listed(d: Disk, hash: Bytes -> nat, i: FileInfo) {
    i.name in d.fs && i.hash == hash(d.fs[i.name]) && i.hardlink == ("mmap_hardlink_" <= Base(i.name))
  }

  /** No two of the files have the same hash and different contents. */
  ghost predicate CollisionFree(d: Disk, hash: Bytes -> nat) {
    forall p, q :: p in d.fs && q in d.fs && hash(d.fs[p]) == hash(d.fs[q]) ==> d.fs[p] == d.fs[q]
  }

  /** A kept file's last name component also finds its contents in the trace directory itself. */
  ghost predicate KeptIsChild(dir: string, fs: Files, c: FileInfo)
    requires c.name in fs
  {
    Kept(dir, c) ==> Child(dir, Base(c.name)) in fs && fs[Child(dir, Base(c.name))] == fs[c.name]
  }

  /** The exact condition for packing to keep the trace's meaning. */
  ghost predicate Packable(dir: string, d: Disk, infos: seq<FileInfo>)
    requires forall k :: 0 <= k < |infos| ==> infos[k].name in d.fs
  {
    forall k :: 0 <= k < |infos| && Chosen(dir, infos, |infos|, k) ==> KeptIsChild(dir, d.fs, infos[k])
  }

  /**
   Packable, said of the files: whatever stands for its hash, is no hard link and has a name that begins
   with the directory's is also found, with the same contents, under its last name component in the
   directory.
   */
  lemma PackableMeans(dir: string, d: Disk, infos: seq<FileInfo>)
    requires forall k :: 0 <= k < |infos| ==> infos[k].name in d.fs
    ensures Packable(dir, d, infos) <==>
      forall k :: 0 <= k < |infos| && Representative(dir, infos, k) && !infos[k].hardlink && dir <= infos[k].name ==>
        var child := dir + "/" + Base(infos[k].name);
        child in d.fs && d.fs[child] == d.fs[infos[k].name]
  {
    hide Base;
    forall k | 0 <= k < |infos|
      ensures Chosen(dir, infos, |infos|, k) ==> Representative(dir, infos, k)
      ensures Representative(dir, infos, k) && Kept(dir, infos[k]) ==> Chosen(dir, infos, |infos|, k)
    {
      if Chosen(dir, infos, |infos|, k) { ChosenRepresents(dir, infos, k); }
    }
    hide Chosen, Representative;
  }
}
