/** Runs that interleave operations on several open files of one volume. */
module ManyFiles {
  import opened Results
  import opened Arith
  import opened Bytes
  import opened Fat
  import opened Chains
  import opened FileData
  import opened DirTable
  import opened DirImage
  import opened FileState
  import Durable
  import opened FileIO
  import opened FileRun
  import opened Volume
  import opened Window

  /** A file as a value: its state and its directory sector. */
  datatype Member = Member(s: State, sect: nat)

  /** The invariant of an open file, and no truncation has left its buffer over a freed cluster. */
  ghost predicate Sane(g: Geometry, fat: FatTable, img: seq<Sector>, winsect: nat, m: Member) {
    Base(g, fat, img, m.s, winsect, m.sect) && Shape(g, fat, m.s) && Cursor(g, fat, m.s) && m.s.loose == 0
  }

  /** The files share no cluster, and the first does not own the directory sector of the second. */
  ghost predicate Apart(g: Geometry, a: Member, b: Member)
    requires g.Valid()
  {
    Disjoint(a.s.chain, b.s.chain) && OffChain(g, a.s.chain, b.sect)
  }

  /** Different files: their chains and directory sectors are apart, and the window is on none of their sectors. */
  ghost predicate Group(g: Geometry, fat: FatTable, img: seq<Sector>, winsect: nat, ms: seq<Member>) {
    && g.Valid()
    && (forall i :: 0 <= i < |ms| ==> Sane(g, fat, img, winsect, ms[i]) && OffChain(g, ms[i].s.chain, winsect))
    && (forall i, j :: 0 <= i < |ms| && 0 <= j < |ms| && i != j ==> Apart(g, ms[i], ms[j]))
  }

  /** Different open files on one volume, with buffers of their own. */
  ghost predicate Distinct(fs: FatFs, files: seq<File>) {
    && (forall i :: 0 <= i < |files| ==> files[i].fs == fs)
    && (forall i, j :: 0 <= i < |files| && 0 <= j < |files| && i != j ==>
          files[i] != files[j] && files[i].buf != files[j].buf)
  }

  ghost function Members(files: seq<File>): (ms: seq<Member>)
    reads files, set i | 0 <= i < |files| :: files[i].buf
    reads set i | 0 <= i < |files| :: files[i].fs
    ensures |ms| == |files| && forall i :: 0 <= i < |files| ==> ms[i] == Member(files[i].St(), files[i].dirSect)
    decreases |files|
  {
    if files == [] then [] else [Member(files[0].St(), files[0].dirSect)] + Members(files[1..])
  }

  ghost predicate Together(fs: FatFs, files: seq<File>)
    reads fs, fs.win, files, set i | 0 <= i < |files| :: files[i].buf
  {
    && Distinct(fs, files) && fs.Valid() && (forall i :: 0 <= i < |files| ==> Ready(files[i]))
    && Group(fs.g, fs.Table(), fs.img, fs.winsect, Members(files))
  }

  ghost function Seen(f: File): View
    requires Ready(f)
    reads f, f.fs, f.fs.win, f.buf
  {
    ViewOf(f)
  }

  /** What the users of the first `n` files see. */
  ghost function ViewsTo(fs: FatFs, files: seq<File>, n: nat): (vs: seq<View>)
    requires n <= |files| && (forall i :: 0 <= i < |files| ==> files[i].fs == fs && Ready(files[i]))
    reads fs, fs.win, files, set i | 0 <= i < |files| :: files[i].buf
    ensures |vs| == n && forall i :: 0 <= i < n ==> vs[i] == Seen(files[i])
  {
    if n == 0 then [] else ViewsTo(fs, files, n - 1) + [Seen(files[n - 1])]
  }

  ghost function Views(fs: FatFs, files: seq<File>): (vs: seq<View>)
    requires Together(fs, files)
    reads fs, fs.win, files, set i | 0 <= i < |files| :: files[i].buf
    ensures |vs| == |files| && forall i :: 0 <= i < |files| ==> vs[i] == Seen(files[i])
  {
    ViewsTo(fs, files, |files|)
  }

  /** Content, cursor and the written flag are the same; the number of free clusters may differ. */
  predicate Aside(v: View, v': View) {
    v'.content == v.content && v'.pos == v.pos && v'.written == v.written
  }

  /** One file makes a step of the byte array with a cursor, and the others stay as they are. */
  ghost predicate OneSteps(
    b: nat, read: bool, write: bool, k: nat, vs: seq<View>, op: Op, o: Outcome, vs': seq<View>) {
    && k < |vs| == |vs'| && Step(b, read, write, vs[k], op, o, vs'[k])
    && forall j :: 0 <= j < |vs| && j != k ==> Aside(vs[j], vs'[j])
  }

  // ---------------------------------------------------------------- the other files

  /** A sector of a file that shares no cluster with the acting one is as before. */
  lemma OtherSector(g: Geometry, dirSect: nat, dirOff: nat, a: Rest, b: Rest, chain: seq<nat>, q: nat)
    requires Confined(g, dirSect, dirOff, a, b) && (chain == [] || IsChain(a.fat, chain)) && InRange(g, chain)
    requires Disjoint(chain, a.chain) && OffChain(g, chain, dirSect) && q < Times(|chain|, g.csize)
    ensures g.dataBase <= FileSec(g, chain, q) < g.nSect && ClusterOf(g, FileSec(g, chain, q)) in chain
    ensures b.img[FileSec(g, chain, q)] == a.img[FileSec(g, chain, q)]
  {
    hide FileSec, IsChain, Times;
    FileSecInData(g, chain, q);
    DataBehindFsInfo(g);
    if chain != [] {
      ChainAllocated(a.fat, chain);
      ChainInTable(a.fat, chain);
      DataIsForeign(g, a.fat, a.chain, FileSec(g, chain, q));
    }
  }

  lemma ChainInTable(fat: FatTable, chain: seq<nat>)
    requires IsChain(fat, chain)
    ensures forall i :: 0 <= i < |chain| ==> 2 <= chain[i] < |fat|
  {}

  /** What a step on one file means to another: its chain and directory sector still are its own. */
  lemma OtherStays(g: Geometry, dirSect: nat, dirOff: nat, a: Rest, b: Rest, head: nat, chain: seq<nat>, sect: nat)
    requires Confined(g, dirSect, dirOff, a, b) && Heads(a.fat, head, chain) && Elsewhere(g, a.fat, chain, sect)
    requires Disjoint(chain, a.chain) && OffChain(g, a.chain, sect)
    ensures |b.fat| == |a.fat| && Heads(b.fat, head, chain) && Elsewhere(g, b.fat, chain, sect)
    ensures Disjoint(chain, b.chain) && OffChain(g, b.chain, sect)
  {
    hide ClusterOf;
    if head != 0 {
      OtherChainKept(a.fat, a.chain, b.fat, chain);
      ChainAllocated(a.fat, chain);
    }
    if g.dataBase <= sect {
      ClusterAtLeast(g, sect);
    }
  }

  lemma ClusterAtLeast(g: Geometry, sect: nat)
    requires g.csize > 0 && g.dataBase <= sect
    ensures ClusterOf(g, sect) >= 2
  {}

  /** The invariant of a file, but for the cursor, survives a step on another file. */
  lemma OtherKeepsBase(
    g: Geometry, dirSect: nat, dirOff: nat, a: Rest, b: Rest, s: State, winsect: nat, sect: nat, winsect': nat)
    requires Confined(g, dirSect, dirOff, a, b) && Base(g, a.fat, a.img, s, winsect, sect) && Sound(b.fat)
    requires Disjoint(s.chain, a.chain) && OffChain(g, a.chain, sect) && OffChain(g, s.chain, dirSect)
    requires s.loose == 0 && OffChain(g, s.chain, winsect')
    ensures Base(g, b.fat, b.img, s.(home := winsect'), winsect', sect)
  {
    hide FileSec, IsChain, Times, Quo, Foreign, ClusterOf;
    OtherStays(g, dirSect, dirOff, a, b, s.sclust, s.chain, sect);
    ChainOfHeads(a.fat, s.sclust, s.chain);
    forall q: nat | q < |s.cache|
      ensures FileSec(g, s.chain, q) < g.nSect && b.img[FileSec(g, s.chain, q)] == a.img[FileSec(g, s.chain, q)]
    {
      OtherSector(g, dirSect, dirOff, a, b, s.chain, q);
    }
    if !s.dirty && s.dsect != 0 {
      BufferInFile(g, a.fat, a.img, s, winsect, sect);
      var q := SectorAt(g, s.chain, s.dsect);
      OtherSector(g, dirSect, dirOff, a, b, s.chain, q);
    }
  }

  lemma ChainOfHeads(fat: FatTable, head: nat, chain: seq<nat>)
    requires Heads(fat, head, chain)
    ensures chain == [] || IsChain(fat, chain)
  {}

  lemma BufferInFile(g: Geometry, fat: FatTable, img: seq<Sector>, s: State, winsect: nat, sect: nat)
    requires Base(g, fat, img, s, winsect, sect) && s.loose == 0 && !s.dirty && s.dsect != 0
    ensures g.dataBase <= s.dsect < g.nSect && ClusterOf(g, s.dsect) in s.chain
  {}

  /** A sector of a file's cluster is a sector of the file. */
  lemma SectorAt(g: Geometry, chain: seq<nat>, s: nat) returns (q: nat)
    requires g.Valid() && InRange(g, chain) && g.dataBase <= s < g.nSect && ClusterOf(g, s) in chain
    ensures q < Times(|chain|, g.csize) && FileSec(g, chain, q) == s
  {
    var i :| 0 <= i < |chain| && chain[i] == ClusterOf(g, s);
    var j := Rem(s - g.dataBase, g.csize);
    QuoRem(s - g.dataBase, g.csize);
    q := Times(i, g.csize) + j;
    QuoUnique(i, j, g.csize);
    QuoBelow(q, |chain|, g.csize);
  }

  // ---------------------------------------------------------------- one step

  /** Where the window is now is where this file finds it. */
  lemma Rehomed(g: Geometry, fat: FatTable, img: seq<Sector>, s: State, winsect: nat, sect: nat)
    requires Base(g, fat, img, s, winsect, sect) && Shape(g, fat, s) && Cursor(g, fat, s)
    ensures
      var s' := s.(home := winsect);
      Base(g, fat, img, s', winsect, sect) && Shape(g, fat, s') && Cursor(g, fat, s')
  {
    hide ClusterOf, Quo, Rem, Times, FileSec, Sound, Heads;
  }

  /** After a step the window is off the chain of the acting file and off every chain it was off before. */
  lemma WindowStaysOff(g: Geometry, fat: FatTable, img: seq<Sector>, s: State, winsect: nat, sect: nat, chain: seq<nat>)
    requires Base(g, fat, img, s, winsect, sect) && OffChain(g, chain, sect) && OffChain(g, chain, s.home)
    ensures OffChain(g, chain, winsect)
  {
    hide ClusterOf;
  }

  lemma WindowOffOwn(g: Geometry, fat: FatTable, img: seq<Sector>, s: State, winsect: nat, sect: nat)
    requires Base(g, fat, img, s, winsect, sect)
    ensures OffChain(g, s.chain, winsect) && Elsewhere(g, fat, s.chain, sect)
  {
    hide ClusterOf;
  }

  lemma SettledBase(f: File)
    requires f.Valid()
    ensures Base(f.fs.g, f.fs.Table(), f.fs.img, f.St(), f.fs.winsect, f.dirSect) && Sound(f.fs.Table())
    ensures Shape(f.fs.g, f.fs.Table(), f.St()) && Cursor(f.fs.g, f.fs.Table(), f.St())
  {
    hide WindowOk, FatMap, Cached, Buffered, FileState.Placed;
  }

  /** What the acting file leaves to the others. */
  method Act(f: File, op: Op) returns (o: Outcome)
    requires Ready(f) && f.loose == 0 && Representable(op) && !op.Truncate?
    modifies f, f.buf, f.fs, f.fs.win
    ensures Ready(f) && f.loose == 0 && f.fs.home == old(f.fs.winsect)
    ensures Step(ClusterBytes(f.fs.g), f.canRead, f.canWrite, old(ViewOf(f)), op, o, ViewOf(f))
    ensures Confined(f.fs.g, f.dirSect, f.dirOff, old(RestOf(f)), RestOf(f))
    ensures old(f.fs.CountOk()) ==> f.fs.CountOk()
  {
    hide WindowOk, FatMap, Base, Cursor, Shape, Sized, Content, Confined, Step, Counted, Durable.DiskHolds;
    SettledBase(f);
    ghost var s := f.St();
    Rehomed(f.fs.g, f.fs.Table(), f.fs.img, s, f.fs.winsect, f.dirSect);
    f.fs.home := f.fs.winsect;
    assert f.St() == s.(home := f.fs.winsect);
    o := Perform(f, op);
  }

  /** The state of another file before and after the step. */
  lemma OtherFollows(
    g: Geometry, dirSect: nat, dirOff: nat, a: Rest, b: Rest, s: State, winsect: nat, sect: nat, winsect': nat)
    requires Confined(g, dirSect, dirOff, a, b) && Base(g, a.fat, a.img, s, winsect, sect) && Sound(b.fat)
    requires Disjoint(s.chain, a.chain) && OffChain(g, a.chain, sect) && OffChain(g, s.chain, dirSect)
    requires s.loose == 0 && OffChain(g, s.chain, winsect') && Shape(g, a.fat, s) && Cursor(g, a.fat, s)
    ensures Base(g, b.fat, b.img, s.(home := winsect'), winsect', sect)
    ensures Shape(g, b.fat, s.(home := winsect')) && Cursor(g, b.fat, s.(home := winsect'))
    ensures Disjoint(s.chain, b.chain) && OffChain(g, b.chain, sect)
  {
    hide Quo, Rem, Times, FileSec, IsChain, Cached, Buffered;
    OtherKeepsBase(g, dirSect, dirOff, a, b, s, winsect, sect, winsect');
    OtherStays(g, dirSect, dirOff, a, b, s.sclust, s.chain, sect);
  }

  /** The members after a step of member `k`. */
  ghost predicate Follows(ms: seq<Member>, k: nat, winsect: nat, ms': seq<Member>) {
    && k < |ms| == |ms'| && ms'[k].sect == ms[k].sect && ms'[k].s.home == winsect
    && forall j :: 0 <= j < |ms| && j != k ==> ms'[j] == ms[j].(s := ms[j].s.(home := winsect))
  }

  /** Member `k` acts on a volume with the window at `winsect`, and leaves it at `winsect'`. */
  lemma GroupFollows(
    g: Geometry, dirOff: nat, a: Rest, b: Rest, winsect: nat, ms: seq<Member>, k: nat, winsect': nat, s': State,
    ms': seq<Member>)
    requires Group(g, a.fat, a.img, winsect, ms) && Follows(ms, k, winsect', ms')
    requires Confined(g, ms[k].sect, dirOff, a, b) && a.chain == ms[k].s.chain && b.chain == ms'[k].s.chain
    requires Sane(g, b.fat, b.img, winsect', Member(s', ms[k].sect)) && s'.home == winsect
    requires ms'[k].s == s'.(home := winsect')
    ensures Group(g, b.fat, b.img, winsect', ms')
  {
    hide Base, Shape, Cursor, OffChain, Disjoint, Confined;
    WindowOffOwn(g, b.fat, b.img, s', winsect', ms[k].sect);
    Rehomed(g, b.fat, b.img, s', winsect', ms[k].sect);
    ShapeSound(g, b.fat, s');
    forall j | 0 <= j < |ms| && j != k
      ensures Sane(g, b.fat, b.img, winsect', ms'[j]) && OffChain(g, ms'[j].s.chain, winsect')
      ensures Apart(g, ms'[j], ms'[k]) && Apart(g, ms'[k], ms'[j])
    {
      assert Apart(g, ms[j], ms[k]) && Apart(g, ms[k], ms[j]) && Sane(g, a.fat, a.img, winsect, ms[j]);
      WindowStaysOff(g, b.fat, b.img, s', winsect', ms[k].sect, ms[j].s.chain);
      OtherFollows(g, ms[k].sect, dirOff, a, b, ms[j].s, winsect, ms[j].sect, winsect');
      Symmetric(ms[j].s.chain, b.chain);
    }
    forall i, j | 0 <= i < |ms'| && 0 <= j < |ms'| && i != j
      ensures Apart(g, ms'[i], ms'[j])
    {
      assert i != k && j != k ==> Apart(g, ms[i], ms[j]);
    }
  }

  lemma Symmetric(a: seq<nat>, b: seq<nat>)
    requires Disjoint(a, b)
    ensures Disjoint(b, a)
  {}

  lemma ShapeSound(g: Geometry, fat: FatTable, s: State)
    requires Shape(g, fat, s)
    ensures Sound(fat)
  {}

  /** What a ready file is on its own. */
  ghost predicate Waiting(f: File)
    reads f, f.buf
  {
    && f.buf != f.fs.win && f.buf.Length == f.fs.g.ss && f.dirOff + 32 <= f.fs.g.ss
    && Sized(f.fs.g, f.chain, f.fsize) && f.fptr <= f.fsize < DWORD_MOD && (f.dirty ==> f.written)
    && f.err == Ok && f.cltbl == null
  }

  lemma ReadyIsWaiting(f: File)
    requires Ready(f)
    ensures Waiting(f)
    ensures Sane(f.fs.g, f.fs.Table(), f.fs.img, f.fs.winsect, Member(f.St(), f.dirSect)) <==> f.loose == 0
  {
    hide Base, Shape, Cursor, Sized, WindowOk, FatMap;
    SettledBase(f);
  }

  lemma WaitingIsReady(f: File)
    requires Waiting(f) && f.fs.Valid()
    requires Sane(f.fs.g, f.fs.Table(), f.fs.img, f.fs.winsect, Member(f.St(), f.dirSect))
    ensures Ready(f)
  {
    hide Base, Shape, Cursor, Sized, WindowOk, FatMap;
  }

  /** The group as it is on its own: every file waits, with a buffer of its own. */
  ghost predicate AllWaiting(files: seq<File>)
    reads files, set i | 0 <= i < |files| :: files[i].buf
  {
    forall i :: 0 <= i < |files| ==> Waiting(files[i])
  }

  lemma TogetherWaits(fs: FatFs, files: seq<File>)
    requires Together(fs, files)
    ensures AllWaiting(files) && Distinct(fs, files) && fs.Valid()
    ensures forall i :: 0 <= i < |files| ==> Ready(files[i])
    ensures Group(fs.g, fs.Table(), fs.img, fs.winsect, Members(files))
  {
    hide WindowOk, FatMap, Base, Group, Waiting, Ready;
    forall j | 0 <= j < |files|
      ensures Waiting(files[j])
    {
      ReadyIsWaiting(files[j]);
    }
  }

  /** The step itself: the other files are not touched. */
  method ActAmong(fs: FatFs, files: seq<File>, k: nat, op: Op) returns (o: Outcome)
    requires Distinct(fs, files) && k < |files| && AllWaiting(files) && Ready(files[k]) && files[k].loose == 0
    requires Representable(op) && !op.Truncate?
    modifies fs, fs.win, files, set i | 0 <= i < |files| :: files[i].buf
    ensures AllWaiting(files) && Ready(files[k]) && files[k].loose == 0 && fs.home == old(fs.winsect)
    ensures Step(ClusterBytes(fs.g), files[k].canRead, files[k].canWrite, old(Seen(files[k])), op, o, Seen(files[k]))
    ensures Confined(fs.g, files[k].dirSect, files[k].dirOff, old(RestOf(files[k])), RestOf(files[k]))
    ensures forall j :: 0 <= j < |files| && j != k ==>
      files[j].St() == old(files[j].St()).(home := fs.home) && files[j].written == old(files[j].written)
    ensures old(fs.CountOk()) ==> fs.CountOk()
  {
    hide WindowOk, FatMap, Base, Cursor, Sized, Content, Confined, Step, Counted, Durable.DiskHolds;
    assert forall j :: 0 <= j < |files| ==> files[j].buf != fs.win by {
      assert forall j :: 0 <= j < |files| ==> Waiting(files[j]);
    }
    o := Act(files[k], op);
    ReadyIsWaiting(files[k]);
  }

  lemma WaitingNow(files: seq<File>, k: nat)
    requires AllWaiting(files) && k < |files|
    ensures Waiting(files[k])
  {
    hide Waiting;
  }

  /** The group after the step, once the volume remembers where the window is. */
  ghost method Regroup(fs: FatFs, files: seq<File>, k: nat, rest: Rest, w: nat, ms: seq<Member>)
    requires Distinct(fs, files) && k < |files| == |ms| && AllWaiting(files) && Ready(files[k]) && files[k].loose == 0
    requires Group(fs.g, rest.fat, rest.img, w, ms) && fs.home == w && ms[k].sect == files[k].dirSect
    requires Confined(fs.g, files[k].dirSect, files[k].dirOff, rest, RestOf(files[k])) && rest.chain == ms[k].s.chain
    requires forall j :: 0 <= j < |files| && j != k ==>
      Member(files[j].St(), files[j].dirSect) == ms[j].(s := ms[j].s.(home := w))
    modifies fs`home
    ensures fs.home == fs.winsect && AllWaiting(files) && fs.Valid()
    ensures Group(fs.g, fs.Table(), fs.img, fs.winsect, Members(files))
    ensures Ready(files[k]) && Seen(files[k]) == old(Seen(files[k]))
  {
    hide WindowOk, FatMap, Base, Cursor, Shape, Sized, Confined, OffChain, Disjoint, Group, Sane, Waiting;
    var f := files[k];
    ReadyIsWaiting(f);
    ViewIs(f);
    var s', rest' := f.St(), RestOf(f);
    fs.home := fs.winsect;
    assert Follows(ms, k, fs.winsect, Members(files));
    GroupFollows(fs.g, f.dirOff, rest, rest', w, ms, k, fs.winsect, s', Members(files));
    MemberIsSane(fs.g, fs.Table(), fs.img, fs.winsect, Members(files), k);
    WaitingNow(files, k);
    WaitingIsReady(f);
  }

  lemma LooseIsNone(g: Geometry, fat: FatTable, img: seq<Sector>, winsect: nat, ms: seq<Member>, k: nat)
    requires Group(g, fat, img, winsect, ms) && k < |ms|
    ensures ms[k].s.loose == 0
  {}

  lemma MemberIsSane(g: Geometry, fat: FatTable, img: seq<Sector>, winsect: nat, ms: seq<Member>, k: nat)
    requires Group(g, fat, img, winsect, ms) && k < |ms|
    ensures Sane(g, fat, img, winsect, ms[k])
  {
    hide Sane;
  }

  lemma AllReady(fs: FatFs, files: seq<File>)
    requires Distinct(fs, files) && AllWaiting(files) && fs.Valid()
    requires Group(fs.g, fs.Table(), fs.img, fs.winsect, Members(files))
    ensures Together(fs, files)
  {
    hide WindowOk, FatMap, Base, Group, Sane, Waiting, Ready;
    forall j | 0 <= j < |files|
      ensures Ready(files[j])
    {
      MemberIsSane(fs.g, fs.Table(), fs.img, fs.winsect, Members(files), j);
      WaitingIsReady(files[j]);
    }
  }

  /** What the user of a file sees of its state. */
  lemma ViewIs(f: File)
    requires Ready(f)
    ensures Sectors(f.fs.g.ss, f.cache) && f.fsize <= Times(|f.cache|, f.fs.g.ss)
    ensures Seen(f).content == Content(f.fs.g.ss, f.St().cache, f.St().fsize)
    ensures Seen(f).pos == f.St().fptr && Seen(f).written == f.written
  {
    hide WindowOk, FatMap, Cached, Buffered, FileState.Placed, Cursor, Content;
    CacheBytes(f.fs.g, f.fs.Table(), f.St());
  }

  /** One operation on file `k`: the group stays together. */
  method StepGroup(fs: FatFs, files: seq<File>, k: nat, op: Op) returns (o: Outcome)
    requires Together(fs, files) && k < |files| && Representable(op) && !op.Truncate?
    modifies fs, fs.win, files, set i | 0 <= i < |files| :: files[i].buf
    ensures Together(fs, files)
    ensures Step(ClusterBytes(fs.g), files[k].canRead, files[k].canWrite, old(Seen(files[k])), op, o, Seen(files[k]))
    ensures forall j :: 0 <= j < |files| && j != k ==>
      files[j].St() == old(files[j].St()).(home := fs.home) && files[j].written == old(files[j].written)
    ensures old(fs.CountOk()) ==> fs.CountOk()
  {
    hide WindowOk, FatMap, Base, Cursor, Shape, Sized, Content, Confined, Step, Counted, Durable.DiskHolds, Group;
    hide Waiting, AllWaiting, Together, Seen, Members;
    TogetherWaits(fs, files);
    ghost var rest, ms, w := RestOf(files[k]), Members(files), fs.winsect;
    LooseIsNone(fs.g, fs.Table(), fs.img, w, ms, k);
    assert files[k].fs == fs && rest.chain == ms[k].s.chain && Group(fs.g, rest.fat, rest.img, w, ms);
    o := ActAmong(fs, files, k, op);
    Regroup(fs, files, k, rest, w, ms);
    AllReady(fs, files);
  }

  /** Such a step as the users see it. */
  method StepFile(fs: FatFs, files: seq<File>, k: nat, op: Op) returns (o: Outcome)
    requires Together(fs, files) && k < |files| && Representable(op) && !op.Truncate?
    modifies fs, fs.win, files, set i | 0 <= i < |files| :: files[i].buf
    ensures Together(fs, files) && fs.Valid()
    ensures OneSteps(
      ClusterBytes(fs.g), files[k].canRead, files[k].canWrite, k, old(Views(fs, files)), op, o, Views(fs, files))
    ensures old(fs.CountOk()) ==> fs.CountOk()
  {
    hide WindowOk, FatMap, Base, Cursor, Shape, Sized, Content, Confined, Step, Counted, Group, Seen, Ready;
    ghost var vs, ms := Views(fs, files), Members(files);
    forall j | 0 <= j < |files|
      ensures ViewedAs(fs.g, ms[j].s, files[j].written, vs[j])
    {
      ViewIs(files[j]);
    }
    o := StepGroup(fs, files, k, op);
    forall j | 0 <= j < |files| && j != k
      ensures Aside(vs[j], Views(fs, files)[j])
    {
      ViewIs(files[j]);
    }
  }

  ghost predicate ViewedAs(g: Geometry, s: State, written: bool, v: View) {
    && Sectors(g.ss, s.cache) && s.fsize <= Times(|s.cache|, g.ss)
    && v.content == Content(g.ss, s.cache, s.fsize) && v.pos == s.fptr && v.written == written
  }

  /** Runs any sequence of operations, each on any of the files. Every step is a step of the byte array with a cursor
      for its file, and the others see nothing of it. */
  method Run(fs: FatFs, files: seq<File>, ops: seq<(nat, Op)>) returns (outs: seq<Outcome>, ghost views: seq<seq<View>>)
    requires Together(fs, files)
    requires forall i :: 0 <= i < |ops| ==> ops[i].0 < |files| && Representable(ops[i].1) && !ops[i].1.Truncate?
    modifies fs, fs.win, files, set i | 0 <= i < |files| :: files[i].buf
    ensures Together(fs, files)
    ensures |outs| == |ops| && |views| == |ops| + 1
    ensures views[0] == old(Views(fs, files)) && views[|ops|] == Views(fs, files)
    ensures forall i :: 0 <= i < |ops| ==>
      var f := files[ops[i].0];
      OneSteps(ClusterBytes(fs.g), f.canRead, f.canWrite, ops[i].0, views[i], ops[i].1, outs[i], views[i + 1])
    ensures old(fs.CountOk()) ==> fs.CountOk()
  {
    hide WindowOk, FatMap, Base, Cursor, Shape, Sized, Content, Confined, Step, Counted, Group, Seen, Ready;
    hide OneSteps, Together;
    TogetherWaits(fs, files);
    outs, views := [], [Views(fs, files)];
    for i := 0 to |ops|
      invariant Together(fs, files) && fs.Valid()
      invariant |outs| == i && |views| == i + 1 && views[0] == old(Views(fs, files)) && views[i] == Views(fs, files)
      invariant forall j :: 0 <= j < i ==>
        var f := files[ops[j].0];
        OneSteps(ClusterBytes(fs.g), f.canRead, f.canWrite, ops[j].0, views[j], ops[j].1, outs[j], views[j + 1])
      invariant old(fs.CountOk()) ==> fs.CountOk()
    {
      var o := StepFile(fs, files, ops[i].0, ops[i].1);
      outs := outs + [o];
      views := views + [Views(fs, files)];
    }
  }

  // ---------------------------------------------------------------- directory steps

  /** The sectors of a file are none of those of a directory that owns other clusters. */
  lemma FileApart(g: Geometry, fat: FatTable, dir: seq<nat>, chain: seq<nat>, q: nat)
    requires PerSector(g) > 0 && Exists(g, fat, dir) && g.Valid() && (chain == [] || IsChain(fat, chain))
    requires InRange(g, chain) && Disjoint(chain, dir) && q < Times(|chain|, g.csize) && |fat| == g.nFatEnt
    ensures g.dataBase <= FileSec(g, chain, q) < g.nSect && DirImage.Apart(g, fat, dir, FileSec(g, chain, q))
  {
    hide FileSec, IsChain, Times, ClusterOf;
    FileSecInData(g, chain, q);
    if chain != [] {
      ChainAllocated(fat, chain);
      ChainInTable(fat, chain);
    }
    RootBeforeData(g, fat, dir);
  }

  lemma RootBeforeData(g: Geometry, fat: FatTable, dir: seq<nat>)
    requires PerSector(g) > 0 && Exists(g, fat, dir) && g.Valid()
    ensures dir == [] ==> g.dirBase + SectorCount(g, dir) <= g.dataBase
    ensures g.FatEnd() <= g.dataBase
  {}

  lemma InPrefix(a: seq<nat>, b: seq<nat>, c: nat)
    requires a <= b && c in a
    ensures c in b
  {
    var i :| 0 <= i < |a| && a[i] == c;
    assert b[i] == c;
  }

  /** A step on a directory, whatever it does to the file's own entry, leaves an open file as it is: its chain, its
      bytes and its buffer; only the window must not come to lie on the file, which belongs to no directory. */
  lemma DirectoryKeepsFile(
    g: Geometry, a: Rest, b: Rest, s: State, winsect: nat, sect: nat, winsect': nat)
    requires DirStep(g, a.fat, a.img, a.chain, b.fat, b.img, b.chain) && Sound(b.fat)
    requires Base(g, a.fat, a.img, s, winsect, sect) && Disjoint(s.chain, a.chain)
    requires s.loose == 0 && OffChain(g, s.chain, winsect')
    ensures Base(g, b.fat, b.img, s.(home := winsect'), winsect', sect) && Disjoint(s.chain, b.chain)
  {
    hide FileSec, IsChain, Times, Quo, ClusterOf, DirImage.Apart, Exists;
    ChainOfHeads(a.fat, s.sclust, s.chain);
    HeadEmpty(a.fat, s.sclust, s.chain);
    if s.chain != [] {
      OtherChainKept(a.fat, a.chain, b.fat, s.chain);
      ChainAllocated(a.fat, s.chain);
      ChainInTable(a.fat, s.chain);
    }
    forall q: nat | q < |s.cache|
      ensures FileSec(g, s.chain, q) < g.nSect && b.img[FileSec(g, s.chain, q)] == a.img[FileSec(g, s.chain, q)]
    {
      FileApart(g, a.fat, a.chain, s.chain, q);
    }
    if !s.dirty && s.dsect != 0 {
      BufferInFile(g, a.fat, a.img, s, winsect, sect);
      var q := SectorAt(g, s.chain, s.dsect);
      FileApart(g, a.fat, a.chain, s.chain, q);
    }
    if g.dataBase <= sect {
      ClusterAtLeast(g, sect);
      if ClusterOf(g, sect) in a.chain {
        InPrefix(a.chain, b.chain, ClusterOf(g, sect));
      }
    }
  }
}
