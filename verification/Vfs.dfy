/** The in-memory file tree built from a tar archive (src/fs/tar.c, src/fs/vfs.c). */
module Vfs {
  import opened Options

  const NAME_MAX: nat := 64

  /** File contents, one character per byte. */
  type Bytes = seq<char>

  datatype Kind = Dir | File

  /** A node as a lookup sees it: its type and, for files, its bytes. */
  datatype Info = Info(kind: Kind, data: Bytes)

  type Path = seq<string>

  // ---------------------------------------------------------------- splitting a path

  /** Length of the next component: up to a slash, the end, or 63 characters. */
  function SegLen(s: string, room: nat): (n: nat)
    ensures n <= |s| && n <= room
    ensures forall i :: 0 <= i < n ==> s[i] != '/'
    ensures n < |s| && n < room ==> s[n] == '/'
  {
    if s == "" || room == 0 || s[0] == '/' then 0 else 1 + SegLen(s[1..], room - 1)
  }

  /** The next component; empty at a slash. */
  function Head(s: string): string {
    s[..SegLen(s, NAME_MAX - 1)]
  }

  /** What is left after the component and one slash. */
  function AfterSeg(s: string): (r: string)
    ensures s != "" ==> |r| < |s|
  {
    var r := s[SegLen(s, NAME_MAX - 1)..];
    if r != "" && r[0] == '/' then r[1..] else r
  }

  /** A component, and whether nothing followed it. */
  datatype Seg = Seg(name: string, last: bool)

  /** The components both walkers see; empty ones are skipped, over-long ones are cut. */
  function Segs(s: string): seq<Seg>
    decreases |s|
  {
    if s == "" then []
    else
      var n := SegLen(s, NAME_MAX - 1);
      var rest := AfterSeg(s);
      if n == 0 then Segs(rest) else [Seg(s[..n], rest == "")] + Segs(rest)
  }

  function Names(segs: seq<Seg>): (p: Path)
    ensures |p| == |segs| && forall i :: 0 <= i < |segs| ==> p[i] == segs[i].name
  {
    seq(|segs|, i requires 0 <= i < |segs| => segs[i].name)
  }

  /** Drop leading "./" pairs, then leading slashes. */
  function StripDots(s: string): string {
    if |s| >= 2 && s[0] == '.' && s[1] == '/' then StripDots(s[2..]) else s
  }

  function StripSlashes(s: string): string {
    if s != "" && s[0] == '/' then StripSlashes(s[1..]) else s
  }

  function Strip(s: string): string {
    StripSlashes(StripDots(s))
  }

  /** Only the final component can be marked as last. */
  ghost predicate Flagged(segs: seq<Seg>) {
    forall i :: 0 <= i < |segs| - 1 ==> !segs[i].last
  }

  lemma {:induction false} OnlyFinalIsLast(s: string)
    ensures Flagged(Segs(s))
    decreases |s|
  {
    if s != "" {
      OnlyFinalIsLast(AfterSeg(s));
    }
  }

  predicate EndsInTwoSlashes(s: string) {
    |s| >= 2 && s[|s| - 1] == '/' && s[|s| - 2] == '/'
  }

  /** Unfolding of the splitter at a non-empty component. */
  lemma SegsStep(s: string)
    requires s != "" && SegLen(s, NAME_MAX - 1) > 0
    ensures Segs(s) == [Seg(s[..SegLen(s, NAME_MAX - 1)], AfterSeg(s) == "")] + Segs(AfterSeg(s))
  {}

  /** Where the text that is left starts. */
  lemma CutPoint(s: string) returns (cut: nat)
    requires s != ""
    ensures 1 <= cut <= |s| && AfterSeg(s) == s[cut..]
    ensures SegLen(s, NAME_MAX - 1) > 0 && cut < |s| && s[cut] == '/' ==> s[cut - 1] == '/'
    ensures SegLen(s, NAME_MAX - 1) > 0 && cut >= 2 && s[cut - 1] == '/' ==> s[cut - 2] != '/'
    ensures SegLen(s, NAME_MAX - 1) > 0 && cut == 1 ==> s[0] != '/'
  {
    var n := SegLen(s, NAME_MAX - 1);
    cut := if n < |s| && s[n] == '/' then n + 1 else n;
  }

  /** How the tail of a path decides whether it ends in two slashes. */
  lemma TailSlashes(s: string, cut: nat)
    requires 1 <= cut <= |s|
    ensures |s| - cut >= 2 ==> (EndsInTwoSlashes(s[cut..]) <==> EndsInTwoSlashes(s))
    ensures (cut < |s| && exists i :: 0 <= i < |s[cut..]| && s[cut..][i] != '/') ==>
              (EndsInTwoSlashes(s[cut..]) <==> EndsInTwoSlashes(s))
    ensures (cut < |s| && s[cut - 1] == '/' && forall i :: 0 <= i < |s[cut..]| ==> s[cut..][i] == '/') ==>
              EndsInTwoSlashes(s)
    ensures (cut == |s| && (s[cut - 1] == '/' ==> cut >= 2 && s[cut - 2] != '/')) ==>
              !EndsInTwoSlashes(s)
  {
    var r := s[cut..];
    if cut < |s| {
      assert s[|s| - 1] == r[|r| - 1];
      if |r| >= 2 {
        assert s[|s| - 2] == r[|r| - 2];
      }
    }
  }

  /** The final component is recognised as last exactly when the path does not end in two slashes. */
  lemma {:induction false} LastIsRecognised(s: string)
    requires Segs(s) != []
    ensures Segs(s)[|Segs(s)| - 1].last <==> !EndsInTwoSlashes(s)
    decreases |s|
  {
    var n, rest := SegLen(s, NAME_MAX - 1), AfterSeg(s);
    var cut := CutPoint(s);
    NoSegsAllSlashes(rest);
    if n == 0 {
      assert Segs(s) == Segs(rest);
    } else {
      SegsStep(s);
    }
    TailSlashes(s, cut);
    hide Segs, SegLen, AfterSeg, EndsInTwoSlashes;
    if Segs(rest) != [] {
      LastIsRecognised(rest);
    }
  }

  lemma {:induction false} NoSegsAllSlashes(s: string)
    ensures Segs(s) == [] <==> forall i :: 0 <= i < |s| ==> s[i] == '/'
    decreases |s|
  {
    if s != "" {
      var n, rest := SegLen(s, NAME_MAX - 1), AfterSeg(s);
      NoSegsAllSlashes(rest);
      if n == 0 {
        assert s[0] == '/' && rest == s[1..];
        assert forall i :: 0 < i < |s| ==> s[i] == rest[i - 1];
      } else {
        assert s[0] != '/';
      }
    }
  }

  /** Leading slashes make no difference to the components. */
  lemma {:induction false} StripKeepsSegs(s: string)
    ensures Segs(StripSlashes(s)) == Segs(s)
    decreases |s|
  {
    if s != "" && s[0] == '/' {
      assert AfterSeg(s) == s[1..];
      StripKeepsSegs(s[1..]);
    }
  }

  /** A component that the walkers take whole. */
  predicate PlainName(c: string) {
    0 < |c| < NAME_MAX && forall i :: 0 <= i < |c| ==> c[i] != '/'
  }

  function Join(p: Path): string {
    if p == [] then "" else if |p| == 1 then p[0] else p[0] + "/" + Join(p[1..])
  }

  lemma {:induction false} SegLenOfPlain(c: string, tail: string, room: nat)
    requires |c| <= room && (forall i :: 0 <= i < |c| ==> c[i] != '/')
    requires tail == "" || tail[0] == '/'
    ensures SegLen(c + tail, room) == |c|
    decreases |c|
  {
    if c == "" {
      assert c + tail == tail;
    } else {
      assert (c + tail)[1..] == c[1..] + tail;
      SegLenOfPlain(c[1..], tail, room - 1);
    }
  }

  /** The first component of a text that starts with a plain name. */
  lemma SegsOfPlain(c: string, tail: string)
    requires PlainName(c) && (tail == "" || tail[0] == '/')
    ensures Segs(c + tail) == [Seg(c, |tail| <= 1)] + Segs(if tail == "" then "" else tail[1..])
  {
    SegLenOfPlain(c, tail, NAME_MAX - 1);
    SegsStep(c + tail);
    assert (c + tail)[..|c|] == c && (c + tail)[|c|..] == tail;
  }

  /** Splitting undoes joining with slashes. */
  lemma {:induction false} SplitOfJoin(p: Path)
    requires forall i :: 0 <= i < |p| ==> PlainName(p[i])
    ensures Names(Segs(Join(p))) == p
    decreases |p|
  {
    if p != [] {
      var tail := if |p| == 1 then "" else "/" + Join(p[1..]);
      SegsOfPlain(p[0], tail);
      SplitOfJoin(p[1..]);
      assert (if tail == "" then "" else tail[1..]) == Join(p[1..]);
      hide Segs, PlainName;
      assert Join(p) == p[0] + tail;
      NamesCons(Seg(p[0], |tail| <= 1), Segs(Join(p[1..])));
    }
  }

  lemma NamesCons(g: Seg, segs: seq<Seg>)
    ensures Names([g] + segs) == [g.name] + Names(segs)
  {}

  // ---------------------------------------------------------------- the tree as a map

  /** Every node of the tree, keyed by its components below the root. */
  type Fs = map<Path, Info>

  const EMPTY_DIR := Info(Dir, [])

  const ROOT_ONLY: Fs := map[[] := EMPTY_DIR]

  function At(fs: Fs, p: Path): Option<Info> {
    if p in fs then Some(fs[p]) else None
  }

  /** One component of walk_or_make. */
  function PutStep(fs: Fs, p: Path, last: bool, kind: Kind, data: Bytes): Fs {
    if last && kind == File then fs[p := Info(File, data)]
    else if p in fs then fs
    else fs[p := EMPTY_DIR]
  }

  /** walk_or_make from the directory at `cur`. */
  function PutFrom(fs: Fs, cur: Path, segs: seq<Seg>, kind: Kind, data: Bytes): Fs
    decreases |segs|
  {
    if segs == [] then fs
    else
      var p := cur + [segs[0].name];
      PutFrom(PutStep(fs, p, segs[0].last, kind, data), p, segs[1..], kind, data)
  }

  /** What a walk to `path` leaves at `p`: the leaf file, a directory on the way, or what was there. */
  function PutAt(before: Option<Info>, cur: Path, path: Path, file: bool, data: Bytes, p: Path): Option<Info> {
    if !(cur < p <= path) then before
    else if p == path && file then Some(Info(File, data))
    else if before.Some? then before
    else Some(EMPTY_DIR)
  }

  /** A walk changes only the prefixes of its path, and only creates those that are missing. */
  lemma {:induction false} PutFromIs(fs: Fs, cur: Path, segs: seq<Seg>, kind: Kind, data: Bytes, p: Path)
    requires Flagged(segs)
    ensures At(PutFrom(fs, cur, segs, kind, data), p)
         == PutAt(At(fs, p), cur, cur + Names(segs), kind == File && segs != [] && segs[|segs| - 1].last, data, p)
    decreases |segs|
  {
    if segs == [] {
      assert cur + Names(segs) == cur;
    } else {
      var q := cur + [segs[0].name];
      var path := cur + Names(segs);
      NamesStep(cur, segs);
      assert Flagged(segs[1..]);
      PutFromIs(PutStep(fs, q, segs[0].last, kind, data), q, segs[1..], kind, data, p);
      PutAtStep(fs, cur, q, path, segs[0].last, kind, kind == File && segs[|segs| - 1].last, data, p);
    }
  }

  lemma NamesStep(cur: Path, segs: seq<Seg>)
    requires segs != []
    ensures cur + [segs[0].name] + Names(segs[1..]) == cur + Names(segs)
    ensures cur + Names(segs) == cur + [segs[0].name] <==> |segs| == 1
  {
    assert Names(segs) == [segs[0].name] + Names(segs[1..]);
  }

  /** One component, then the rest of the walk. */
  lemma PutAtStep(fs: Fs, cur: Path, q: Path, path: Path, last: bool, kind: Kind, file: bool, data: Bytes, p: Path)
    requires cur < q <= path && |q| == |cur| + 1
    requires last && kind == File ==> q == path && file
    requires file && q == path ==> last && kind == File
    ensures PutAt(At(PutStep(fs, q, last, kind, data), p), q, path, file, data, p)
         == PutAt(At(fs, p), cur, path, file, data, p)
  {
    PrefixStep(cur, q, path, p);
  }

  lemma PrefixStep(cur: Path, q: Path, path: Path, p: Path)
    requires cur < q <= path && |q| == |cur| + 1
    ensures cur < p <= path <==> p == q || q < p <= path
  {
    if cur < p <= path {
      assert p[|cur|] == path[|cur|] == q[|cur|];
      assert q == p[..|q|];
    }
  }

  // ---------------------------------------------------------------- archive entries

  /** A decoded header: name, prefix, type flag and payload. */
  datatype Entry = Entry(name: string, prefix: string, flag: char, data: Bytes)

  function Take(s: string, n: nat): string {
    if |s| <= n then s else s[..n]
  }

  function FullPath(e: Entry): string {
    if e.prefix != "" then Take(Take(e.prefix, 154) + "/" + e.name, 255) else Take(e.name, 255)
  }

  /** The path the archive means: section "ustar Interchange Format" of pax, IEEE Std 1003.1. */
  function ArchivePath(e: Entry): string {
    if e.prefix != "" then e.prefix + "/" + e.name else e.name
  }

  /** The buffers of tar_mount hold the whole path. */
  predicate PathFits(e: Entry) {
    if e.prefix == "" then |e.name| <= 255 else |e.prefix| <= 154 && |e.prefix| + 1 + |e.name| <= 255
  }

  /** tar_mount keeps the archive's path exactly when it fits; a prefix may be 155 bytes long, one too many. */
  lemma FullPathIsArchivePathIff(e: Entry)
    ensures FullPath(e) == ArchivePath(e) <==> PathFits(e)
  {
    if e.prefix != "" {
      var whole := Take(e.prefix, 154) + "/" + e.name;
      assert |whole| <= |ArchivePath(e)|;
      assert |e.prefix| > 154 ==> |whole| < |ArchivePath(e)|;
      assert |FullPath(e)| <= |whole|;
    }
  }

  predicate FileFlag(e: Entry) {
    e.flag == '0' || e.flag == '\0'
  }

  predicate Ignored(e: Entry) {
    !FileFlag(e) && e.flag != '5'
  }

  function EntrySegs(e: Entry): seq<Seg> {
    if Ignored(e) then [] else Segs(Strip(FullPath(e)))
  }

  /** The node an entry is about; the root when it is ignored or names nothing. */
  function EntryPath(e: Entry): Path {
    Names(EntrySegs(e))
  }

  /** An entry that puts a file in the tree. */
  predicate PutsFile(e: Entry) {
    FileFlag(e) && EntryPath(e) != [] && !EndsInTwoSlashes(Strip(FullPath(e)))
  }

  function PutEntry(fs: Fs, e: Entry): Fs {
    PutFrom(fs, [], EntrySegs(e), if FileFlag(e) then File else Dir, if FileFlag(e) then e.data else [])
  }

  /** The tree after mounting `es` over `base`. */
  function BuiltOn(base: Fs, es: seq<Entry>): Fs {
    if es == [] then base else PutEntry(BuiltOn(base, es[..|es| - 1]), es[|es| - 1])
  }

  function Built(es: seq<Entry>): Fs {
    BuiltOn(ROOT_ONLY, es)
  }

  /** Some entry is at `p` or below it. */
  ghost predicate Named(es: seq<Entry>, p: Path) {
    p == [] || exists i :: 0 <= i < |es| && p <= EntryPath(es[i])
  }

  predicate FileAt(e: Entry, p: Path) {
    PutsFile(e) && EntryPath(e) == p
  }

  /** The payload of the last file entry for exactly `p`. */
  function LastData(es: seq<Entry>, p: Path): Option<Bytes> {
    if es == [] then None
    else if FileAt(es[|es| - 1], p) then Some(es[|es| - 1].data)
    else LastData(es[..|es| - 1], p)
  }

  ghost predicate IsLastFile(es: seq<Entry>, p: Path, i: nat) {
    i < |es| && FileAt(es[i], p) && forall j :: i < j < |es| ==> !FileAt(es[j], p)
  }

  lemma {:induction false} LastDataIsLast(es: seq<Entry>, p: Path) returns (i: nat)
    ensures LastData(es, p).Some? <==> exists k :: 0 <= k < |es| && FileAt(es[k], p)
    ensures LastData(es, p).Some? ==> IsLastFile(es, p, i) && LastData(es, p).value == es[i].data
    decreases |es|
  {
    hide FileAt;
    i := 0;
    if es != [] {
      if FileAt(es[|es| - 1], p) {
        i := |es| - 1;
      } else {
        var init := es[..|es| - 1];
        i := LastDataIsLast(init, p);
        assert forall k :: 0 <= k < |init| ==> es[k] == init[k];
      }
    }
  }

  /** What the archive says is at `p`, without reference to any walk. */
  ghost function Described(es: seq<Entry>, p: Path): Option<Info> {
    if LastData(es, p).Some? then Some(Info(File, LastData(es, p).value))
    else if Named(es, p) then Some(EMPTY_DIR)
    else None
  }

  lemma PutEntryIs(fs: Fs, e: Entry, p: Path)
    ensures At(PutEntry(fs, e), p) == PutAt(At(fs, p), [], EntryPath(e), PutsFile(e), e.data, p)
  {
    var segs := EntrySegs(e);
    if !Ignored(e) {
      OnlyFinalIsLast(Strip(FullPath(e)));
      if segs != [] {
        LastIsRecognised(Strip(FullPath(e)));
      }
    }
    hide Segs, Strip, FullPath, EndsInTwoSlashes, PutFrom;
    PutFromIs(fs, [], segs, if FileFlag(e) then File else Dir, if FileFlag(e) then e.data else [], p);
    assert [] + Names(segs) == EntryPath(e);
  }

  /** For every archive, the tree built entry by entry is exactly the described one. */
  lemma {:induction false} BuiltIsDescribed(es: seq<Entry>, p: Path)
    ensures At(Built(es), p) == Described(es, p)
    decreases |es|
  {
    hide PutEntry, EntryPath, PutsFile;
    if es != [] {
      var init, e := es[..|es| - 1], es[|es| - 1];
      BuiltIsDescribed(init, p);
      PutEntryIs(Built(init), e, p);
      NamedSnoc(init, e, p);
      assert es == init + [e];
      PutsFileBelowRoot(e);
    }
  }

  lemma PutsFileBelowRoot(e: Entry)
    ensures PutsFile(e) ==> EntryPath(e) != []
  {}

  lemma NamedSnoc(es: seq<Entry>, e: Entry, p: Path)
    ensures Named(es + [e], p) <==> Named(es, p) || p <= EntryPath(e)
  {
    hide EntryPath;
    var all := es + [e];
    if Named(es, p) && p != [] {
      var i :| 0 <= i < |es| && p <= EntryPath(es[i]);
      assert all[i] == es[i];
    }
    if p <= EntryPath(e) {
      assert all[|es|] == e;
    }
  }

  // ---------------------------------------------------------------- lookup

  /** vfs_lookup below the node at `cur`. */
  function LookupFrom(fs: Fs, cur: Path, names: Path): Option<Info>
    decreases |names|
  {
    if names == [] then At(fs, cur)
    else if cur !in fs || fs[cur].kind != Dir then None
    else LookupFrom(fs, cur + [names[0]], names[1..])
  }

  /** An absolute path, resolved; anything else is refused. */
  function Lookup(fs: Fs, path: string): Option<Info> {
    if path == "" || path[0] != '/' then None else LookupFrom(fs, [], Names(Segs(path[1..])))
  }

  /** Every node on the way to `p`, from `cur`, is a directory. */
  ghost predicate Open(fs: Fs, cur: Path, p: Path) {
    forall k :: |cur| <= k < |p| ==> p[..k] in fs && fs[p[..k]].kind == Dir
  }

  lemma {:induction false} LookupFromIs(fs: Fs, cur: Path, names: Path)
    ensures LookupFrom(fs, cur, names) == if Open(fs, cur, cur + names) then At(fs, cur + names) else None
    decreases |names|
  {
    var p := cur + names;
    if names == [] {
      assert p == cur;
    } else {
      assert p[..|cur|] == cur;
      var next := cur + [names[0]];
      assert next + names[1..] == p;
      LookupFromIs(fs, next, names[1..]);
    }
  }

  /** A file entry sits strictly above `p`. */
  ghost predicate Blocked(es: seq<Entry>, p: Path) {
    exists k :: 0 <= k < |p| && exists i :: 0 <= i < |es| && FileAt(es[i], p[..k])
  }

  lemma OpenUnlessBlocked(es: seq<Entry>, p: Path)
    requires Named(es, p)
    ensures Open(Built(es), [], p) <==> !Blocked(es, p)
  {
    hide PutsFile, EntryPath, Built;
    forall k: nat | k < |p|
      ensures p[..k] in Built(es)
      ensures Built(es)[p[..k]].kind == Dir <==> LastData(es, p[..k]).None?
    {
      BuiltIsDescribed(es, p[..k]);
      NamedAbove(es, p, k);
    }
    forall k | 0 <= k < |p|
      ensures LastData(es, p[..k]).Some? <==> exists i :: 0 <= i < |es| && FileAt(es[i], p[..k])
    {
      var _ := LastDataIsLast(es, p[..k]);
    }
  }

  lemma NamedAbove(es: seq<Entry>, p: Path, k: nat)
    requires Named(es, p) && k <= |p|
    ensures Named(es, p[..k])
  {
    hide EntryPath;
    if p != [] {
      var i :| 0 <= i < |es| && p <= EntryPath(es[i]);
      assert p[..k] <= EntryPath(es[i]);
    }
  }

  /** Every lookup after every mount: what the archive describes, unless a file is in the way. */
  lemma LookupAfterMount(es: seq<Entry>, p: Path)
    ensures LookupFrom(Built(es), [], p) == if Blocked(es, p) then None else Described(es, p)
  {
    hide PutsFile, EntryPath, Built;
    LookupFromIs(Built(es), [], p);
    assert [] + p == p;
    BuiltIsDescribed(es, p);
    if Named(es, p) {
      OpenUnlessBlocked(es, p);
    } else {
      DescribedOnlyIfNamed(es, p);
    }
  }

  lemma DescribedOnlyIfNamed(es: seq<Entry>, p: Path)
    requires !Named(es, p)
    ensures Described(es, p) == None
  {
    hide PutsFile, EntryPath;
    var _ := LastDataIsLast(es, p);
  }

  /**
   * A file of the archive is found under its normalised path, with the payload of the last entry
   * for that path, exactly when no file entry sits strictly above it.
   */
  lemma MountedFileIsFound(es: seq<Entry>, i: nat)
    requires i < |es| && PutsFile(es[i])
    ensures var p := EntryPath(es[i]);
            LastData(es, p).Some?
            && Lookup(Built(es), "/" + Strip(FullPath(es[i])))
               == if Blocked(es, p) then None else Some(Info(File, LastData(es, p).value))
  {
    var s := Strip(FullPath(es[i]));
    assert ("/" + s)[1..] == s;
    assert FileAt(es[i], EntryPath(es[i]));
    var _ := LastDataIsLast(es, EntryPath(es[i]));
    LookupAfterMount(es, EntryPath(es[i]));
  }

  /** The same for the path the archive means, for every entry whose path fits. */
  lemma ArchivedFileIsFound(es: seq<Entry>, i: nat)
    requires i < |es| && PutsFile(es[i]) && PathFits(es[i])
    ensures var p := EntryPath(es[i]);
            LastData(es, p).Some?
            && Lookup(Built(es), "/" + Strip(ArchivePath(es[i])))
               == if Blocked(es, p) then None else Some(Info(File, LastData(es, p).value))
  {
    FullPathIsArchivePathIff(es[i]);
    MountedFileIsFound(es, i);
  }

  // ---------------------------------------------------------------- spellings of a path

  /** `n` times "./" and then `m` slashes. */
  function Lead(n: nat, m: nat): string {
    if n > 0 then "./" + Lead(n - 1, m) else if m > 0 then "/" + Lead(0, m - 1) else ""
  }

  /** Names that a walk takes as they are. */
  predicate PlainPath(p: Path) {
    p != [] && p[0] != "." && forall i :: 0 <= i < |p| ==> PlainName(p[i])
  }

  lemma JoinStarts(p: Path, tail: string)
    requires PlainPath(p) && (tail == "" || tail == "/")
    ensures var s := Join(p) + tail;
            s != "" && s[0] != '/' && !(|s| >= 2 && s[0] == '.' && s[1] == '/')
  {
    var s := Join(p) + tail;
    assert PlainName(p[0]);
    assert forall i :: 0 <= i < |p[0]| ==> s[i] == p[0][i];
    if |p[0]| == 1 {
      assert p[0] == [p[0][0]];
    }
  }

  /** Leading "./" pairs and slashes are dropped, and nothing else. */
  lemma LeadIsDropped(n: nat, m: nat, p: Path, tail: string)
    requires PlainPath(p) && (tail == "" || tail == "/")
    ensures Strip(Lead(n, m) + (Join(p) + tail)) == Join(p) + tail
  {
    JoinStarts(p, tail);
    hide Join, PlainPath, Lead;
    DotsAreDropped(n, m, Join(p) + tail);
    SlashesAreDropped(m, Join(p) + tail);
  }

  lemma {:induction false} DotsAreDropped(n: nat, m: nat, s: string)
    requires s != "" && s[0] != '/' && !(|s| >= 2 && s[0] == '.' && s[1] == '/')
    ensures StripDots(Lead(n, m) + s) == Lead(0, m) + s
  {
    if n > 0 {
      var t := Lead(n, m) + s;
      assert t == "./" + (Lead(n - 1, m) + s);
      assert t[2..] == Lead(n - 1, m) + s;
      DotsAreDropped(n - 1, m, s);
    } else {
      SlashesAreDropped(m, s);
    }
  }

  lemma {:induction false} SlashesAreDropped(m: nat, s: string)
    requires s != "" && s[0] != '/' && !(|s| >= 2 && s[0] == '.' && s[1] == '/')
    ensures StripSlashes(Lead(0, m) + s) == s && StripDots(Lead(0, m) + s) == Lead(0, m) + s
  {
    if m == 0 {
      assert Lead(0, m) + s == s;
    } else {
      SlashesAreDropped(m - 1, s);
      assert (Lead(0, m) + s)[1..] == Lead(0, m - 1) + s;
    }
  }

  /** Splitting undoes joining with slashes, a trailing slash or not; the final name is recognised as last. */
  lemma {:induction false} SplitOfJoinThen(p: Path, tail: string)
    requires p != [] && (forall i :: 0 <= i < |p| ==> PlainName(p[i])) && (tail == "" || tail == "/")
    ensures Names(Segs(Join(p) + tail)) == p
    decreases |p|
  {
    hide Segs, PlainName;
    var after := if |p| == 1 then tail else "/" + (Join(p[1..]) + tail);
    assert Join(p) + tail == p[0] + after;
    SegsOfPlain(p[0], after);
    if |p| == 1 {
      assert (if after == "" then "" else after[1..]) == "";
      NoSegs();
      NamesCons(Seg(p[0], |after| <= 1), []);
      assert [p[0]] + Names([]) == p;
    } else {
      SplitOfJoinThen(p[1..], tail);
      assert after[1..] == Join(p[1..]) + tail;
      NamesCons(Seg(p[0], |after| <= 1), Segs(Join(p[1..]) + tail));
    }
  }

  lemma NoSegs()
    ensures Segs("") == []
  {}

  lemma {:induction false} JoinEnds(p: Path)
    requires p != [] && forall i :: 0 <= i < |p| ==> PlainName(p[i])
    ensures Join(p) != "" && Join(p)[|Join(p)| - 1] != '/'
    decreases |p|
  {
    if |p| > 1 {
      JoinEnds(p[1..]);
    }
  }

  /** The archive spells the path `p` in one of the ways tar does: "etc/motd", "/etc/motd", "./etc/motd",
      "././etc/motd", and for directories with a slash at the end. */
  ghost predicate Spells(e: Entry, p: Path) {
    exists n: nat, m: nat, tail: string :: (tail == "" || tail == "/") && ArchivePath(e) == Lead(n, m) + (Join(p) + tail)
  }

  /** However it is spelled, the entry is about the node with exactly those names; the type flag alone decides
      what it puts there. */
  lemma SpelledEntryIsAt(e: Entry, p: Path)
    requires PlainPath(p) && Spells(e, p) && PathFits(e)
    ensures e.flag == '0' || e.flag == '\0' ==> EntryPath(e) == p && PutsFile(e)
    ensures e.flag == '5' ==> EntryPath(e) == p && !PutsFile(e)
    ensures e.flag != '0' && e.flag != '\0' && e.flag != '5' ==> EntryPath(e) == [] && !PutsFile(e)
  {
    var n: nat, m: nat, tail :| (tail == "" || tail == "/") && ArchivePath(e) == Lead(n, m) + (Join(p) + tail);
    FullPathIsArchivePathIff(e);
    LeadIsDropped(n, m, p, tail);
    SplitOfJoinThen(p, tail);
    JoinEnds(p);
    hide Join, Lead, Segs, Strip, FullPath, PathFits;
    OneSlashAtMost(Join(p), tail);
  }

  lemma OneSlashAtMost(s: string, tail: string)
    requires s != "" && s[|s| - 1] != '/' && (tail == "" || tail == "/")
    ensures !EndsInTwoSlashes(s + tail)
  {
    assert (s + tail)[|s| - 1] == s[|s| - 1];
  }

  /** A regular file is found by its names, however the archive spells them, with the bytes of the last entry for
      them, exactly when no file sits strictly above it. */
  lemma SpelledFileIsFound(es: seq<Entry>, i: nat, p: Path)
    requires i < |es| && (es[i].flag == '0' || es[i].flag == '\0') && PlainPath(p) && Spells(es[i], p) && PathFits(es[i])
    ensures LastData(es, p).Some?
    ensures Lookup(Built(es), "/" + Join(p)) == if Blocked(es, p) then None else Some(Info(File, LastData(es, p).value))
  {
    SpelledEntryIsAt(es[i], p);
    hide EntryPath, PutsFile, Built, Blocked, LookupFrom;
    assert FileAt(es[i], p);
    var _ := LastDataIsLast(es, p);
    LookupAfterMount(es, p);
    LookupOfJoin(Built(es), p);
  }

  lemma LookupOfJoin(fs: Fs, p: Path)
    requires PlainPath(p)
    ensures Lookup(fs, "/" + Join(p)) == LookupFrom(fs, [], p)
  {
    SplitOfJoin(p);
    assert ("/" + Join(p))[1..] == Join(p);
  }

  /** A directory entry makes its path a directory, unless a file entry has the same path or sits above it. */
  lemma SpelledDirectoryIsFound(es: seq<Entry>, i: nat, p: Path)
    requires i < |es| && es[i].flag == '5' && PlainPath(p) && Spells(es[i], p) && PathFits(es[i])
    ensures Lookup(Built(es), "/" + Join(p))
         == if Blocked(es, p) then None
            else if LastData(es, p).Some? then Some(Info(File, LastData(es, p).value)) else Some(Info(Dir, []))
  {
    SpelledEntryIsAt(es[i], p);
    hide EntryPath, PutsFile, Built, Blocked, LookupFrom;
    assert p <= EntryPath(es[i]);
    LookupAfterMount(es, p);
    LookupOfJoin(Built(es), p);
  }

  // ---------------------------------------------------------------- a prefix of 155 bytes

  function Copies(n: nat): (s: string)
    ensures |s| == n && forall i :: 0 <= i < n ==> s[i] == 'a'
  {
    seq(n, _ => 'a')
  }

  const LONG := Entry("b", Copies(155), '0', [])

  lemma {:induction false} SegLenOfCopies(n: nat, tail: string, room: nat)
    requires room <= n
    ensures SegLen(Copies(n) + tail, room) == room
    decreases room
  {
    if room > 0 {
      assert (Copies(n) + tail)[1..] == Copies(n - 1) + tail;
      SegLenOfCopies(n - 1, tail, room - 1);
    }
  }

  /** An over-long component is cut at 63 characters. */
  lemma SegsOfCopies(n: nat, tail: string)
    requires n > NAME_MAX - 1
    ensures Segs(Copies(n) + tail) == [Seg(Copies(NAME_MAX - 1), false)] + Segs(Copies(n - (NAME_MAX - 1)) + tail)
  {
    var s := Copies(n) + tail;
    SegLenOfCopies(n, tail, NAME_MAX - 1);
    SegsStep(s);
    hide Segs, SegLen, Copies;
    CutCopies(n, tail, NAME_MAX - 1);
    assert Copies(n - (NAME_MAX - 1))[0] == 'a';
    AfterLetter(s, Copies(n - (NAME_MAX - 1)) + tail);
  }

  lemma CutCopies(n: nat, tail: string, m: nat)
    requires m <= n
    ensures (Copies(n) + tail)[..m] == Copies(m) && (Copies(n) + tail)[m..] == Copies(n - m) + tail
  {}

  lemma AfterLetter(s: string, rest: string)
    requires SegLen(s, NAME_MAX - 1) == NAME_MAX - 1 && s[NAME_MAX - 1..] == rest && rest != "" && rest[0] != '/'
    ensures AfterSeg(s) == rest
  {
    hide SegLen;
  }

  /** The components of n + 126 letters, a slash and "b". */
  lemma LongNames(n: nat)
    requires 0 < n <= NAME_MAX - 1
    ensures Names(Segs(Copies(n + 126) + "/b")) == [Copies(63), Copies(63), Copies(n), "b"]
  {
    SegsOfCopies(n + 126, "/b");
    SegsOfCopies(n + 63, "/b");
    SegsOfPlain(Copies(n), "/b");
    SegsOfPlain("b", "");
    assert "b" + "" == "b" && "/b"[1..] == "b";
    assert Segs("") == [];
    hide Segs;
    NamesOfFour(Seg(Copies(63), false), Seg(Copies(63), false), Seg(Copies(n), false), Seg("b", true));
  }

  lemma NamesOfFour(a: Seg, b: Seg, c: Seg, d: Seg)
    ensures Names([a] + ([b] + ([c] + ([d] + [])))) == [a.name, b.name, c.name, d.name]
  {}

  lemma LongPaths()
    ensures FullPath(LONG) == Copies(154) + "/b" && ArchivePath(LONG) == Copies(155) + "/b" && !PathFits(LONG)
  {
    assert Copies(155)[..154] == Copies(154);
  }

  lemma StripOfLetter(s: string)
    requires s != "" && s[0] == 'a'
    ensures Strip(s) == s
  {}

  lemma LongEntry()
    ensures EntryPath(LONG) == [Copies(63), Copies(63), Copies(28), "b"] && PutsFile(LONG)
  {
    hide FullPath, Segs, Strip, Names, EndsInTwoSlashes, SegLen;
    LongPaths();
    var full := Copies(154) + "/b";
    LongNames(28);
    assert full[0] == 'a';
    StripOfLetter(full);
    LetterEnds(Copies(154));
    assert EntrySegs(LONG) == Segs(full);
  }

  lemma LetterEnds(s: string)
    ensures !EndsInTwoSlashes(s + "/b")
  {
    assert (s + "/b")[|s| + 1] == 'b';
  }

  /** A legal entry whose prefix has 155 bytes is mounted under a shorter name: the path the archive means is
      not there. */
  lemma LongPrefixIsNotFound()
    ensures !PathFits(LONG) && PutsFile(LONG) && !Blocked([LONG], Names(Segs(ArchivePath(LONG))))
    ensures Lookup(Built([LONG]), "/" + ArchivePath(LONG)) == None
  {
    LongPaths();
    LongEntry();
    LongNames(29);
    var meant := Copies(155) + "/b";
    assert ("/" + meant)[1..] == meant;
    hide Segs, FullPath, ArchivePath, Built, EntryPath, PutsFile, PathFits, Names, Blocked, Described, LookupFrom;
    LongIsElsewhere(Names(Segs(meant)));
    LookupAfterMount([LONG], Names(Segs(meant)));
  }

  lemma LongIsElsewhere(p: Path)
    requires p == [Copies(63), Copies(63), Copies(29), "b"] && EntryPath(LONG) == [Copies(63), Copies(63), Copies(28), "b"]
    ensures !Named([LONG], p) && !Blocked([LONG], p) && Described([LONG], p) == None
  {
    hide EntryPath, PutsFile;
    assert |Copies(29)| != |Copies(28)|;
    assert p[2] != EntryPath(LONG)[2];
    assert !(p <= EntryPath(LONG));
    forall k | 0 <= k < |p|
      ensures !FileAt(LONG, p[..k])
    {
      assert |p[..k]| < |EntryPath(LONG)|;
    }
    DescribedOnlyIfNamed([LONG], p);
  }
}
