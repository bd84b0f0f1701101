/** The archive bytes as tar_mount reads them (src/fs/tar.c:9-34, 97-141). */
module TarArchive {
  import opened Options
  import opened Vfs

  const BLOCK: nat := 512
  const SIZE: nat := 124
  const TYPEFLAG: nat := 156
  const PREFIX: nat := 345

  // ---------------------------------------------------------------- what the code reads

  /** The text at `at`: up to a NUL, the end, or `room` characters. */
  function Text(b: Bytes, at: nat, room: nat): (s: string)
    ensures |s| <= room
    decreases room
  {
    if at >= |b| || room == 0 || b[at] == '\0' then "" else [b[at]] + Text(b, at + 1, room - 1)
  }

  function Digit(v: nat, c: char): nat {
    if '0' <= c <= '7' then 8 * v + (c as int - '0' as int) else v
  }

  /** oct_parse: digits up to a NUL or a space, anything else skipped. */
  function Octal(b: Bytes, at: nat, n: nat, v: nat): nat
    requires at + n <= |b|
    decreases n
  {
    if n == 0 || b[at] == '\0' || b[at] == ' ' then v else Octal(b, at + 1, n - 1, Digit(v, b[at]))
  }

  function SizeAt(b: Bytes, off: nat): nat
    requires off + BLOCK <= |b|
  {
    Octal(b, off + SIZE, 12, 0)
  }

  function Slice(b: Bytes, from: nat, n: nat): Bytes {
    if from > |b| then [] else b[from..if from + n <= |b| then from + n else |b|]
  }

  /** The entry tar_mount takes from the header at `off`. The name is read up to a NUL without regard to the
      end of its field. */
  function HeaderAt(b: Bytes, off: nat): Entry
    requires off + BLOCK <= |b|
  {
    Entry(Text(b, off, 255), Text(b, off + PREFIX, 154), b[off + TYPEFLAG], Slice(b, off + BLOCK, SizeAt(b, off)))
  }

  /** Where the next header is: payloads are padded to whole blocks. */
  function NextHeader(off: nat, size: nat): (n: nat)
    ensures n >= off + BLOCK
  {
    off + BLOCK + (size + 511) / 512 * 512
  }

  /** A payload is followed by less than one block of padding, up to a block boundary. */
  lemma PaddingIsLeast(off: nat, size: nat)
    ensures var pad := NextHeader(off, size) - (off + 512 + size);
            0 <= pad < 512 && (size + pad) % 512 == 0
  {
    var k := (size + 511) / 512;
    assert size + (NextHeader(off, size) - (off + 512 + size)) == 512 * k;
  }

  /** All entries from `off` on, up to a header that starts with a NUL or does not fit. */
  function Headers(b: Bytes, off: nat): seq<Entry>
    decreases |b| - off
  {
    if off + BLOCK > |b| || b[off] == '\0' then []
    else [HeaderAt(b, off)] + Headers(b, NextHeader(off, SizeAt(b, off)))
  }

  // ---------------------------------------------------------------- what the format says

  /** A text field of `n` bytes: the text, then a NUL if there is room for one. */
  ghost predicate Field(b: Bytes, at: nat, n: nat, s: string) {
    && at + n <= |b| && |s| <= n
    && (forall i :: 0 <= i < |s| ==> s[i] != '\0' && b[at + i] == s[i])
    && (|s| < n ==> b[at + |s|] == '\0')
  }

  /** The number that octal digits denote, the most significant first. */
  function Value(d: seq<nat>): nat {
    if d == [] then 0 else d[0] * Power8(|d| - 1) + Value(d[1..])
  }

  function Power8(n: nat): nat {
    if n == 0 then 1 else 8 * Power8(n - 1)
  }

  /** A numeric field of `n` bytes: octal digits from its start, then a NUL or a space if there is room. */
  ghost predicate OctalField(b: Bytes, at: nat, n: nat, d: seq<nat>) {
    && at + n <= |b| && |d| <= n
    && (forall i :: 0 <= i < |d| ==> d[i] < 8 && b[at + i] == ('0' as int + d[i]) as char)
    && (|d| < n ==> b[at + |d|] == '\0' || b[at + |d|] == ' ')
  }

  ghost predicate SizeField(b: Bytes, off: nat, size: nat) {
    exists d :: OctalField(b, off + 124, 12, d) && Value(d) == size
  }

  /** The header and payload of `e` stand at `off`; the bytes of the other fields are arbitrary. */
  ghost predicate Block(b: Bytes, off: nat, e: Entry) {
    && off + 512 + |e.data| <= |b| && e.name != ""
    && Field(b, off, 100, e.name) && Field(b, off + 345, 155, e.prefix)
    && b[off + 156] == e.flag && SizeField(b, off, |e.data|)
    && b[off + 512..off + 512 + |e.data|] == e.data
  }

  /** The archive from `off` on holds exactly the entries `es`. */
  ghost predicate Archive(b: Bytes, off: nat, es: seq<Entry>)
    decreases |es|
  {
    if es == [] then off + BLOCK > |b| || b[off] == '\0'
    else Block(b, off, es[0]) && Archive(b, NextHeader(off, |es[0].data|), es[1..])
  }

  /** The fields end where the code stops reading: a name shorter than its field or followed by a NUL, and a
      prefix of at most 154 bytes. */
  predicate Readable(b: Bytes, off: nat, e: Entry)
    requires off + BLOCK <= |b|
  {
    (|e.name| < 100 || b[off + 100] == '\0') && |e.prefix| <= 154
  }

  predicate AllReadable(b: Bytes, off: nat, es: seq<Entry>)
    decreases |es|
  {
    es == [] || (off + BLOCK <= |b| && Readable(b, off, es[0]) && AllReadable(b, NextHeader(off, |es[0].data|), es[1..]))
  }

  // ---------------------------------------------------------------- reading the format

  lemma DigitIs(v: nat, k: nat)
    requires k < 8
    ensures var c := ('0' as int + k) as char; Digit(v, c) == 8 * v + k && c != '\0' && c != ' '
  {}

  /** oct_parse computes the positional value of the digits, after those in `v`. */
  lemma {:induction false} OctalIsValue(b: Bytes, at: nat, n: nat, d: seq<nat>, v: nat)
    requires OctalField(b, at, n, d)
    ensures Octal(b, at, n, v) == v * Power8(|d|) + Value(d)
    decreases |d|
  {
    if d != [] {
      assert b[at + 0] == ('0' as int + d[0]) as char;
      DigitIs(v, d[0]);
      assert forall i :: 0 <= i < |d[1..]| ==> d[1..][i] == d[i + 1] && b[at + 1 + i] == b[at + (i + 1)];
      OctalIsValue(b, at + 1, n - 1, d[1..], 8 * v + d[0]);
      Shift(v, d[0], Power8(|d| - 1));
    }
  }

  lemma Shift(v: nat, k: nat, p: nat)
    ensures (8 * v + k) * p == v * (8 * p) + k * p
  {}

  /** The size the code uses is the one the field denotes. */
  lemma SizeIsValue(b: Bytes, off: nat, size: nat)
    requires off + BLOCK <= |b| && SizeField(b, off, size)
    ensures SizeAt(b, off) == size
  {
    var d :| OctalField(b, off + SIZE, 12, d) && Value(d) == size;
    OctalIsValue(b, off + SIZE, 12, d, 0);
  }

  /** A size padded with leading spaces, as old archives write it, reads as 0. */
  lemma LeadingSpaceReadsAsZero(b: Bytes, off: nat)
    requires off + BLOCK <= |b| && b[off + SIZE] == ' '
    ensures SizeAt(b, off) == 0
  {}

  /** Text that ends in a NUL within reach is read exactly. */
  lemma {:induction false} TextIs(b: Bytes, at: nat, s: string, room: nat)
    requires at + |s| < |b| && |s| <= room && b[at + |s|] == '\0'
    requires forall i :: 0 <= i < |s| ==> s[i] != '\0' && b[at + i] == s[i]
    ensures Text(b, at, room) == s
    decreases |s|
  {
    if s != "" {
      assert forall i :: 0 <= i < |s[1..]| ==> s[1..][i] == s[i + 1] && b[at + 1 + i] == s[i + 1];
      TextIs(b, at + 1, s[1..], room - 1);
      assert b[at + 0] == s[0];
    }
  }

  /** Without a NUL in the first `m` characters at least `m` are read. */
  lemma {:induction false} TextRunsOn(b: Bytes, at: nat, m: nat, room: nat)
    requires at + m <= |b| && m <= room && forall i :: at <= i < at + m ==> b[i] != '\0'
    ensures |Text(b, at, room)| >= m
    decreases m
  {
    if m > 0 {
      TextRunsOn(b, at + 1, m - 1, room - 1);
    }
  }

  lemma NameIsReadIff(b: Bytes, off: nat, s: string)
    requires off + BLOCK <= |b| && Field(b, off, 100, s)
    ensures Text(b, off, 255) == s <==> |s| < 100 || b[off + 100] == '\0'
  {
    if |s| < 100 || b[off + 100] == '\0' {
      TextIs(b, off, s, 255);
    } else {
      forall i | off <= i < off + 101
        ensures b[i] != '\0'
      {
        if i < off + 100 {
          assert b[off + (i - off)] == s[i - off];
        }
      }
      TextRunsOn(b, off, 101, 255);
    }
  }

  lemma PrefixIsReadIff(b: Bytes, at: nat, s: string)
    requires Field(b, at, 155, s)
    ensures Text(b, at, 154) == s <==> |s| <= 154
  {
    if |s| <= 154 {
      TextIs(b, at, s, 154);
    }
  }

  /** One header is read as the archive means it exactly when it is readable. */
  lemma HeaderIsReadIff(b: Bytes, off: nat, e: Entry)
    requires Block(b, off, e)
    ensures HeaderAt(b, off) == e <==> Readable(b, off, e)
  {
    hide Field, Text, SizeAt, SizeField;
    NameIsReadIff(b, off, e.name);
    PrefixIsReadIff(b, off + PREFIX, e.prefix);
    SizeIsValue(b, off, |e.data|);
    assert Slice(b, off + BLOCK, |e.data|) == e.data;
    hide Slice, Block;
  }

  lemma BlockStarts(b: Bytes, off: nat, e: Entry)
    requires Block(b, off, e)
    ensures off + BLOCK <= |b| && b[off] != '\0' && SizeAt(b, off) == |e.data|
  {
    hide SizeAt, SizeField;
    assert b[off + 0] == e.name[0];
    SizeIsValue(b, off, |e.data|);
  }

  /**
   * An archive is read back entry by entry exactly when every name field ends in a NUL or has room for one and
   * no prefix uses its last byte.
   */
  lemma {:induction false} ArchiveIsReadIff(b: Bytes, off: nat, es: seq<Entry>)
    requires Archive(b, off, es)
    ensures Headers(b, off) == es <==> AllReadable(b, off, es)
    decreases |es|
  {
    hide Block, HeaderAt, Readable, SizeAt;
    if es != [] {
      var e, next := es[0], NextHeader(off, |es[0].data|);
      BlockStarts(b, off, e);
      HeaderIsReadIff(b, off, e);
      ArchiveIsReadIff(b, next, es[1..]);
      assert Headers(b, off) == [HeaderAt(b, off)] + Headers(b, next);
      hide Headers;
      assert es == [e] + es[1..];
      if Headers(b, off) == es {
        assert Headers(b, off)[0] == es[0] && Headers(b, off)[1..] == es[1..];
      }
    }
  }

  /** The entries of a readable archive have paths that fit the buffers of tar_mount. */
  lemma {:induction false} ReadablePathsFit(b: Bytes, off: nat, es: seq<Entry>, i: nat)
    requires Archive(b, off, es) && AllReadable(b, off, es) && i < |es|
    ensures PathFits(es[i])
    decreases |es|
  {
    hide SizeField;
    if i > 0 {
      ReadablePathsFit(b, NextHeader(off, |es[0].data|), es[1..], i - 1);
    }
  }

  /**
   * From the bytes to the file: after mounting a readable archive, a file of the archive is found under the
   * path the archive gives it, with the bytes of the last entry for that path, exactly when no file entry
   * sits strictly above it.
   */
  lemma ArchivedBytesAreFound(b: Bytes, es: seq<Entry>, i: nat)
    requires Archive(b, 0, es) && AllReadable(b, 0, es) && i < |es| && PutsFile(es[i])
    ensures var p := EntryPath(es[i]);
            LastData(es, p).Some?
            && Lookup(Built(Headers(b, 0)), "/" + Strip(ArchivePath(es[i])))
               == if Blocked(es, p) then None else Some(Info(File, LastData(es, p).value))
  {
    hide *;
    ArchiveIsReadIff(b, 0, es);
    ReadablePathsFit(b, 0, es, i);
    ArchivedFileIsFound(es, i);
  }

  /** The same by names: a regular file of a readable archive is found under its names, whether the archive writes
      "etc/motd", "/etc/motd", "./etc/motd" or "././etc/motd". */
  lemma SpelledBytesAreFound(b: Bytes, es: seq<Entry>, i: nat, p: Path)
    requires Archive(b, 0, es) && AllReadable(b, 0, es) && i < |es| && (es[i].flag == '0' || es[i].flag == '\0')
    requires PlainPath(p) && Spells(es[i], p)
    ensures LastData(es, p).Some?
    ensures Lookup(Built(Headers(b, 0)), "/" + Join(p))
         == if Blocked(es, p) then None else Some(Info(File, LastData(es, p).value))
  {
    hide *;
    ArchiveIsReadIff(b, 0, es);
    ReadablePathsFit(b, 0, es, i);
    SpelledFileIsFound(es, i, p);
  }

  /** A name that fills its field is read together with the mode field that follows it. */
  lemma FullNameRunsOn(b: Bytes, off: nat, e: Entry)
    requires Block(b, off, e) && |e.name| == 100 && b[off + 100] == '0'
    ensures |HeaderAt(b, off).name| > 100 && HeaderAt(b, off) != e
  {
    forall i | off <= i < off + 101
      ensures b[i] != '\0'
    {
      if i < off + 100 {
        assert b[off + (i - off)] == e.name[i - off];
      }
    }
    TextRunsOn(b, off, 101, 255);
  }

  // ---------------------------------------------------------------- the loops

  /** A bounded copy up to a NUL. */
  method CopyText(b: Bytes, at: nat, room: nat) returns (s: string)
    ensures s == Text(b, at, room)
  {
    s := "";
    var i := 0;
    while i < room && at + i < |b| && b[at + i] != '\0'
      invariant i <= room && s + Text(b, at + i, room - i) == Text(b, at, room)
    {
      assert Text(b, at + i, room - i) == [b[at + i]] + Text(b, at + i + 1, room - i - 1);
      s := s + [b[at + i]];
      i := i + 1;
    }
    assert Text(b, at + i, room - i) == "";
  }

  /** oct_parse: the number that the digits of a numeric field denote. */
  method ParseOctal(b: Bytes, at: nat, n: nat) returns (v: nat)
    requires at + n <= |b|
    ensures v == Octal(b, at, n, 0)
    ensures forall d :: OctalField(b, at, n, d) ==> v == Value(d)
  {
    forall d | OctalField(b, at, n, d)
      ensures Octal(b, at, n, 0) == Value(d)
    {
      OctalIsValue(b, at, n, d, 0);
    }
    hide Digit;
    v := 0;
    var i := 0;
    while i < n && b[at + i] != '\0' && b[at + i] != ' '
      invariant i <= n && Octal(b, at + i, n - i, v) == Octal(b, at, n, 0)
    {
      v := Digit(v, b[at + i]);
      i := i + 1;
    }
  }

  /** Name, prefix, type flag and payload of one header. */
  method ReadHeader(b: Bytes, off: nat) returns (e: Entry, size: nat)
    requires off + BLOCK <= |b|
    ensures e == HeaderAt(b, off) && size == SizeAt(b, off)
  {
    hide Text, Octal;
    var prefix := CopyText(b, off + PREFIX, 154);
    var name := CopyText(b, off, 255);
    size := ParseOctal(b, off + SIZE, 12);
    e := Entry(name, prefix, b[off + TYPEFLAG], Slice(b, off + BLOCK, size));
  }
}
