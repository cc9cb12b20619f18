/**
 * The tar filesystem (fs2/tarfs.cpp): converting the name of a tar
 * header to a kernel path, reading the octal fields and the checksum of
 * a header, walking the headers of an archive on a block device, and
 * reading and describing one archived file.
 *
 * Archive bytes are `Octet`s; a C `char` is the same byte read as a
 * signed value where `tarfs.cpp` sums it. The block device is the
 * sequence of bytes it holds.
 */
module Tarfs {
  import opened Util
  import opened Status
  import Layouts

  /** `kTarBlockSize`: headers and file data are laid out in 512-byte blocks. */
  const BlockSize: nat := 512
  /** `sizeof(TarPosixHeader)`. */
  const HeaderSize: nat := 500
  /** `kTarNameSize`: the name field. */
  const NameSize: nat := 100

  const Nul: Octet := 0
  const Space: Octet := 0x20
  const Dot: Octet := 0x2E
  const Slash: Octet := 0x2F
  /** `OS_PATH_SEPARATOR`, the NUL character. */
  const Separator: Octet := 0

  /** The offsets of the header fields the kernel reads. */
  const SizeField: nat := 124
  const ChecksumField: nat := 148
  const ChecksumWidth: nat := 8
  const TypeField: nat := 156
  const MagicField: nat := 257
  /** `TarPosixHeader::kMagic`: "ustar ". */
  const Magic: seq<Octet> := [0x75, 0x73, 0x74, 0x61, 0x72, 0x20]

  /** `TarPosixHeader`: the 500 bytes of a header block. */
  type Header = h: seq<Octet> | |h| == HeaderSize witness seq(500, i => 0)

  // ---------------------------------------------------------------------
  // ConvertTarPath
  // ---------------------------------------------------------------------

  /** The name stored in a name field: the bytes before the first NUL, all of it when there is none. */
  function NameText(path: seq<Octet>): (s: seq<Octet>)
    ensures |s| <= |path| && s == path[..|s|] && Nul !in s
    ensures |s| < |path| ==> path[|s|] == Nul
  {
    if |path| == 0 || path[0] == Nul then []
    else [path[0]] + NameText(path[1..])
  }

  /** Every '/' replaced by the kernel's path separator. */
  function ToOsSeparators(s: seq<Octet>): (r: seq<Octet>)
    ensures |r| == |s| && Slash !in r
    ensures forall i :: 0 <= i < |s| ==> r[i] == (if s[i] == Slash then Separator else s[i])
  {
    seq(|s|, i requires 0 <= i < |s| => if s[i] == Slash then Separator else s[i])
  }

  /** One trailing separator removed: tar ends folder names with '/'. */
  function DropTrailing(s: seq<Octet>): (r: seq<Octet>)
    ensures r == s || (|s| > 0 && s[|s| - 1] == Separator && r == s[..|s| - 1])
    ensures |s| > 0 && s[|s| - 1] == Separator ==> |r| == |s| - 1
  {
    if |s| > 0 && s[|s| - 1] == Separator then s[..|s| - 1] else s
  }

  /** The text begins with the segment ".", which names the current folder. */
  predicate StartsWithCurrentDir(s: seq<Octet>)
  {
    |s| >= 2 && s[0] == Dot && s[1] == Separator
  }

  /** Leading "." segments removed. */
  function StripCurrentDir(s: seq<Octet>): (r: seq<Octet>)
    ensures !StartsWithCurrentDir(r)
    ensures |r| <= |s| && r == s[|s| - |r|..]
    decreases |s|
  {
    if StartsWithCurrentDir(s) then StripCurrentDir(s[2..]) else s
  }

  /** The kernel path of a tar name. */
  function TarPathText(path: seq<Octet>): seq<Octet>
  {
    StripCurrentDir(DropTrailing(ToOsSeparators(NameText(path))))
  }

  /**
   * A converted path holds no '/', does not begin with a "." segment,
   * and is at most as long as the name it came from.
   */
  lemma TarPathTextFacts(path: seq<Octet>)
    ensures var t := TarPathText(path);
      Slash !in t && !StartsWithCurrentDir(t) && |t| <= |NameText(path)|
  {
  }

  /** A name whose first `n` bytes are not NUL and are followed by a NUL or the end is those `n` bytes. */
  lemma {:induction false} NameTextIs(path: seq<Octet>, n: nat)
    requires n <= |path| && (n < |path| ==> path[n] == Nul)
    requires forall j :: 0 <= j < n ==> path[j] != Nul
    ensures NameText(path) == path[..n]
  {
    if n > 0 {
      NameTextIs(path[1..], n - 1);
      assert path[..n] == [path[0]] + path[1..][..n - 1];
    }
  }

  /** Stripping "." segments twice strips nothing more. */
  lemma {:induction false} StripCurrentDirIdempotent(s: seq<Octet>)
    ensures StripCurrentDir(StripCurrentDir(s)) == StripCurrentDir(s)
    decreases |s|
  {
    if StartsWithCurrentDir(s) {
      StripCurrentDirIdempotent(s[2..]);
    }
  }

  /** A folder "./bin/" becomes the path "bin". */
  lemma TarPathOfFolder()
    ensures TarPathText([Dot, Slash, 0x62, 0x69, 0x6E, Slash, Nul]) == [0x62, 0x69, 0x6E]
  {
    var name: seq<Octet> := [Dot, Slash, 0x62, 0x69, 0x6E, Slash, Nul];
    NameTextIs(name, 6);
    var converted := ToOsSeparators(name[..6]);
    assert converted == [Dot, Separator, 0x62, 0x69, 0x6E, Separator];
    assert DropTrailing(converted) == [Dot, Separator, 0x62, 0x69, 0x6E];
    assert StripCurrentDir([0x62, 0x69, 0x6E]) == [0x62, 0x69, 0x6E];
  }

  /**
   * `ConvertTarPath`: the name copied up to its NUL with '/' turned into
   * the separator, one trailing separator dropped and leading "."
   * segments stripped; `InvalidPath` when the path rules reject the
   * result. `VerifyPathText`, the path rules, is not part of this model
   * and is passed in as `verify`.
   */
  method ConvertTarPath(path: seq<Octet>, verify: seq<Octet> -> bool) returns (status: OsStatus, result: seq<Octet>)
    requires |path| >= NameSize
    ensures status == (if verify(TarPathText(path[..NameSize])) then Success else InvalidPath)
    ensures status == Success ==> result == TarPathText(path[..NameSize])
  {
    ghost var name := path[..NameSize];
    var converted := CopyName(path);
    var view := converted;
    if |view| > 0 && view[|view| - 1] == Separator {
      view := view[..|view| - 1];
    }
    assert view == DropTrailing(converted);
    while StartsWithCurrentDir(view)
      invariant StripCurrentDir(view) == TarPathText(name)
      decreases |view|
    {
      view := view[2..];
    }
    if !verify(view) {
      return InvalidPath, [];
    }
    return Success, view;
  }

  /** The name field copied into a buffer up to its NUL, with '/' turned into the separator. */
  method CopyName(path: seq<Octet>) returns (converted: seq<Octet>)
    requires |path| >= NameSize
    ensures converted == ToOsSeparators(NameText(path[..NameSize]))
  {
    ghost var name := path[..NameSize];
    var buffer := new Octet[NameSize](_ => 0);
    var i := 0;
    while i < NameSize
      invariant 0 <= i <= NameSize
      invariant forall j :: 0 <= j < i ==> name[j] != Nul
      invariant forall j :: 0 <= j < i ==> buffer[j] == (if name[j] == Slash then Separator else name[j])
    {
      var c := path[i];
      if c == Nul {
        break;
      }
      if c == Slash {
        buffer[i] := Separator;
      } else {
        buffer[i] := c;
      }
      i := i + 1;
    }
    NameTextIs(name, i);
    converted := buffer[..i];
  }

  // ---------------------------------------------------------------------
  // Octal fields
  // ---------------------------------------------------------------------

  predicate IsOctalDigit(c: Octet)
  {
    0x30 <= c <= 0x37
  }

  predicate AllOctal(s: seq<Octet>)
  {
    forall i :: 0 <= i < |s| ==> IsOctalDigit(s[i])
  }

  /** The number of octal digits `text` begins with. */
  function DigitRun(text: seq<Octet>): (n: nat)
    ensures n <= |text| && AllOctal(text[..n])
    ensures n < |text| ==> !IsOctalDigit(text[n])
  {
    if |text| == 0 || !IsOctalDigit(text[0]) then 0
    else
      assert text[..1 + DigitRun(text[1..])] == [text[0]] + text[1..][..DigitRun(text[1..])];
      1 + DigitRun(text[1..])
  }

  /** A run of octal digits followed by a non-digit or the end is the whole run. */
  lemma {:induction false} DigitRunIs(text: seq<Octet>, n: nat)
    requires n <= |text| && AllOctal(text[..n]) && (n < |text| ==> !IsOctalDigit(text[n]))
    ensures DigitRun(text) == n
  {
    if n > 0 {
      assert text[1..][..n - 1] == text[1..n];
      DigitRunIs(text[1..], n - 1);
    }
  }

  /** The value of octal digits, the most significant first. */
  function OctalValue(digits: seq<Octet>): nat
    requires AllOctal(digits)
  {
    if |digits| == 0 then 0
    else 8 * OctalValue(digits[..|digits| - 1]) + (digits[|digits| - 1] - 0x30)
  }

  /** `detail::TarNumber` read over `text`: the value of the octal digits it begins with. */
  function OctalNumber(text: seq<Octet>): nat
  {
    OctalValue(text[..DigitRun(text)])
  }

  function Pow8(n: nat): (r: nat)
    ensures r >= 1
  {
    if n == 0 then 1 else 8 * Pow8(n - 1)
  }

  /** `n` written as `width` octal digits, zero-padded, as tar writes its numeric fields. */
  function OctalDigits(n: nat, width: nat): (s: seq<Octet>)
    ensures |s| == width && AllOctal(s)
  {
    if width == 0 then [] else OctalDigits(n / 8, width - 1) + [0x30 + n % 8]
  }

  /** Reading back `width` octal digits gives the number written, when it fits. */
  lemma {:induction false} OctalValueOfDigits(n: nat, width: nat)
    requires n < Pow8(width)
    ensures OctalValue(OctalDigits(n, width)) == n
  {
    if width > 0 {
      var s := OctalDigits(n, width);
      assert s[..width - 1] == OctalDigits(n / 8, width - 1);
      OctalValueOfDigits(n / 8, width - 1);
    }
  }

  /** An octal field followed by a terminator reads back as the number written. */
  lemma OctalRoundTrip(n: nat, width: nat, rest: seq<Octet>)
    requires n < Pow8(width) && (|rest| > 0 ==> !IsOctalDigit(rest[0]))
    ensures OctalNumber(OctalDigits(n, width) + rest) == n
  {
    var text := OctalDigits(n, width) + rest;
    assert text[..width] == OctalDigits(n, width);
    DigitRunIs(text, width);
    OctalValueOfDigits(n, width);
  }

  /**
   * `detail::TarNumber`: digits are read while they are octal, at most
   * 12 and, here, at most the `width` of the field (see README's
   * Findings for `tarfs.hpp`'s reading of 12 whatever the field).
   */
  method TarNumber(header: Header, start: nat, width: nat) returns (r: nat)
    requires width <= 12 && start + width <= HeaderSize
    ensures r == OctalNumber(header[start..start + width])
  {
    ghost var text := header[start..start + width];
    r := 0;
    var i := 0;
    while i < 12 && i < width
      invariant 0 <= i <= width && AllOctal(text[..i])
      invariant r == OctalValue(text[..i])
    {
      var c := header[start + i];
      if !IsOctalDigit(c) {
        break;
      }
      assert text[..i + 1][..i] == text[..i];
      r := r * 8 + (c - 0x30);
      i := i + 1;
    }
    DigitRunIs(text, i);
  }

  /** `getSize`: the size field, 12 octal digits. */
  function FileSize(h: Header): nat
  {
    OctalNumber(h[SizeField..SizeField + 12])
  }

  /** `reportedChecksum`: the checksum field, read within its 8 bytes. */
  function ReportedChecksum(h: Header): nat
  {
    OctalNumber(h[ChecksumField..ChecksumField + ChecksumWidth])
  }

  /** `reportedChecksum` as written: `TarNumber` reads 12 bytes from the 8-byte field, on into the type flag and the link name. */
  function ReportedChecksumAsWritten(h: Header): nat
  {
    OctalNumber(h[ChecksumField..ChecksumField + 12])
  }

  /** A checksum field of eight octal digits is followed by a type flag '5': `TarNumber` reads nine digits. */
  lemma ChecksumOverread()
    ensures var h := seq(HeaderSize, i requires 0 <= i < HeaderSize => if ChecksumField <= i < TypeField then 0x30 else if i == TypeField then 0x35 else 0);
      ReportedChecksum(h) == 0 && ReportedChecksumAsWritten(h) == 5
  {
    var h: Header := seq(HeaderSize, i requires 0 <= i < HeaderSize => if ChecksumField <= i < TypeField then 0x30 else if i == TypeField then 0x35 else 0);
    var zeros := OctalDigits(0, 8);
    ZeroDigits(8);
    var field := h[ChecksumField..ChecksumField + ChecksumWidth];
    assert field == zeros;
    OctalRoundTrip(0, 8, []);
    assert zeros + [] == zeros;
    var wide := h[ChecksumField..ChecksumField + 12];
    assert OctalDigits(5, 9) == zeros + [0x35];
    assert wide == OctalDigits(5, 9) + [0, 0, 0];
    OctalRoundTrip(5, 9, [0, 0, 0]);
  }

  /** Zero written in octal is all '0' digits. */
  lemma {:induction false} ZeroDigits(width: nat)
    ensures OctalDigits(0, width) == seq(width, i => 0x30)
  {
    if width > 0 {
      ZeroDigits(width - 1);
    }
  }

  // ---------------------------------------------------------------------
  // Checksum
  // ---------------------------------------------------------------------

  /** A `char` byte as the signed value it has on x86. */
  function SignedChar(c: Octet): int
  {
    if c < 128 then c else c - 256
  }

  /** `std::accumulate` of the bytes as `char`s. */
  function SignedSum(s: seq<Octet>): int
  {
    if |s| == 0 then 0 else SignedSum(s[..|s| - 1]) + SignedChar(s[|s| - 1])
  }

  /** The sum of the bytes as unsigned values, the sum the tar format defines. */
  function ByteSum(s: seq<Octet>): nat
  {
    if |s| == 0 then 0 else ByteSum(s[..|s| - 1]) + s[|s| - 1]
  }

  /**
   * `actualChecksum`: the bytes of the header summed as `char`s, with
   * the checksum field counted as eight spaces, in `uint64_t`.
   */
  function ActualChecksum(h: Header): (r: nat)
    ensures r < 0x1_0000_0000_0000_0000
  {
    var sum := SignedSum(h[..ChecksumField]) + 8 * Space + SignedChar(h[TypeField]) + SignedSum(h[TypeField + 1..]);
    sum % 0x1_0000_0000_0000_0000
  }

  /** Over bytes below 128 the signed sum is the unsigned one. */
  lemma {:induction false} SignedSumOfAscii(s: seq<Octet>)
    requires forall i :: 0 <= i < |s| ==> s[i] < 128
    ensures SignedSum(s) == ByteSum(s)
  {
    if |s| > 0 {
      SignedSumOfAscii(s[..|s| - 1]);
    }
  }

  /** The sums of a header without its checksum field are small. */
  lemma {:induction false} ByteSumBound(s: seq<Octet>)
    ensures ByteSum(s) <= 255 * |s|
  {
    if |s| > 0 {
      ByteSumBound(s[..|s| - 1]);
    }
  }

  /** For an ASCII header the checksum is the tar format's: the unsigned byte sum with the field as spaces. */
  lemma ActualChecksumOfAscii(h: Header)
    requires forall i :: 0 <= i < HeaderSize ==> h[i] < 128
    ensures ActualChecksum(h) == ByteSum(h[..ChecksumField]) + 8 * Space + h[TypeField] + ByteSum(h[TypeField + 1..])
  {
    SignedSumOfAscii(h[..ChecksumField]);
    SignedSumOfAscii(h[TypeField + 1..]);
    ByteSumBound(h[..ChecksumField]);
    ByteSumBound(h[TypeField + 1..]);
  }

  /** The header with its checksum field replaced by `field`. */
  function WithChecksumField(h: Header, field: seq<Octet>): (r: Header)
    requires |field| == ChecksumWidth
    ensures r[..ChecksumField] == h[..ChecksumField] && r[TypeField..] == h[TypeField..]
    ensures r[ChecksumField..TypeField] == field
  {
    h[..ChecksumField] + field + h[TypeField..]
  }

  /**
   * The checksum does not depend on the checksum field, so a header
   * whose field holds its checksum as six octal digits, a NUL and a
   * space (as tar writes it) passes the check.
   */
  lemma WrittenChecksumVerifies(h: Header)
    requires ActualChecksum(h) < Pow8(6)
    ensures var w := WithChecksumField(h, OctalDigits(ActualChecksum(h), 6) + [Nul, Space]);
      ReportedChecksum(w) == ActualChecksum(w) == ActualChecksum(h)
  {
    var field := OctalDigits(ActualChecksum(h), 6) + [Nul, Space];
    var w := WithChecksumField(h, field);
    assert w[..ChecksumField] == h[..ChecksumField];
    assert w[TypeField] == h[TypeField] && w[TypeField + 1..] == h[TypeField + 1..];
    assert w[ChecksumField..ChecksumField + ChecksumWidth] == field;
    OctalRoundTrip(ActualChecksum(h), 6, [Nul, Space]);
  }

  // ---------------------------------------------------------------------
  // Entry types
  // ---------------------------------------------------------------------

  /** `VfsNodeType` as far as tar headers produce it. */
  datatype NodeType = File | Folder | NoType

  /** `getType`: '0' is a file, '5' a folder, anything else neither. */
  function EntryType(h: Header): (t: NodeType)
    ensures t == File <==> h[TypeField] == 0x30
    ensures t == Folder <==> h[TypeField] == 0x35
  {
    if h[TypeField] == 0x30 then File
    else if h[TypeField] == 0x35 then Folder
    else NoType
  }

  /** `strncmp(header.name, "./", 3) == 0`: the entry for the archive's own root. */
  predicate IsCurrentDirEntry(h: Header)
  {
    h[0] == Dot && h[1] == Slash && h[2] == Nul
  }

  // ---------------------------------------------------------------------
  // ParseTar
  // ---------------------------------------------------------------------

  /** `TarEntry`: a header and the offset of its data on the media. */
  datatype TarEntry = TarEntry(header: Header, offset: nat)

  /** The outcome of a parse: a status, and the entries inserted before it ended. */
  datatype Parse = Parse(status: OsStatus, entries: map<seq<Octet>, TarEntry>)

  /** What one header does to the walk: end it with a result, or go on at the next header. */
  datatype Step = Stop(result: Parse) | Next(offset: nat, acc: map<seq<Octet>, TarEntry>)

  /** The header at `offset` on the media, which the walk reads only when it fits. */
  function HeaderAt(media: seq<Octet>, offset: nat): Header
    requires offset + HeaderSize <= |media|
  {
    media[offset..offset + HeaderSize]
  }

  /** The offset past a header and its data, rounded up to whole blocks. */
  function NextHeader(h: Header, offset: nat): (next: nat)
    ensures next >= offset + BlockSize
  {
    offset + BlockSize + RoundUp(FileSize(h), BlockSize)
  }

  /** What the header at `offset` calls for, before its path is looked at. */
  datatype Verdict = Invalid | End | Skip | Keep

  /**
   * A header that does not fit on the media, fails its checksum or has
   * data running past the media end is invalid; an empty name or a wrong
   * magic ends the archive; a header that is neither a file nor a
   * folder, or is "./", is skipped.
   */
  function HeaderVerdict(media: seq<Octet>, ignoreChecksum: bool, offset: nat): (v: Verdict)
    ensures (v.Skip? || v.Keep?) ==> offset + HeaderSize <= |media| && FileSize(HeaderAt(media, offset)) + offset + BlockSize <= |media|
  {
    if offset + HeaderSize > |media| then Invalid
    else
      var h := HeaderAt(media, offset);
      if h[0] == Nul || h[MagicField..MagicField + 6] != Magic then End
      else if !ignoreChecksum && ReportedChecksum(h) != ActualChecksum(h) then Invalid
      else if FileSize(h) + offset + BlockSize > |media| then Invalid
      else if EntryType(h) == NoType || IsCurrentDirEntry(h) then Skip
      else Keep
  }

  /** One iteration of the walk, over the header at `offset`. */
  function WalkStep(media: seq<Octet>, ignoreChecksum: bool, verify: seq<Octet> -> bool, offset: nat, acc: map<seq<Octet>, TarEntry>): (s: Step)
    ensures s.Next? ==> s.offset > offset
  {
    match HeaderVerdict(media, ignoreChecksum, offset)
    case Invalid => Stop(Parse(InvalidInput, acc))
    case End => Stop(Parse(Success, acc))
    case Skip => Next(NextHeader(HeaderAt(media, offset), offset), acc)
    case Keep =>
      var h := HeaderAt(media, offset);
      var path := TarPathText(h[..NameSize]);
      if !verify(path) then Stop(Parse(InvalidPath, acc))
      else Next(NextHeader(h, offset), acc[path := TarEntry(h, offset + BlockSize)])
  }


  /**
   * The headers of the archive from `offset` on, added to `acc`. A header
   * that does not fit on the media, a bad checksum or data running past
   * the media end is `InvalidInput`; an empty name or a wrong magic ends
   * the archive; entries other than files and folders, and the "./"
   * entry, are skipped; each header is followed by its data rounded up
   * to whole blocks. A media read is taken to return the bytes up to
   * the end of the media; the block device driver is not part of this
   * model.
   */
  function Walk(media: seq<Octet>, ignoreChecksum: bool, verify: seq<Octet> -> bool, offset: nat, acc: map<seq<Octet>, TarEntry>): Parse
    decreases |media| - offset
  {
    if offset >= |media| then Parse(Success, acc)
    else
      match WalkStep(media, ignoreChecksum, verify, offset, acc)
      case Stop(result) => result
      case Next(next, acc') => Walk(media, ignoreChecksum, verify, next, acc')
  }

  /** A header that is kept under a path the rules accept is inserted, and the walk goes on past its data. */
  lemma WalkStepKeeps(media: seq<Octet>, ignoreChecksum: bool, verify: seq<Octet> -> bool, offset: nat, acc: map<seq<Octet>, TarEntry>)
    requires HeaderVerdict(media, ignoreChecksum, offset) == Keep
    requires verify(TarPathText(HeaderAt(media, offset)[..NameSize]))
    ensures var h := HeaderAt(media, offset);
      WalkStep(media, ignoreChecksum, verify, offset, acc) == Next(NextHeader(h, offset), acc[TarPathText(h[..NameSize]) := TarEntry(h, offset + BlockSize)])
  {
  }

  /**
   * The checks `ParseTar`'s loop makes on the header at `offset`, in
   * order: it fits on the media, its name is not empty and its magic is
   * "ustar", its checksum matches unless checksums are ignored, its data
   * fits on the media, and it is a file or folder other than "./". The
   * offset past the header and its data comes back with it.
   */
  method CheckHeader(media: seq<Octet>, ignoreChecksum: bool, offset: nat) returns (verdict: Verdict, next: nat)
    ensures verdict == HeaderVerdict(media, ignoreChecksum, offset)
    ensures (verdict.Skip? || verdict.Keep?) ==> next == NextHeader(HeaderAt(media, offset), offset)
  {
    next := offset;
    if offset + HeaderSize > |media| {
      return Invalid, next;
    }
    var header := HeaderAt(media, offset);
    if header[0] == Nul {
      return End, next;
    }
    if header[MagicField..MagicField + 6] != Magic {
      return End, next;
    }
    if !ignoreChecksum {
      var checksum := TarNumber(header, ChecksumField, ChecksumWidth);
      var actual := ActualChecksum(header);
      if checksum != actual {
        assert ReportedChecksum(header) != ActualChecksum(header);
        return Invalid, next;
      }
    }
    assert ignoreChecksum || ReportedChecksum(header) == ActualChecksum(header);
    next := next + BlockSize;
    var size := TarNumber(header, SizeField, 12);
    if size + next > |media| {
      return Invalid, next;
    }
    next := next + RoundUp(size, BlockSize);
    assert FileSize(header) + offset + BlockSize <= |media| && next == NextHeader(header, offset);
    var kind := EntryType(header);
    if kind != File && kind != Folder {
      return Skip, next;
    }
    if header[0] == Dot && header[1] == Slash && header[2] == Nul {
      return Skip, next;
    }
    return Keep, next;
  }

  /**
   * One iteration of `ParseTar`'s loop over the header at `offset`: it
   * either ends the parse with `status`, or moves `offset` past the
   * header and its data, inserting the entry when it is a file or a
   * folder other than "./".
   */
  method ParseHeader(media: seq<Octet>, ignoreChecksum: bool, verify: seq<Octet> -> bool, offset: nat, entries: map<seq<Octet>, TarEntry>)
    returns (stop: bool, status: OsStatus, next: nat, entries': map<seq<Octet>, TarEntry>)
    ensures WalkStep(media, ignoreChecksum, verify, offset, entries) == if stop then Stop(Parse(status, entries')) else Next(next, entries')
  {
    entries' := entries;
    var verdict;
    verdict, next := CheckHeader(media, ignoreChecksum, offset);
    match verdict
    case Invalid =>
      return true, InvalidInput, next, entries';
    case End =>
      return true, Success, next, entries';
    case Skip =>
      return false, Success, next, entries';
    case Keep =>
      var header := HeaderAt(media, offset);
      var converted, path := ConvertTarPath(header, verify);
      if converted != Success {
        assert !verify(TarPathText(header[..NameSize]));
        return true, converted, next, entries';
      }
      WalkStepKeeps(media, ignoreChecksum, verify, offset, entries);
      entries' := entries'[path := TarEntry(header, offset + BlockSize)];
      return false, Success, next, entries';
  }

  /**
   * `ParseTar`: the offset walks the media header by header; the result
   * is the entries `Walk` finds from offset 0.
   */
  method ParseTar(media: seq<Octet>, ignoreChecksum: bool, verify: seq<Octet> -> bool)
    returns (status: OsStatus, entries: map<seq<Octet>, TarEntry>)
    ensures Parse(status, entries) == Walk(media, ignoreChecksum, verify, 0, map[])
  {
    var offset: nat := 0;
    entries := map[];
    while offset < |media|
      invariant Walk(media, ignoreChecksum, verify, offset, entries) == Walk(media, ignoreChecksum, verify, 0, map[])
      decreases |media| - offset
    {
      var stop, next;
      stop, status, next, entries := ParseHeader(media, ignoreChecksum, verify, offset, entries);
      if stop {
        return;
      }
      offset := next;
    }
    status := Success;
  }

  /** An entry's header lies on the media one block before its data, block-aligned, and its data lies on the media. */
  predicate EntryOnMedia(media: seq<Octet>, e: TarEntry)
  {
    e.offset >= BlockSize && IsAligned(e.offset, BlockSize)
    && e.offset + FileSize(e.header) <= |media|
    && media[e.offset - BlockSize..e.offset - BlockSize + HeaderSize] == e.header
  }

  /** An entry's path passed the path rules, holds no '/' and does not begin with a "." segment. */
  predicate PathAccepted(verify: seq<Octet> -> bool, p: seq<Octet>)
  {
    verify(p) && Slash !in p && !StartsWithCurrentDir(p)
  }

  /**
   * Every entry the walk inserts is a file or folder header lying on the
   * media with its data, under an accepted path.
   */
  /** Every entry in the map is a file or folder header lying on the media with its data, under an accepted path. */
  predicate EntriesOnMedia(media: seq<Octet>, verify: seq<Octet> -> bool, entries: map<seq<Octet>, TarEntry>)
  {
    forall p :: p in entries ==> EntryOnMedia(media, entries[p]) && PathAccepted(verify, p) && EntryType(entries[p].header) != NoType
  }

  /** A header the walk accepts at a block-aligned offset gives an entry lying on the media. */
  lemma HeaderEntryOnMedia(media: seq<Octet>, offset: nat)
    requires IsAligned(offset, BlockSize) && offset + HeaderSize <= |media|
    requires FileSize(HeaderAt(media, offset)) + offset + BlockSize <= |media|
    ensures EntryOnMedia(media, TarEntry(HeaderAt(media, offset), offset + BlockSize))
    ensures IsAligned(NextHeader(HeaderAt(media, offset), offset), BlockSize)
  {
    var h := HeaderAt(media, offset);
    AlignedStep(offset, BlockSize);
    AlignedAdd(offset + BlockSize, RoundUp(FileSize(h), BlockSize), BlockSize);
  }

  /**
   * What one step of the walk can do: stop with the entries it was given,
   * or move past a skipped or kept header, inserting at most that
   * header's entry under an accepted path.
   */
  lemma WalkStepShape(media: seq<Octet>, ignoreChecksum: bool, verify: seq<Octet> -> bool, offset: nat, acc: map<seq<Octet>, TarEntry>)
    ensures var step := WalkStep(media, ignoreChecksum, verify, offset, acc);
      step.Stop? ==> step.result.entries == acc
    ensures var step := WalkStep(media, ignoreChecksum, verify, offset, acc);
      step.Next? ==> HeaderVerdict(media, ignoreChecksum, offset) in {Skip, Keep}
    ensures var step := WalkStep(media, ignoreChecksum, verify, offset, acc);
      step.Next? ==> var h := HeaderAt(media, offset);
        var path := TarPathText(h[..NameSize]);
        step.offset == NextHeader(h, offset)
        && (step.acc == acc || (verify(path) && step.acc == acc[path := TarEntry(h, offset + BlockSize)]))
  {
  }

  /** One step of the walk keeps the entries on the media and the offset block-aligned. */
  lemma WalkStepEntries(media: seq<Octet>, ignoreChecksum: bool, verify: seq<Octet> -> bool, offset: nat, acc: map<seq<Octet>, TarEntry>)
    requires IsAligned(offset, BlockSize) && EntriesOnMedia(media, verify, acc)
    ensures var step := WalkStep(media, ignoreChecksum, verify, offset, acc);
      step.Stop? ==> step.result.entries == acc
    ensures var step := WalkStep(media, ignoreChecksum, verify, offset, acc);
      step.Next? ==> IsAligned(step.offset, BlockSize) && EntriesOnMedia(media, verify, step.acc)
  {
    var step := WalkStep(media, ignoreChecksum, verify, offset, acc);
    WalkStepShape(media, ignoreChecksum, verify, offset, acc);
    if step.Next? {
      HeaderEntryOnMedia(media, offset);
      var h := HeaderAt(media, offset);
      var path := TarPathText(h[..NameSize]);
      if step.acc != acc {
        TarPathTextFacts(h[..NameSize]);
        InsertOnMedia(media, verify, acc, path, TarEntry(h, offset + BlockSize));
      }
    }
  }

  /** Inserting an entry on the media under an accepted path keeps every entry on the media. */
  lemma InsertOnMedia(media: seq<Octet>, verify: seq<Octet> -> bool, acc: map<seq<Octet>, TarEntry>, path: seq<Octet>, e: TarEntry)
    requires EntriesOnMedia(media, verify, acc) && EntryOnMedia(media, e)
    requires PathAccepted(verify, path) && EntryType(e.header) != NoType
    ensures EntriesOnMedia(media, verify, acc[path := e])
  {
  }

  /** The walk inserts only entries on the media under accepted paths. */
  lemma {:induction false} WalkEntries(media: seq<Octet>, ignoreChecksum: bool, verify: seq<Octet> -> bool, offset: nat, acc: map<seq<Octet>, TarEntry>)
    requires IsAligned(offset, BlockSize) && EntriesOnMedia(media, verify, acc)
    ensures EntriesOnMedia(media, verify, Walk(media, ignoreChecksum, verify, offset, acc).entries)
    decreases |media| - offset
  {
    if offset < |media| {
      WalkStepEntries(media, ignoreChecksum, verify, offset, acc);
      match WalkStep(media, ignoreChecksum, verify, offset, acc)
      case Stop(result) =>
      case Next(next, acc') => WalkEntries(media, ignoreChecksum, verify, next, acc');
    }
  }

  /** Every entry `ParseTar` returns lies on the media under an accepted path, whatever status it ends with. */
  lemma ParsedEntries(media: seq<Octet>, ignoreChecksum: bool, verify: seq<Octet> -> bool)
    ensures EntriesOnMedia(media, verify, Walk(media, ignoreChecksum, verify, 0, map[]).entries)
  {
    WalkEntries(media, ignoreChecksum, verify, 0, map[]);
  }

  /** A header whose data runs past the end of the media ends the parse with `InvalidInput`, keeping the entries found before it. */
  lemma DataPastEndIsInvalid(media: seq<Octet>, ignoreChecksum: bool, verify: seq<Octet> -> bool, offset: nat, acc: map<seq<Octet>, TarEntry>)
    requires offset + HeaderSize <= |media|
    requires var h := HeaderAt(media, offset);
      h[0] != Nul && h[MagicField..MagicField + 6] == Magic
      && (ignoreChecksum || ReportedChecksum(h) == ActualChecksum(h))
      && FileSize(h) + offset + BlockSize > |media|
    ensures Walk(media, ignoreChecksum, verify, offset, acc) == Parse(InvalidInput, acc)
  {
    assert HeaderVerdict(media, ignoreChecksum, offset) == Invalid;
  }

  /** An archive that begins with an empty name has no entries. */
  lemma EmptyArchive(media: seq<Octet>, ignoreChecksum: bool, verify: seq<Octet> -> bool)
    requires |media| >= HeaderSize && media[0] == Nul
    ensures Walk(media, ignoreChecksum, verify, 0, map[]) == Parse(Success, map[])
  {
  }

  // ---------------------------------------------------------------------
  // TarFsFile
  // ---------------------------------------------------------------------

  /** A media read: `length` bytes from `at`, cut short at the end of the media. */
  function DeviceRead(media: seq<Octet>, at: nat, length: nat): (r: seq<Octet>)
    ensures |r| <= length
    ensures at + length <= |media| ==> r == media[at..at + length]
  {
    if at >= |media| then []
    else if at + length <= |media| then media[at..at + length]
    else media[at..]
  }

  datatype ReadResult = ReadResult(status: OsStatus, read: nat, data: seq<Octet>)

  /**
   * `TarFsFile::read`: `EndOfFile` with nothing read at or past the end
   * of the file; otherwise the bytes from `offset`, as many as the
   * buffer of `length` bytes and the rest of the file allow.
   */
  function FileRead(media: seq<Octet>, file: TarEntry, offset: nat, length: nat): (r: ReadResult)
    ensures r.status == EndOfFile <==> offset >= FileSize(file.header)
    ensures r.status != EndOfFile ==> r.status == Success
    ensures r.read == |r.data| && r.read <= length
    ensures r.status == Success ==> r.read <= FileSize(file.header) - offset
    ensures r.status == EndOfFile ==> r.read == 0
  {
    var size := FileSize(file.header);
    if offset >= size then ReadResult(EndOfFile, 0, [])
    else
      var toRead := if size - offset < length then size - offset else length;
      var data := DeviceRead(media, file.offset + offset, toRead);
      ReadResult(Success, |data|, data)
  }

  /** A file of a parsed archive reads exactly the bytes of its data that the request asks for. */
  lemma ReadOfParsedFile(media: seq<Octet>, file: TarEntry, offset: nat, length: nat)
    requires EntryOnMedia(media, file) && offset < FileSize(file.header)
    ensures var n := if FileSize(file.header) - offset < length then FileSize(file.header) - offset else length;
      FileRead(media, file, offset, length) == ReadResult(Success, n, media[file.offset + offset..file.offset + offset + n])
  {
  }

  /** `NodeStat`. */
  datatype NodeStat = NodeStat(logical: nat, blksize: nat, blocks: nat)

  /** `TarFsFile::stat`: the size, 512-byte blocks, and the fewest blocks that hold the file. */
  function FileStat(file: TarEntry): (s: NodeStat)
    ensures s.logical == FileSize(file.header) && s.blksize == BlockSize
    ensures s.blocks * BlockSize >= s.logical && (s.blocks > 0 ==> (s.blocks - 1) * BlockSize < s.logical)
  {
    var size := FileSize(file.header);
    NodeStat(size, BlockSize, Layouts.PagesOf(size, BlockSize))
  }
}
