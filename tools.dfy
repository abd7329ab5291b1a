/**
 * The names and paths built by cfgbkc/src/tools.rs: the archive path of
 * `compress_tar_gz_target`, the staging directory of `generate_tempdir` and
 * the time-stamped label of `generate_randname_with_time`. The random
 * generator and the clock are inputs; the filesystem calls are represented
 * only by their outcomes.
 */
module Tools {
  import opened Wrappers
  import opened Hex
  import opened Decimal
  import opened Paths

  const ArchiveSuffix: string := ".tar.gz"
  const TempdirPrefix: string := "tmp_"
  /** Random bytes in a staging-directory name (32 hex characters). */
  const TempdirRandomBytes: nat := 16
  /** Random bytes in a generated archive label (16 hex characters). */
  const RandnameRandomBytes: nat := 8

  // ---------------------------------------------------------------------------
  // compress_tar_gz_target

  /** `format!("{filename}.tar.gz")` */
  function ArchiveFileName(filename: string): (name: string)
    ensures EndsWith(name, ArchiveSuffix)
    ensures |name| == |filename| + |ArchiveSuffix| && name[..|filename|] == filename
  {
    var name := filename + ArchiveSuffix;
    assert name[|name| - |ArchiveSuffix|..] == ArchiveSuffix;
    name
  }

  /**
   * `save_path.join(tar_filename)`: where the archive is written. Whatever the
   * file name, the archive's own name ends with ".tar.gz".
   */
  function ArchivePath(savePath: Path, filename: string): (p: Path)
    ensures FileName(p).Some? && EndsWith(FileName(p).value, ArchiveSuffix)
  {
    ArchiveSuffixIsComponent();
    JoinWithSuffix(savePath, filename, ArchiveSuffix);
    Join(savePath, ArchiveFileName(filename))
  }

  lemma ArchiveSuffixIsComponent()
    ensures IsComponent(ArchiveSuffix)
  {
    assert ArchiveSuffix == ['.', 't', 'a', 'r', '.', 'g', 'z'];
  }

  /** A file name without separators puts the archive directly inside the save directory. */
  lemma ArchivePathIsChild(savePath: Path, filename: string)
    requires Separator !in filename
    ensures Parent(ArchivePath(savePath, filename)) == Some(savePath)
    ensures FileName(ArchivePath(savePath, filename)) == Some(filename + ArchiveSuffix)
  {
    ArchiveSuffixIsComponent();
    PlainWithSuffix(filename, ArchiveSuffix);
    assert |filename + ArchiveSuffix| >= 7;
    JoinComponent(savePath, filename + ArchiveSuffix);
  }

  /** Different separator-free file names give different archive paths in the same directory. */
  lemma ArchivePathInjective(savePath: Path, name1: string, name2: string)
    requires Separator !in name1 && Separator !in name2
    requires ArchivePath(savePath, name1) == ArchivePath(savePath, name2)
    ensures name1 == name2
  {
    ArchivePathIsChild(savePath, name1);
    ArchivePathIsChild(savePath, name2);
    assert |name1| == |name2|;
    assert name1 == (name1 + ArchiveSuffix)[..|name1|];
    assert name2 == (name2 + ArchiveSuffix)[..|name2|];
  }

  /**
   * `compress_tar_gz_target` with the outcomes of its filesystem steps as
   * inputs: creating the save directory when it is missing, creating the
   * archive file, and `append_dir_all`. The first failing step's error is
   * returned; otherwise the archive path. The streams are finished only when
   * they are dropped, after the function has returned.
   */
  function CompressTarGzTarget(savePath: Path, filename: string, saveExists: bool,
                               mkdir: Outcome, create: Outcome, append: Outcome): (r: Result<Path>)
    ensures r.Ok? <==> (saveExists || mkdir.Pass?) && create.Pass? && append.Pass?
    ensures !saveExists && mkdir.Fail? ==> r == Err(mkdir.error)
    ensures (saveExists || mkdir.Pass?) && create.Fail? ==> r == Err(create.error)
    ensures (saveExists || mkdir.Pass?) && create.Pass? && append.Fail? ==> r == Err(append.error)
    ensures r.Ok? ==> r.value == ArchivePath(savePath, filename)
    ensures r.Ok? ==> FileName(r.value).Some? && EndsWith(FileName(r.value).value, ArchiveSuffix)
    ensures r.Ok? && Separator !in filename ==> Parent(r.value) == Some(savePath)
  {
    if !saveExists && mkdir.Fail? then Err(mkdir.error)
    else if create.Fail? then Err(create.error)
    else if append.Fail? then Err(append.error)
    else
      var p := ArchivePath(savePath, filename);
      assert Separator !in filename ==> Parent(p) == Some(savePath) by {
        if Separator !in filename {
          ArchivePathIsChild(savePath, filename);
        }
      }
      Ok(p)
  }

  // ---------------------------------------------------------------------------
  // generate_tempdir

  /** `format!("tmp_{}", hex)`, where hex encodes the drawn bytes. */
  function TempdirName(bytes: seq<Byte>): (name: string)
    ensures |name| == |TempdirPrefix| + 2 * |bytes|
    ensures IsComponent(name) && name != ".."
  {
    var name := TempdirPrefix + HexEncode(bytes);
    assert Separator !in name by {
      forall k | 0 <= k < |name| ensures name[k] != Separator {
        if k >= 4 {
          assert name[k] == HexEncode(bytes)[k - 4];
        }
      }
    }
    name
  }

  /** A staging-directory name is "tmp_" and 32 lowercase hex digits, and is a single component. */
  lemma TempdirNameShape(bytes: seq<Byte>)
    requires |bytes| == TempdirRandomBytes
    ensures var name := TempdirName(bytes);
      |name| == 36 && name[..4] == TempdirPrefix &&
      (forall k :: 4 <= k < 36 ==> IsLowerHex(name[k])) &&
      IsComponent(name) && name != ".."
  {
    var name := TempdirName(bytes);
    forall k | 4 <= k < 36 ensures IsLowerHex(name[k]) {
      assert name[k] == HexEncode(bytes)[k - 4];
    }
  }

  /** Different draws give different staging-directory names. */
  lemma TempdirNameInjective(a: seq<Byte>, b: seq<Byte>)
    requires TempdirName(a) == TempdirName(b)
    ensures a == b
  {
    assert HexEncode(a) == TempdirName(a)[4..];
    assert HexEncode(b) == TempdirName(b)[4..];
    HexEncodeInjective(a, b);
  }

  /**
   * `generate_tempdir(path)`: the directory `path/tmp_<32 hex>` named from 16
   * random draws. Its only failure is that of creating the directory.
   */
  function GenerateTempdir(base: Path, rng: nat -> Byte, mkdir: Outcome): (r: Result<Path>)
    ensures mkdir.Fail? ==> r == Err(mkdir.error)
    ensures mkdir.Pass? ==>
      r.Ok? && Parent(r.value) == Some(base) &&
      FileName(r.value) == Some(TempdirName(Draws(TempdirRandomBytes, rng)))
  {
    var name := TempdirName(Draws(TempdirRandomBytes, rng));
    TempdirNameShape(Draws(TempdirRandomBytes, rng));
    JoinComponent(base, name);
    if mkdir.Fail? then Err(mkdir.error) else Ok(Join(base, name))
  }

  /** Two staging directories under one base differ whenever their random draws differ. */
  lemma TempdirsDistinct(base: Path, rng1: nat -> Byte, rng2: nat -> Byte)
    requires Draws(TempdirRandomBytes, rng1) != Draws(TempdirRandomBytes, rng2)
    ensures GenerateTempdir(base, rng1, Pass) != GenerateTempdir(base, rng2, Pass)
  {
    var d1, d2 := Draws(TempdirRandomBytes, rng1), Draws(TempdirRandomBytes, rng2);
    if GenerateTempdir(base, rng1, Pass) == GenerateTempdir(base, rng2, Pass) {
      assert TempdirName(d1) == TempdirName(d2);
      TempdirNameInjective(d1, d2);
    }
  }

  // ---------------------------------------------------------------------------
  // generate_randname_with_time

  type Month = m: int | 1 <= m <= 12 witness 1
  type Day = d: int | 1 <= d <= 31 witness 1
  type Hour = h: int | 0 <= h < 24
  type Minute = m: int | 0 <= m < 60
  /** chrono shows a leap second as second 60. */
  type Second = s: int | 0 <= s <= 60

  /**
   * The fields of `Local::now()` that `%Y%m%d_%H%M%S` prints; its sub-second
   * part and UTC offset are not kept.
   */
  datatype LocalTime = LocalTime(year: int, month: Month, day: Day, hour: Hour, minute: Minute, second: Second)

  /**
   * chrono's `%Y`: years 0 to 9999 as four zero-padded digits; any other year
   * with an explicit sign before its (at least four) digits.
   */
  function FormatYear(year: int): (s: string)
    ensures 0 <= year < 10000 ==> |s| == 4 && AllDigits(s) && Value(s) == year
    ensures !(0 <= year < 10000) ==>
      |s| >= 5 && s[0] == (if year < 0 then '-' else '+') &&
      AllDigits(s[1..]) && Value(s[1..]) == (if year < 0 then -year else year)
    ensures Separator !in s
  {
    var magnitude := if year < 0 then -year else year;
    var digits := ZeroPadded(magnitude, 4);
    ValueOfZeroPadded(magnitude, 4);
    DigitsHaveNoSeparator(digits);
    if 0 <= year < 10000 then
      Widths();
      ZeroPaddedWidth(year, 4);
      digits
    else
      var s := (if year < 0 then "-" else "+") + digits;
      assert s[1..] == digits;
      s
  }

  /** `now_time.format("%Y%m%d_%H%M%S")` */
  function FormatLocalTime(t: LocalTime): (s: string)
    ensures Separator !in s
    ensures 0 <= t.year < 10000 ==> |s| == 15 && s[8] == '_'
  {
    var mo, d := ZeroPadded(t.month, 2), ZeroPadded(t.day, 2);
    var h, mi, se := ZeroPadded(t.hour, 2), ZeroPadded(t.minute, 2), ZeroPadded(t.second, 2);
    DigitsHaveNoSeparator(mo);
    DigitsHaveNoSeparator(d);
    DigitsHaveNoSeparator(h);
    DigitsHaveNoSeparator(mi);
    DigitsHaveNoSeparator(se);
    Widths();
    ZeroPaddedWidth(t.month, 2);
    ZeroPaddedWidth(t.day, 2);
    ZeroPaddedWidth(t.hour, 2);
    ZeroPaddedWidth(t.minute, 2);
    ZeroPaddedWidth(t.second, 2);
    FormatYear(t.year) + mo + d + "_" + h + mi + se
  }

  /**
   * The label `<YYYYmmdd>_<HHMMSS>_<hex>` for a time and some drawn bytes. For
   * every time, even one outside the four-digit years, it is a single path
   * component, and it ends with the hex encoding of the bytes.
   */
  function Randname(t: LocalTime, bytes: seq<Byte>): (r: string)
    ensures Separator !in r
    ensures EndsWith(r, HexEncode(bytes))
  {
    var hex := HexEncode(bytes);
    HexHasNoSeparator(bytes);
    var r := FormatLocalTime(t) + "_" + hex;
    assert r[|r| - |hex|..] == hex;
    r
  }

  /** `generate_randname_with_time()`: the label for the current time and 8 random draws. It cannot fail. */
  function GenerateRandnameWithTime(now: LocalTime, rng: nat -> Byte): (r: Result<string>)
    ensures r.Ok?
    ensures r.value == Randname(now, Draws(RandnameRandomBytes, rng))
    ensures Separator !in r.value
  {
    Ok(Randname(now, Draws(RandnameRandomBytes, rng)))
  }

  /** Reads a label back into its time and bytes; None for anything not shaped like a label. */
  function ParseRandname(s: string): Option<(LocalTime, seq<Byte>)> {
    if |s| != 32 || s[8] != '_' || s[15] != '_' then None
    else
      var y, mo, d, h, mi, se := s[..4], s[4..6], s[6..8], s[9..11], s[11..13], s[13..15];
      if !(AllDigits(y) && AllDigits(mo) && AllDigits(d) && AllDigits(h) && AllDigits(mi) && AllDigits(se))
      then None
      else
        var month, day, hour, minute, second := Value(mo), Value(d), Value(h), Value(mi), Value(se);
        if !(1 <= month <= 12 && 1 <= day <= 31 && hour < 24 && minute < 60 && second <= 60) then None
        else
          match HexDecode(s[16..])
          case None => None
          case Some(bytes) => Some((LocalTime(Value(y), month, day, hour, minute, second), bytes))
  }

  lemma AllDigitsAppend(a: string, b: string)
    requires AllDigits(a) && AllDigits(b)
    ensures AllDigits(a + b)
  {
    forall i | 0 <= i < |a + b| ensures IsDigit((a + b)[i]) {
      if i >= |a| {
        assert (a + b)[i] == b[i - |a|];
      }
    }
  }

  lemma DigitsHaveNoSeparator(s: string)
    requires AllDigits(s)
    ensures Separator !in s
  {
    forall i | 0 <= i < |s| ensures s[i] != Separator {
      assert IsDigit(s[i]);
    }
  }

  lemma HexHasNoSeparator(bytes: seq<Byte>)
    ensures Separator !in HexEncode(bytes)
  {
    var s := HexEncode(bytes);
    forall i | 0 <= i < |s| ensures s[i] != Separator {
      assert IsLowerHex(s[i]);
    }
  }

  lemma Widths()
    ensures Pow10(2) == 100 && Pow10(4) == 10000
  {
    assert Pow10(1) == 10;
    assert Pow10(3) == 1000;
  }

  /** Where each field sits in a label whose fields have their fixed widths. */
  lemma LabelLayout(y: string, mo: string, d: string, h: string, mi: string, se: string, hex: string)
    requires |y| == 4 && |mo| == 2 && |d| == 2 && |h| == 2 && |mi| == 2 && |se| == 2
    ensures var s := y + mo + d + "_" + h + mi + se + "_" + hex;
      |s| == 16 + |hex| && s[8] == '_' && s[15] == '_' &&
      s[..8] == y + mo + d && s[9..15] == h + mi + se &&
      s[..4] == y && s[4..6] == mo && s[6..8] == d &&
      s[9..11] == h && s[11..13] == mi && s[13..15] == se && s[16..] == hex
  {
  }

  /** The label with its fields laid out one after another. */
  lemma RandnameFields(t: LocalTime, bytes: seq<Byte>)
    requires 0 <= t.year < 10000
    ensures Randname(t, bytes) ==
      ZeroPadded(t.year, 4) + ZeroPadded(t.month, 2) + ZeroPadded(t.day, 2) + "_" +
      ZeroPadded(t.hour, 2) + ZeroPadded(t.minute, 2) + ZeroPadded(t.second, 2) + "_" + HexEncode(bytes)
  {
  }

  lemma FieldWidths(t: LocalTime)
    requires 0 <= t.year < 10000
    ensures |ZeroPadded(t.year, 4)| == 4 && |ZeroPadded(t.month, 2)| == 2 && |ZeroPadded(t.day, 2)| == 2
    ensures |ZeroPadded(t.hour, 2)| == 2 && |ZeroPadded(t.minute, 2)| == 2 && |ZeroPadded(t.second, 2)| == 2
  {
    Widths();
    ZeroPaddedWidth(t.year, 4);
    ZeroPaddedWidth(t.month, 2);
    ZeroPaddedWidth(t.day, 2);
    ZeroPaddedWidth(t.hour, 2);
    ZeroPaddedWidth(t.minute, 2);
    ZeroPaddedWidth(t.second, 2);
  }

  /**
   * For a four-digit year and 8 bytes, the label is 8 date digits, '_',
   * 6 time digits, '_' and 16 lowercase hex digits: 32 characters.
   */
  lemma RandnameShape(t: LocalTime, bytes: seq<Byte>)
    requires 0 <= t.year < 10000 && |bytes| == RandnameRandomBytes
    ensures var s := Randname(t, bytes);
      |s| == 32 && s[8] == '_' && s[15] == '_' &&
      AllDigits(s[..8]) && AllDigits(s[9..15]) &&
      (forall k :: 16 <= k < 32 ==> IsLowerHex(s[k]))
  {
    var y, mo, d := ZeroPadded(t.year, 4), ZeroPadded(t.month, 2), ZeroPadded(t.day, 2);
    var h, mi, se := ZeroPadded(t.hour, 2), ZeroPadded(t.minute, 2), ZeroPadded(t.second, 2);
    var hex := HexEncode(bytes);
    var s := Randname(t, bytes);
    FieldWidths(t);
    RandnameFields(t, bytes);
    LabelLayout(y, mo, d, h, mi, se, hex);
    AllDigitsAppend(y, mo);
    AllDigitsAppend(y + mo, d);
    AllDigitsAppend(h, mi);
    AllDigitsAppend(h + mi, se);
    forall k | 16 <= k < 32 ensures IsLowerHex(s[k]) {
      assert s[k] == s[16..][k - 16];
    }
  }

  /** Parsing a label recovers the time and the bytes it was made from. */
  lemma RandnameRoundTrip(t: LocalTime, bytes: seq<Byte>)
    requires 0 <= t.year < 10000 && |bytes| == RandnameRandomBytes
    ensures ParseRandname(Randname(t, bytes)) == Some((t, bytes))
  {
    var y, mo, d := ZeroPadded(t.year, 4), ZeroPadded(t.month, 2), ZeroPadded(t.day, 2);
    var h, mi, se := ZeroPadded(t.hour, 2), ZeroPadded(t.minute, 2), ZeroPadded(t.second, 2);
    FieldWidths(t);
    RandnameFields(t, bytes);
    LabelLayout(y, mo, d, h, mi, se, HexEncode(bytes));
    ValueOfZeroPadded(t.year, 4);
    ValueOfZeroPadded(t.month, 2);
    ValueOfZeroPadded(t.day, 2);
    ValueOfZeroPadded(t.hour, 2);
    ValueOfZeroPadded(t.minute, 2);
    ValueOfZeroPadded(t.second, 2);
    DecodeEncode(bytes);
    ParseFields(Randname(t, bytes), t, bytes);
  }

  /** A string whose fields read as t and bytes parses to them. */
  lemma ParseFields(s: string, t: LocalTime, bytes: seq<Byte>)
    requires |s| == 32 && s[8] == '_' && s[15] == '_'
    requires AllDigits(s[..4]) && Value(s[..4]) == t.year
    requires AllDigits(s[4..6]) && Value(s[4..6]) == t.month
    requires AllDigits(s[6..8]) && Value(s[6..8]) == t.day
    requires AllDigits(s[9..11]) && Value(s[9..11]) == t.hour
    requires AllDigits(s[11..13]) && Value(s[11..13]) == t.minute
    requires AllDigits(s[13..15]) && Value(s[13..15]) == t.second
    requires HexDecode(s[16..]) == Some(bytes)
    ensures ParseRandname(s) == Some((t, bytes))
  {
  }

  /** What a successful parse has checked of each field. */
  lemma ParsedFields(s: string, t: LocalTime, bytes: seq<Byte>)
    requires ParseRandname(s) == Some((t, bytes))
    ensures |s| == 32 && s[8] == '_' && s[15] == '_'
    ensures AllDigits(s[..4]) && Value(s[..4]) == t.year
    ensures AllDigits(s[4..6]) && Value(s[4..6]) == t.month
    ensures AllDigits(s[6..8]) && Value(s[6..8]) == t.day
    ensures AllDigits(s[9..11]) && Value(s[9..11]) == t.hour
    ensures AllDigits(s[11..13]) && Value(s[11..13]) == t.minute
    ensures AllDigits(s[13..15]) && Value(s[13..15]) == t.second
    ensures HexDecode(s[16..]) == Some(bytes)
  {
  }

  /** A string whose fields read as t and bytes is the label of t and bytes. */
  lemma FieldsToRandname(s: string, t: LocalTime, bytes: seq<Byte>)
    requires |s| == 32 && s[8] == '_' && s[15] == '_'
    requires AllDigits(s[..4]) && Value(s[..4]) == t.year
    requires AllDigits(s[4..6]) && Value(s[4..6]) == t.month
    requires AllDigits(s[6..8]) && Value(s[6..8]) == t.day
    requires AllDigits(s[9..11]) && Value(s[9..11]) == t.hour
    requires AllDigits(s[11..13]) && Value(s[11..13]) == t.minute
    requires AllDigits(s[13..15]) && Value(s[13..15]) == t.second
    requires HexDecode(s[16..]) == Some(bytes)
    ensures 0 <= t.year < 10000 && |bytes| == RandnameRandomBytes
    ensures Randname(t, bytes) == s
  {
    Widths();
    var y, mo, d, h, mi, se := s[..4], s[4..6], s[6..8], s[9..11], s[11..13], s[13..15];
    ValueBound(y);
    ZeroPaddedOfValue(y);
    ZeroPaddedOfValue(mo);
    ZeroPaddedOfValue(d);
    ZeroPaddedOfValue(h);
    ZeroPaddedOfValue(mi);
    ZeroPaddedOfValue(se);
    EncodeDecode(s[16..], bytes);
    RandnameFields(t, bytes);
    Reassemble(s);
  }

  /** A 32-character string with '_' at 8 and 15 is its fields put back together. */
  lemma Reassemble(s: string)
    requires |s| == 32 && s[8] == '_' && s[15] == '_'
    ensures s == s[..4] + s[4..6] + s[6..8] + "_" + s[9..11] + s[11..13] + s[13..15] + "_" + s[16..]
  {
  }

  /** Only labels parse: whatever parses is the label of what it parses to. */
  lemma ParseRandnameSound(s: string, t: LocalTime, bytes: seq<Byte>)
    requires ParseRandname(s) == Some((t, bytes))
    ensures 0 <= t.year < 10000 && |bytes| == RandnameRandomBytes
    ensures Randname(t, bytes) == s
  {
    ParsedFields(s, t, bytes);
    FieldsToRandname(s, t, bytes);
  }

  /** Labels are injective in the time and the bytes. */
  lemma RandnameInjective(t1: LocalTime, b1: seq<Byte>, t2: LocalTime, b2: seq<Byte>)
    requires 0 <= t1.year < 10000 && |b1| == RandnameRandomBytes
    requires 0 <= t2.year < 10000 && |b2| == RandnameRandomBytes
    requires Randname(t1, b1) == Randname(t2, b2)
    ensures t1 == t2 && b1 == b2
  {
    RandnameRoundTrip(t1, b1);
    RandnameRoundTrip(t2, b2);
  }

  /**
   * An archive named by a generated label lands directly in the save
   * directory as `<label>.tar.gz`; two runs that differ in their printed
   * local date and time (to the second) or in their draws write different
   * archive files.
   */
  lemma GeneratedArchivesDistinct(savePath: Path, now1: LocalTime, rng1: nat -> Byte,
                                  now2: LocalTime, rng2: nat -> Byte)
    requires 0 <= now1.year < 10000 && 0 <= now2.year < 10000
    requires now1 != now2 || Draws(RandnameRandomBytes, rng1) != Draws(RandnameRandomBytes, rng2)
    ensures var label1 := GenerateRandnameWithTime(now1, rng1).value;
      Parent(ArchivePath(savePath, label1)) == Some(savePath) &&
      FileName(ArchivePath(savePath, label1)) == Some(label1 + ArchiveSuffix)
    ensures ArchivePath(savePath, GenerateRandnameWithTime(now1, rng1).value)
      != ArchivePath(savePath, GenerateRandnameWithTime(now2, rng2).value)
  {
    var label1 := GenerateRandnameWithTime(now1, rng1).value;
    var label2 := GenerateRandnameWithTime(now2, rng2).value;
    ArchivePathIsChild(savePath, label1);
    if ArchivePath(savePath, label1) == ArchivePath(savePath, label2) {
      ArchivePathInjective(savePath, label1, label2);
      RandnameInjective(now1, Draws(RandnameRandomBytes, rng1), now2, Draws(RandnameRandomBytes, rng2));
    }
  }
}
