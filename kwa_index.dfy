/**
 * The text side of a KW archive: the decimal rendering that `operator<<`
 * gives the 64-bit integers of an index line, the basename of an archive
 * path as `vul_file::basename` computes it, and the fixed header of the
 * `.index` stream. Each rendering has a parser beside it, so that the
 * index can be shown to be read back as it was written.
 */
module KwaIndex {
  import opened Opt

  // ---------------------------------------------------------------------
  // Decimal integers

  predicate IsDigit(c: char) { '0' <= c <= '9' }

  function DigitChar(d: nat): (c: char)
    requires d < 10
    ensures IsDigit(c)
  {
    ('0' as int + d) as char
  }

  function DigitValue(c: char): (d: nat)
    requires IsDigit(c)
    ensures d < 10 && DigitChar(d) == c
  {
    c as int - '0' as int
  }

  /** The decimal digits of `n`, most significant first, without leading zeros. */
  function NatToDecimal(n: nat): (s: string)
    ensures |s| >= 1
    ensures forall i :: 0 <= i < |s| ==> IsDigit(s[i])
    ensures |s| > 1 ==> s[0] != '0'
    decreases n
  {
    if n < 10 then [DigitChar(n)] else NatToDecimal(n / 10) + [DigitChar(n % 10)]
  }

  /** How a stream inserts a signed 64-bit integer: a '-' for a negative value, then the digits. */
  function IntToDecimal(i: int): (s: string)
  {
    if i < 0 then "-" + NatToDecimal(-i) else NatToDecimal(i)
  }

  /** Reads a non-empty run of decimal digits; anything else is refused. */
  function ParseDigits(s: string): (r: Option<nat>)
    ensures r.Some? ==> |s| >= 1 && forall i :: 0 <= i < |s| ==> IsDigit(s[i])
    decreases |s|
  {
    if |s| == 0 || !IsDigit(s[|s| - 1]) then None
    else if |s| == 1 then Some(DigitValue(s[0]))
    else
      match ParseDigits(s[..|s| - 1])
      case None => None
      case Some(v) => Some(10 * v + DigitValue(s[|s| - 1]))
  }

  /** Reads an optionally negative decimal integer. */
  function ParseInt(s: string): (r: Option<int>)
  {
    if |s| > 0 && s[0] == '-' then
      match ParseDigits(s[1..])
      case None => None
      case Some(v) => Some(-(v as int))
    else
      match ParseDigits(s)
      case None => None
      case Some(v) => Some(v)
  }

  lemma {:induction false} ParseNatToDecimal(n: nat)
    ensures ParseDigits(NatToDecimal(n)) == Some(n)
    decreases n
  {
    var s := NatToDecimal(n);
    if n >= 10 {
      assert s[..|s| - 1] == NatToDecimal(n / 10);
      ParseNatToDecimal(n / 10);
    }
  }

  /** Every integer inserted into the index reads back as itself. */
  lemma {:induction false} ParseIntToDecimal(i: int)
    ensures ParseInt(IntToDecimal(i)) == Some(i)
  {
    var s := IntToDecimal(i);
    if i < 0 {
      var digits := NatToDecimal(-i);
      assert s == "-" + digits && s[1..] == digits;
      ParseNatToDecimal(-i);
      assert ParseDigits(s[1..]) == Some(-i);
    } else {
      assert IsDigit(s[0]);
      ParseNatToDecimal(i);
    }
  }

  // ---------------------------------------------------------------------
  // Index lines

  /** The first position of a space in `s`, if there is one. */
  function FindSpace(s: string): (r: Option<nat>)
    ensures r.Some? ==> r.value < |s| && s[r.value] == ' ' && ' ' !in s[..r.value]
    ensures r.None? ==> ' ' !in s
  {
    if |s| == 0 then None
    else if s[0] == ' ' then Some(0)
    else
      match FindSpace(s[1..])
      case None => None
      case Some(k) =>
        assert s[..k + 1] == [s[0]] + s[1..][..k];
        Some(k + 1)
  }

  /**
   * The index line written for one frame: its timestamp in microseconds, a
   * space, and the position of its record in the data stream.
   */
  function FrameLine(usec: int, offset: int): string
  {
    IntToDecimal(usec) + " " + IntToDecimal(offset)
  }

  /** Splits an index line at its first space and reads the two integers. */
  function ParseFrameLine(line: string): (r: Option<(int, int)>)
  {
    match FindSpace(line)
    case None => None
    case Some(k) =>
      match (ParseInt(line[..k]), ParseInt(line[k + 1..]))
      case (Some(usec), Some(offset)) => Some((usec, offset))
      case _ => None
  }

  /**
   * The decimal form of an integer: a '-' exactly when it is negative, then
   * one or more digits, without a leading zero.
   */
  lemma DecimalForm(i: int)
    ensures var s := IntToDecimal(i);
            var sign := if i < 0 then 1 else 0;
            && |s| > sign
            && (s[0] == '-' <==> i < 0)
            && (forall k :: sign <= k < |s| ==> IsDigit(s[k]))
            && (|s| > sign + 1 ==> s[sign] != '0')
  {
    var s := IntToDecimal(i);
    if i < 0 {
      var digits := NatToDecimal(-i);
      forall k | 1 <= k < |s|
        ensures IsDigit(s[k])
      {
        assert s[k] == digits[k - 1];
      }
    } else {
      assert IsDigit(s[0]);
    }
  }

  /** A decimal integer is one word on one line: it holds no space and no newline. */
  lemma NoSpaceInDecimal(i: int)
    ensures ' ' !in IntToDecimal(i)
    ensures '\n' !in IntToDecimal(i)
  {
    var s := IntToDecimal(i);
    DecimalForm(i);
    forall k | 0 <= k < |s|
      ensures s[k] != ' ' && s[k] != '\n'
    {
      if k > 0 || i >= 0 {
        assert IsDigit(s[k]);
      }
    }
  }

  lemma {:induction false} FindSpaceAfter(a: string, b: string)
    requires ' ' !in a
    ensures FindSpace(a + " " + b) == Some(|a|)
  {
    if |a| > 0 {
      assert (a + " " + b)[1..] == a[1..] + " " + b;
      assert ' ' !in a[1..] by {
        forall k | 0 <= k < |a| - 1 ensures a[1..][k] != ' ' {
          assert a[1..][k] == a[k + 1];
        }
      }
      FindSpaceAfter(a[1..], b);
    }
  }

  /** A frame line reads back as the timestamp and offset it was written from. */
  lemma {:induction false} ParseFrameLineRoundTrip(usec: int, offset: int)
    ensures ParseFrameLine(FrameLine(usec, offset)) == Some((usec, offset))
  {
    var a, b := IntToDecimal(usec), IntToDecimal(offset);
    var line := FrameLine(usec, offset);
    NoSpaceInDecimal(usec);
    FindSpaceAfter(a, b);
    assert line[..|a|] == a;
    assert line[|a| + 1..] == b;
    ParseIntToDecimal(usec);
    ParseIntToDecimal(offset);
  }

  /** A frame line is one line of the index file: it holds no newline. */
  lemma FrameLineIsOneLine(usec: int, offset: int)
    ensures '\n' !in FrameLine(usec, offset)
  {
    NoSpaceInDecimal(usec);
    NoSpaceInDecimal(offset);
  }

  // ---------------------------------------------------------------------
  // The index file as text

  /** The text of the index file: every line followed by a newline, as `<< "\n"` and `std::endl` write it. */
  function IndexText(lines: seq<string>): string
  {
    if |lines| == 0 then "" else lines[0] + "\n" + IndexText(lines[1..])
  }

  /** The length of the first line of `text`: up to its first newline, or all of it. */
  function LineEnd(text: string): (n: nat)
    ensures n <= |text|
    ensures n < |text| ==> text[n] == '\n'
  {
    if |text| == 0 || text[0] == '\n' then 0 else 1 + LineEnd(text[1..])
  }

  /** Splits a text into its lines, each without its newline; a last unterminated line is kept. */
  function SplitLines(text: string): seq<string>
    decreases |text|
  {
    if |text| == 0 then []
    else
      var n := LineEnd(text);
      if n == |text| then [text] else [text[..n]] + SplitLines(text[n + 1..])
  }

  /** A character missing from a string is missing from each of its suffixes. */
  lemma NotInSuffix(s: string, c: char, j: nat)
    requires j <= |s| && c !in s
    ensures c !in s[j..]
  {
    forall k | 0 <= k < |s| - j
      ensures s[j..][k] != c
    {
      assert s[j..][k] == s[j + k];
    }
  }

  lemma {:induction false} LineEndOf(line: string, rest: string)
    requires '\n' !in line
    ensures LineEnd(line + "\n" + rest) == |line|
  {
    if |line| > 0 {
      assert (line + "\n" + rest)[1..] == line[1..] + "\n" + rest;
      assert line[0] in line;
      NotInSuffix(line, '\n', 1);
      LineEndOf(line[1..], rest);
    }
  }

  /** An index file whose lines hold no newline splits back into exactly those lines. */
  lemma {:induction false} SplitIndexText(lines: seq<string>)
    requires forall i :: 0 <= i < |lines| ==> '\n' !in lines[i]
    ensures SplitLines(IndexText(lines)) == lines
  {
    if |lines| > 0 {
      var rest := IndexText(lines[1..]);
      var text := IndexText(lines);
      assert text == lines[0] + "\n" + rest;
      LineEndOf(lines[0], rest);
      assert text[..|lines[0]|] == lines[0];
      assert text[|lines[0]| + 1..] == rest;
      SplitIndexText(lines[1..]);
    }
  }

  // ---------------------------------------------------------------------
  // Paths and the index header

  /** The path of one archive component: `<directory>/<base><extension>`. */
  function ArchivePath(directory: string, base: string, extension: string): string
  {
    directory + "/" + base + extension
  }

  const IndexExtension := ".index"
  const MetaExtension := ".meta"
  const DataExtension := ".data"

  /** The index format version, the first line of every index stream. */
  const IndexVersionLine := "4"

  /**
   * `vul_file::basename` with no suffix to strip: what follows the last '/'
   * of the path (the whole path when it has none).
   */
  function Basename(path: string): (b: string)
    ensures |b| <= |path| && '/' !in b
  {
    if |path| == 0 || path[|path| - 1] == '/' then ""
    else Basename(path[..|path| - 1]) + [path[|path| - 1]]
  }

  /**
   * The basename is the last component of the path: a suffix holding no
   * '/', which is either the whole path or preceded by a '/'.
   */
  lemma {:induction false} BasenameIsLastComponent(path: string)
    ensures |Basename(path)| <= |path|
    ensures Basename(path) == path[|path| - |Basename(path)|..]
    ensures '/' !in Basename(path)
    ensures |Basename(path)| < |path| ==> path[|path| - |Basename(path)| - 1] == '/'
  {
    if |path| > 0 && path[|path| - 1] != '/' {
      var init := path[..|path| - 1];
      BasenameIsLastComponent(init);
      var b0 := Basename(init);
      var b := Basename(path);
      assert b == b0 + [path[|path| - 1]];
      assert path[|path| - |b|..] == init[|init| - |b0|..] + [path[|path| - 1]];
      assert '/' !in b by {
        forall k | 0 <= k < |b| ensures b[k] != '/' {
          if k < |b0| {
            assert b[k] == b0[k];
            assert b0[k] in b0;
          }
        }
      }
      if |b| < |path| {
        assert path[|path| - |b| - 1] == init[|init| - |b0| - 1];
      }
    }
  }

  /** A name without '/' is its own basename in any directory. */
  lemma {:induction false} BasenameOfChild(directory: string, name: string)
    requires '/' !in name
    ensures Basename(directory + "/" + name) == name
  {
    var p := directory + "/" + name;
    if |name| > 0 {
      var init := name[..|name| - 1];
      assert p[..|p| - 1] == directory + "/" + init;
      assert name[|name| - 1] in name;
      assert '/' !in init by {
        forall k | 0 <= k < |init| ensures init[k] != '/' {
          assert init[k] == name[k];
        }
      }
      BasenameOfChild(directory, init);
      assert name == init + [name[|name| - 1]];
    }
  }

  /**
   * The five header lines of the index stream: the version, the data
   * basename, the metadata basename when `metaGuard` holds (an empty line
   * otherwise), the mission id and the stream id.
   */
  function HeaderLines(dataName: string, metaName: string, metaGuard: bool,
                       missionId: string, streamId: string): seq<string>
  {
    [IndexVersionLine, Basename(dataName),
     if metaGuard then Basename(metaName) else "",
     missionId, streamId]
  }

  /**
   * The basename of an archive path is the part after the directory: no
   * character of the directory reaches it, so a base name and extension
   * without a newline give a basename without one, whatever the directory.
   */
  lemma BasenameOfArchivePath(directory: string, base: string, extension: string)
    requires '\n' !in base && '\n' !in extension
    ensures '\n' !in Basename(ArchivePath(directory, base, extension))
  {
    var p := ArchivePath(directory, base, extension);
    var b := Basename(p);
    var rest := base + extension;
    assert p == directory + "/" + rest;
    BasenameIsLastComponent(p);
    var j := |p| - |b|;
    assert p[|directory|] == '/';
    forall k | 0 <= k < |b|
      ensures b[k] != '\n'
    {
      assert b[k] == p[j + k] == rest[j + k - |directory| - 1];
      assert rest[j + k - |directory| - 1] in rest;
    }
  }

  /**
   * The index header of the archive `base` in `directory` has five lines:
   * the format version, the data and metadata basenames, which hold no '/'
   * and, when the base name holds none, are the base name with its
   * extension, whatever the directory; then the mission and stream ids.
   * When the base name and the two ids hold no newline, each header line is
   * one line of the file.
   */
  lemma HeaderLinesShape(directory: string, base: string, metaGuard: bool,
                         missionId: string, streamId: string)
    ensures var h := HeaderLines(ArchivePath(directory, base, DataExtension),
                                 ArchivePath(directory, base, MetaExtension), metaGuard, missionId, streamId);
            && |h| == 5 && h[0] == IndexVersionLine && h[3] == missionId && h[4] == streamId
            && '/' !in h[1] && '/' !in h[2]
            && ('/' !in base ==> h[1] == base + DataExtension && (metaGuard ==> h[2] == base + MetaExtension))
            && ('\n' !in base && '\n' !in missionId && '\n' !in streamId
                ==> forall i :: 0 <= i < |h| ==> '\n' !in h[i])
  {
    var dataName := ArchivePath(directory, base, DataExtension);
    var metaName := ArchivePath(directory, base, MetaExtension);
    BasenameIsLastComponent(dataName);
    BasenameIsLastComponent(metaName);
    if '/' !in base {
      BasenameOfNamedFile(directory, base, DataExtension);
      BasenameOfNamedFile(directory, base, MetaExtension);
    }
    if '\n' !in base {
      BasenameOfArchivePath(directory, base, DataExtension);
      BasenameOfArchivePath(directory, base, MetaExtension);
    }
  }

  lemma BasenameOfNamedFile(directory: string, base: string, extension: string)
    requires '/' !in base && '/' !in extension
    ensures Basename(ArchivePath(directory, base, extension)) == base + extension
  {
    assert ArchivePath(directory, base, extension) == directory + "/" + (base + extension);
    BasenameOfChild(directory, base + extension);
  }
}
