/** File names of the acquisition: `{prefix}_{str(n).zfill(6)}.h5` for the
    writers' files and `{prefix}_vds.h5` for the virtual dataset file, with
    decimal rendering and parsing of file numbers. */
module Naming {
  import opened Wrappers

  predicate IsDigit(c: char)
  {
    '0' <= c <= '9'
  }

  function DigitChar(d: nat): (c: char)
    requires d < 10
    ensures IsDigit(c)
  {
    (d + '0' as int) as char
  }

  function DigitValue(c: char): (d: nat)
    requires IsDigit(c)
    ensures d < 10
  {
    (c as int) - ('0' as int)
  }

  predicate AllDigits(s: string)
  {
    forall i :: 0 <= i < |s| ==> IsDigit(s[i])
  }

  /** Python's `str(n)` for a non-negative integer. */
  function NatToString(n: nat): (s: string)
    ensures AllDigits(s) && |s| > 0
    ensures |s| > 1 ==> s[0] != '0'
  {
    if n < 10 then [DigitChar(n)] else NatToString(n / 10) + [DigitChar(n % 10)]
  }

  /** The value of a string of decimal digits (leading zeros allowed). */
  function DigitsValue(s: string): nat
    requires AllDigits(s)
  {
    if |s| == 0 then 0 else DigitsValue(s[..|s| - 1]) * 10 + DigitValue(s[|s| - 1])
  }

  /** `int(s)` restricted to unsigned decimal digits; anything else is rejected. */
  function ParseNat(s: string): (r: Option<nat>)
    ensures r.Some? <==> |s| > 0 && AllDigits(s)
  {
    if |s| > 0 && AllDigits(s) then Some(DigitsValue(s)) else None
  }

  function Repeat(c: char, n: nat): (s: string)
    ensures |s| == n
    ensures forall i :: 0 <= i < n ==> s[i] == c
  {
    if n == 0 then [] else Repeat(c, n - 1) + [c]
  }

  /** Python's `str.zfill(width)`: pad with zeros on the left up to `width`,
      after a leading sign if there is one; never truncate. */
  function ZFill(s: string, width: nat): (r: string)
    ensures |r| == if |s| >= width then |s| else width
  {
    if |s| >= width then s
    else if |s| > 0 && (s[0] == '+' || s[0] == '-') then [s[0]] + Repeat('0', width - |s|) + s[1..]
    else Repeat('0', width - |s|) + s
  }

  /** The digits of `n`, zero-filled to six places. */
  function FileNumberText(n: nat): string
  {
    ZFill(NatToString(n), 6)
  }

  /** `f"{prefix}_{str(n).zfill(6)}.h5"`; `prefix` stands for the already
      joined `path / prefix`. */
  function FileName(prefix: string, n: nat): (r: string)
    ensures ParseFileName(prefix, r) == Some(n)
  {
    FileNameParses(prefix, n);
    prefix + "_" + FileNumberText(n) + ".h5"
  }

  /** `f"{prefix}_vds.h5"`. */
  function VdsFileName(prefix: string): string
  {
    prefix + "_vds.h5"
  }

  /** The file number written in a writer file name with the given prefix. */
  function ParseFileName(prefix: string, name: string): Option<nat>
  {
    var head := prefix + "_";
    if |name| >= |head| + 3 && name[..|head|] == head && name[|name| - 3..] == ".h5"
    then ParseNat(name[|head|..|name| - 3])
    else None
  }

  lemma {:induction false} NatToStringValue(n: nat)
    ensures DigitsValue(NatToString(n)) == n
  {
    var s := NatToString(n);
    if n >= 10 {
      NatToStringValue(n / 10);
      assert s[..|s| - 1] == NatToString(n / 10);
    }
  }

  lemma {:induction false} LeadingZerosValue(n: nat, s: string)
    requires AllDigits(s)
    ensures AllDigits(Repeat('0', n) + s)
    ensures DigitsValue(Repeat('0', n) + s) == DigitsValue(s)
  {
    var z := Repeat('0', n) + s;
    if |s| == 0 {
      assert z == Repeat('0', n);
      if n > 0 {
        assert z[..|z| - 1] == Repeat('0', n - 1) + s;
        LeadingZerosValue(n - 1, s);
      }
    } else {
      assert z[..|z| - 1] == Repeat('0', n) + s[..|s| - 1];
      LeadingZerosValue(n, s[..|s| - 1]);
    }
  }

  /** Zero filling keeps the number a file number denotes. */
  lemma FileNumberTextValue(n: nat)
    ensures ParseNat(FileNumberText(n)) == Some(n)
    ensures |FileNumberText(n)| >= 6
  {
    var s := NatToString(n);
    NatToStringValue(n);
    if |s| < 6 {
      LeadingZerosValue(6 - |s|, s);
    }
  }

  /** A writer file name gives back its file number. */
  lemma FileNameRoundTrip(prefix: string, n: nat)
    ensures ParseFileName(prefix, FileName(prefix, n)) == Some(n)
  {
  }

  lemma FileNameParses(prefix: string, n: nat)
    ensures ParseFileName(prefix, prefix + "_" + FileNumberText(n) + ".h5") == Some(n)
  {
    var name := prefix + "_" + FileNumberText(n) + ".h5";
    var head := prefix + "_";
    FileNumberTextValue(n);
    assert name == head + FileNumberText(n) + ".h5";
    assert name[..|head|] == head;
    assert name[|name| - 3..] == ".h5";
    assert name[|head|..|name| - 3] == FileNumberText(n);
  }

  /** Distinct file numbers name distinct files. */
  lemma FileNameInjective(prefix: string, n: nat, m: nat)
    ensures FileName(prefix, n) == FileName(prefix, m) <==> n == m
  {
    FileNameRoundTrip(prefix, n);
    FileNameRoundTrip(prefix, m);
  }

  /** The virtual dataset file never collides with a writer file. */
  lemma VdsFileNameDistinct(prefix: string, n: nat)
    ensures VdsFileName(prefix) != FileName(prefix, n)
  {
    var v, f := VdsFileName(prefix), FileName(prefix, n);
    FileNumberTextValue(n);
    assert f[|prefix| + 1] == FileNumberText(n)[0];
    assert v[|prefix| + 1] != f[|prefix| + 1];
  }

  /** The prefix the repository's tests use. */
  const TestPrefix: string := "test"

  lemma FileNameExamples()
    ensures FileName(TestPrefix, 1) == "test_000001.h5"
    ensures FileName(TestPrefix, 42) == "test_000042.h5"
    ensures VdsFileName(TestPrefix) == "test_vds.h5"
  {
    FirstFileName();
    FortySecondFileName();
  }

  lemma FirstFileName()
    ensures FileName(TestPrefix, 1) == "test_000001.h5"
  {
    PaddedFileName(TestPrefix, 1, "000001");
  }

  lemma FortySecondFileName()
    ensures FileName(TestPrefix, 42) == "test_000042.h5"
  {
    PaddedFileName(TestPrefix, 42, "000042");
  }

  lemma PaddedFileName(prefix: string, n: nat, digits: string)
    requires FileNumberText(n) == digits
    ensures FileName(prefix, n) == prefix + "_" + digits + ".h5"
  {
  }

  /** `zfill` pads but never truncates. */
  lemma LongFileNameExample()
    ensures FileName(TestPrefix, 1234567) == "test_1234567.h5"
  {
    SevenDigits();
    PaddedFileName(TestPrefix, 1234567, "1234567");
  }

  lemma SevenDigits()
    ensures NatToString(1234567) == "1234567"
  {
    assert NatToString(12) == "12";
    assert NatToString(123) == "123";
    assert NatToString(1234) == "1234";
    assert NatToString(12345) == "12345";
    assert NatToString(123456) == "123456";
  }
}
