/** Output file naming of pdf_splitter.py: the 1-based position of a ToC
    entry, printed with the format `03d`, an underscore, the sanitized title
    and the extension `.pdf`. */
module Naming {
  import opened Sanitizer

  predicate IsDigit(c: char) {
    '0' <= c <= '9'
  }

  predicate AllDigits(s: string) {
    forall k :: 0 <= k < |s| ==> IsDigit(s[k])
  }

  function DigitChar(d: nat): (c: char)
    requires d < 10
    ensures IsDigit(c) && DigitValue(c) == d
  {
    ('0' as int + d) as char
  }

  function DigitValue(c: char): nat
    requires IsDigit(c)
  {
    c as int - '0' as int
  }

  /** The number a string of decimal digits denotes, leading zeros allowed. */
  function ValueOf(s: string): nat
    requires AllDigits(s)
  {
    if s == [] then 0 else ValueOf(s[..|s| - 1]) * 10 + DigitValue(s[|s| - 1])
  }

  /** The decimal digits of `n`, most significant first, without leading zeros. */
  function Decimal(n: nat): (r: string)
    ensures |r| >= 1 && AllDigits(r)
    ensures ValueOf(r) == n
    ensures n < 10 ==> |r| == 1
    ensures n < 100 ==> |r| <= 2
    ensures n < 1000 ==> |r| <= 3
    ensures n >= 10 ==> |r| >= 2
    ensures n >= 100 ==> |r| >= 3
    ensures n >= 1 ==> r[0] != '0'
  {
    if n < 10 then [DigitChar(n)]
    else
      var r := Decimal(n / 10) + [DigitChar(n % 10)];
      assert r[..|r| - 1] == Decimal(n / 10);
      r
  }

  /** Left-pads a digit string with zeros up to `width` characters. */
  function ZeroPad(s: string, width: nat): (r: string)
    requires AllDigits(s)
    ensures AllDigits(r)
    ensures |r| == if |s| >= width then |s| else width
    ensures ValueOf(r) == ValueOf(s)
    ensures |s| >= width ==> r == s
    decreases width - |s|
  {
    if |s| >= width then s
    else
      LeadingZeroIsHarmless(s);
      ZeroPad(['0'] + s, width)
  }

  /** A zero put in front of a digit string does not change its value. */
  lemma {:induction false} LeadingZeroIsHarmless(s: string)
    requires AllDigits(s)
    ensures AllDigits(['0'] + s) && ValueOf(['0'] + s) == ValueOf(s)
  {
    if s != [] {
      var t := ['0'] + s;
      assert t[..|t| - 1] == ['0'] + s[..|s| - 1];
      LeadingZeroIsHarmless(s[..|s| - 1]);
    }
  }

  /** The format `03d` applied to a non-negative id: at least three digits,
      exactly three below 1000, denoting the id itself, and no leading zero
      from 100 on. */
  function FormatId(id: nat): (r: string)
    ensures AllDigits(r) && |r| >= 3
    ensures id < 1000 ==> |r| == 3
    ensures id >= 100 ==> r[0] != '0'
    ensures ValueOf(r) == id
  {
    ZeroPad(Decimal(id), 3)
  }

  /** The name under which the section with this id and title is saved. */
  function OutputFilename(id: nat, title: string): string {
    FormatId(id) + "_" + SanitizeFilename(title) + ".pdf"
  }

  /** The longest prefix of `s` made of digits. */
  function LeadingDigits(s: string): (r: string)
    ensures AllDigits(r) && |r| <= |s| && r == s[..|r|]
  {
    if s != [] && IsDigit(s[0]) then [s[0]] + LeadingDigits(s[1..]) else []
  }

  /** Reads the id back from a file name: the number its leading digits denote. */
  function IdOf(filename: string): nat {
    ValueOf(LeadingDigits(filename))
  }

  lemma {:induction false} LeadingDigitsStopAtUnderscore(d: string, rest: string)
    requires AllDigits(d)
    ensures LeadingDigits(d + ['_'] + rest) == d
  {
    if d == [] {
      assert d + ['_'] + rest == ['_'] + rest;
    } else {
      assert (d + ['_'] + rest)[1..] == d[1..] + ['_'] + rest;
      LeadingDigitsStopAtUnderscore(d[1..], rest);
    }
  }

  /** The id can always be read back from the file name, so file names keep
      the position of the ToC entry traceable. */
  lemma IdOfOutputFilename(id: nat, title: string)
    ensures IdOf(OutputFilename(id, title)) == id
  {
    var f := OutputFilename(id, title);
    assert f == FormatId(id) + ['_'] + (SanitizeFilename(title) + ".pdf");
    LeadingDigitsStopAtUnderscore(FormatId(id), SanitizeFilename(title) + ".pdf");
  }

  /** Two sections with different ids never get the same file name, whatever
      their titles. */
  lemma OutputFilenameInjective(id1: nat, title1: string, id2: nat, title2: string)
    requires id1 != id2
    ensures OutputFilename(id1, title1) != OutputFilename(id2, title2)
  {
    IdOfOutputFilename(id1, title1);
    IdOfOutputFilename(id2, title2);
  }

  /** No character of `s` is illegal or a space. */
  predicate IsSafe(s: string) {
    forall k :: 0 <= k < |s| ==> !IsIllegal(s[k]) && s[k] != ' '
  }

  lemma SafeAppend(a: string, b: string)
    requires IsSafe(a) && IsSafe(b)
    ensures IsSafe(a + b)
  {
    forall k | 0 <= k < |a + b| ensures !IsIllegal((a + b)[k]) && (a + b)[k] != ' ' {
      if k < |a| { assert (a + b)[k] == a[k]; } else { assert (a + b)[k] == b[k - |a|]; }
    }
  }

  lemma DigitsAreSafe(d: string)
    requires AllDigits(d)
    ensures IsSafe(d)
  {
  }

  /** A file name is a single path segment: it holds none of the illegal
      characters (so neither slash nor backslash) and no space. */
  lemma OutputFilenameIsSafe(id: nat, title: string)
    ensures IsSafe(OutputFilename(id, title))
  {
    var d, t := FormatId(id), SanitizeFilename(title);
    DigitsAreSafe(d);
    SafeAppend(d, "_");
    SafeAppend(d + "_", t);
    assert IsSafe(".pdf");
    SafeAppend(d + "_" + t, ".pdf");
  }

  /** A file name starts with the formatted id and ends in `.pdf`. */
  lemma OutputFilenameShape(id: nat, title: string)
    ensures var f := OutputFilename(id, title);
      f[..|FormatId(id)|] == FormatId(id) && f[|f| - 4..] == ".pdf"
  {
  }
}
