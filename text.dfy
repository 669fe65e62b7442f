/**
 * The few pieces of Ruby's String behaviour the reader relies on:
 * `chop`, `split` (with its habit of dropping trailing empty fields),
 * `Array#join`, `Integer#to_s`, zero-padded `strftime` numbers and the
 * base-10 conversion `Time.mktime` applies to its string arguments.
 */
module Text {
  import opened Base

  /** No character of `s` is one of `seps`. */
  predicate Free(s: string, seps: set<char>)
  {
    forall i :: 0 <= i < |s| ==> s[i] !in seps
  }

  /** Ruby's `String#chop`: drop a trailing "\r\n", otherwise the last character. */
  function Chop(s: string): (r: string)
    ensures |r| <= |s| && r == s[..|r|]
    ensures |s| >= 2 && s[|s| - 2] == '\r' && s[|s| - 1] == '\n' ==> |r| == |s| - 2
    ensures |s| >= 1 && !(|s| >= 2 && s[|s| - 2] == '\r' && s[|s| - 1] == '\n') ==> |r| == |s| - 1
    ensures |s| == 0 ==> r == ""
  {
    if |s| >= 2 && s[|s| - 2] == '\r' && s[|s| - 1] == '\n' then s[..|s| - 2]
    else if |s| >= 1 then s[..|s| - 1]
    else ""
  }

  /** A line as `IO#puts` writes it: a newline is added unless one ends it already. */
  function PutsLine(line: string): (r: string)
    ensures |r| > 0 && r[|r| - 1] == '\n'
    ensures r == line || r == line + "\n"
    ensures r == line <==> |line| > 0 && line[|line| - 1] == '\n'
  {
    if |line| > 0 && line[|line| - 1] == '\n' then line else line + "\n"
  }

  lemma ChopPuts(line: string)
    requires Free(line, {'\r', '\n'})
    ensures Chop(PutsLine(line)) == line
  {
    var w := line + "\n";
    assert w[..|w| - 1] == line;
    if |line| > 0 {
      assert line[|line| - 1] != '\r';
    }
  }

  /** `f`, then the separator `c`, then `rest`. */
  function Glue(f: string, c: char, rest: string): string
  {
    f + [c] + rest
  }

  /** Gluing keeps out what neither part nor the separator holds. */
  lemma GlueFree(f: string, c: char, rest: string, bad: set<char>)
    requires Free(f, bad) && c !in bad && Free(rest, bad)
    ensures Free(Glue(f, c, rest), bad)
  {
    var g := Glue(f, c, rest);
    forall i | 0 <= i < |g|
      ensures g[i] !in bad
    {
      if i < |f| {
        assert g[i] == f[i];
      } else if i > |f| {
        assert g[i] == rest[i - |f| - 1];
      }
    }
  }

  /** The total length of some strings. */
  function Width(fs: seq<string>): nat
  {
    if |fs| == 0 then 0 else |fs[0]| + Width(fs[1..])
  }

  /**
   * Ruby's `Array#join(sep)` on strings: the fields and one separator
   * between each two, starting with the first field.
   */
  function Join(fs: seq<string>, sep: char): (r: string)
    ensures |fs| > 0 ==> |r| == Width(fs) + |fs| - 1
    ensures |fs| > 0 ==> |fs[0]| <= |r| && r[..|fs[0]|] == fs[0]
    ensures |fs| > 1 ==> r[|fs[0]|] == sep
  {
    if |fs| == 0 then ""
    else if |fs| == 1 then fs[0]
    else Glue(fs[0], sep, Join(fs[1..], sep))
  }

  /**
   * The pieces between separators, empty ones included: the split Ruby's
   * `split` performs before it drops trailing empty fields.
   */
  function Fields(s: string, seps: set<char>): (r: seq<string>)
    ensures |r| >= 1
    ensures forall i :: 0 <= i < |r| ==> Free(r[i], seps)
  {
    if |s| == 0 then [""]
    else
      var rest := Fields(s[1..], seps);
      if s[0] in seps then [""] + rest
      else [[s[0]] + rest[0]] + rest[1..]
  }

  /** Remove the empty fields at the end, as Ruby's `split` with no limit does. */
  function DropTrailingEmpty(fs: seq<string>): (r: seq<string>)
    ensures |r| <= |fs| && r == fs[..|r|]
    ensures |r| == 0 || r[|r| - 1] != ""
    ensures forall i :: |r| <= i < |fs| ==> fs[i] == ""
  {
    if |fs| > 0 && fs[|fs| - 1] == "" then DropTrailingEmpty(fs[..|fs| - 1]) else fs
  }

  /**
   * Ruby's `String#split` at any character of `seps`: no field holds a
   * separator, there is no empty field at the end, and a non-empty string
   * without separators is its own only field.
   */
  function Split(s: string, seps: set<char>): (r: seq<string>)
    ensures forall i :: 0 <= i < |r| ==> Free(r[i], seps)
    ensures |r| == 0 || r[|r| - 1] != ""
    ensures s == "" ==> r == []
    ensures s != "" && Free(s, seps) ==> r == [s]
  {
    if Free(s, seps) then FieldsFree(s, seps); DropTrailingEmpty(Fields(s, seps))
    else DropTrailingEmpty(Fields(s, seps))
  }

  lemma {:induction false} FieldsFree(f: string, seps: set<char>)
    requires Free(f, seps)
    ensures Fields(f, seps) == [f]
    decreases |f|
  {
    if |f| > 0 {
      FieldsFree(f[1..], seps);
      assert [f[0]] + f[1..] == f;
    }
  }

  /** A separator after a separator-free field closes exactly that field. */
  lemma {:induction false} FieldsGlue(f: string, c: char, rest: string, seps: set<char>)
    requires Free(f, seps) && c in seps
    ensures Fields(Glue(f, c, rest), seps) == [f] + Fields(rest, seps)
    decreases |f|
  {
    var g := Glue(f, c, rest);
    if |f| == 0 {
      assert g[0] == c && g[1..] == rest;
    } else {
      assert g[0] == f[0] && g[1..] == Glue(f[1..], c, rest);
      FieldsGlue(f[1..], c, rest, seps);
      assert [f[0]] + f[1..] == f;
    }
  }

  /** Splitting a join of separator-free fields gives the fields back. */
  lemma {:induction false} FieldsJoin(fs: seq<string>, sep: char, seps: set<char>)
    requires sep in seps
    requires forall i :: 0 <= i < |fs| ==> Free(fs[i], seps)
    ensures Fields(Join(fs, sep), seps) == if |fs| == 0 then [""] else fs
  {
    if |fs| == 1 {
      FieldsFree(fs[0], seps);
    } else if |fs| > 1 {
      FieldsJoin(fs[1..], sep, seps);
      FieldsGlue(fs[0], sep, Join(fs[1..], sep), seps);
      assert [fs[0]] + fs[1..] == fs;
    }
  }

  /** The round trip of `join` and `split`: every field up to the last non-empty one comes back. */
  lemma SplitJoin(fs: seq<string>, sep: char, seps: set<char>)
    requires sep in seps
    requires forall i :: 0 <= i < |fs| ==> Free(fs[i], seps)
    ensures Split(Join(fs, sep), seps) == DropTrailingEmpty(fs)
  {
    FieldsJoin(fs, sep, seps);
  }

  /** A join of three or more fields is the first two glued in front of the join of the rest. */
  lemma JoinTwo(fs: seq<string>, sep: char)
    requires |fs| > 2
    ensures Join(fs, sep) == Glue(fs[0], sep, Glue(fs[1], sep, Join(fs[2..], sep)))
  {
    assert fs[1..][0] == fs[1] && fs[1..][1..] == fs[2..];
  }

  /**
   * The first two fields survive `split` whatever follows them, provided
   * neither holds the separator and the second is not empty.
   */
  lemma SplitHead(f0: string, f1: string, rest: string, sep: char)
    requires Free(f0, {sep}) && Free(f1, {sep}) && f1 != ""
    ensures var r := Split(Glue(f0, sep, Glue(f1, sep, rest)), {sep});
      |r| >= 2 && r[0] == f0 && r[1] == f1
  {
    var g1 := Glue(f1, sep, rest);
    FieldsGlue(f1, sep, rest, {sep});
    FieldsGlue(f0, sep, g1, {sep});
    var fs := Fields(Glue(f0, sep, g1), {sep});
    assert fs[0] == f0 && fs[1] == f1;
    var r := DropTrailingEmpty(fs);
    assert |r| >= 2 by {
      assert fs[1] != "";
    }
  }

  lemma {:induction false} JoinFree(fs: seq<string>, sep: char, bad: set<char>)
    requires sep !in bad
    requires forall i :: 0 <= i < |fs| ==> Free(fs[i], bad)
    ensures Free(Join(fs, sep), bad)
  {
    if |fs| > 1 {
      JoinFree(fs[1..], sep, bad);
    }
  }

  lemma {:induction false} JoinHead(fs: seq<string>, sep: char)
    requires |fs| > 0 && |fs[0]| > 0
    ensures |Join(fs, sep)| > 0 && Join(fs, sep)[0] == fs[0][0]
  {
  }

  // ---- decimal numbers ----

  predicate IsDigit(c: char)
  {
    '0' <= c <= '9'
  }

  predicate AllDigits(s: string)
  {
    forall i :: 0 <= i < |s| ==> IsDigit(s[i])
  }

  function DigitChar(d: nat): (c: char)
    requires d < 10
    ensures IsDigit(c) && c as int - '0' as int == d
  {
    ('0' as int + d) as char
  }

  /** The number a string of decimal digits denotes (leading zeros allowed). */
  function DigitsValue(s: string): nat
    requires AllDigits(s)
  {
    if |s| == 0 then 0
    else DigitsValue(s[..|s| - 1]) * 10 + (s[|s| - 1] as int - '0' as int)
  }

  /** A token read as a base-10 number; anything but a non-empty run of digits is refused. */
  function ParseDecimal(s: string): (r: Option<nat>)
    ensures r.Some? <==> |s| > 0 && AllDigits(s)
  {
    if |s| > 0 && AllDigits(s) then Some(DigitsValue(s)) else None
  }

  /** Ruby's `Integer#to_s` for a non-negative integer. */
  function Decimal(n: nat): (r: string)
    ensures |r| >= 1 && AllDigits(r)
    ensures |r| > 1 ==> r[0] != '0'
  {
    if n < 10 then [DigitChar(n)] else Decimal(n / 10) + [DigitChar(n % 10)]
  }

  function Zeros(k: nat): (r: string)
    ensures |r| == k && forall i :: 0 <= i < k ==> r[i] == '0'
  {
    if k == 0 then "" else Zeros(k - 1) + "0"
  }

  /** `strftime`'s zero-padded number: at least `width` digits. */
  function Padded(n: nat, width: nat): (r: string)
    ensures AllDigits(r) && |r| >= width && |r| >= 1
  {
    var d := Decimal(n);
    if |d| < width then Zeros(width - |d|) + d else d
  }

  lemma {:induction false} DecimalValue(n: nat)
    ensures DigitsValue(Decimal(n)) == n
  {
    if n >= 10 {
      var d := Decimal(n);
      DecimalValue(n / 10);
      assert d[..|d| - 1] == Decimal(n / 10);
    }
  }

  lemma {:induction false} LeadingZeros(k: nat, s: string)
    requires AllDigits(s)
    ensures AllDigits(Zeros(k) + s) && DigitsValue(Zeros(k) + s) == DigitsValue(s)
    decreases |s|
  {
    var z := Zeros(k) + s;
    if |s| == 0 {
      assert z == Zeros(k);
      ZerosValue(k);
    } else {
      assert z[..|z| - 1] == Zeros(k) + s[..|s| - 1];
      LeadingZeros(k, s[..|s| - 1]);
    }
  }

  lemma {:induction false} ZerosValue(k: nat)
    ensures AllDigits(Zeros(k)) && DigitsValue(Zeros(k)) == 0
  {
    if k > 0 {
      ZerosValue(k - 1);
      assert Zeros(k)[..k - 1] == Zeros(k - 1);
    }
  }

  /** Reading back `Integer#to_s`. */
  lemma DecimalRoundTrip(n: nat)
    ensures ParseDecimal(Decimal(n)) == Some(n)
  {
    DecimalValue(n);
  }

  /** Reading back a zero-padded `strftime` number. */
  lemma PaddedRoundTrip(n: nat, width: nat)
    ensures ParseDecimal(Padded(n, width)) == Some(n)
  {
    var d := Decimal(n);
    DecimalValue(n);
    if |d| < width {
      LeadingZeros(width - |d|, d);
    }
  }
}
