/** The pieces of Rust's string library the walker relies on: `str::lines`,
    `str::split` on one character, `join`, decimal formatting of integers
    and `str::parse` into `u64` and `i32`. */
module RustText {
  import opened Results

  /** Position of the first occurrence of `c` in `s`. */
  function IndexOf(s: string, c: char): (i: nat)
    requires c in s
    ensures i < |s| && s[i] == c && c !in s[..i]
  {
    if s[0] == c then 0
    else
      var j := IndexOf(s[1..], c);
      assert s[..j + 1] == [s[0]] + s[1..][..j];
      j + 1
  }

  /** The first occurrence is the only position before which `c` is absent. */
  lemma IndexOfUnique(s: string, c: char, i: nat)
    requires i < |s| && s[i] == c && c !in s[..i]
    ensures IndexOf(s, c) == i
  {
  }

  lemma IndexOfJoined(a: string, c: char, b: string)
    requires c !in a
    ensures c in a + [c] + b && IndexOf(a + [c] + b, c) == |a|
  {
    var s := a + [c] + b;
    assert s[|a|] == c;
    assert s[..|a|] == a;
  }

  // ---------------------------------------------------------------------
  // str::split(c)

  /** Rust's `s.split(c)`: the pieces between occurrences of `c`; never empty,
      the empty string gives one empty piece. */
  function Split(s: string, c: char): (r: seq<string>)
    ensures |r| >= 1
    ensures forall k :: 0 <= k < |r| ==> c !in r[k]
    decreases |s|
  {
    if c !in s then [s]
    else
      var i := IndexOf(s, c);
      [s[..i]] + Split(s[i + 1..], c)
  }

  /** Rust's `parts.join(sep)` for a one-character separator. */
  function Join(parts: seq<string>, sep: char): string
  {
    if parts == [] then []
    else if |parts| == 1 then parts[0]
    else parts[0] + [sep] + Join(parts[1..], sep)
  }

  /** A character that is neither the separator nor in any part is not in
      their join. */
  lemma {:induction false} JoinAvoids(parts: seq<string>, sep: char, c: char)
    requires c != sep && forall k :: 0 <= k < |parts| ==> c !in parts[k]
    ensures c !in Join(parts, sep)
  {
    if |parts| > 1 {
      JoinAvoids(parts[1..], sep, c);
    }
  }

  /** Splitting a join on its separator gives back the parts. */
  lemma {:induction false} SplitJoin(parts: seq<string>, c: char)
    requires |parts| >= 1
    requires forall k :: 0 <= k < |parts| ==> c !in parts[k]
    ensures Split(Join(parts, c), c) == parts
  {
    if |parts| > 1 {
      var rest := Join(parts[1..], c);
      var s := parts[0] + [c] + rest;
      assert Split(s, c) == [parts[0]] + Split(rest, c) by {
        IndexOfJoined(parts[0], c, rest);
        assert s[..|parts[0]|] == parts[0];
        assert s[|parts[0]| + 1..] == rest;
      }
      SplitJoin(parts[1..], c);
      assert parts == [parts[0]] + parts[1..];
    }
  }

  // ---------------------------------------------------------------------
  // str::lines

  predicate EndsInCr(line: string) {
    |line| > 0 && line[|line| - 1] == '\r'
  }

  function StripCr(line: string): string {
    if EndsInCr(line) then line[..|line| - 1] else line
  }

  /** Rust's `s.lines()`: split on '\n', drop one '\r' that precedes a '\n',
      and emit no empty line after a final '\n'. */
  function Lines(s: string): (r: seq<string>)
    ensures forall k :: 0 <= k < |r| ==> '\n' !in r[k]
    ensures s != [] <==> r != []
    decreases |s|
  {
    if s == [] then []
    else if '\n' !in s then [s]
    else
      var i := IndexOf(s, '\n');
      assert '\n' !in StripCr(s[..i]) by {
        assert s[..i][..|StripCr(s[..i])|] == StripCr(s[..i]);
      }
      [StripCr(s[..i])] + Lines(s[i + 1..])
  }

  /** A single line ended by '\n' reads back as that line alone. */
  lemma OneTerminatedLine(line: string)
    requires line != [] && '\n' !in line && !EndsInCr(line)
    ensures Lines(line + "\n") == [line]
  {
    var s := line + "\n";
    IndexOfJoined(line, '\n', "");
    assert s[..|line|] == line && s[|line| + 1..] == "";
  }

  /** A sequence of lines that survives being joined with '\n' and split
      again by `Lines`. */
  predicate JoinableLines(out: seq<string>) {
    (forall k :: 0 <= k < |out| ==> '\n' !in out[k] && !EndsInCr(out[k]))
    && (out != [] ==> out[|out| - 1] != [])
  }

  /** Writing `out` joined by '\n' and reading it back with `lines()` gives
      back `out`. */
  lemma {:induction false} LinesJoin(out: seq<string>)
    requires JoinableLines(out)
    ensures Lines(Join(out, '\n')) == out
  {
    if |out| > 1 {
      var rest := Join(out[1..], '\n');
      IndexOfJoined(out[0], '\n', rest);
      var s := out[0] + ['\n'] + rest;
      assert s[..|out[0]|] == out[0];
      assert s[|out[0]| + 1..] == rest;
      LinesJoin(out[1..]);
      assert out == [out[0]] + out[1..];
    }
  }

  /** Join over a sequence with one more element on the end. */
  lemma {:induction false} JoinSnoc(parts: seq<string>, last: string, sep: char)
    requires parts != []
    ensures Join(parts + [last], sep) == Join(parts, sep) + [sep] + last
  {
    if |parts| == 1 {
      assert (parts + [last])[1..] == [last];
    } else {
      assert (parts + [last])[1..] == parts[1..] + [last];
      JoinSnoc(parts[1..], last, sep);
    }
  }

  /** Whatever precedes the final '\n', a non-empty tail without '\n' is the
      last line `lines()` yields. */
  lemma {:induction false} LastLineAfterNewline(p: string, b: string)
    requires b != [] && '\n' !in b
    ensures Lines(p + ['\n'] + b) != []
    ensures Lines(p + ['\n'] + b)[|Lines(p + ['\n'] + b)| - 1] == b
    decreases |p|
  {
    var s := p + ['\n'] + b;
    if '\n' in p {
      var i := IndexOf(p, '\n');
      var tail := p[i + 1..] + ['\n'] + b;
      assert Lines(s) == [StripCr(s[..i])] + Lines(tail) by {
        assert s[i] == '\n' && s[..i] == p[..i];
        IndexOfUnique(s, '\n', i);
        assert s[i + 1..] == tail;
      }
      LastLineAfterNewline(p[i + 1..], b);
    } else {
      assert Lines(s) == [StripCr(s[..|p|])] + [b] by {
        IndexOfJoined(p, '\n', b);
        assert s[|p| + 1..] == b;
      }
    }
  }

  /** The last line of a non-empty `out` written with `join("\n")` is read
      back by `lines()`, whatever the earlier lines hold. */
  lemma LastLineOfJoin(out: seq<string>)
    requires out != [] && out[|out| - 1] != [] && '\n' !in out[|out| - 1]
    ensures Lines(Join(out, '\n')) != []
    ensures Lines(Join(out, '\n'))[|Lines(Join(out, '\n'))| - 1] == out[|out| - 1]
  {
    var n := |out|;
    if n > 1 {
      assert out == out[..n - 1] + [out[n - 1]];
      JoinSnoc(out[..n - 1], out[n - 1], '\n');
      LastLineAfterNewline(Join(out[..n - 1], '\n'), out[n - 1]);
    }
  }

  // ---------------------------------------------------------------------
  // Decimal digits

  predicate IsDigit(c: char) {
    '0' <= c <= '9'
  }

  predicate AllDigits(s: string) {
    forall k :: 0 <= k < |s| ==> IsDigit(s[k])
  }

  function DigitChar(d: nat): (c: char)
    requires d < 10
    ensures IsDigit(c) && c as int - '0' as int == d
  {
    ('0' as int + d) as char
  }

  /** Value of a string of decimal digits (leading zeros allowed). */
  function DigitsValue(s: string): nat
    requires AllDigits(s)
  {
    if s == [] then 0
    else 10 * DigitsValue(s[..|s| - 1]) + (s[|s| - 1] as int - '0' as int)
  }

  /** Rust's `Display` for an unsigned integer: no sign, no leading zero. */
  function NatToString(n: nat): (s: string)
    ensures |s| >= 1 && AllDigits(s)
    ensures n > 0 ==> s[0] != '0'
    decreases n
  {
    if n < 10 then [DigitChar(n)]
    else NatToString(n / 10) + [DigitChar(n % 10)]
  }

  lemma {:induction false} DigitsValueOfNatToString(n: nat)
    ensures DigitsValue(NatToString(n)) == n
    decreases n
  {
    if n >= 10 {
      var s := NatToString(n);
      assert s[..|s| - 1] == NatToString(n / 10);
      DigitsValueOfNatToString(n / 10);
    }
  }

  /** Rust's `Display` for a signed integer. */
  function IntToString(a: int): string {
    if a < 0 then "-" + NatToString(-a) else NatToString(a)
  }

  // ---------------------------------------------------------------------
  // str::parse

  const U64_LIMIT: nat := 0x1_0000_0000_0000_0000
  const I32_MIN: int := -0x8000_0000
  const I32_MAX: int := 0x7fff_ffff

  type U64 = n: nat | n < U64_LIMIT

  predicate IsI32(a: int) {
    I32_MIN <= a <= I32_MAX
  }

  /** `s.parse::<u64>()`: an optional '+', then one or more ASCII digits,
      with a value below 2^64; anything else is an error. */
  function ParseU64(s: string): Option<U64>
  {
    var d := if |s| > 0 && s[0] == '+' then s[1..] else s;
    if d == [] || !AllDigits(d) then None
    else
      var v := DigitsValue(d);
      if v < U64_LIMIT then Some(v) else None
  }

  /** `s.parse::<i32>()`: an optional '+' or '-', then one or more ASCII
      digits, with a value in the range of `i32`; anything else is an error. */
  function ParseI32(s: string): Option<int>
  {
    var negative := |s| > 0 && s[0] == '-';
    var d := if |s| > 0 && (s[0] == '+' || s[0] == '-') then s[1..] else s;
    if d == [] || !AllDigits(d) then None
    else
      var v: int := if negative then -(DigitsValue(d) as int) else DigitsValue(d);
      if IsI32(v) then Some(v) else None
  }

  /** A `u64` printed in decimal parses back to itself. */
  lemma ParseU64OfNatToString(n: U64)
    ensures ParseU64(NatToString(n)) == Some(n)
  {
    DigitsValueOfNatToString(n);
  }

  /** An `i32` printed in decimal parses back to itself. */
  lemma ParseI32OfIntToString(a: int)
    requires IsI32(a)
    ensures ParseI32(IntToString(a)) == Some(a)
  {
    if a < 0 {
      ParseI32OfNegative(a);
    } else {
      var s := NatToString(a);
      DigitsValueOfNatToString(a);
      assert s[0] != '+' && s[0] != '-';
    }
  }

  lemma ParseI32OfNegative(a: int)
    requires I32_MIN <= a < 0
    ensures ParseI32(IntToString(a)) == Some(a)
  {
    var digits := NatToString(-a);
    var s := "-" + digits;
    assert s[0] == '-' && s[1..] == digits;
    DigitsValueOfNatToString(-a);
  }

  /** A field that does not start with a sign or a digit never parses: this
      is what makes a header line fall back to the defaults. */
  lemma ParseRejectsNonNumeric(s: string)
    requires s != [] && !IsDigit(s[0]) && s[0] != '+' && s[0] != '-'
    ensures ParseU64(s) == None && ParseI32(s) == None
  {
    assert !AllDigits(s);
  }
}
