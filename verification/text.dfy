/**
 Text helpers the tool relies on through the C library: hexadecimal and
 decimal rendering (`printf("%02x")`, `printf("%d")`), the simplified
 parsers standing in for `sscanf("%x")` and `strtoul(…, 10)`, and the
 field splitting that `strchr` performs on a colon-separated string.
 */
module Text {
  import opened Base

  predicate IsHexDigit(c: char) {
    ('0' <= c <= '9') || ('a' <= c <= 'f') || ('A' <= c <= 'F')
  }

  predicate IsDecimalDigit(c: char) {
    '0' <= c <= '9'
  }

  function DigitValue(c: char): (v: nat)
    requires IsHexDigit(c)
    ensures v < 16
    ensures IsDecimalDigit(c) ==> v < 10
  {
    if '0' <= c <= '9' then c as int - '0' as int
    else if 'a' <= c <= 'f' then c as int - 'a' as int + 10
    else c as int - 'A' as int + 10
  }

  /** The lower-case hexadecimal digit for v, as `%x` prints it. */
  function HexDigit(v: nat): (c: char)
    requires v < 16
    ensures IsHexDigit(c) && DigitValue(c) == v
  {
    if v < 10 then ('0' as int + v) as char else ('a' as int + v - 10) as char
  }

  /** Value of a string made only of hexadecimal digits, most significant first. */
  function HexNumber(s: string): nat
    requires forall i | 0 <= i < |s| :: IsHexDigit(s[i])
  {
    if |s| == 0 then 0 else 16 * HexNumber(s[..|s| - 1]) + DigitValue(s[|s| - 1])
  }

  /** A byte as exactly two lower-case hex digits (`%02x`). */
  function HexPair(b: byte): (s: string)
    ensures |s| == 2 && IsHexDigit(s[0]) && IsHexDigit(s[1])
    ensures 16 * DigitValue(s[0]) + DigitValue(s[1]) == b
    ensures HexNumber(s) == b
  {
    var s := [HexDigit(b / 16), HexDigit(b % 16)];
    assert s[..1][..0] == [];
    assert HexNumber(s[..1]) == b / 16;
    s
  }

  /** Number of leading characters of s that satisfy IsHexDigit. */
  function HexRun(s: string): (n: nat)
    ensures n <= |s|
    ensures forall i | 0 <= i < n :: IsHexDigit(s[i])
    ensures n < |s| ==> !IsHexDigit(s[n])
  {
    if |s| == 0 || !IsHexDigit(s[0]) then 0 else 1 + HexRun(s[1..])
  }

  /**
   The `sscanf(field, "%x", &v)` of the tool, simplified: the longest prefix
   of hex digits is converted, trailing characters are ignored, and the
   conversion fails exactly when the field does not start with a hex digit.
   */
  function ScanHex(field: string): (r: Option<nat>)
    ensures r.Some? <==> |field| > 0 && IsHexDigit(field[0])
    ensures (forall i | 0 <= i < |field| :: IsHexDigit(field[i])) && |field| > 0
            ==> r == Some(HexNumber(field))
  {
    var n := HexRun(field);
    assert n == |field| ==> field[..n] == field;
    if n == 0 then None else Some(HexNumber(field[..n]))
  }

  /** Decimal rendering of a natural number (`%d` / `%u`). */
  function Decimal(n: nat): (s: string)
    ensures |s| >= 1
    ensures forall i | 0 <= i < |s| :: IsDecimalDigit(s[i])
  {
    if n < 10 then [('0' as int + n) as char]
    else Decimal(n / 10) + [('0' as int + n % 10) as char]
  }

  /** Value of a string made only of decimal digits; the empty string is 0. */
  function DecimalNumber(s: string): nat
    requires forall i | 0 <= i < |s| :: IsDecimalDigit(s[i])
  {
    if |s| == 0 then 0
    else
      assert IsDecimalDigit(s[|s| - 1]);
      10 * DecimalNumber(s[..|s| - 1]) + DigitValue(s[|s| - 1])
  }

  lemma {:induction false} DecimalRoundTrip(n: nat)
    ensures DecimalNumber(Decimal(n)) == n
  {
    if n >= 10 {
      var s := Decimal(n);
      assert s[..|s| - 1] == Decimal(n / 10);
      DecimalRoundTrip(n / 10);
    }
  }

  /** Number of leading decimal digits of s. */
  function DecimalRun(s: string): (n: nat)
    ensures n <= |s|
    ensures forall i | 0 <= i < n :: IsDecimalDigit(s[i])
    ensures n < |s| ==> !IsDecimalDigit(s[n])
  {
    if |s| == 0 || !IsDecimalDigit(s[0]) then 0 else 1 + DecimalRun(s[1..])
  }

  const ULongMax: nat := 0xFFFF_FFFF_FFFF_FFFF

  /**
   `strtoul(s, &end, 10)`, simplified: the leading run of decimal digits is
   converted (an empty run gives 0), the value saturates at ULONG_MAX as
   strtoul does on overflow, and `atEnd` says whether `*end == '\0'`, that is,
   whether the whole token was consumed.
   */
  function StrToUl(s: string): (r: (nat, bool))
    ensures r.0 <= ULongMax
    ensures r.1 <==> forall i | 0 <= i < |s| :: IsDecimalDigit(s[i])
    ensures r.1 && DecimalNumber(s) <= ULongMax ==> r.0 == DecimalNumber(s)
  {
    var n := DecimalRun(s);
    assert n == |s| ==> s[..n] == s;
    var v := DecimalNumber(s[..n]);
    (if v > ULongMax then ULongMax else v, n == |s|)
  }

  lemma StrToUlOfDecimal(n: nat)
    requires n <= ULongMax
    ensures StrToUl(Decimal(n)) == (n, true)
  {
    DecimalRoundTrip(n);
  }

  /** The parts joined with sep between consecutive parts (none before the first). */
  function Join(parts: seq<string>, sep: string): string
    requires |parts| >= 1
  {
    if |parts| == 1 then parts[0] else parts[0] + sep + Join(parts[1..], sep)
  }

  /**
   The fields of s between occurrences of sep; n separators give n + 1
   fields. This is the sequence of strings that repeated `strchr(arg, sep)`
   cuts off in util.c.
   */
  function Split(s: string, sep: char): (parts: seq<string>)
    ensures |parts| >= 1
    ensures forall k | 0 <= k < |parts| :: sep !in parts[k]
  {
    if |s| == 0 then [""]
    else if s[0] == sep then [""] + Split(s[1..], sep)
    else
      var rest := Split(s[1..], sep);
      [[s[0]] + rest[0]] + rest[1..]
  }

  lemma {:induction false} SplitPrefix(p: string, t: string, sep: char)
    requires sep !in p
    ensures Split(p + t, sep) == [p + Split(t, sep)[0]] + Split(t, sep)[1..]
  {
    if |p| > 0 {
      assert (p + t)[1..] == p[1..] + t;
      SplitPrefix(p[1..], t, sep);
      assert [p[0]] + (p[1..] + Split(t, sep)[0]) == p + Split(t, sep)[0];
    } else {
      var parts := Split(t, sep);
      assert p + t == t;
      assert p + parts[0] == parts[0];
      assert [parts[0]] + parts[1..] == parts;
    }
  }

  /** Splitting a join recovers the parts, provided no part contains the separator. */
  lemma {:induction false} SplitJoin(parts: seq<string>, sep: char)
    requires |parts| >= 1
    requires forall k | 0 <= k < |parts| :: sep !in parts[k]
    ensures Split(Join(parts, [sep]), sep) == parts
  {
    if |parts| == 1 {
      SplitPrefix(parts[0], "", sep);
      assert parts[0] + "" == parts[0];
    } else {
      var tail := Join(parts[1..], [sep]);
      SplitJoin(parts[1..], sep);
      assert ([sep] + tail)[1..] == tail;
      assert Split([sep] + tail, sep) == [""] + parts[1..];
      assert Join(parts, [sep]) == parts[0] + ([sep] + tail);
      SplitPrefix(parts[0], [sep] + tail, sep);
      assert parts[0] + "" == parts[0];
      assert [parts[0]] + parts[1..] == parts;
    }
  }

  /** Splitting a join followed by a separator and more text: the parts come first, unchanged. */
  lemma {:induction false} SplitJoinThen(parts: seq<string>, tail: string, sep: char)
    requires |parts| >= 1
    requires forall k | 0 <= k < |parts| :: sep !in parts[k]
    ensures Split(Join(parts, [sep]) + [sep] + tail, sep) == parts + Split(tail, sep)
  {
    if |parts| == 1 {
      assert Join(parts, [sep]) + [sep] + tail == parts[0] + ([sep] + tail);
      SplitField(parts[0], tail, sep);
    } else {
      var rest := Join(parts[1..], [sep]) + [sep] + tail;
      SplitJoinThen(parts[1..], tail, sep);
      JoinThenFirst(parts, tail, sep);
      SplitField(parts[0], rest, sep);
      HeadThen(parts, Split(tail, sep));
    }
  }

  lemma HeadThen<T>(s: seq<T>, x: seq<T>)
    requires |s| >= 1
    ensures [s[0]] + (s[1..] + x) == s + x
  {
    assert [s[0]] + s[1..] == s;
  }

  /** A join of two or more fields, followed by more text, is its first field, a separator, and the rest. */
  lemma JoinThenFirst(parts: seq<string>, tail: string, sep: char)
    requires |parts| >= 2
    ensures Join(parts, [sep]) + [sep] + tail == parts[0] + ([sep] + (Join(parts[1..], [sep]) + [sep] + tail))
  {
    var joined := Join(parts[1..], [sep]);
    assert Join(parts, [sep]) == parts[0] + [sep] + joined;
    Regroup(parts[0], [sep], joined, [sep], tail);
  }

  /** Regrouping a concatenation of five pieces. */
  lemma Regroup<T>(a: seq<T>, b: seq<T>, c: seq<T>, d: seq<T>, e: seq<T>)
    ensures a + b + c + d + e == a + (b + (c + d + e))
  {
  }

  /** A field followed by a separator splits off as the first field. */
  lemma SplitField(p: string, rest: string, sep: char)
    requires sep !in p
    ensures Split(p + ([sep] + rest), sep) == [p] + Split(rest, sep)
  {
    var t := [sep] + rest;
    assert t[1..] == rest;
    assert Split(t, sep) == [""] + Split(rest, sep);
    SplitPrefix(p, t, sep);
    assert p + "" == p;
  }

  /** Joining the fields of a split with the same separator gives back the string. */
  lemma {:induction false} JoinSplit(s: string, sep: char)
    ensures Join(Split(s, sep), [sep]) == s
  {
    if |s| == 0 {
    } else if s[0] == sep {
      JoinSplit(s[1..], sep);
      assert s == [sep] + s[1..];
    } else {
      JoinSplit(s[1..], sep);
      var rest := Split(s[1..], sep);
      if |rest| == 1 {
        assert s == [s[0]] + rest[0];
      } else {
        assert rest == [rest[0]] + rest[1..];
        assert Join(rest, [sep]) == rest[0] + [sep] + Join(rest[1..], [sep]);
        assert s == [s[0]] + s[1..];
      }
    }
  }

  /**
   The first field of a split is the text up to the first separator, and
   the split has a single field exactly when the separator does not occur.
   */
  lemma {:induction false} SplitFirst(s: string, sep: char)
    ensures |Split(s, sep)[0]| <= |s| && Split(s, sep)[0] == s[..|Split(s, sep)[0]|]
    ensures |Split(s, sep)| == 1 <==> sep !in s
    ensures sep !in s ==> Split(s, sep)[0] == s
  {
    if |s| > 0 {
      SplitFirst(s[1..], sep);
      if s[0] != sep {
        assert sep in s <==> sep in s[1..];
        assert s == [s[0]] + s[1..];
      } else {
        assert sep in s;
      }
    }
  }

  /** What the C string functions see in a buffer: the characters before the first NUL. */
  function CText(s: string): (t: string)
    ensures |t| <= |s| && t == s[..|t|] && '\0' !in t
    ensures '\0' !in s ==> t == s
  {
    if |s| == 0 || s[0] == '\0' then ""
    else
      assert s == [s[0]] + s[1..];
      [s[0]] + CText(s[1..])
  }

  /** Bytes rendered as two-digit hex groups separated by sep, as `%02x` in a loop prints them. */
  function HexList(bytes: seq<byte>, sep: char): (s: string)
    requires |bytes| >= 1
    ensures |s| == 3 * |bytes| - 1
    ensures forall i | 0 <= i < |bytes| :: s[3 * i..3 * i + 2] == HexPair(bytes[i])
    ensures forall i | 0 <= i < |bytes| - 1 :: s[3 * i + 2] == sep
  {
    if |bytes| == 1 then HexPair(bytes[0])
    else
      var rest := HexList(bytes[1..], sep);
      var s := HexPair(bytes[0]) + [sep] + rest;
      forall i | 0 <= i < |bytes| ensures s[3 * i..3 * i + 2] == HexPair(bytes[i]) {
        if i > 0 {
          var j := i - 1;
          assert 3 * i == 3 * j + 3;
          assert s[3 * i..3 * i + 2] == rest[3 * j..3 * j + 2];
          assert bytes[1..][j] == bytes[i];
        }
      }
      forall i | 0 <= i < |bytes| - 1 ensures s[3 * i + 2] == sep {
        if i > 0 {
          var j := i - 1;
          assert 3 * i == 3 * j + 3;
          assert s[3 * i + 2] == rest[3 * j + 2];
        }
      }
      s
  }

  lemma {:induction false} HexListIsJoin(bytes: seq<byte>, sep: char)
    requires |bytes| >= 1
    ensures HexList(bytes, sep) == Join(seq(|bytes|, i requires 0 <= i < |bytes| => HexPair(bytes[i])), [sep])
  {
    var parts := seq(|bytes|, i requires 0 <= i < |bytes| => HexPair(bytes[i]));
    if |bytes| > 1 {
      HexListIsJoin(bytes[1..], sep);
      assert parts[1..] == seq(|bytes| - 1, i requires 0 <= i < |bytes| - 1 => HexPair(bytes[1..][i]));
    }
  }

  /**
   Splitting a hex list at its separator and reading each field with ScanHex
   gives back every byte: `%02x` output is parsed back exactly.
   */
  lemma HexListRoundTrip(bytes: seq<byte>, sep: char)
    requires |bytes| >= 1
    requires !IsHexDigit(sep)
    ensures |Split(HexList(bytes, sep), sep)| == |bytes|
    ensures forall i | 0 <= i < |bytes| :: ScanHex(Split(HexList(bytes, sep), sep)[i]) == Some(bytes[i] as nat)
  {
    var parts := seq(|bytes|, i requires 0 <= i < |bytes| => HexPair(bytes[i]));
    HexListIsJoin(bytes, sep);
    forall k | 0 <= k < |parts| ensures sep !in parts[k] {
      assert parts[k] == HexPair(bytes[k]);
    }
    SplitJoin(parts, sep);
  }
}
