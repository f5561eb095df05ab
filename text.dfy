/**
  Byte strings and the few pieces of Go's standard library that the HTTP layer
  relies on: `bytes.Index`/`strings.Index`, `strings.Split`, `strings.TrimSpace`,
  `strings.ToLower`, `strconv.Atoi`, and the `%d` and `%X` verbs of `fmt`.

  A Go `string` converted from a `[]byte` holds exactly the same bytes, so one
  type, `Bytes`, stands for both: a byte is the character with the same code.
*/
module Text {

  /** One byte of wire data. */
  type Byte = c: char | c as int < 256

  type Bytes = seq<Byte>

  datatype Option<+T> = None | Some(value: T)

  const CRLF: Bytes := "\r\n"

  /** Go's `int` on a 64-bit platform. */
  const MinInt64: int := -0x8000_0000_0000_0000
  const MaxInt64: int := 0x7FFF_FFFF_FFFF_FFFF

  type Int64 = x: int | MinInt64 <= x <= MaxInt64

  // ---------------------------------------------------------------------------
  // Searching

  /** `pat` occurs in `s` starting at offset `i`. */
  predicate OccursAt(s: Bytes, pat: Bytes, i: int) {
    0 <= i && i + |pat| <= |s| && s[i..i + |pat|] == pat
  }

  /** `s` holds no CRLF pair anywhere. */
  predicate NoCRLF(s: Bytes) {
    forall i | 0 <= i < |s| :: !OccursAt(s, CRLF, i)
  }

  /** The offset of the first occurrence of `pat` in `s` at or after `from`, or -1. */
  function IndexFrom(s: Bytes, pat: Bytes, from: nat): (r: int)
    ensures r == -1 || (from <= r && OccursAt(s, pat, r))
    decreases |s| - from
  {
    if from + |pat| > |s| then -1
    else if s[from..from + |pat|] == pat then from
    else IndexFrom(s, pat, from + 1)
  }

  /** The offset of the first occurrence of `pat` in `s`, or -1 (`strings.Index`). */
  function Index(s: Bytes, pat: Bytes): (r: int)
    ensures r == -1 || OccursAt(s, pat, r)
  {
    IndexFrom(s, pat, 0)
  }

  /** No occurrence is skipped between `from` and the one `IndexFrom` finds. */
  lemma {:induction false} IndexFromFirst(s: Bytes, pat: Bytes, from: nat)
    ensures var r := IndexFrom(s, pat, from);
      forall i :: from <= i && (r == -1 || i < r) ==> !OccursAt(s, pat, i)
    decreases |s| - from
  {
    if from + |pat| <= |s| && s[from..from + |pat|] != pat {
      IndexFromFirst(s, pat, from + 1);
    }
  }

  /** `Index` finds the first occurrence, and -1 only when there is none. */
  lemma IndexFirst(s: Bytes, pat: Bytes)
    ensures Index(s, pat) == -1 ==> forall i :: !OccursAt(s, pat, i)
    ensures forall i :: 0 <= i < Index(s, pat) ==> !OccursAt(s, pat, i)
  {
    IndexFromFirst(s, pat, 0);
  }

  /** A first occurrence found by other means is the one `Index` returns. */
  lemma IndexIs(s: Bytes, pat: Bytes, k: int)
    requires OccursAt(s, pat, k)
    requires forall i :: 0 <= i < k ==> !OccursAt(s, pat, i)
    ensures Index(s, pat) == k
  {
    IndexFirst(s, pat);
  }

  /** A first occurrence inside `a` stays the first one once `b` is appended. */
  lemma IndexExtend(a: Bytes, b: Bytes, pat: Bytes)
    requires Index(a, pat) >= 0
    ensures Index(a + b, pat) == Index(a, pat)
  {
    var k := Index(a, pat);
    IndexFirst(a, pat);
    assert (a + b)[k..k + |pat|] == a[k..k + |pat|];
    forall i | 0 <= i < k ensures !OccursAt(a + b, pat, i) {
      assert !OccursAt(a, pat, i);
      assert (a + b)[i..i + |pat|] == a[i..i + |pat|];
    }
    IndexIs(a + b, pat, k);
  }

  /** Joining two CRLF-free strings creates no CRLF unless one straddles the seam. */
  lemma NoCRLFConcat(a: Bytes, b: Bytes)
    requires NoCRLF(a) && NoCRLF(b)
    requires a == [] || b == [] || !(a[|a| - 1] == '\r' && b[0] == '\n')
    ensures NoCRLF(a + b)
  {
    forall i | 0 <= i && i + 2 <= |a + b| ensures !OccursAt(a + b, CRLF, i) {
      if i + 2 <= |a| {
        assert (a + b)[i..i + 2] == a[i..i + 2];
        assert !OccursAt(a, CRLF, i);
      } else if i >= |a| {
        assert (a + b)[i..i + 2] == b[i - |a|..i - |a| + 2];
        assert !OccursAt(b, CRLF, i - |a|);
      } else {
        assert (a + b)[i..i + 2] == [a[|a| - 1], b[0]];
      }
    }
  }

  /** A string without carriage returns holds no CRLF. */
  lemma NoCRNoCRLF(s: Bytes)
    requires '\r' !in s
    ensures NoCRLF(s)
  {
    forall i | 0 <= i < |s| ensures !OccursAt(s, CRLF, i) {
      if i + 2 <= |s| {
        assert s[i..i + 2][0] == s[i];
      }
    }
  }

  /** The first CRLF of `line + CRLF + rest` ends `line` when `line` holds none. */
  lemma IndexCRLFAfter(line: Bytes, rest: Bytes)
    requires NoCRLF(line)
    ensures Index(line + CRLF + rest, CRLF) == |line|
  {
    var s := line + CRLF + rest;
    assert s[|line|..|line| + 2] == CRLF;
    forall i | 0 <= i < |line| ensures !OccursAt(s, CRLF, i) {
      if i + 2 <= |line| {
        assert line[i..i + 2] == s[i..i + 2];
        assert !OccursAt(line, CRLF, i);
      } else {
        assert s[i..i + 2] == [line[i], '\r'];
      }
    }
    IndexIs(s, CRLF, |line|);
  }

  // ---------------------------------------------------------------------------
  // Splitting

  /** The inverse of `Split`: the parts with one `sep` between neighbours. */
  function Join(parts: seq<Bytes>, sep: Byte): Bytes
    decreases |parts|
  {
    if |parts| == 0 then []
    else if |parts| == 1 then parts[0]
    else parts[0] + [sep] + Join(parts[1..], sep)
  }

  /** A one-byte pattern occurs exactly where that byte stands. */
  lemma OccursSingle(s: Bytes, c: Byte)
    ensures forall j :: OccursAt(s, [c], j) <==> 0 <= j < |s| && s[j] == c
  {
    forall j | 0 <= j < |s| ensures OccursAt(s, [c], j) <==> s[j] == c {
      assert s[j..j + 1] == [s[j]];
    }
  }

  /** `strings.Split(s, string(sep))`: the maximal `sep`-free pieces of `s`. */
  function Split(s: Bytes, sep: Byte): (parts: seq<Bytes>)
    ensures |parts| >= 1
    ensures Join(parts, sep) == s
    ensures forall i :: 0 <= i < |parts| ==> sep !in parts[i]
    decreases |s|
  {
    var i := Index(s, [sep]);
    if i == -1 then
      SeparatorAbsent(s, sep);
      [s]
    else
      SeparatorAt(s, sep, i);
      var rest := Split(s[i + 1..], sep);
      assert ([s[..i]] + rest)[1..] == rest;
      [s[..i]] + rest
  }

  lemma SeparatorAbsent(s: Bytes, sep: Byte)
    requires Index(s, [sep]) == -1
    ensures sep !in s
  {
    OccursSingle(s, sep);
    IndexFirst(s, [sep]);
  }

  /** The first `sep` cuts `s` into a `sep`-free head, the separator and the rest. */
  lemma SeparatorAt(s: Bytes, sep: Byte, i: int)
    requires i == Index(s, [sep]) != -1
    ensures 0 <= i < |s| && s == s[..i] + [sep] + s[i + 1..] && sep !in s[..i]
  {
    OccursSingle(s, sep);
    IndexFirst(s, [sep]);
    assert s == s[..i] + [sep] + s[i + 1..];
  }

  /** Splitting a join of `sep`-free parts gives the parts back. */
  lemma {:induction false} SplitJoin(parts: seq<Bytes>, sep: Byte)
    requires |parts| >= 1
    requires forall i :: 0 <= i < |parts| ==> sep !in parts[i]
    ensures Split(Join(parts, sep), sep) == parts
    decreases |parts|
  {
    var s := Join(parts, sep);
    OccursSingle(s, sep);
    if |parts| == 1 {
    } else {
      var p := parts[0];
      var tail := Join(parts[1..], sep);
      assert s == p + [sep] + tail;
      IndexIs(s, [sep], |p|);
      assert s[..|p|] == p;
      assert s[|p| + 1..] == tail;
      SplitJoin(parts[1..], sep);
    }
  }

  // ---------------------------------------------------------------------------
  // White space and case (ASCII only)

  /** The ASCII bytes `unicode.IsSpace` accepts: tab, LF, VT, FF, CR, space. */
  predicate IsSpace(c: Byte) {
    c == ' ' || c == '\t' || c == '\n' || c == '\U{0B}' || c == '\U{0C}' || c == '\r'
  }

  /** Neither end of `s` is white space. */
  predicate IsTrimmed(s: Bytes) {
    s == [] || (!IsSpace(s[0]) && !IsSpace(s[|s| - 1]))
  }

  predicate AllSpace(s: Bytes) {
    forall i :: 0 <= i < |s| ==> IsSpace(s[i])
  }

  function TrimLeft(s: Bytes): (r: Bytes)
    ensures r == [] || !IsSpace(r[0])
    ensures exists k :: 0 <= k <= |s| && AllSpace(s[..k]) && r == s[k..]
    decreases |s|
  {
    if |s| > 0 && IsSpace(s[0]) then
      var r := TrimLeft(s[1..]);
      var k :| 0 <= k <= |s[1..]| && AllSpace(s[1..][..k]) && r == s[1..][k..];
      SpaceBefore(s, k);
      r
    else
      assert AllSpace(s[..0]);
      s
  }

  lemma SpaceBefore(s: Bytes, k: nat)
    requires |s| > 0 && IsSpace(s[0]) && k <= |s[1..]| && AllSpace(s[1..][..k])
    ensures AllSpace(s[..k + 1]) && s[1..][k..] == s[k + 1..]
  {
    assert s[..k + 1] == [s[0]] + s[1..][..k];
  }

  function TrimRight(s: Bytes): (r: Bytes)
    ensures r == [] || !IsSpace(r[|r| - 1])
    ensures |r| <= |s| && r == s[..|r|] && AllSpace(s[|r|..])
    decreases |s|
  {
    if |s| > 0 && IsSpace(s[|s| - 1]) then TrimRight(s[..|s| - 1]) else s
  }

  /** `strings.TrimSpace`: `s` without its leading and trailing white space. */
  function TrimSpace(s: Bytes): (r: Bytes)
    ensures IsTrimmed(r)
  {
    TrimRight(TrimLeft(s))
  }

  lemma TrimLeftPadded(pad: Bytes, s: Bytes)
    requires AllSpace(pad)
    requires s == [] || !IsSpace(s[0])
    ensures TrimLeft(pad + s) == s
    decreases |pad|
  {
    if pad != [] {
      assert (pad + s)[1..] == pad[1..] + s;
      TrimLeftPadded(pad[1..], s);
    } else {
      assert pad + s == s;
    }
  }

  lemma TrimRightPadded(s: Bytes, pad: Bytes)
    requires AllSpace(pad)
    requires s == [] || !IsSpace(s[|s| - 1])
    ensures TrimRight(s + pad) == s
    decreases |pad|
  {
    if pad != [] {
      assert (s + pad)[..|s + pad| - 1] == s + pad[..|pad| - 1];
      TrimRightPadded(s, pad[..|pad| - 1]);
    } else {
      assert s + pad == s;
    }
  }

  /** White space around a trimmed string is exactly what `TrimSpace` removes. */
  lemma {:induction false} TrimSpacePadded(pre: Bytes, s: Bytes, post: Bytes)
    requires AllSpace(pre) && AllSpace(post) && IsTrimmed(s)
    ensures TrimSpace(pre + s + post) == s
  {
    if s == [] {
      assert pre + s + post == pre + post;
      TrimLeftPadded(pre + post, []);
      assert pre + post + [] == pre + post;
    } else {
      assert pre + s + post == pre + (s + post);
      TrimLeftPadded(pre, s + post);
      TrimRightPadded(s, post);
    }
  }

  predicate IsUpper(c: Byte) {
    'A' <= c <= 'Z'
  }

  function LowerByte(c: Byte): Byte {
    if IsUpper(c) then (c as int + 32) as char else c
  }

  /** `strings.ToLower` on ASCII: every upper-case letter replaced by its lower case. */
  function ToLower(s: Bytes): (r: Bytes)
    ensures |r| == |s|
  {
    seq(|s|, i requires 0 <= i < |s| => LowerByte(s[i]))
  }

  /** `ToLower` leaves no upper-case letter and changes nothing else. */
  lemma ToLowerSpec(s: Bytes)
    ensures forall i :: 0 <= i < |s| ==> !IsUpper(ToLower(s)[i])
    ensures forall i :: 0 <= i < |s| && !IsUpper(s[i]) ==> ToLower(s)[i] == s[i]
    ensures forall i :: 0 <= i < |s| && IsUpper(s[i]) ==> ToLower(s)[i] as int == s[i] as int + 32
  {
  }

  // ---------------------------------------------------------------------------
  // Decimal numbers: `fmt`'s `%d` and `strconv.Atoi`

  predicate IsDigit(c: Byte) {
    '0' <= c <= '9'
  }

  predicate AllDigits(s: Bytes) {
    forall i :: 0 <= i < |s| ==> IsDigit(s[i])
  }

  function DigitChar(d: nat): (c: Byte)
    requires d < 10
    ensures IsDigit(c) && c as int - '0' as int == d
  {
    ('0' as int + d) as char
  }

  /** The decimal digits of `n`, without leading zeros. */
  function DigitsOf(n: nat): (r: Bytes)
    ensures |r| >= 1 && AllDigits(r)
    ensures |r| > 1 ==> r[0] != '0'
    decreases n
  {
    if n < 10 then [DigitChar(n)] else DigitsOf(n / 10) + [DigitChar(n % 10)]
  }

  /** The number a run of decimal digits denotes, read most significant first. */
  function DigitsValue(s: Bytes): nat
    requires AllDigits(s)
    decreases |s|
  {
    if s == [] then 0 else DigitsValue(s[..|s| - 1]) * 10 + (s[|s| - 1] as int - '0' as int)
  }

  /** `fmt.Sprint(n)` / `%d`: an optional minus sign, then the digits of |n|. */
  function Decimal(n: int): (r: Bytes)
    ensures |r| >= 1
  {
    if n < 0 then ['-'] + DigitsOf(-n) else DigitsOf(n)
  }

  /** `s` without its leading sign, if it has one. */
  function Unsigned(s: Bytes): Bytes {
    if |s| > 0 && (s[0] == '+' || s[0] == '-') then s[1..] else s
  }

  /** The syntax `strconv.Atoi` accepts: an optional `+` or `-`, then one or more decimal digits. */
  predicate IsDecimalText(s: Bytes) {
    |Unsigned(s)| >= 1 && AllDigits(Unsigned(s))
  }

  /** The number decimal text denotes, negated after a `-`. */
  function SignedValue(s: Bytes): int
    requires IsDecimalText(s)
  {
    if s[0] == '-' then -(DigitsValue(Unsigned(s)) as int) else DigitsValue(Unsigned(s))
  }

  /**
    `strconv.Atoi` on a 64-bit platform: an optional `+` or `-`, then at least
    one decimal digit and nothing else, with the value in Go's `int` range.
  */
  function Atoi(s: Bytes): (r: Option<Int64>)
    ensures r.Some? ==> |s| >= 1 && (IsDigit(s[0]) || s[0] == '+' || s[0] == '-')
    ensures r.Some? && r.value < 0 ==> s[0] == '-'
    ensures r.Some? <==> IsDecimalText(s) && MinInt64 <= SignedValue(s) <= MaxInt64
    ensures r.Some? ==> r.value == SignedValue(s)
  {
    var signed := |s| > 0 && (s[0] == '+' || s[0] == '-');
    var digits := if signed then s[1..] else s;
    if |digits| == 0 || !AllDigits(digits) then None
    else
      var v: int := if signed && s[0] == '-' then -(DigitsValue(digits) as int) else DigitsValue(digits);
      if MinInt64 <= v <= MaxInt64 then Some(v) else None
  }

  /** A sign alone, a trailing non-digit and a leading '+' or zeros: what Go's `Atoi` does with each. */
  lemma AtoiExamples()
    ensures Atoi("+") == None && Atoi("5x") == None && Atoi("") == None
    ensures Atoi("+5") == Some(5) && Atoi("007") == Some(7) && Atoi("-12") == Some(-12)
  {
    assert !IsDigit('x');
    assert DigitsValue("007") == DigitsValue("00") * 10 + 7;
    assert DigitsValue("12") == DigitsValue("1") * 10 + 2;
    assert ("+5")[1..] == "5" && ("-12")[1..] == "12";
  }

  lemma {:induction false} DigitsValueOf(n: nat)
    ensures DigitsValue(DigitsOf(n)) == n
    decreases n
  {
    if n >= 10 {
      var d := DigitsOf(n);
      assert d[..|d| - 1] == DigitsOf(n / 10);
      DigitsValueOf(n / 10);
    }
  }

  /** Reading back a formatted `int` gives the same number. */
  lemma AtoiDecimal(n: Int64)
    ensures Atoi(Decimal(n)) == Some(n)
  {
    if n < 0 {
      AtoiNegative(-(n as int));
    } else {
      AtoiDigits(n);
    }
  }

  lemma AtoiDigits(n: nat)
    requires n <= MaxInt64
    ensures Atoi(DigitsOf(n)) == Some(n)
  {
    var d := DigitsOf(n);
    assert IsDigit(d[0]);
    DigitsValueOf(n);
  }

  lemma AtoiNegative(m: nat)
    requires 0 < m <= -MinInt64
    ensures Atoi(['-'] + DigitsOf(m)) == Some(-(m as int))
  {
    var d := DigitsOf(m);
    assert (['-'] + d)[1..] == d;
    DigitsValueOf(m);
  }

  // ---------------------------------------------------------------------------
  // Hexadecimal numbers: `fmt`'s `%X`

  predicate IsHexDigit(c: Byte) {
    IsDigit(c) || 'A' <= c <= 'F' || 'a' <= c <= 'f'
  }

  predicate AllHex(s: Bytes) {
    forall i :: 0 <= i < |s| ==> IsHexDigit(s[i])
  }

  function HexDigit(d: nat): (c: Byte)
    requires d < 16
    ensures IsHexDigit(c) && !('a' <= c <= 'z')
  {
    if d < 10 then DigitChar(d) else ('A' as int + d - 10) as char
  }

  function HexDigitValue(c: Byte): nat
    requires IsHexDigit(c)
  {
    if IsDigit(c) then c as int - '0' as int
    else if 'A' <= c <= 'F' then c as int - 'A' as int + 10
    else c as int - 'a' as int + 10
  }

  /** `fmt.Sprintf("%X", n)`: upper-case hexadecimal, no leading zeros, "0" for zero. */
  function Hex(n: nat): (r: Bytes)
    ensures |r| >= 1 && AllHex(r)
    ensures forall i :: 0 <= i < |r| ==> !('a' <= r[i] <= 'z')
    ensures |r| > 1 ==> r[0] != '0'
    decreases n
  {
    if n < 16 then [HexDigit(n)] else Hex(n / 16) + [HexDigit(n % 16)]
  }

  /** The number a run of hexadecimal digits (either case) denotes. */
  function HexValue(s: Bytes): nat
    requires AllHex(s)
    decreases |s|
  {
    if s == [] then 0 else HexValue(s[..|s| - 1]) * 16 + HexDigitValue(s[|s| - 1])
  }

  lemma {:induction false} HexValueOf(n: nat)
    ensures HexValue(Hex(n)) == n
    decreases n
  {
    if n >= 16 {
      var h := Hex(n);
      assert h[..|h| - 1] == Hex(n / 16);
      HexValueOf(n / 16);
    }
  }
}
