/** The parts of Go's strings, strconv and encoding/hex that the key and list codecs rest on. */
module Text {
  import opened MachineInt
  import opened Options

  /** A Go string is a sequence of bytes; each character of a ByteString stands for one of them. */
  type ByteString = s: string | IsBytes(s)

  predicate IsBytes(s: string) {
    forall i :: 0 <= i < |s| ==> s[i] as int < 256
  }

  // ----- strings.Split, strings.Join -----------------------------------------------------------

  function Split(s: string, sep: char): (r: seq<string>)
    ensures |r| > 0
  {
    if s == "" then [""]
    else
      var rest := Split(s[1..], sep);
      if s[0] == sep then [""] + rest else [[s[0]] + rest[0]] + rest[1..]
  }

  function Join(parts: seq<string>, sep: char): string {
    if parts == [] then ""
    else if |parts| == 1 then parts[0]
    else parts[0] + [sep] + Join(parts[1..], sep)
  }

  /** One part is itself, and more are the first, the separator and the rest. */
  lemma JoinCons(a: string, rest: seq<string>, sep: char)
    ensures Join([a], sep) == a
    ensures rest != [] ==> Join([a] + rest, sep) == a + [sep] + Join(rest, sep)
  {
    assert ([a] + rest)[1..] == rest;
  }

  predicate Free(parts: seq<string>, c: char) {
    forall i :: 0 <= i < |parts| ==> c !in parts[i]
  }

  lemma {:induction false} SplitFree(p: string, sep: char)
    requires sep !in p
    ensures Split(p, sep) == [p]
  {
    if p != "" {
      SplitFree(p[1..], sep);
      assert p == [p[0]] + p[1..];
    }
  }

  lemma {:induction false} SplitFirst(p: string, sep: char, rest: string)
    requires sep !in p
    ensures Split(p + [sep] + rest, sep) == [p] + Split(rest, sep)
  {
    var s := p + [sep] + rest;
    if p == "" {
      assert s == [sep] + rest && s[1..] == rest;
    } else {
      assert s[1..] == p[1..] + [sep] + rest;
      SplitFirst(p[1..], sep, rest);
      assert p == [p[0]] + p[1..];
    }
  }

  lemma {:induction false} SplitPaddedLeft(before: string, s: string, sep: char)
    requires sep !in before
    ensures Split(before + s, sep) == [before + Split(s, sep)[0]] + Split(s, sep)[1..]
  {
    if before == "" {
      assert before + s == s && before + Split(s, sep)[0] == Split(s, sep)[0];
    } else {
      assert (before + s)[1..] == before[1..] + s;
      SplitPaddedLeft(before[1..], s, sep);
      var p, q := Split(s, sep), Split(before[1..] + s, sep);
      assert before == [before[0]] + before[1..];
      assert before + p[0] == [before[0]] + (before[1..] + p[0]) && q[1..] == p[1..];
    }
  }

  lemma {:induction false} SplitPaddedRight(s: string, after: string, sep: char)
    requires sep !in after
    ensures var p := Split(s, sep); Split(s + after, sep) == p[..|p| - 1] + [p[|p| - 1] + after]
  {
    if s == "" {
      assert s + after == after;
      SplitFree(after, sep);
    } else {
      assert (s + after)[1..] == s[1..] + after;
      SplitPaddedRight(s[1..], after, sep);
      var p := Split(s[1..], sep);
      var q := p[..|p| - 1] + [p[|p| - 1] + after];
      if s[0] == sep {
        assert ([""] + p)[..|p|] == [""] + p[..|p| - 1];
      } else {
        PaddedEnd(s[0], p, after);
      }
    }
  }

  lemma PaddedEnd(c: char, p: seq<string>, after: string)
    requires p != []
    ensures var q := p[..|p| - 1] + [p[|p| - 1] + after];
            var p', q' := [[c] + p[0]] + p[1..], [[c] + q[0]] + q[1..];
            q' == p'[..|p| - 1] + [p'[|p| - 1] + after]
  {
    if |p| == 1 {
      assert [c] + (p[0] + after) == [c] + p[0] + after;
    }
  }

  /** Splitting undoes joining parts that do not contain the separator. */
  lemma {:induction false} SplitJoin(parts: seq<string>, sep: char)
    requires parts != [] && Free(parts, sep)
    ensures Split(Join(parts, sep), sep) == parts
  {
    if |parts| == 1 {
      SplitFree(parts[0], sep);
      assert parts == [parts[0]];
    } else {
      SplitJoin(parts[1..], sep);
      SplitFirst(parts[0], sep, Join(parts[1..], sep));
      assert parts == [parts[0]] + parts[1..];
    }
  }

  /** And joining undoes splitting, for every string. */
  lemma {:induction false} JoinSplit(s: string, sep: char)
    ensures Join(Split(s, sep), sep) == s
  {
    if s != "" {
      var rest := Split(s[1..], sep);
      JoinSplit(s[1..], sep);
      assert s == [s[0]] + s[1..];
      if s[0] == sep {
        assert ([""] + rest)[1..] == rest;
      } else if |rest| > 1 {
        var parts := [[s[0]] + rest[0]] + rest[1..];
        assert parts[1..] == rest[1..];
        assert [s[0]] + rest[0] + [sep] + Join(rest[1..], sep) == [s[0]] + (rest[0] + [sep] + Join(rest[1..], sep));
      }
    }
  }

  lemma {:induction false} JoinIsBytes(parts: seq<ByteString>, sep: char)
    requires sep as int < 256
    ensures IsBytes(Join(parts, sep))
  {
    if |parts| > 1 {
      JoinIsBytes(parts[1..], sep);
    }
  }

  lemma {:induction false} SplitIsFree(s: string, sep: char)
    ensures Free(Split(s, sep), sep)
  {
    if s != "" {
      SplitIsFree(s[1..], sep);
    }
  }

  // ----- decimal numbers -----------------------------------------------------------------------

  predicate IsDigit(c: char) {
    '0' <= c <= '9'
  }

  predicate AllDigits(s: string) {
    forall i :: 0 <= i < |s| ==> IsDigit(s[i])
  }

  function Digit(d: nat): (c: char)
    requires d < 10
    ensures IsDigit(c)
  {
    '0' + d as char
  }

  function DigitValue(c: char): (d: nat)
    requires IsDigit(c)
  {
    (c - '0') as int
  }

  /** strconv.FormatUint in base 10, and %d. */
  function Format(n: nat): (s: string)
    ensures s != "" && AllDigits(s)
  {
    if n < 10 then [Digit(n)] else Format(n / 10) + [Digit(n % 10)]
  }

  function FormatInt(n: int): (s: string)
    ensures s != ""
  {
    if n < 0 then "-" + Format(-n) else Format(n)
  }

  function Value(s: string): nat
    requires AllDigits(s)
  {
    if s == "" then 0 else 10 * Value(s[..|s| - 1]) + DigitValue(s[|s| - 1])
  }

  /** strconv.ParseUint in base 10, with max the greatest number of that many bits. */
  function ParseUint(s: string, max: nat): Option<nat> {
    if s == "" || !AllDigits(s) || Value(s) > max then None else Some(Value(s))
  }

  /** strconv.ParseInt in base 10, for numbers from -half to half - 1. */
  function ParseInt(s: string, half: nat): Option<int> {
    if s == "" then None
    else
      var digits := if s[0] == '+' || s[0] == '-' then s[1..] else s;
      if digits == "" || !AllDigits(digits) then None
      else if s[0] == '-' then (if Value(digits) > half then None else Some(0 - Value(digits)))
      else if Value(digits) >= half then None else Some(Value(digits))
  }

  lemma {:induction false} ValueOfFormat(n: nat)
    ensures Value(Format(n)) == n
  {
    if n >= 10 {
      ValueOfFormat(n / 10);
      assert Format(n)[..|Format(n)| - 1] == Format(n / 10);
    }
  }

  function Pow10(i: nat): (p: nat)
    ensures p > 0
  {
    if i == 0 then 1 else 10 * Pow10(i - 1)
  }

  lemma DivideTwice(n: nat, p: nat)
    requires p > 0
    ensures n / 10 / p == n / (10 * p)
  {
    var q, r := n / 10 / p, n / 10 % p;
    assert n / 10 == q * p + r;
    assert n == 10 * (n / 10) + n % 10;
    var rest := 10 * r + n % 10;
    assert n == q * (10 * p) + rest by {
      assert 10 * (q * p + r) == q * (10 * p) + 10 * r;
    }
    assert 0 <= rest < 10 * p;
    QuotientIs(n, q, 10 * p, rest);
  }

  lemma QuotientIs(n: nat, q: nat, p: nat, r: nat)
    requires p > 0 && n == q * p + r && r < p
    ensures n / p == q
  {
    assert n == n / p * p + n % p;
    CloseMultiples(n / p, q, p);
  }

  /** The character i places from the right. */
  lemma {:induction false} FormatDigit(n: nat, i: nat)
    requires i < |Format(n)|
    ensures Format(n)[|Format(n)| - 1 - i] as int == 48 + n / Pow10(i) % 10
  {
    if i == 0 {
      assert Pow10(0) == 1 && n / 1 == n;
    } else {
      FormatDigit(n / 10, i - 1);
      DivideTwice(n, Pow10(i - 1));
    }
  }

  lemma {:induction false} FormatLength(n: nat)
    ensures Format(n)[0] as int == 48 <==> n == 0
    ensures if n == 0 then |Format(n)| == 1 else Pow10(|Format(n)| - 1) <= n < Pow10(|Format(n)|)
  {
    if n < 10 {
      assert Pow10(0) == 1 && Pow10(1) == 10;
    } else {
      var t := Format(n / 10);
      FormatLength(n / 10);
      assert Format(n)[0] == t[0] && |Format(n)| == |t| + 1;
      assert Pow10(|t|) == 10 * Pow10(|t| - 1) && Pow10(|t| + 1) == 10 * Pow10(|t|);
    }
  }

  /**
   * The text is decimal: i places from the right stands the character with the code 48 + the i-th
   * decimal digit, there are as many as the number needs, and the first is '0' only for zero.
   */
  lemma FormatIsDecimal(n: nat)
    ensures var s := Format(n);
            && (forall i :: 0 <= i < |s| ==> s[|s| - 1 - i] as int == 48 + n / Pow10(i) % 10)
            && (s[0] as int == 48 <==> n == 0)
            && (if n == 0 then |s| == 1 else Pow10(|s| - 1) <= n < Pow10(|s|))
  {
    FormatLength(n);
    forall i | 0 <= i < |Format(n)|
      ensures Format(n)[|Format(n)| - 1 - i] as int == 48 + n / Pow10(i) % 10
    {
      FormatDigit(n, i);
    }
  }

  /** Negative numbers have a minus sign, code 45, in front. */
  lemma FormatIntSign(n: int)
    ensures n >= 0 ==> FormatInt(n) == Format(n)
    ensures n < 0 ==> FormatInt(n)[0] as int == 45 && FormatInt(n)[1..] == Format(-n)
  {
  }

  function Zeros(k: nat): (s: string)
    ensures |s| == k
  {
    seq(k, _ => '0')
  }

  lemma DigitText(c: char)
    requires IsDigit(c)
    ensures DigitValue(c) < 10 && Digit(DigitValue(c)) == c && Format(DigitValue(c)) == [c]
  {
  }

  lemma FormatAppend(v: nat, d: nat)
    requires v > 0 && d < 10
    ensures Format(10 * v + d) == Format(v) + [Digit(d)]
  {
    assert (10 * v + d) / 10 == v && (10 * v + d) % 10 == d;
  }

  lemma OneMoreDigit(k: nat, v: nat, c: char) returns (k': nat)
    requires IsDigit(c)
    ensures Zeros(k) + Format(v) + [c] == Zeros(k') + Format(10 * v + DigitValue(c))
  {
    DigitText(c);
    if v == 0 {
      k' := k + 1;
      assert Zeros(k) + "0" == Zeros(k + 1);
    } else {
      k' := k;
      FormatAppend(v, DigitValue(c));
    }
  }

  /** The value of a text of digits is the number it is the text of, after leading zeros. */
  lemma {:induction false} DigitsAreFormat(s: string) returns (k: nat)
    requires s != "" && AllDigits(s)
    ensures s == Zeros(k) + Format(Value(s))
    decreases |s|
  {
    var init, last := s[..|s| - 1], s[|s| - 1];
    assert s == init + [last];
    if init == "" {
      DigitText(last);
      k := 0;
    } else {
      k := DigitsAreFormat(init);
      k := OneMoreDigit(k, Value(init), last);
    }
  }

  lemma {:induction false} ValueOfZeros(k: nat, s: string)
    requires AllDigits(s)
    ensures AllDigits(Zeros(k) + s) && Value(Zeros(k) + s) == Value(s)
    decreases |s|, k
  {
    var z := Zeros(k) + s;
    if s != "" {
      assert z[..|z| - 1] == Zeros(k) + s[..|s| - 1];
      ValueOfZeros(k, s[..|s| - 1]);
    } else if k > 0 {
      assert z[..|z| - 1] == Zeros(k - 1) + "";
      ValueOfZeros(k - 1, "");
    }
  }

  /** ParseUint reads exactly the texts of numbers up to max, after any number of zeros. */
  lemma ParseUintIff(s: string, max: nat, n: nat)
    ensures ParseUint(s, max) == Some(n) <==> n <= max && exists k: nat :: s == Zeros(k) + Format(n)
  {
    if ParseUint(s, max) == Some(n) {
      var k := DigitsAreFormat(s);
    }
    if k: nat :| s == Zeros(k) + Format(n) {
      ValueOfFormat(n);
      ValueOfZeros(k, Format(n));
    }
  }

  /** ParseInt reads the same with a sign or none, for numbers from -half to half - 1. */
  lemma ParseIntIff(s: string, half: nat)
    ensures ParseInt("-" + s, half) == if ParseUint(s, half).Some? then Some(0 - ParseUint(s, half).value) else None
    ensures half > 0 ==> ParseInt("+" + s, half) == ParseUint(s, half - 1)
    ensures half > 0 && s != "" && s[0] != '-' && s[0] != '+' ==> ParseInt(s, half) == ParseUint(s, half - 1)
  {
    assert ("-" + s)[1..] == s && ("+" + s)[1..] == s;
  }

  lemma ParseFormat(n: nat, max: nat)
    ensures ParseUint(Format(n), max) == if n <= max then Some(n) else None
    ensures ParseInt(Format(n), max) == if n < max then Some(n) else None
  {
    ValueOfFormat(n);
  }

  lemma FormatInjective(m: int, n: int)
    ensures FormatInt(m) == FormatInt(n) <==> m == n
  {
    if FormatInt(m) == FormatInt(n) {
      assert FormatInt(m)[0] == '-' <==> m < 0;
      assert FormatInt(n)[0] == '-' <==> n < 0;
      if m < 0 {
        assert Format(-m) == FormatInt(m)[1..] == FormatInt(n)[1..] == Format(-n);
        ValueOfFormat(-m);
        ValueOfFormat(-n);
      } else {
        ValueOfFormat(m);
        ValueOfFormat(n);
      }
    }
  }

  lemma FormatIntFree(n: int, c: char)
    requires !IsDigit(c) && c != '-'
    ensures c !in FormatInt(n)
  {
  }

  // ----- encoding/hex --------------------------------------------------------------------------

  newtype Byte = n: int | 0 <= n < 256

  function HexDigit(d: nat): (c: char)
    requires d < 16
  {
    "0123456789abcdef"[d]
  }

  function HexValue(c: char): Option<nat> {
    if '0' <= c <= '9' then Some((c - '0') as int)
    else if 'a' <= c <= 'f' then Some((c - 'a') as int + 10)
    else if 'A' <= c <= 'F' then Some((c - 'A') as int + 10)
    else None
  }

  function EncodeHex(b: seq<Byte>): string {
    if b == [] then ""
    else [HexDigit(b[0] as int / 16), HexDigit(b[0] as int % 16)] + EncodeHex(b[1..])
  }

  /** None for an odd length and for characters that are not hexadecimal digits. */
  function DecodeHex(s: string): Option<seq<Byte>> {
    if s == "" then Some([])
    else if |s| == 1 then None
    else
      var hi, lo, rest := HexValue(s[0]), HexValue(s[1]), DecodeHex(s[2..]);
      if hi.None? || lo.None? || rest.None? then None
      else if 16 * hi.value + lo.value < 256 then Some([(16 * hi.value + lo.value) as Byte] + rest.value)
      else None
  }

  /** What hex.DecodeString hands back, error or not: the pairs before the first that is not hexadecimal. */
  function HexPrefix(s: string): seq<Byte> {
    if |s| < 2 then []
    else
      var hi, lo := HexValue(s[0]), HexValue(s[1]);
      if hi.None? || lo.None? then []
      else if 16 * hi.value + lo.value < 256 then [(16 * hi.value + lo.value) as Byte] + HexPrefix(s[2..])
      else []
  }

  lemma {:induction false} DecodedIsPrefix(s: string)
    ensures DecodeHex(s).Some? ==> DecodeHex(s).value == HexPrefix(s)
    decreases |s|
  {
    if |s| >= 2 {
      DecodedIsPrefix(s[2..]);
    }
  }

  /** The hexadecimal digits by their codes: 0 to 9, and a to f in either case. */
  lemma HexCodes(c: char, d: nat)
    ensures HexValue(c) == Some(d) <==>
            || (d < 10 && c as int == 48 + d)
            || (10 <= d < 16 && (c as int == 87 + d || c as int == 55 + d))
  {
  }

  lemma {:induction false} EncodeHexAt(b: seq<Byte>, i: nat)
    requires i < |b|
    ensures |EncodeHex(b)| == 2 * |b|
    ensures EncodeHex(b)[2 * i] == HexDigit(b[i] as int / 16) && EncodeHex(b)[2 * i + 1] == HexDigit(b[i] as int % 16)
  {
    if i > 0 {
      EncodeHexAt(b[1..], i - 1);
    } else if |b| > 1 {
      EncodeHexAt(b[1..], 0);
    }
  }

  /** Two digits for each byte, the high half first, in lower case. */
  lemma EncodeHexDigits(b: seq<Byte>)
    ensures |EncodeHex(b)| == 2 * |b|
    ensures forall i :: 0 <= i < |b| ==>
              var hi, lo := b[i] as int / 16, b[i] as int % 16;
              && EncodeHex(b)[2 * i] as int == (if hi < 10 then 48 + hi else 87 + hi)
              && EncodeHex(b)[2 * i + 1] as int == (if lo < 10 then 48 + lo else 87 + lo)
  {
    if b != [] {
      EncodeHexAt(b, 0);
    }
    forall i | 0 <= i < |b|
      ensures var hi, lo := b[i] as int / 16, b[i] as int % 16;
              && EncodeHex(b)[2 * i] as int == (if hi < 10 then 48 + hi else 87 + hi)
              && EncodeHex(b)[2 * i + 1] as int == (if lo < 10 then 48 + lo else 87 + lo)
    {
      EncodeHexAt(b, i);
      HexDigitCode(b[i] as int / 16);
      HexDigitCode(b[i] as int % 16);
    }
  }

  lemma HexSmall(c: char)
    ensures HexValue(c).Some? ==> HexValue(c).value < 16
  {
  }

  lemma {:induction false} DecodedDigits(s: string, i: nat)
    requires DecodeHex(s).Some? && i < |DecodeHex(s).value|
    ensures |s| == 2 * |DecodeHex(s).value|
    ensures HexValue(s[2 * i]) == Some(DecodeHex(s).value[i] as int / 16)
    ensures HexValue(s[2 * i + 1]) == Some(DecodeHex(s).value[i] as int % 16)
    decreases |s|
  {
    HexSmall(s[0]);
    HexSmall(s[1]);
    var rest := DecodeHex(s[2..]).value;
    if i > 0 {
      DecodedDigits(s[2..], i - 1);
    } else if rest != [] {
      DecodedDigits(s[2..], 0);
    } else {
      assert DecodeHex(s[2..]) == Some([]);
      DecodedNothing(s[2..]);
    }
  }

  lemma DecodedNothing(s: string)
    requires DecodeHex(s) == Some([])
    ensures s == ""
  {
  }

  lemma {:induction false} DigitsDecode(s: string, b: seq<Byte>)
    requires |s| == 2 * |b|
    requires forall i :: 0 <= i < |b| ==>
               HexValue(s[2 * i]) == Some(b[i] as int / 16) && HexValue(s[2 * i + 1]) == Some(b[i] as int % 16)
    ensures DecodeHex(s) == Some(b)
  {
    if b != [] {
      var t, c := s[2..], b[1..];
      forall i | 0 <= i < |c|
        ensures HexValue(t[2 * i]) == Some(c[i] as int / 16) && HexValue(t[2 * i + 1]) == Some(c[i] as int % 16)
      {
        assert t[2 * i] == s[2 * (i + 1)] && t[2 * i + 1] == s[2 * (i + 1) + 1] && c[i] == b[i + 1];
      }
      DigitsDecode(t, c);
      assert HexValue(s[2 * 0]) == Some(b[0] as int / 16) && HexValue(s[2 * 0 + 1]) == Some(b[0] as int % 16);
      assert b == [b[0]] + c;
    }
  }

  /** A text decodes to b exactly if it has the two digits of each byte, where HexCodes says what is a digit. */
  lemma DecodeHexIff(s: string, b: seq<Byte>)
    ensures DecodeHex(s) == Some(b) <==>
            && |s| == 2 * |b|
            && forall i :: 0 <= i < |b| ==>
                 HexValue(s[2 * i]) == Some(b[i] as int / 16) && HexValue(s[2 * i + 1]) == Some(b[i] as int % 16)
  {
    if DecodeHex(s) == Some(b) {
      if b == [] {
        DecodedNothing(s);
      } else {
        DecodedDigits(s, 0);
      }
      forall i | 0 <= i < |b|
        ensures HexValue(s[2 * i]) == Some(b[i] as int / 16) && HexValue(s[2 * i + 1]) == Some(b[i] as int % 16)
      {
        DecodedDigits(s, i);
      }
    } else if |s| == 2 * |b| && forall i :: 0 <= i < |b| ==>
                HexValue(s[2 * i]) == Some(b[i] as int / 16) && HexValue(s[2 * i + 1]) == Some(b[i] as int % 16) {
      DigitsDecode(s, b);
    }
  }

  /** What is handed back with an error is what the longest run of pairs from the start decodes to. */
  lemma {:induction false} HexPrefixIs(s: string)
    ensures var n := 2 * |HexPrefix(s)|;
            && n <= |s| && DecodeHex(s[..n]) == Some(HexPrefix(s))
            && (n + 2 <= |s| ==> HexValue(s[n]) == None || HexValue(s[n + 1]) == None)
    decreases |s|
  {
    if |s| >= 2 {
      HexSmall(s[0]);
      HexSmall(s[1]);
      HexPrefixIs(s[2..]);
      var n := 2 * |HexPrefix(s)|;
      if n > 0 {
        assert s[..n][2..] == s[2..][..n - 2];
      }
    }
  }

  lemma HexDigitCode(d: nat)
    requires d < 16
    ensures HexDigit(d) as int == if d < 10 then 48 + d else 87 + d
  {
  }

  lemma HexDigitValue(d: nat)
    requires d < 16
    ensures HexValue(HexDigit(d)) == Some(d)
  {
  }

  lemma DecodePair(d: Byte, rest: string, xs: seq<Byte>)
    requires DecodeHex(rest) == Some(xs)
    ensures DecodeHex([HexDigit(d as int / 16), HexDigit(d as int % 16)] + rest) == Some([d] + xs)
  {
    var hi, lo := d as int / 16, d as int % 16;
    HexDigitValue(hi);
    HexDigitValue(lo);
    assert 16 * hi + lo == d as int;
    assert ([HexDigit(hi), HexDigit(lo)] + rest)[2..] == rest;
  }

  lemma {:induction false} DecodeEncode(b: seq<Byte>)
    ensures DecodeHex(EncodeHex(b)) == Some(b)
  {
    if b != [] {
      DecodeEncode(b[1..]);
      DecodePair(b[0], EncodeHex(b[1..]), b[1..]);
      assert b == [b[0]] + b[1..];
    }
  }

  lemma {:induction false} EncodeHexFree(b: seq<Byte>, c: char)
    requires HexValue(c).None?
    ensures c !in EncodeHex(b)
    ensures EncodeHex(b) == "" <==> b == []
  {
    if b != [] {
      EncodeHexFree(b[1..], c);
      HexDigitValue(b[0] as int / 16);
      HexDigitValue(b[0] as int % 16);
    }
  }

  // ----- strings.TrimSpace ---------------------------------------------------------------------

  predicate IsSpace(c: char) {
    || '\t' <= c <= '\r' || c == ' ' || c == '\U{85}' || c == '\U{A0}' || c == '\U{1680}'
    || '\U{2000}' <= c <= '\U{200a}' || c == '\U{2028}' || c == '\U{2029}' || c == '\U{202f}'
    || c == '\U{205f}' || c == '\U{3000}'
  }

  function TrimLeft(s: string): string {
    if s == "" || !IsSpace(s[0]) then s else TrimLeft(s[1..])
  }

  function TrimRight(s: string): string {
    if s == "" || !IsSpace(s[|s| - 1]) then s else TrimRight(s[..|s| - 1])
  }

  function TrimSpace(s: string): string {
    TrimRight(TrimLeft(s))
  }

  /** Neither end is a space. */
  predicate Trim(s: string) {
    s != "" ==> !IsSpace(s[0]) && !IsSpace(s[|s| - 1])
  }

  lemma {:induction false} TrimRightParts(s: string)
    ensures TrimRight(s) <= s
    ensures TrimRight(s) != "" ==> !IsSpace(TrimRight(s)[|TrimRight(s)| - 1])
  {
    if s != "" && IsSpace(s[|s| - 1]) {
      TrimRightParts(s[..|s| - 1]);
    }
  }

  lemma {:induction false} TrimLeftParts(s: string)
    ensures TrimLeft(s) != "" ==> !IsSpace(TrimLeft(s)[0])
    ensures forall c :: c in TrimLeft(s) ==> c in s
  {
    if s != "" && IsSpace(s[0]) {
      TrimLeftParts(s[1..]);
    }
  }

  predicate AllSpace(s: string) {
    forall i :: 0 <= i < |s| ==> IsSpace(s[i])
  }

  /** The usual spaces, and some that are none. */
  lemma Spaces(c: char)
    ensures c as int in {9, 10, 11, 12, 13, 32} ==> IsSpace(c)
    ensures 33 <= c as int < 127 || c as int < 9 || 14 <= c as int < 32 ==> !IsSpace(c)
  {
  }

  lemma {:induction false} TrimLeftCut(s: string) returns (n: nat)
    ensures n <= |s| && TrimLeft(s) == s[n..] && AllSpace(s[..n])
  {
    n := 0;
    if s != "" && IsSpace(s[0]) {
      n := TrimLeftCut(s[1..]);
      assert s[1..][n..] == s[n + 1..];
      assert s[..n + 1] == [s[0]] + s[1..][..n];
      n := n + 1;
    }
  }

  lemma {:induction false} TrimRightCut(s: string) returns (n: nat)
    ensures n <= |s| && TrimRight(s) == s[..n] && AllSpace(s[n..])
  {
    n := |s|;
    if s != "" && IsSpace(s[|s| - 1]) {
      n := TrimRightCut(s[..|s| - 1]);
      assert s[..|s| - 1][..n] == s[..n];
      assert s[n..] == s[..|s| - 1][n..] + [s[|s| - 1]];
    }
  }

  /** TrimSpace cuts off all spaces at either end and nothing else. */
  lemma TrimSpaceCut(s: string) returns (before: string, after: string)
    ensures s == before + TrimSpace(s) + after && AllSpace(before) && AllSpace(after)
    ensures Trim(TrimSpace(s))
  {
    var i := TrimLeftCut(s);
    var j := TrimRightCut(TrimLeft(s));
    before, after := s[..i], s[i..][j..];
    TrimSpaceParts(s);
    CutTwice(s, i, j);
  }

  lemma CutTwice(s: string, i: nat, j: nat)
    requires i <= |s| && j <= |s| - i
    ensures s == s[..i] + s[i..][..j] + s[i..][j..]
  {
  }

  lemma {:induction false} TrimLeftPadded(before: string, s: string)
    requires AllSpace(before)
    ensures TrimLeft(before + s) == TrimLeft(s)
  {
    if before == "" {
      assert before + s == s;
    } else {
      assert (before + s)[1..] == before[1..] + s;
      TrimLeftPadded(before[1..], s);
    }
  }

  lemma {:induction false} TrimRightPadded(s: string, after: string)
    requires AllSpace(after)
    ensures TrimRight(s + after) == TrimRight(s)
    decreases |after|
  {
    if after == "" {
      assert s + after == s;
    } else {
      var n := |after| - 1;
      assert (s + after)[..|s + after| - 1] == s + after[..n];
      TrimRightPadded(s, after[..n]);
    }
  }

  /** A trim text with spaces around it is left without them. */
  lemma TrimPadded(before: string, s: string, after: string)
    requires Trim(s) && AllSpace(before) && AllSpace(after)
    ensures TrimSpace(before + s + after) == s
  {
    assert before + s + after == before + (s + after);
    TrimLeftPadded(before, s + after);
    if s == "" {
      assert s + after == after + "";
      TrimLeftPadded(after, "");
    } else {
      TrimRightPadded(s, after);
    }
  }

  /** Spaces around any text make no difference. */
  lemma TrimPaddedSame(before: string, s: string, after: string)
    requires AllSpace(before) && AllSpace(after)
    ensures TrimSpace(before + s + after) == TrimSpace(s)
  {
    var b, a := TrimSpaceCut(s);
    assert before + s + after == (before + b) + TrimSpace(s) + (a + after);
    TrimPadded(before + b, TrimSpace(s), a + after);
  }

  /** What is left is trim and part of the original; what was trim is left as it is. */
  lemma TrimSpaceParts(s: string)
    ensures Trim(TrimSpace(s))
    ensures forall c :: c in TrimSpace(s) ==> c in s
    ensures Trim(s) ==> TrimSpace(s) == s
  {
    TrimLeftParts(s);
    TrimRightParts(TrimLeft(s));
  }
}
