/**
 * base/gfsppieceop/piece_op.go: piece keys, and the sizes of segments and erasure-coded pieces. Keys
 * are strings of bytes, which the parsers slice byte by byte.
 */
module PieceOp {
  import opened MachineInt
  import opened Options
  import opened Text

  const MAX_UINT32: nat := 0xffff_ffff
  const TWO_31: nat := 0x8000_0000
  const TWO_32: nat := 0x1_0000_0000
  const TWO_63: nat := 0x8000_0000_0000_0000

  lemma Bounds()
    ensures MAX_UINT32 == 4294967295 && TWO_31 == 2147483648 && TWO_32 == 4294967296
    ensures TWO_63 == 9223372036854775808
  {
  }

  // ----- keys ----------------------------------------------------------------------------------

  function SegmentPieceKey(objectID: nat, segment: nat, version: int): ByteString {
    if version == 0 then "s" + Format(objectID) + "_s" + Format(segment)
    else "s" + Format(objectID) + "_s" + Format(segment) + "_v" + FormatInt(version)
  }

  function ECPieceKey(objectID: nat, segment: nat, redundancy: nat, version: int): ByteString {
    if version == 0 then "e" + Format(objectID) + "_s" + Format(segment) + "_p" + Format(redundancy)
    else "e" + Format(objectID) + "_s" + Format(segment) + "_p" + Format(redundancy) + "_v" + FormatInt(version)
  }

  function ChallengePieceKey(objectID: nat, segment: nat, redundancy: int, version: int): ByteString {
    if redundancy < 0 then SegmentPieceKey(objectID, segment, version)
    else ECPieceKey(objectID, segment, redundancy, version)
  }

  /** The parsers slice without looking: a part that is too short is a run-time panic. */
  datatype Parsed<T> = Ok(value: T) | Error | Panic

  function ParseSegmentIdx(key: ByteString): Parsed<nat> {
    var parts := Split(key, '_');
    if |parts| != 2 && |parts| != 3 then Error
    else if parts[1] == "" then Panic
    else
      match ParseUint(parts[1][1..], MAX_UINT32)
      case None => Error
      case Some(n) => Ok(n)
  }

  function ParseECPieceKeyIdx(key: ByteString): Parsed<(nat, int)> {
    var parts := Split(key, '_');
    if |parts| != 3 && |parts| != 4 then Error
    else if parts[1] == "" then Panic
    else
      match ParseUint(parts[1][1..], MAX_UINT32)
      case None => Error
      case Some(segment) =>
        if parts[2] == "" then Panic
        else
          match ParseInt(parts[2][1..], TWO_31)
          case None => Error
          case Some(redundancy) => Ok((segment, redundancy))
  }

  function ParseChallengeIdx(key: ByteString): Parsed<(nat, int)> {
    var parts := Split(key, '_');
    if parts[0] == "" then Panic
    else if parts[0][0] == 'e' then ParseECPieceKeyIdx(key)
    else if parts[0][0] == 's' then
      match ParseSegmentIdx(key)
      case Error => Error
      case Panic => Panic
      case Ok(segment) => Ok((segment, -1))
    else Error
  }

  /** The parts of a key between its underscores. */
  function KeyParts(objectID: nat, segment: nat, redundancy: int, version: int): (parts: seq<string>)
    ensures |parts| >= 2
  {
    [(if redundancy < 0 then "s" else "e") + Format(objectID), "s" + Format(segment)]
    + (if redundancy < 0 then [] else ["p" + Format(redundancy)])
    + (if version == 0 then [] else ["v" + FormatInt(version)])
  }

  /** The texts themselves, where FormatIsDecimal says what a number looks like. */
  lemma KeyTexts(objectID: nat, segment: nat, redundancy: int, version: int)
    ensures ChallengePieceKey(objectID, segment, redundancy, version) ==
            (if redundancy < 0 then "s" else "e") + Format(objectID) + "_s" + Format(segment)
            + (if redundancy < 0 then "" else "_p" + Format(redundancy))
            + (if version == 0 then "" else "_v" + FormatInt(version))
  {
    if redundancy >= 0 {
      var a, b := "e" + Format(objectID) + "_s" + Format(segment), "_p" + Format(redundancy);
      assert a + "_p" + Format(redundancy) == a + b;
    }
    if version != 0 {
      var a, b := SegmentPieceKey(objectID, segment, 0), "_v" + FormatInt(version);
      assert a + "" + b == a + "_v" + FormatInt(version);
      if redundancy >= 0 {
        var e := ECPieceKey(objectID, segment, redundancy, 0);
        assert e + b == e + "_v" + FormatInt(version);
      }
    }
  }

  /** Object 12: s12_s0 and e12_s0_p3_v-7. */
  lemma KeyExamples()
    ensures ChallengePieceKey(12, 0, -1, 0) == "s12_s0"
    ensures ChallengePieceKey(12, 0, 3, -7) == "e12_s0_p3_v-7"
  {
    assert Format(12) == Format(1) + ['2'] == "12";
    assert Format(0) == "0" && Format(3) == "3" && FormatInt(-7) == "-7";
  }

  lemma FormatFree(n: nat)
    ensures '_' !in Format(n)
  {
  }

  lemma KeyPartsFree(objectID: nat, segment: nat, redundancy: int, version: int)
    ensures Free(KeyParts(objectID, segment, redundancy, version), '_')
  {
    FormatFree(objectID);
    FormatFree(segment);
    if redundancy >= 0 {
      FormatFree(redundancy);
    }
    FormatIntFree(version, '_');
  }

  lemma JoinTwo(a: string, b: string)
    ensures Join([a, b], '_') == a + "_" + b
  {
    assert [a, b][1..] == [b];
  }

  lemma JoinMore(a: string, rest: seq<string>)
    requires rest != []
    ensures Join([a] + rest, '_') == a + "_" + Join(rest, '_')
  {
    JoinCons(a, rest, '_');
  }

  lemma KeyIsJoin(objectID: nat, segment: nat, redundancy: int, version: int)
    ensures ChallengePieceKey(objectID, segment, redundancy, version)
            == Join(KeyParts(objectID, segment, redundancy, version), '_')
  {
    if redundancy < 0 {
      SegmentKeyIsJoin("s" + Format(objectID), "s" + Format(segment), "v" + FormatInt(version), version == 0);
      SegmentText(Format(objectID), Format(segment), FormatInt(version));
    } else {
      ECKeyIsJoin("e" + Format(objectID), "s" + Format(segment), "p" + Format(redundancy),
                  "v" + FormatInt(version), version == 0);
      ECText(Format(objectID), Format(segment), Format(redundancy), FormatInt(version));
    }
  }

  lemma SegmentText(o: string, s: string, v: string)
    ensures "s" + o + "_s" + s == ("s" + o) + "_" + ("s" + s)
    ensures "s" + o + "_s" + s + "_v" + v == ("s" + o) + "_" + ("s" + s) + "_" + ("v" + v)
  {
    Underscore("s" + o, "_s", "s", s);
    Underscore("s" + o + "_s" + s, "_v", "v", v);
  }

  lemma ECText(o: string, s: string, p: string, v: string)
    ensures "e" + o + "_s" + s + "_p" + p == ("e" + o) + "_" + ("s" + s) + "_" + ("p" + p)
    ensures "e" + o + "_s" + s + "_p" + p + "_v" + v == ("e" + o) + "_" + ("s" + s) + "_" + ("p" + p) + "_" + ("v" + v)
  {
    Underscore("e" + o, "_s", "s", s);
    Underscore("e" + o + "_s" + s, "_p", "p", p);
    Underscore("e" + o + "_s" + s + "_p" + p, "_v", "v", v);
  }

  lemma Underscore(a: string, both: string, letter: string, digits: string)
    requires both == "_" + letter
    ensures a + both + digits == a + "_" + (letter + digits)
  {
  }

  lemma SegmentKeyIsJoin(a: string, b: string, v: string, bare: bool)
    ensures Join([a, b] + [] + if bare then [] else [v], '_') == if bare then a + "_" + b else a + "_" + b + "_" + v
  {
    if bare {
      assert [a, b] + [] + [] == [a, b];
      JoinTwo(a, b);
    } else {
      assert [a, b] + [] + [v] == [a] + [b, v];
      JoinMore(a, [b, v]);
      JoinTwo(b, v);
      assert a + "_" + (b + "_" + v) == a + "_" + b + "_" + v;
    }
  }

  lemma ECKeyIsJoin(a: string, b: string, p: string, v: string, bare: bool)
    ensures Join([a, b] + [p] + if bare then [] else [v], '_')
            == if bare then a + "_" + b + "_" + p else a + "_" + b + "_" + p + "_" + v
  {
    var tail := [p] + if bare then [] else [v];
    assert [a, b] + [p] + (if bare then [] else [v]) == [a] + ([b] + tail);
    SegmentKeyIsJoin(b, p, v, bare);
    assert [b] + tail == [b, p] + [] + if bare then [] else [v];
    JoinMore(a, [b] + tail);
    Regroup(a, b, p, v);
  }

  lemma Regroup(a: string, b: string, p: string, v: string)
    ensures a + "_" + (b + "_" + p) == a + "_" + b + "_" + p
    ensures a + "_" + (b + "_" + p + "_" + v) == a + "_" + b + "_" + p + "_" + v
  {
  }

  lemma SplitKey(objectID: nat, segment: nat, redundancy: int, version: int)
    ensures Split(ChallengePieceKey(objectID, segment, redundancy, version), '_')
            == KeyParts(objectID, segment, redundancy, version)
  {
    KeyIsJoin(objectID, segment, redundancy, version);
    KeyPartsFree(objectID, segment, redundancy, version);
    SplitJoin(KeyParts(objectID, segment, redundancy, version), '_');
  }

  /** Every key parses back to its segment and redundancy indices, negative ones as -1. */
  lemma ParseChallengeKey(objectID: nat, segment: nat, redundancy: int, version: int)
    requires segment <= MAX_UINT32 && redundancy < TWO_31
    ensures ParseChallengeIdx(ChallengePieceKey(objectID, segment, redundancy, version))
            == Ok((segment, if redundancy < 0 then -1 else redundancy))
  {
    SplitKey(objectID, segment, redundancy, version);
    var parts := KeyParts(objectID, segment, redundancy, version);
    assert parts[1][1..] == Format(segment);
    ParseFormat(segment, MAX_UINT32);
    if redundancy >= 0 {
      assert parts[2][1..] == Format(redundancy);
      ParseFormat(redundancy, TWO_31);
    }
  }

  lemma PrefixedInjective(prefix: string, m: int, n: int)
    ensures prefix + FormatInt(m) == prefix + FormatInt(n) <==> m == n
  {
    FormatInjective(m, n);
    assert (prefix + FormatInt(m))[|prefix|..] == FormatInt(m);
    assert (prefix + FormatInt(n))[|prefix|..] == FormatInt(n);
  }

  /** Two pieces share a key exactly if they are the same piece. */
  lemma KeysEqualIff(objectID: nat, segment: nat, redundancy: int, version: int,
                     objectID': nat, segment': nat, redundancy': int, version': int)
    ensures ChallengePieceKey(objectID, segment, redundancy, version)
            == ChallengePieceKey(objectID', segment', redundancy', version') <==>
            && objectID == objectID' && segment == segment' && version == version'
            && (redundancy == redundancy' || (redundancy < 0 && redundancy' < 0))
  {
    SplitKey(objectID, segment, redundancy, version);
    SplitKey(objectID', segment', redundancy', version');
    if ChallengePieceKey(objectID, segment, redundancy, version)
       == ChallengePieceKey(objectID', segment', redundancy', version') {
      PartsEqual(objectID, segment, redundancy, version, objectID', segment', redundancy', version');
    }
  }

  lemma PartsEqual(objectID: nat, segment: nat, redundancy: int, version: int,
                   objectID': nat, segment': nat, redundancy': int, version': int)
    requires KeyParts(objectID, segment, redundancy, version) == KeyParts(objectID', segment', redundancy', version')
    ensures objectID == objectID' && segment == segment' && version == version'
    ensures redundancy == redundancy' || (redundancy < 0 && redundancy' < 0)
  {
    var parts := KeyParts(objectID, segment, redundancy, version);
    var parts' := KeyParts(objectID', segment', redundancy', version');
    assert parts[0] == parts'[0] && parts[1] == parts'[1];
    assert parts[0][0] == (if redundancy < 0 then 's' else 'e');
    assert parts'[0][0] == (if redundancy' < 0 then 's' else 'e');
    PrefixedInjective(if redundancy < 0 then "s" else "e", objectID, objectID');
    PrefixedInjective("s", segment, segment');
    if redundancy >= 0 {
      assert parts[2] == parts'[2];
      PrefixedInjective("p", redundancy, redundancy');
    }
    if version != 0 {
      assert parts[|parts| - 1] == parts'[|parts'| - 1];
      PrefixedInjective("v", version, version');
    }
  }

  // ----- when the parsers panic ----------------------------------------------------------------
  // A key is given by its parts between underscores; every string is the join of such a list
  // (JoinSplit, SplitIsFree).

  /**
   * For every string of bytes, exactly when each of the three parsers panics: ParseSegmentIdx slices
   * the second of two or three parts; ParseECPieceKeyIdx the second of three or four and, if a number
   * was read, the third; ParseChallengeIdx the first, and leaves the rest to one of them or to none.
   */
  lemma ParsePanicsIff(parts: seq<ByteString>)
    requires parts != [] && Free(parts, '_')
    ensures IsBytes(Join(parts, '_'))
    ensures ParseSegmentIdx(Join(parts, '_')) == Panic <==> 2 <= |parts| <= 3 && parts[1] == ""
    ensures ParseECPieceKeyIdx(Join(parts, '_')) == Panic <==>
            && 3 <= |parts| <= 4
            && (parts[1] == "" || (parts[2] == "" && ParseUint(parts[1][1..], 4294967295).Some?))
    ensures ParseChallengeIdx(Join(parts, '_')) == Panic <==>
            || parts[0] == ""
            || (parts[0][0] == 's' && 2 <= |parts| <= 3 && parts[1] == "")
            || (parts[0][0] == 'e' && 3 <= |parts| <= 4 &&
                (parts[1] == "" || (parts[2] == "" && ParseUint(parts[1][1..], 4294967295).Some?)))
  {
    JoinIsBytes(parts, '_');
    SplitJoin(parts, '_');
  }

  /** And exactly when each of them returns numbers, where ParseUintIff and ParseIntIff say what is one. */
  lemma ParseOkIff(parts: seq<ByteString>, segment: nat, redundancy: int)
    requires parts != [] && Free(parts, '_')
    ensures IsBytes(Join(parts, '_'))
    ensures ParseSegmentIdx(Join(parts, '_')) == Ok(segment) <==>
            2 <= |parts| <= 3 && parts[1] != "" && ParseUint(parts[1][1..], 4294967295) == Some(segment)
    ensures ParseECPieceKeyIdx(Join(parts, '_')) == Ok((segment, redundancy)) <==>
            && 3 <= |parts| <= 4 && parts[1] != "" && ParseUint(parts[1][1..], 4294967295) == Some(segment)
            && parts[2] != "" && ParseInt(parts[2][1..], 2147483648) == Some(redundancy)
    ensures ParseChallengeIdx(Join(parts, '_')) == Ok((segment, redundancy)) <==>
            && parts[0] != ""
            && if parts[0][0] == 'e' then ParseECPieceKeyIdx(Join(parts, '_')) == Ok((segment, redundancy))
               else parts[0][0] == 's' && redundancy == -1 && ParseSegmentIdx(Join(parts, '_')) == Ok(segment)
  {
    JoinIsBytes(parts, '_');
    SplitJoin(parts, '_');
  }

  /** The empty string, the key s1 with an empty second part, and the key e with an empty second part and p0. */
  lemma ParsePanicExamples()
    ensures ParseChallengeIdx("") == Panic && ParseSegmentIdx("") == Error
    ensures IsBytes(Join(["s1", ""], '_')) && IsBytes(Join(["e", "", "p0"], '_'))
    ensures ParseChallengeIdx(Join(["s1", ""], '_')) == Panic && ParseSegmentIdx(Join(["s1", ""], '_')) == Panic
    ensures ParseChallengeIdx(Join(["e", "", "p0"], '_')) == Panic
  {
    ParsePanicsIff([""]);
    ParsePanicsIff(["s1", ""]);
    ParsePanicsIff(["e", "", "p0"]);
  }

  /**
   * Slicing drops a byte, whatever it is: with one before the segment number the number is read, and
   * an empty third part panics. A letter of more than one byte leaves a byte that is no digit, which
   * is an error before the third part is looked at.
   */
  lemma SlicingDropsOneByte(b: ByteString, c: ByteString, segment: nat)
    requires segment <= MAX_UINT32 && |b| == 1 && |c| > 1 && '_' !in b && '_' !in c && !IsDigit(c[1])
    ensures IsBytes(Join(["e", b + Format(segment), ""], '_')) && IsBytes(Join(["e", c + Format(segment), ""], '_'))
    ensures ParseECPieceKeyIdx(Join(["e", b + Format(segment), ""], '_')) == Panic
    ensures ParseECPieceKeyIdx(Join(["e", c + Format(segment), ""], '_')) == Error
  {
    FormatFree(segment);
    AfterOneByte(b, c, segment);
    var one: seq<ByteString> := ["e", b + Format(segment), ""];
    var two: seq<ByteString> := ["e", c + Format(segment), ""];
    ParsePanicsIff(one);
    SplitJoin(two, '_');
    JoinIsBytes(two, '_');
  }

  lemma AfterOneByte(b: string, c: string, n: nat)
    requires n <= MAX_UINT32 && |b| == 1 && |c| > 1 && !IsDigit(c[1])
    ensures ParseUint((b + Format(n))[1..], MAX_UINT32) == Some(n)
    ensures ParseUint((c + Format(n))[1..], MAX_UINT32) == None
  {
    assert (b + Format(n))[1..] == Format(n);
    ParseFormat(n, MAX_UINT32);
    assert (c + Format(n))[1..][0] == c[1];
  }

  // ----- sizes ---------------------------------------------------------------------------------

  predicate IsUint64(x: int) {
    0 <= x < TWO_64
  }

  /** int64(x) of an unsigned 64-bit x. */
  function ToInt64(x: int): int
    requires IsUint64(x)
  {
    if x < TWO_63 then x else x - TWO_64
  }

  /** Division that rounds up. */
  function Ceil(x: nat, y: nat): (n: nat)
    requires y > 0
  {
    x / y + if x % y > 0 then 1 else 0
  }

  lemma CeilBounds(x: nat, y: nat)
    requires y > 0
    ensures (Ceil(x, y) - 1) * y < x <= Ceil(x, y) * y
    ensures Ceil(x, y) == 0 <==> x == 0
  {
    var q := x / y;
    Decompose(x, y);
    Around(q, y);
  }

  lemma Decompose(x: nat, y: nat)
    requires y > 0
    ensures x == x / y * y + x % y && 0 <= x % y < y
  {
  }

  lemma Around(q: int, y: int)
    ensures (q + 1) * y == q * y + y && (q - 1) * y == q * y - y
  {
  }

  function SegmentPieceCount(payload: nat, maxSegment: nat): nat
    requires maxSegment > 0
  {
    Ceil(payload, maxSegment) % TWO_32
  }

  function MaxSegmentPieceSize(payload: nat, maxSegment: nat): int
    requires Sizes(payload, maxSegment)
  {
    if payload > maxSegment then ToInt64(maxSegment) else ToInt64(payload)
  }

  /** Any two unsigned 64-bit sizes; division by zero panics. */
  predicate Sizes(payload: nat, maxSegment: nat) {
    IsUint64(payload) && IsUint64(maxSegment) && maxSegment > 0
  }

  /** The subtraction segmentCount - 1 is in uint32 for the index, and in int64 for the size. */
  function SegmentPieceSize(payload: nat, segment: nat, maxSegment: nat): int
    requires Sizes(payload, maxSegment)
  {
    var count := SegmentPieceCount(payload, maxSegment);
    if count == 1 then ToInt64(payload)
    else if segment == (count + MAX_UINT32) % TWO_32 then
      Wrap64(ToInt64(payload) - Wrap64((count - 1) * ToInt64(maxSegment)))
    else ToInt64(maxSegment)
  }

  function ECPieceSize(payload: nat, segment: nat, maxSegment: nat, dataChunks: nat): int
    requires Sizes(payload, maxSegment) && dataChunks > 0
  {
    var size := SegmentPieceSize(payload, segment, maxSegment);
    TruncDiv(size, dataChunks) + if size > 0 && size % dataChunks != 0 then 1 else 0
  }

  function SizeSum(payload: nat, maxSegment: nat, n: nat): int
    requires Sizes(payload, maxSegment)
  {
    if n == 0 then 0 else SizeSum(payload, maxSegment, n - 1) + SegmentPieceSize(payload, n - 1, maxSegment)
  }

  /** Counting is modulo 2^32. */
  lemma CountBounds(payload: nat, maxSegment: nat)
    requires maxSegment > 0
    ensures var (n, c) := (SegmentPieceCount(payload, maxSegment), Ceil(payload, maxSegment));
            && n <= c && n < TWO_32 && (c < TWO_32 <==> n == c) && (c >= TWO_32 ==> c - n >= TWO_32)
            && (c - n) % TWO_32 == 0
  {
  }

  /** What is left for the last of the counted segments. */
  function LastSegment(payload: nat, maxSegment: nat): (size: int)
    requires Sizes(payload, maxSegment)
  {
    payload - (SegmentPieceCount(payload, maxSegment) - 1) * maxSegment
  }

  lemma LastBounds(payload: nat, maxSegment: nat)
    requires Sizes(payload, maxSegment) && SegmentPieceCount(payload, maxSegment) > 0
    ensures 0 < LastSegment(payload, maxSegment) <= payload
    ensures LastSegment(payload, maxSegment) <= maxSegment <==> Ceil(payload, maxSegment) < TWO_32
  {
    var (n, c) := (SegmentPieceCount(payload, maxSegment), Ceil(payload, maxSegment));
    CeilBounds(payload, maxSegment);
    CountBounds(payload, maxSegment);
    Around(n, maxSegment);
    Scaled(n - 1, maxSegment);
    if n < c {
      Gap(n - 1, c - 1, maxSegment);
    }
  }

  lemma Scaled(n: nat, y: nat)
    ensures n * y >= 0
  {
  }

  lemma Gap(n: int, c: int, y: nat)
    requires n < c
    ensures c * y >= n * y + y
  {
    Around(n, y);
    assert c * y - (n + 1) * y == (c - n - 1) * y;
    Scaled(c - n - 1, y);
  }

  /** Whole turns of the 64-bit clock do not show. */
  lemma WrapTurns(x: int, y: int, k: int)
    requires x == y + k * TWO_64
    ensures Wrap64(x) == Wrap64(y)
  {
    WrapIsMod(x);
    WrapIsMod(y);
    ModTurns(y - MIN_INT64, k, TWO_64);
  }

  lemma WrapIsMod(x: int)
    ensures Wrap64(x) == (x - MIN_INT64) % TWO_64 + MIN_INT64
  {
  }

  lemma ModTurns(y: int, k: int, m: int)
    requires m > 0
    ensures (y + k * m) % m == y % m
  {
    var q, r := y / m, y % m;
    assert y + k * m == (q + k) * m + r;
    ModUnique(y + k * m, q + k, r, m);
  }

  lemma ModUnique(x: int, q: int, r: int, m: int)
    requires m > 0 && x == q * m + r && 0 <= r < m
    ensures x % m == r
  {
    assert x == x / m * m + x % m;
    CloseMultiples(x / m, q, m);
  }

  lemma WrapTurned(x: int)
    ensures exists k :: Wrap64(x) == x + k * TWO_64
  {
    WrapIsMod(x);
    var k := -((x - MIN_INT64) / TWO_64);
    assert Wrap64(x) == x + k * TWO_64;
  }

  /** So the order in which int64 conversion, product and difference wrap does not matter. */
  lemma WrapDifference(p: int, n: int, y: int)
    requires IsUint64(p) && IsUint64(y)
    ensures Wrap64(ToInt64(p) - Wrap64(n * ToInt64(y))) == Wrap64(p - n * y)
  {
    var i := if p < TWO_63 then 0 else -1;
    var j := if y < TWO_63 then 0 else -1;
    WrapTurned(n * ToInt64(y));
    var k :| Wrap64(n * ToInt64(y)) == n * ToInt64(y) + k * TWO_64;
    assert ToInt64(p) == p + i * TWO_64;
    assert n * ToInt64(y) == n * y + (n * j) * TWO_64 by {
      assert ToInt64(y) == y + j * TWO_64;
      Distribute(n, y, j);
    }
    Collect(i, n * j, k);
    WrapTurns(ToInt64(p) - Wrap64(n * ToInt64(y)), p - n * y, i - n * j - k);
  }

  lemma Distribute(n: int, y: int, j: int)
    ensures n * (y + j * TWO_64) == n * y + (n * j) * TWO_64
  {
  }

  lemma Collect(i: int, nj: int, k: int)
    ensures (i - nj - k) * TWO_64 == i * TWO_64 - nj * TWO_64 - k * TWO_64
  {
  }

  /** The size of each counted segment is what remains for it, as an int64. */
  lemma SizeOfSegment(payload: nat, segment: nat, maxSegment: nat)
    requires Sizes(payload, maxSegment) && segment < SegmentPieceCount(payload, maxSegment)
    ensures IsUint64(LastSegment(payload, maxSegment))
    ensures SegmentPieceSize(payload, segment, maxSegment) ==
            if segment == SegmentPieceCount(payload, maxSegment) - 1
            then ToInt64(LastSegment(payload, maxSegment)) else ToInt64(maxSegment)
  {
    var n := SegmentPieceCount(payload, maxSegment);
    LastBounds(payload, maxSegment);
    CountBounds(payload, maxSegment);
    LastIndex(n);
    WrapDifference(payload, n - 1, maxSegment);
    WrapOfUint64(LastSegment(payload, maxSegment));
  }

  lemma WrapOfUint64(x: int)
    requires IsUint64(x)
    ensures Wrap64(x) == ToInt64(x)
  {
  }

  lemma LastIndex(n: nat)
    requires 0 < n < TWO_32
    ensures (n + MAX_UINT32) % TWO_32 == n - 1
  {
  }

  /**
   * For all 64-bit sizes: the first segment has MaxSegmentPieceSize exactly if there is something to
   * store and, when a single segment is counted, there is only one.
   */
  lemma FirstIsLargestIff(payload: nat, maxSegment: nat)
    requires Sizes(payload, maxSegment)
    ensures SegmentPieceSize(payload, 0, maxSegment) == MaxSegmentPieceSize(payload, maxSegment) <==>
            payload > 0 && (SegmentPieceCount(payload, maxSegment) == 1 ==> payload <= maxSegment)
  {
    var n := SegmentPieceCount(payload, maxSegment);
    CeilBounds(payload, maxSegment);
    if n > 1 {
      SizeOfSegment(payload, 0, maxSegment);
      LastBounds(payload, maxSegment);
      Gap(0, n - 1, maxSegment);
    } else if n == 0 && payload > 0 {
      CountBounds(payload, maxSegment);
      Gap(0, Ceil(payload, maxSegment) - 1, maxSegment);
    }
  }

  /** Each counted segment has at least a byte and at most the maximum. */
  ghost predicate WithinMaximum(payload: nat, maxSegment: nat)
    requires Sizes(payload, maxSegment)
  {
    forall segment: nat :: segment < SegmentPieceCount(payload, maxSegment) ==>
      0 < SegmentPieceSize(payload, segment, maxSegment) <= MaxSegmentPieceSize(payload, maxSegment) <= maxSegment
  }

  /**
   * For all 64-bit sizes: the segments are within the maximum exactly if the count fits in 32 bits
   * and one of the sizes in int64, unless truncation leaves none at all.
   */
  lemma SegmentBoundsIff(payload: nat, maxSegment: nat)
    requires Sizes(payload, maxSegment)
    ensures WithinMaximum(payload, maxSegment) <==>
            || SegmentPieceCount(payload, maxSegment) == 0
            || (Ceil(payload, maxSegment) < TWO_32 && (payload < TWO_63 || maxSegment < TWO_63))
  {
    var n := SegmentPieceCount(payload, maxSegment);
    CeilBounds(payload, maxSegment);
    CountBounds(payload, maxSegment);
    if n > 0 {
      LastBounds(payload, maxSegment);
      SizeOfSegment(payload, n - 1, maxSegment);
      if Ceil(payload, maxSegment) < TWO_32 {
        if n == 1 {
          OneSegment(payload, maxSegment);
        }
        FirstIsLargestIff(payload, maxSegment);
        if payload < TWO_63 || maxSegment < TWO_63 {
          SegmentsBelow(payload, maxSegment);
        }
      }
    }
  }

  lemma OneSegment(payload: nat, maxSegment: nat)
    requires maxSegment > 0 && Ceil(payload, maxSegment) == 1
    ensures payload <= maxSegment
  {
    CeilBounds(payload, maxSegment);
  }

  lemma SegmentsBelow(payload: nat, maxSegment: nat)
    requires Sizes(payload, maxSegment) && 0 < Ceil(payload, maxSegment) < TWO_32
    requires payload < TWO_63 || maxSegment < TWO_63
    ensures WithinMaximum(payload, maxSegment)
  {
    var n := SegmentPieceCount(payload, maxSegment);
    CountBounds(payload, maxSegment);
    LastBounds(payload, maxSegment);
    if n > 1 {
      Gap(0, n - 1, maxSegment);
    }
    forall segment: nat | segment < n
      ensures 0 < SegmentPieceSize(payload, segment, maxSegment)
      ensures SegmentPieceSize(payload, segment, maxSegment) <= MaxSegmentPieceSize(payload, maxSegment) <= maxSegment
    {
      SizeOfSegment(payload, segment, maxSegment);
    }
  }

  lemma {:induction false} SumOfFull(payload: nat, maxSegment: nat, n: nat)
    requires Sizes(payload, maxSegment) && n < SegmentPieceCount(payload, maxSegment)
    ensures SizeSum(payload, maxSegment, n) == n * ToInt64(maxSegment)
  {
    if n > 0 {
      SumOfFull(payload, maxSegment, n - 1);
      SizeOfSegment(payload, n - 1, maxSegment);
      Around(n, ToInt64(maxSegment));
    }
  }

  /**
   * For all 64-bit sizes: the counted segments make up the payload exactly if there are any, or
   * nothing to store, and what is left for the last and, with several, the maximum fit in int64;
   * if the count fits in 32 bits that is: if one of the sizes fits in int64.
   */
  lemma SegmentsPartitionIff(payload: nat, maxSegment: nat)
    requires Sizes(payload, maxSegment)
    ensures var n := SegmentPieceCount(payload, maxSegment);
            SizeSum(payload, maxSegment, n) == payload <==>
            payload == 0 || (n > 0 && LastSegment(payload, maxSegment) < TWO_63 && (n == 1 || maxSegment < TWO_63))
    ensures Ceil(payload, maxSegment) < TWO_32 ==>
              (SizeSum(payload, maxSegment, SegmentPieceCount(payload, maxSegment)) == payload <==>
               payload < TWO_63 || maxSegment < TWO_63)
  {
    var n := SegmentPieceCount(payload, maxSegment);
    CeilBounds(payload, maxSegment);
    if n > 0 {
      SumOfFull(payload, maxSegment, n - 1);
      SizeOfSegment(payload, n - 1, maxSegment);
      LastBounds(payload, maxSegment);
      Excess(n - 1, maxSegment);
      if Ceil(payload, maxSegment) < TWO_32 {
        PartitionCounted(payload, maxSegment);
      }
    }
  }

  lemma PartitionCounted(payload: nat, maxSegment: nat)
    requires Sizes(payload, maxSegment) && 0 < Ceil(payload, maxSegment) < TWO_32
    ensures LastSegment(payload, maxSegment) < TWO_63 &&
            (SegmentPieceCount(payload, maxSegment) == 1 || maxSegment < TWO_63) <==>
            payload < TWO_63 || maxSegment < TWO_63
  {
    var n := SegmentPieceCount(payload, maxSegment);
    CountBounds(payload, maxSegment);
    LastBounds(payload, maxSegment);
    if n > 1 {
      Gap(0, n - 1, maxSegment);
    }
  }

  lemma Excess(n: nat, y: nat)
    requires IsUint64(y)
    ensures n * ToInt64(y) <= n * y
    ensures n * ToInt64(y) == n * y <==> n == 0 || y < TWO_63
  {
    if y >= TWO_63 {
      assert n * (y - TWO_64) == n * y - n * TWO_64;
    }
  }

  /** The data pieces of a segment cover it, and with a byte less each they would not; for all sizes. */
  lemma ECPiecesCover(payload: nat, segment: nat, maxSegment: nat, dataChunks: nat)
    requires Sizes(payload, maxSegment) && dataChunks > 0
    ensures var size := SegmentPieceSize(payload, segment, maxSegment);
            var piece := ECPieceSize(payload, segment, maxSegment, dataChunks);
            (piece - 1) * dataChunks < size <= piece * dataChunks
  {
    var size := SegmentPieceSize(payload, segment, maxSegment);
    if size > 0 {
      CeilBounds(size, dataChunks);
      assert TruncDiv(size, dataChunks) == size / dataChunks;
    } else {
      TruncDivRemainder(size, dataChunks);
      Around(TruncDiv(size, dataChunks), dataChunks);
      NotAbove(size, dataChunks);
    }
  }

  lemma NotAbove(a: int, b: nat)
    requires a <= 0 && b > 0
    ensures a <= TruncDiv(a, b) * b
  {
    var q := NatDiv(-a, b);
    assert (0 - q) * b == -(q * b);
  }
}
