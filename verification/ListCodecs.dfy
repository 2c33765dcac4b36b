/** util/string.go: lists of numbers and of byte strings, written with commas and read back. */
module ListCodecs {
  import opened Options
  import opened Text

  type Uint32 = n: nat | n <= 0xffff_ffff

  // ----- SplitByComma --------------------------------------------------------------------------

  /** The parts that are more than spaces, without the spaces around them. */
  function Trimmed(parts: seq<string>): seq<string> {
    if parts == [] then []
    else
      var t := TrimSpace(parts[0]);
      (if t == "" then [] else [t]) + Trimmed(parts[1..])
  }

  function CommaParts(s: string): seq<string> {
    Trimmed(Split(TrimSpace(s), ','))
  }

  lemma {:induction false} TrimmedAppend(a: seq<string>, b: seq<string>)
    ensures Trimmed(a + b) == Trimmed(a) + Trimmed(b)
  {
    if a == [] {
      assert a + b == b;
    } else {
      assert (a + b)[1..] == a[1..] + b;
      TrimmedAppend(a[1..], b);
    }
  }

  method SplitByComma(s: string) returns (r: seq<string>)
    ensures r == CommaParts(s)
  {
    var parts := Split(TrimSpace(s), ',');
    r := [];
    for n := 0 to |parts|
      invariant r == Trimmed(parts[..n])
    {
      var t := TrimSpace(parts[n]);
      if |t| > 0 {
        r := r + [t];
      }
      assert parts[..n + 1] == parts[..n] + [parts[n]];
      TrimmedAppend(parts[..n], [parts[n]]);
    }
    assert parts[..|parts|] == parts;
  }

  /** A list that SplitByComma can return: no part empty, none with a space at an end or a comma inside. */
  predicate Clean(parts: seq<string>) {
    forall i :: 0 <= i < |parts| ==> parts[i] != "" && Trim(parts[i]) && ',' !in parts[i]
  }

  lemma {:induction false} TrimmedIsClean(parts: seq<string>)
    requires Free(parts, ',')
    ensures Clean(Trimmed(parts))
  {
    if parts != [] {
      TrimmedIsClean(parts[1..]);
      TrimSpaceParts(parts[0]);
    }
  }

  lemma {:induction false} TrimmedOfClean(parts: seq<string>)
    requires Clean(parts)
    ensures Trimmed(parts) == parts
  {
    if parts != [] {
      TrimmedOfClean(parts[1..]);
      TrimSpaceParts(parts[0]);
      assert parts == [parts[0]] + parts[1..];
    }
  }

  lemma {:induction false} JoinOfCleanIsTrim(parts: seq<string>)
    requires Clean(parts) && parts != []
    ensures Join(parts, ',') != "" && Trim(Join(parts, ','))
  {
    if |parts| > 1 {
      JoinOfCleanIsTrim(parts[1..]);
    }
  }

  /** Joining and splitting again gives back every clean list ... */
  lemma SplitOfJoin(parts: seq<string>)
    requires Clean(parts)
    ensures CommaParts(Join(parts, ',')) == parts
  {
    TrimSpaceParts(Join(parts, ','));
    if parts == [] {
      assert Split("", ',') == [""];
      assert Trimmed([""]) == [];
    } else {
      JoinOfCleanIsTrim(parts);
      SplitJoin(parts, ',');
      TrimmedOfClean(parts);
    }
  }

  /** ... and clean lists are all there is: so splitting is idempotent on any string whatever. */
  lemma SplitIsClean(s: string)
    ensures Clean(CommaParts(s))
    ensures CommaParts(Join(CommaParts(s), ',')) == CommaParts(s)
  {
    SplitIsFree(TrimSpace(s), ',');
    TrimmedIsClean(Split(TrimSpace(s), ','));
    SplitOfJoin(CommaParts(s));
  }

  lemma TrimmedOne(s: string)
    ensures Trimmed([s]) == if TrimSpace(s) == "" then [] else [TrimSpace(s)]
  {
  }

  lemma TrimmedFirst(p: seq<string>, before: string)
    requires p != [] && AllSpace(before)
    ensures Trimmed([before + p[0]] + p[1..]) == Trimmed(p)
  {
    TrimPaddedSame(before, p[0], "");
    assert before + p[0] + "" == before + p[0];
  }

  lemma TrimmedEnd(init: seq<string>, x: string, y: string)
    requires TrimSpace(x) == TrimSpace(y)
    ensures Trimmed(init + [x]) == Trimmed(init + [y])
  {
    TrimmedAppend(init, [x]);
    TrimmedAppend(init, [y]);
    TrimmedOne(x);
    TrimmedOne(y);
  }

  lemma TrimmedLast(init: seq<string>, last: string, after: string)
    requires AllSpace(after)
    ensures Trimmed(init + [last + after]) == Trimmed(init + [last])
  {
    TrimPaddedSame("", last, after);
    assert "" + last + after == last + after;
    TrimmedEnd(init, last, last + after);
  }

  lemma SpaceIsNoComma(s: string)
    requires AllSpace(s)
    ensures ',' !in s
  {
  }

  /** Spaces around the whole text make no difference. */
  lemma PaddedParts(before: string, s: string, after: string)
    requires AllSpace(before) && AllSpace(after)
    ensures Trimmed(Split(before + s + after, ',')) == Trimmed(Split(s, ','))
  {
    SpaceIsNoComma(before);
    SpaceIsNoComma(after);
    SplitPaddedRight(before + s, after, ',');
    var p := Split(before + s, ',');
    assert p == p[..|p| - 1] + [p[|p| - 1]];
    TrimmedLast(p[..|p| - 1], p[|p| - 1], after);
    SplitPaddedLeft(before, s, ',');
    TrimmedFirst(Split(s, ','), before);
  }

  /** For every list of items, spaces and all: each is trimmed, and the blank ones are dropped. */
  lemma SplitOfItems(items: seq<string>)
    requires items != [] && Free(items, ',')
    ensures CommaParts(Join(items, ',')) == Trimmed(items)
  {
    var s := Join(items, ',');
    var before, after := TrimSpaceCut(s);
    PaddedParts(before, TrimSpace(s), after);
    SplitJoin(items, ',');
  }

  ghost predicate Padded(item: string, part: string) {
    exists b, a :: AllSpace(b) && AllSpace(a) && item == b + part + a
  }

  /** Any spaces around the parts of a clean list are dropped. */
  lemma {:induction false} TrimmedOfPadded(parts: seq<string>, items: seq<string>)
    requires Clean(parts) && |items| == |parts|
    requires forall i :: 0 <= i < |parts| ==> Padded(items[i], parts[i])
    ensures Trimmed(items) == parts
  {
    if parts != [] {
      var b, a :| AllSpace(b) && AllSpace(a) && items[0] == b + parts[0] + a;
      TrimPadded(b, parts[0], a);
      TrimmedOfPadded(parts[1..], items[1..]);
      assert parts == [parts[0]] + parts[1..];
    }
  }

  /** So a clean list is read back from a text with any spaces before and after its parts. */
  lemma SplitOfPadded(parts: seq<string>, items: seq<string>)
    requires Clean(parts) && |items| == |parts| && items != []
    requires forall i :: 0 <= i < |parts| ==> Padded(items[i], parts[i])
    ensures CommaParts(Join(items, ',')) == parts
  {
    TrimmedOfPadded(parts, items);
    forall i | 0 <= i < |items|
      ensures ',' !in items[i]
    {
      var b, a :| AllSpace(b) && AllSpace(a) && items[i] == b + parts[i] + a;
      SpaceIsNoComma(b);
      SpaceIsNoComma(a);
    }
    SplitOfItems(items);
  }

  /** A part is a 32-bit number exactly if it is its decimal text, after any number of zeros. */
  lemma ToUint32Iff(s: string, n: Uint32)
    ensures ToUint32(s) == Some(n) <==> exists k: nat :: s == Zeros(k) + Format(n)
  {
    ParseUintIff(s, 0xffff_ffff_ffff_ffff, n);
  }

  // ----- reading a list element by element ------------------------------------------------------

  /** All parts read, or nothing if one of them cannot be read. */
  function ReadAll<T>(parts: seq<string>, read: string -> Option<T>): Option<seq<T>> {
    if forall i :: 0 <= i < |parts| ==> read(parts[i]).Some?
    then Some(seq(|parts|, i requires 0 <= i < |parts| && read(parts[i]).Some? => read(parts[i]).value))
    else None
  }

  /** Spelled out: every part is read, in order. */
  lemma ReadAllInFields<T>(parts: seq<string>, read: string -> Option<T>, xs: seq<T>)
    ensures ReadAll(parts, read) == Some(xs) <==>
            |xs| == |parts| && forall i :: 0 <= i < |parts| ==> read(parts[i]) == Some(xs[i])
    ensures ReadAll(parts, read) == None <==> exists i :: 0 <= i < |parts| && read(parts[i]) == None
  {
    if |xs| == |parts| && forall i :: 0 <= i < |parts| ==> read(parts[i]) == Some(xs[i]) {
      assert ReadAll(parts, read).value == xs;
    }
  }

  method ReadList<T>(s: string, read: string -> Option<T>) returns (r: Option<seq<T>>)
    ensures r == ReadAll(CommaParts(s), read)
  {
    var parts := SplitByComma(s);
    var list: seq<T> := [];
    for n := 0 to |parts|
      invariant |list| == n
      invariant forall i :: 0 <= i < n ==> read(parts[i]) == Some(list[i])
    {
      var x := read(parts[n]);
      if x.None? {
        return None;
      }
      list := list + [x.value];
    }
    r := Some(list);
    assert list == ReadAll(parts, read).value;
  }

  lemma ReadNothing<T>(read: string -> Option<T>)
    ensures ReadAll([], read) == Some([])
  {
    assert ReadAll([], read).value == [];
  }

  lemma ReadCons<T>(p: string, rest: seq<string>, read: string -> Option<T>, x: T, xs: seq<T>)
    requires read(p) == Some(x) && ReadAll(rest, read) == Some(xs)
    ensures ReadAll([p] + rest, read) == Some([x] + xs)
  {
    var parts := [p] + rest;
    assert forall i :: 0 < i < |parts| ==> parts[i] == rest[i - 1];
    assert forall i :: 0 <= i < |rest| ==> read(rest[i]).Some? && read(rest[i]).value == xs[i];
    assert ReadAll(parts, read).value == [x] + xs;
  }

  // ----- lists of numbers ----------------------------------------------------------------------

  function Formatted(ids: seq<Uint32>): (r: seq<string>)
    ensures |r| == |ids|
  {
    seq(|ids|, i requires 0 <= i < |ids| => Format(ids[i]))
  }

  method Uint32SliceToString(ids: seq<Uint32>) returns (s: string)
    ensures s == Join(Formatted(ids), ',')
  {
    var list := [];
    for n := 0 to |ids|
      invariant list == Formatted(ids[..n])
    {
      list := list + [Format(ids[n])];
      assert list == Formatted(ids[..n + 1]);
    }
    assert ids[..|ids|] == ids;
    s := Join(list, ',');
  }

  /** StringToUint32: a 64-bit number that also fits 32 bits. */
  function ToUint32(s: string): Option<Uint32> {
    match ParseUint(s, 0xffff_ffff_ffff_ffff)
    case None => None
    case Some(n) => if n > 0xffff_ffff then None else Some(n)
  }

  method StringToUint32Slice(s: string) returns (r: Option<seq<Uint32>>)
    ensures r == ReadAll(CommaParts(s), ToUint32)
  {
    r := ReadList(s, ToUint32);
  }

  lemma FormattedIsClean(ids: seq<Uint32>)
    ensures Clean(Formatted(ids))
  {
    forall i | 0 <= i < |ids|
      ensures Formatted(ids)[i] != "" && Trim(Formatted(ids)[i]) && ',' !in Formatted(ids)[i]
    {
      var f := Format(ids[i]);
      assert IsDigit(f[0]) && IsDigit(f[|f| - 1]);
    }
  }

  lemma ParseFormatted(ids: seq<Uint32>)
    ensures ReadAll(Formatted(ids), ToUint32) == Some(ids)
  {
    forall i | 0 <= i < |ids|
      ensures ToUint32(Formatted(ids)[i]) == Some(ids[i])
    {
      ParseFormat(ids[i], 0xffff_ffff_ffff_ffff);
    }
    assert ReadAll(Formatted(ids), ToUint32).value == ids;
  }

  /** Every list of 32-bit numbers, the empty one included, is read back as it was written. */
  lemma Uint32RoundTrip(ids: seq<Uint32>)
    ensures ReadAll(CommaParts(Join(Formatted(ids), ',')), ToUint32) == Some(ids)
  {
    FormattedIsClean(ids);
    SplitOfJoin(Formatted(ids));
    ParseFormatted(ids);
  }

  // ----- lists of byte strings -----------------------------------------------------------------

  function Encoded(bs: seq<seq<Byte>>): (r: seq<string>)
    ensures |r| == |bs|
  {
    seq(|bs|, i requires 0 <= i < |bs| => EncodeHex(bs[i]))
  }

  method BytesSliceToString(bs: seq<seq<Byte>>) returns (s: string)
    ensures s == Join(Encoded(bs), ',')
  {
    var list := [];
    for n := 0 to |bs|
      invariant list == Encoded(bs[..n])
    {
      list := list + [EncodeHex(bs[n])];
      assert list == Encoded(bs[..n + 1]);
    }
    assert bs[..|bs|] == bs;
    s := Join(list, ',');
  }

  /** Part k is the first that is not hexadecimal: decoded so far, and nothing after it. */
  predicate DecodedUntil(parts: seq<string>, k: nat, list: seq<seq<Byte>>)
    requires k < |parts| == |list|
  {
    && (forall i :: 0 <= i < k ==> DecodeHex(parts[i]) == Some(list[i]))
    && DecodeHex(parts[k]).None? && list[k] == HexPrefix(parts[k])
    && forall i :: k < i < |list| ==> list[i] == []
  }

  /** The list is as long as there are parts, also when an error comes with it. */
  method StringToBytesSlice(s: string) returns (list: seq<seq<Byte>>, ok: bool)
    ensures var parts := CommaParts(s);
            && |list| == |parts|
            && (ok ==> ReadAll(parts, DecodeHex) == Some(list))
            && (!ok ==> ReadAll(parts, DecodeHex) == None)
            && (!ok ==> exists k :: 0 <= k < |parts| && DecodedUntil(parts, k, list))
  {
    var parts := SplitByComma(s);
    list := seq(|parts|, i => []);
    for n := 0 to |parts|
      invariant |list| == |parts|
      invariant forall i :: 0 <= i < n ==> DecodeHex(parts[i]) == Some(list[i])
      invariant forall i :: n <= i < |list| ==> list[i] == []
    {
      DecodedIsPrefix(parts[n]);
      list := list[n := HexPrefix(parts[n])];
      if DecodeHex(parts[n]).None? {
        assert DecodedUntil(parts, n, list);
        return list, false;
      }
    }
    ok := true;
    assert list == ReadAll(parts, DecodeHex).value;
  }

  /** The list without its empty elements. */
  function NonEmpty(bs: seq<seq<Byte>>): seq<seq<Byte>> {
    if bs == [] then [] else (if bs[0] == [] then [] else [bs[0]]) + NonEmpty(bs[1..])
  }

  lemma HexIsTrim(b: seq<Byte>)
    ensures Trim(EncodeHex(b)) && ',' !in EncodeHex(b)
  {
    EncodeHexFree(b, ',');
    var s := EncodeHex(b);
    if s != "" && IsSpace(s[0]) {
      EncodeHexFree(b, s[0]);
    }
    if s != "" && IsSpace(s[|s| - 1]) {
      EncodeHexFree(b, s[|s| - 1]);
    }
  }

  /** The written list has no space at either end. */
  lemma {:induction false} JoinOfTrimIsTrim(parts: seq<string>)
    requires forall i :: 0 <= i < |parts| ==> Trim(parts[i])
    ensures Trim(Join(parts, ','))
  {
    if |parts| > 1 {
      JoinOfTrimIsTrim(parts[1..]);
    }
  }

  lemma {:induction false} DecodeTrimmed(bs: seq<seq<Byte>>)
    ensures ReadAll(Trimmed(Encoded(bs)), DecodeHex) == Some(NonEmpty(bs))
  {
    if bs == [] {
      ReadNothing(DecodeHex);
    } else {
      var first, rest := EncodeHex(bs[0]), Trimmed(Encoded(bs[1..]));
      assert Encoded(bs)[1..] == Encoded(bs[1..]);
      DecodeTrimmed(bs[1..]);
      TrimmedHex(bs[0]);
      if bs[0] == [] {
        assert [] + rest == rest && [] + NonEmpty(bs[1..]) == NonEmpty(bs[1..]);
      } else {
        DecodeEncode(bs[0]);
        ReadCons(first, rest, DecodeHex, bs[0], NonEmpty(bs[1..]));
      }
    }
  }

  lemma TrimmedHex(b: seq<Byte>)
    ensures TrimSpace(EncodeHex(b)) == EncodeHex(b) && (EncodeHex(b) == "" <==> b == [])
  {
    HexIsTrim(b);
    TrimSpaceParts(EncodeHex(b));
    EncodeHexFree(b, ',');
  }

  /** Every list of byte strings is read back in order, with exactly the empty ones dropped. */
  lemma BytesRoundTrip(bs: seq<seq<Byte>>)
    ensures ReadAll(CommaParts(Join(Encoded(bs), ',')), DecodeHex) == Some(NonEmpty(bs))
  {
    var parts := Encoded(bs);
    forall i | 0 <= i < |parts|
      ensures Trim(parts[i]) && ',' !in parts[i]
    {
      HexIsTrim(bs[i]);
    }
    JoinOfTrimIsTrim(parts);
    TrimSpaceParts(Join(parts, ','));
    if bs == [] {
      assert Split("", ',') == [""];
      assert Trimmed([""]) == [];
      ReadNothing(DecodeHex);
    } else {
      SplitJoin(parts, ',');
      DecodeTrimmed(bs);
    }
  }

  lemma NumberListText()
    ensures Join(Formatted([12, 3]), ',') == "12,3"
  {
    assert Formatted([12, 3]) == [Format(12)] + [Format(3)];
    assert Format(12) == Format(1) + ['2'] == "12" && Format(3) == "3";
    JoinCons("12", ["3"], ',');
    JoinCons("3", [], ',');
  }

  lemma BytesListText()
    ensures Join(Encoded([[0xab], [1]]), ',') == "ab,01"
  {
    assert Encoded([[0xab], [1]]) == [EncodeHex([0xab])] + [EncodeHex([1])];
    HexPair(0xab);
    HexPair(1);
    JoinCons("ab", ["01"], ',');
    JoinCons("01", [], ',');
  }

  lemma HexPair(d: Byte)
    ensures EncodeHex([d]) == [HexDigit(d as int / 16), HexDigit(d as int % 16)]
  {
    assert EncodeHex([d][1..]) == "";
  }
}
