/** The `Args` wire format: little-endian numbers, length-prefixed strings and byte arrays, and
    string arrays prefixed by their length in bytes. Encoders, cursor-based decoders, round trips. */
module Wire {
  import opened Words

  datatype ArgsError = OutOfRange(what: string) | InvalidUtf8

  datatype Result<+T> = Ok(value: T) | Err(error: ArgsError)

  /** What a read yields and where it leaves the cursor, on failure as well. */
  datatype Read<+T> = Read(result: Result<T>, offset: nat)

  // ---- Little-endian numbers ----

  function LittleEndian(x: nat, n: nat): (b: Bytes)
    ensures |b| == n
  {
    if n == 0 then [] else [x % 256] + LittleEndian(x / 256, n - 1)
  }

  function FromLittleEndian(b: Bytes): nat {
    if b == [] then 0 else b[0] + 256 * FromLittleEndian(b[1..])
  }

  function Pow256(n: nat): nat {
    if n == 0 then 1 else 256 * Pow256(n - 1)
  }

  lemma WordSizes()
    ensures Pow256(4) == TWO32 && Pow256(8) == TWO64
  {
    assert Pow256(2) == 256 * Pow256(1) == 0x1_0000;
    assert Pow256(4) == 256 * Pow256(3) == TWO32;
    assert Pow256(6) == 256 * Pow256(5) == 0x1_0000_0000_0000;
    assert Pow256(8) == 256 * Pow256(7) == TWO64;
  }

  lemma {:induction false} NumberRoundTrip(x: nat, n: nat)
    requires x < Pow256(n)
    ensures FromLittleEndian(LittleEndian(x, n)) == x
  {
    if n > 0 {
      NumberRoundTrip(x / 256, n - 1);
      assert LittleEndian(x, n)[1..] == LittleEndian(x / 256, n - 1);
    }
  }

  lemma LowByte(low: byte, rest: nat)
    ensures (low + 256 * rest) % 256 == low && (low + 256 * rest) / 256 == rest
  {
  }

  lemma {:induction false} BytesOfNumber(b: Bytes)
    ensures FromLittleEndian(b) < Pow256(|b|)
    ensures LittleEndian(FromLittleEndian(b), |b|) == b
  {
    if b != [] {
      BytesOfNumber(b[1..]);
      var rest := FromLittleEndian(b[1..]);
      LowByte(b[0], rest);
      assert b == [b[0]] + b[1..];
    }
  }

  // ---- UTF-8 ----

  predicate Tail(b: Bytes, i: nat, lo: int, hi: int) {
    i < |b| && lo <= b[i] <= hi
  }

  /** Length of the well-formed UTF-8 sequence at the front of `b`, or 0 (section 4 of RFC 3629). */
  function CharLength(b: Bytes): (n: nat)
    ensures n <= |b|
  {
    if b == [] then 0
    else if b[0] < 0x80 then 1
    else if 0xC2 <= b[0] <= 0xDF && Tail(b, 1, 0x80, 0xBF) then 2
    else if b[0] == 0xE0 && Tail(b, 1, 0xA0, 0xBF) && Tail(b, 2, 0x80, 0xBF) then 3
    else if (0xE1 <= b[0] <= 0xEC || 0xEE <= b[0] <= 0xEF) && Tail(b, 1, 0x80, 0xBF) && Tail(b, 2, 0x80, 0xBF) then 3
    else if b[0] == 0xED && Tail(b, 1, 0x80, 0x9F) && Tail(b, 2, 0x80, 0xBF) then 3
    else if b[0] == 0xF0 && Tail(b, 1, 0x90, 0xBF) && Tail(b, 2, 0x80, 0xBF) && Tail(b, 3, 0x80, 0xBF) then 4
    else if 0xF1 <= b[0] <= 0xF3 && Tail(b, 1, 0x80, 0xBF) && Tail(b, 2, 0x80, 0xBF) && Tail(b, 3, 0x80, 0xBF) then 4
    else if b[0] == 0xF4 && Tail(b, 1, 0x80, 0x8F) && Tail(b, 2, 0x80, 0xBF) && Tail(b, 3, 0x80, 0xBF) then 4
    else 0
  }

  predicate ValidUtf8(b: Bytes)
    decreases |b|
  {
    b == [] || (CharLength(b) > 0 && ValidUtf8(b[CharLength(b)..]))
  }

  // ---- Encoders ----

  function EncodeU32(x: u32): Bytes {
    LittleEndian(x, 4)
  }

  function EncodeU64(x: u64): Bytes {
    LittleEndian(x, 8)
  }

  /** The length prefix is cast to 32 bits. */
  function EncodeBytes(b: Bytes): Bytes {
    EncodeU32(|b| % TWO32) + b
  }

  function EncodeText(t: Text): Bytes {
    EncodeBytes(t.utf8)
  }

  function Content(ts: seq<Text>): Bytes {
    if ts == [] then [] else Content(ts[..|ts| - 1]) + EncodeText(ts[|ts| - 1])
  }

  function EncodeTexts(ts: seq<Text>): Bytes {
    EncodeBytes(Content(ts))
  }

  function EncodeBool(b: bool): Bytes {
    [if b then 1 else 0]
  }

  // ---- Decoders ----

  function NextNumber(data: Bytes, offset: nat, n: nat, what: string): Read<nat> {
    if offset + n > |data| then Read(Err(OutOfRange(what)), offset)
    else Read(Ok(FromLittleEndian(data[offset..offset + n])), offset + n)
  }

  function NextU32(data: Bytes, offset: nat): Read<nat> {
    NextNumber(data, offset, 4, "u32")
  }

  function NextU64(data: Bytes, offset: nat): (r: Read<u64>) {
    var r := NextNumber(data, offset, 8, "u64");
    if r.result.Ok? then
      WordSizes();
      BytesOfNumber(data[offset..offset + 8]);
      Read(Ok(r.result.value), r.offset)
    else Read(Err(r.result.error), r.offset)
  }

  function NextBool(data: Bytes, offset: nat): Read<bool> {
    if offset + 1 > |data| then Read(Err(OutOfRange("bool")), offset)
    else Read(Ok(data[offset] != 0), offset + 1)
  }

  /** A failed range check leaves the cursor behind the length prefix. */
  function NextBytes(data: Bytes, offset: nat): Read<Bytes> {
    var r := NextU32(data, offset);
    if r.result.Err? then Read(Err(r.result.error), r.offset)
    else if r.offset + r.result.value > |data| then Read(Err(OutOfRange("bytes")), r.offset)
    else Read(Ok(data[r.offset..r.offset + r.result.value]), r.offset + r.result.value)
  }

  function NextText(data: Bytes, offset: nat): Read<Text> {
    var r := NextBytes(data, offset);
    if r.result.Err? then Read(Err(r.result.error), r.offset)
    else if !ValidUtf8(r.result.value) then Read(Err(InvalidUtf8), r.offset)
    else Read(Ok(Text(r.result.value)), r.offset)
  }

  lemma TextAdvances(data: Bytes, offset: nat)
    ensures var r := NextText(data, offset);
      && (offset <= |data| ==> offset <= r.offset <= |data|)
      && (r.result.Ok? ==> offset + 4 <= r.offset <= |data|)
  {
  }

  /** The element loop; it may run past `end`, since only the start of an element is compared. */
  function TextsFrom(data: Bytes, offset: nat, end: nat): Read<seq<Text>>
    decreases |data| - offset
  {
    if offset >= end then Read(Ok([]), offset)
    else
      var r := NextText(data, offset);
      TextAdvances(data, offset);
      if r.result.Err? then Read(Err(r.result.error), r.offset)
      else
        var rest := TextsFrom(data, r.offset, end);
        if rest.result.Err? then rest
        else Read(Ok([r.result.value] + rest.result.value), rest.offset)
  }

  function NextTexts(data: Bytes, offset: nat): Read<seq<Text>> {
    var r := NextU32(data, offset);
    if r.result.Err? then Read(Err(r.result.error), r.offset)
    else if r.offset + r.result.value > |data| then Read(Err(OutOfRange("string array")), r.offset)
    else TextsFrom(data, r.offset, r.offset + r.result.value)
  }

  // ---- Round trips: decoding what was encoded, anywhere in a buffer ----

  lemma SliceAt(pre: Bytes, mid: Bytes, suf: Bytes)
    ensures (pre + mid + suf)[|pre|..|pre| + |mid|] == mid
    ensures |pre + mid + suf| == |pre| + |mid| + |suf|
  {
  }

  lemma NumberAt(x: nat, n: nat, what: string, pre: Bytes, suf: Bytes)
    requires x < Pow256(n)
    ensures NextNumber(pre + LittleEndian(x, n) + suf, |pre|, n, what) == Read(Ok(x), |pre| + n)
  {
    SliceAt(pre, LittleEndian(x, n), suf);
    NumberRoundTrip(x, n);
  }

  lemma U64At(x: u64, pre: Bytes, suf: Bytes)
    ensures NextU64(pre + EncodeU64(x) + suf, |pre|) == Read(Ok(x), |pre| + 8)
  {
    WordSizes();
    NumberAt(x, 8, "u64", pre, suf);
  }

  lemma BoolAt(b: bool, pre: Bytes, suf: Bytes)
    ensures NextBool(pre + EncodeBool(b) + suf, |pre|) == Read(Ok(b), |pre| + 1)
  {
    SliceAt(pre, EncodeBool(b), suf);
    assert (pre + EncodeBool(b) + suf)[|pre|] == EncodeBool(b)[0];
  }

  /** Where the length prefix of an encoded byte array leads the decoder. */
  lemma HeaderAt(b: Bytes, pre: Bytes, suf: Bytes)
    ensures NextU32(pre + EncodeBytes(b) + suf, |pre|) == Read(Ok(|b| % TWO32), |pre| + 4)
  {
    WordSizes();
    NumberAt(|b| % TWO32, 4, "u32", pre, b + suf);
    assert pre + EncodeBytes(b) + suf == pre + EncodeU32(|b| % TWO32) + (b + suf);
  }

  /** A byte array survives exactly when its length fits the 32-bit prefix. */
  lemma BytesAt(b: Bytes, pre: Bytes, suf: Bytes)
    ensures NextBytes(pre + EncodeBytes(b) + suf, |pre|) == Read(Ok(b), |pre| + |EncodeBytes(b)|)
            <==> |b| < TWO32
  {
    hide FromLittleEndian;
    hide LittleEndian;
    hide NextU32;
    HeaderAt(b, pre, suf);
    if |b| < TWO32 {
      var head := pre + EncodeU32(|b|);
      SliceAt(head, b, suf);
      assert pre + EncodeBytes(b) + suf == head + b + suf;
    }
  }

  predicate Encodable(t: Text) {
    ValidUtf8(t.utf8) && |t.utf8| < TWO32
  }

  lemma TextAt(t: Text, pre: Bytes, suf: Bytes)
    ensures NextText(pre + EncodeText(t) + suf, |pre|) == Read(Ok(t), |pre| + |EncodeText(t)|) <==> Encodable(t)
  {
    BytesAt(t.utf8, pre, suf);
  }

  lemma {:induction false} ContentAppend(ts: seq<Text>, us: seq<Text>)
    ensures Content(ts + us) == Content(ts) + Content(us)
  {
    hide EncodeText;
    if us == [] {
      assert ts + us == ts;
    } else {
      var front, last := us[..|us| - 1], us[|us| - 1];
      ContentAppend(ts, front);
      assert (ts + us)[..|ts + us| - 1] == ts + front;
    }
  }

  lemma ContentFront(t: Text, rest: seq<Text>)
    ensures Content([t] + rest) == EncodeText(t) + Content(rest)
    ensures |EncodeText(t)| >= 4
  {
    ContentAppend([t], rest);
    assert Content([t]) == EncodeText(t);
  }

  lemma Regroup(a: Bytes, b: Bytes, c: Bytes, d: Bytes)
    ensures a + (b + c) + d == a + b + (c + d)
    ensures a + (b + c) + d == (a + b) + c + d
  {
  }

  lemma {:induction false} TextsFromAt(ts: seq<Text>, pre: Bytes, suf: Bytes)
    requires forall t :: t in ts ==> Encodable(t)
    ensures TextsFrom(pre + Content(ts) + suf, |pre|, |pre| + |Content(ts)|) == Read(Ok(ts), |pre| + |Content(ts)|)
  {
    hide NextText;
    hide EncodeText;
    hide Encodable;
    if ts != [] {
      var t, rest := ts[0], ts[1..];
      assert ts == [t] + rest;
      ContentFront(t, rest);
      TextAt(t, pre, Content(rest) + suf);
      TextsFromAt(rest, pre + EncodeText(t), suf);
      Regroup(pre, EncodeText(t), Content(rest), suf);
    } else {
      assert Content(ts) == [];
    }
  }

  predicate EncodableList(ts: seq<Text>) {
    (forall t :: t in ts ==> Encodable(t)) && |Content(ts)| < TWO32
  }

  /** Decoding an encoded list in front of any suffix returns the list and stops at the suffix. */
  lemma TextsAt(ts: seq<Text>, pre: Bytes, suf: Bytes)
    requires EncodableList(ts)
    ensures NextTexts(pre + EncodeTexts(ts) + suf, |pre|) == Read(Ok(ts), |pre| + |EncodeTexts(ts)|)
  {
    hide NextU32;
    hide LittleEndian;
    hide TextsFrom;
    hide Content;
    var c := Content(ts);
    HeaderAt(c, pre, suf);
    var head := EncodeU32(|c|);
    Regroup(pre, head, c, suf);
    SliceAt(pre + head, c, suf);
    TextsFromAt(ts, pre + head, suf);
  }

  // ---- What is on the wire ----

  lemma {:induction false} ByteOfNumber(x: nat, n: nat, i: nat)
    requires i < n
    ensures Pow256(i) > 0 && LittleEndian(x, n)[i] == x / Pow256(i) % 256
  {
    if i > 0 {
      ByteOfNumber(x / 256, n - 1, i - 1);
      assert LittleEndian(x, n)[i] == LittleEndian(x / 256, n - 1)[i - 1];
      DivideTwice(x, Pow256(i - 1));
    }
  }

  lemma DivideTwice(x: nat, d: nat)
    requires d > 0
    ensures x / 256 / d == x / (256 * d)
  {
    var q, r := x / 256, x % 256;
    var p, t := q / d, q % d;
    assert x == 256 * q + r && q == d * p + t;
    assert x == (256 * d) * p + (256 * t + r) by {
      assert 256 * (d * p) == (256 * d) * p;
    }
    assert 0 <= 256 * t + r < 256 * d;
    QuotientIs(x, 256 * d, p, 256 * t + r);
  }

  lemma TimesDifference(d: int, q: int, p: int)
    ensures d * q - d * p == d * (q - p)
  {
  }

  lemma TimesAtLeast(d: int, k: int)
    requires d > 0 && k >= 1
    ensures d * k >= d
  {
  }

  lemma QuotientIs(x: int, d: int, p: int, r: int)
    requires d > 0 && x == d * p + r && 0 <= r < d
    ensures x / d == p
  {
    var q, s := x / d, x % d;
    assert x == d * q + s && 0 <= s < d;
    TimesDifference(d, q, p);
    TimesDifference(d, p, q);
    if q > p {
      TimesAtLeast(d, q - p);
    } else if q < p {
      TimesAtLeast(d, p - q);
    }
  }

  /** A byte array or string below 4 GiB is its length in four bytes, lowest first, and then itself. */
  lemma BytesOnWire(b: Bytes)
    requires |b| < TWO32
    ensures EncodeBytes(b) == [|b| % 256, |b| / 0x100 % 256, |b| / 0x1_0000 % 256, |b| / 0x100_0000] + b
  {
    var n := |b|;
    assert Pow256(0) == 1 && Pow256(1) == 256 && Pow256(2) == 256 * Pow256(1) && Pow256(3) == 256 * Pow256(2);
    ByteOfNumber(n, 4, 0);
    ByteOfNumber(n, 4, 1);
    ByteOfNumber(n, 4, 2);
    ByteOfNumber(n, 4, 3);
    hide LittleEndian, Pow256;
    assert EncodeU32(n) == [n % 256, n / 0x100 % 256, n / 0x1_0000 % 256, n / 0x100_0000];
  }

  /** The bytes that the elements of a list take. */
  function ContentSize(ts: seq<Text>): nat {
    if ts == [] then 0 else ContentSize(ts[..|ts| - 1]) + 4 + |ts[|ts| - 1].utf8|
  }

  /** A list is prefixed by the number of its bytes, not of its elements; element `k` stands behind the bytes of
      the elements before it. */
  lemma {:induction false} ContentOnWire(ts: seq<Text>, k: nat)
    requires k < |ts|
    ensures |Content(ts)| == ContentSize(ts)
    ensures var at, t := ContentSize(ts[..k]), ts[k];
      at + 4 + |t.utf8| <= |Content(ts)| && Content(ts)[at..at + 4 + |t.utf8|] == EncodeText(t)
  {
    hide EncodeText;
    ContentHasSize(ts);
    ContentHasSize(ts[..k]);
    var front, t, rest := ts[..k], ts[k], ts[k + 1..];
    assert ts == front + ([t] + rest);
    ContentAppend(front, [t] + rest);
    ContentFront(t, rest);
    TextSize(t);
    SliceAt(Content(front), EncodeText(t), Content(rest));
    assert Content(ts) == Content(front) + EncodeText(t) + Content(rest);
  }

  lemma TextSize(t: Text)
    ensures |EncodeText(t)| == 4 + |t.utf8|
  {
  }

  lemma {:induction false} ContentHasSize(ts: seq<Text>)
    ensures |Content(ts)| == ContentSize(ts)
  {
    hide EncodeText;
    if ts != [] {
      ContentHasSize(ts[..|ts| - 1]);
      TextSize(ts[|ts| - 1]);
    }
  }

  /** When reads fail, with what, and where they leave the cursor: at a number, where it was; at a byte array or
      a string whose prefix could be read, behind the prefix; at a string that is no UTF-8, behind it. */
  lemma FailedReads(data: Bytes, offset: nat)
    ensures var r := NextU32(data, offset);
      r.result.Err? ==> offset + 4 > |data| && r == Read(Err(OutOfRange("u32")), offset)
    ensures var r := NextU64(data, offset);
      r.result.Err? ==> offset + 8 > |data| && r == Read(Err(OutOfRange("u64")), offset)
    ensures var r := NextBytes(data, offset);
      r.result.Err? ==>
        if offset + 4 > |data| then r == Read(Err(OutOfRange("u32")), offset)
        else offset + 4 + FromLittleEndian(data[offset..offset + 4]) > |data|
             && r == Read(Err(OutOfRange("bytes")), offset + 4)
    ensures var r, b := NextText(data, offset), NextBytes(data, offset);
      r.result.Err? ==>
        if b.result.Ok? then !ValidUtf8(b.result.value) && r == Read(Err(InvalidUtf8), b.offset)
        else r == Read(Err(b.result.error), b.offset)
    ensures var r := NextTexts(data, offset);
      && (offset + 4 > |data| ==> r == Read(Err(OutOfRange("u32")), offset))
      && (offset + 4 <= |data| < offset + 4 + FromLittleEndian(data[offset..offset + 4]) ==>
            r == Read(Err(OutOfRange("string array")), offset + 4))
  {
    hide FromLittleEndian, ValidUtf8, TextsFrom;
  }

  // ---- Exactness: encoding what was decoded ----

  lemma SplitSlice(data: Bytes, i: nat, j: nat, k: nat)
    requires i <= j <= k <= |data|
    ensures data[i..k] == data[i..j] + data[j..k]
  {
  }

  lemma PrefixMatches(head: Bytes, c: Bytes)
    requires |head| == 4
    ensures FromLittleEndian(head) < TWO32
    ensures EncodeBytes(c) == head + c <==> |c| % TWO32 == FromLittleEndian(head)
  {
    WordSizes();
    BytesOfNumber(head);
    NumberRoundTrip(|c| % TWO32, 4);
    assert EncodeBytes(c)[..4] == EncodeU32(|c| % TWO32);
    assert (head + c)[..4] == head;
  }

  lemma TextIsExact(data: Bytes, offset: nat)
    ensures var r := NextText(data, offset);
      r.result.Ok? ==> Encodable(r.result.value) && offset < r.offset <= |data|
                       && EncodeText(r.result.value) == data[offset..r.offset]
  {
    var r := NextText(data, offset);
    if r.result.Ok? {
      hide ValidUtf8;
      hide FromLittleEndian;
      hide EncodeBytes;
      var head, b := data[offset..offset + 4], r.result.value.utf8;
      PrefixMatches(head, b);
      SplitSlice(data, offset, offset + 4, r.offset);
    }
  }

  /** The element loop stays in bounds, and the elements it returns re-encode to what it consumed. */
  lemma {:induction false} TextsFromExact(data: Bytes, offset: nat, end: nat)
    requires offset <= |data|
    ensures var r := TextsFrom(data, offset, end);
      && offset <= r.offset <= |data|
      && (r.result.Ok? ==>
            && (end <= r.offset || end <= offset)
            && (forall t :: t in r.result.value ==> Encodable(t))
            && Content(r.result.value) == data[offset..r.offset])
    decreases |data| - offset
  {
    hide NextText;
    hide Encodable;
    hide EncodeText;
    if offset < end {
      var r := NextText(data, offset);
      TextAdvances(data, offset);
      if r.result.Ok? {
        TextIsExact(data, offset);
        TextsFromExact(data, r.offset, end);
        var rest := TextsFrom(data, r.offset, end);
        if rest.result.Ok? {
          ContentAppend([r.result.value], rest.result.value);
          assert Content([r.result.value]) == EncodeText(r.result.value);
          assert data[offset..rest.offset] == data[offset..r.offset] + data[r.offset..rest.offset];
        }
      }
    }
  }

  /** The length prefix at `offset`. */
  function Prefix(data: Bytes, offset: nat): nat
    requires offset + 4 <= |data|
  {
    FromLittleEndian(data[offset..offset + 4])
  }

  /** On any bytes the array decoder stops within the buffer. What it returns re-encodes to exactly the
      bytes it consumed if and only if it consumed as many bytes of elements as the prefix says (as a
      32-bit number); in a buffer below 4 GiB that means that it stopped exactly at the announced end. */
  lemma TextsExact(data: Bytes, offset: nat)
    requires offset <= |data|
    ensures var r := NextTexts(data, offset);
      && offset <= r.offset <= |data|
      && (r.result.Ok? ==>
            && offset + 4 <= r.offset
            && offset + 4 + Prefix(data, offset) <= r.offset
            && (EncodeTexts(r.result.value) == data[offset..r.offset]
                <==> (r.offset - offset - 4) % TWO32 == Prefix(data, offset))
            && (|data| < TWO32 ==>
                  (EncodeTexts(r.result.value) == data[offset..r.offset]
                   <==> r.offset == offset + 4 + Prefix(data, offset))))
  {
    var r := NextTexts(data, offset);
    hide FromLittleEndian;
    hide TextsFrom;
    hide Content;
    if offset + 4 <= |data| && offset + 4 + Prefix(data, offset) <= |data| {
      TextsFromExact(data, offset + 4, offset + 4 + Prefix(data, offset));
      if r.result.Ok? {
        var head, c := data[offset..offset + 4], Content(r.result.value);
        SplitSlice(data, offset, offset + 4, r.offset);
        PrefixMatches(head, c);
        hide EncodeBytes;
        var used := r.offset - offset - 4;
        assert |c| == used;
        assert EncodeTexts(r.result.value) == data[offset..r.offset] <==> used % TWO32 == Prefix(data, offset);
      }
    }
  }
}
