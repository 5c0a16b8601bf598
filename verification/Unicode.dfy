/** What counts as UTF-8: the byte strings that spell sequences of Unicode scalar values, and no others. */
module Unicode {
  import opened Words
  import opened Wire

  /** A Unicode scalar value: a code point that is no surrogate. */
  predicate Scalar(c: int) {
    0 <= c < 0xD800 || 0xE000 <= c < 0x11_0000
  }

  /** The bytes of a scalar value (section 3 of RFC 3629). */
  function Spell(c: int): (b: Bytes)
    requires Scalar(c)
  {
    if c < 0x80 then [c]
    else if c < 0x800 then [0xC0 + c / 0x40, 0x80 + c % 0x40]
    else if c < 0x1_0000 then [0xE0 + c / 0x1000, 0x80 + c / 0x40 % 0x40, 0x80 + c % 0x40]
    else [0xF0 + c / 0x4_0000, 0x80 + c / 0x1000 % 0x40, 0x80 + c / 0x40 % 0x40, 0x80 + c % 0x40]
  }

  function SpellAll(cs: seq<int>): Bytes
    requires forall c :: c in cs ==> Scalar(c)
  {
    if cs == [] then [] else Spell(cs[0]) + SpellAll(cs[1..])
  }

  lemma SpelledHasLength(c: int, rest: Bytes)
    requires Scalar(c)
    ensures CharLength(Spell(c) + rest) == |Spell(c)| > 0
  {
    var b := Spell(c) + rest;
    assert |Spell(c)| > 0 ==> b[0] == Spell(c)[0];
    assert |Spell(c)| > 1 ==> b[1] == Spell(c)[1];
    assert |Spell(c)| > 2 ==> b[2] == Spell(c)[2];
    assert |Spell(c)| > 3 ==> b[3] == Spell(c)[3];
  }

  /** The payload of continuation byte number `i`. */
  function Low(b: Bytes, i: nat): int {
    if i < |b| then b[i] as int - 0x80 else 0
  }

  /** The scalar value that the front of a byte string spells. */
  function ScalarAt(b: Bytes): int
    requires CharLength(b) > 0
  {
    var n, first := CharLength(b), b[0] as int;
    if n == 1 then first
    else if n == 2 then (first - 0xC0) * 0x40 + Low(b, 1)
    else if n == 3 then ((first - 0xE0) * 0x40 + Low(b, 1)) * 0x40 + Low(b, 2)
    else (((first - 0xF0) * 0x40 + Low(b, 1)) * 0x40 + Low(b, 2)) * 0x40 + Low(b, 3)
  }

  lemma Six(high: int, low: int)
    requires 0 <= low < 0x40
    ensures (high * 0x40 + low) / 0x40 == high && (high * 0x40 + low) % 0x40 == low
  {
  }

  lemma SpellTwo(h: int, x: int)
    requires 2 <= h < 0x20 && 0 <= x < 0x40
    ensures var c := h * 0x40 + x; Scalar(c) && Spell(c) == [0xC0 + h, 0x80 + x]
  {
    Six(h, x);
  }

  lemma SpellThree(h: int, x: int, y: int)
    requires 0 <= h < 0x10 && 0 <= x < 0x40 && 0 <= y < 0x40
    requires (h == 0 ==> x >= 0x20) && (h == 0xD ==> x < 0x20)
    ensures var c := (h * 0x40 + x) * 0x40 + y; Scalar(c) && Spell(c) == [0xE0 + h, 0x80 + x, 0x80 + y]
  {
    Six(h * 0x40 + x, y);
    Six(h, x);
    var c := (h * 0x40 + x) * 0x40 + y;
    assert c / 0x1000 == c / 0x40 / 0x40;
  }

  lemma SpellFour(h: int, x: int, y: int, z: int)
    requires 0 <= h < 5 && 0 <= x < 0x40 && 0 <= y < 0x40 && 0 <= z < 0x40
    requires (h == 0 ==> x >= 0x10) && (h == 4 ==> x < 0x10)
    ensures var c := ((h * 0x40 + x) * 0x40 + y) * 0x40 + z;
      Scalar(c) && Spell(c) == [0xF0 + h, 0x80 + x, 0x80 + y, 0x80 + z]
  {
    var d := (h * 0x40 + x) * 0x40 + y;
    var c := d * 0x40 + z;
    Six(d, z);
    Six(h * 0x40 + x, y);
    Six(h, x);
    assert c / 0x1000 == c / 0x40 / 0x40 && c / 0x4_0000 == c / 0x40 / 0x40 / 0x40;
  }

  lemma FrontIsSpelled(b: Bytes)
    requires CharLength(b) > 0
    ensures Scalar(ScalarAt(b)) && Spell(ScalarAt(b)) == b[..CharLength(b)]
  {
    var n, first := CharLength(b), b[0] as int;
    if n == 2 {
      SpellTwo(first - 0xC0, Low(b, 1));
    } else if n == 3 {
      SpellThree(first - 0xE0, Low(b, 1), Low(b, 2));
    } else if n == 4 {
      SpellFour(first - 0xF0, Low(b, 1), Low(b, 2), Low(b, 3));
    }
    hide Spell, Scalar;
    if n == 1 {
      SpellOne(first);
      assert b[..1] == [first];
    }
  }

  lemma SpellOne(c: int)
    requires 0 <= c < 0x80
    ensures Scalar(c) && Spell(c) == [c]
  {
  }

  lemma {:induction false} SpelledIsValid(cs: seq<int>)
    requires forall c :: c in cs ==> Scalar(c)
    ensures ValidUtf8(SpellAll(cs))
  {
    hide Spell, CharLength;
    if cs != [] {
      var rest := SpellAll(cs[1..]);
      SpelledIsValid(cs[1..]);
      SpelledHasLength(cs[0], rest);
      assert (Spell(cs[0]) + rest)[|Spell(cs[0])|..] == rest;
    }
  }

  lemma {:induction false} ValidIsSpelled(b: Bytes) returns (cs: seq<int>)
    requires ValidUtf8(b)
    ensures forall c :: c in cs ==> Scalar(c)
    ensures SpellAll(cs) == b
    decreases |b|
  {
    hide Spell, CharLength, ScalarAt, Scalar;
    cs := [];
    if b != [] {
      var n := CharLength(b);
      var rest := ValidIsSpelled(b[n..]);
      FrontIsSpelled(b);
      cs := [ScalarAt(b)] + rest;
      assert cs[1..] == rest;
      assert b == b[..n] + b[n..];
    }
  }

  ghost predicate Spellable(b: Bytes) {
    exists cs: seq<int> :: (forall c :: c in cs ==> Scalar(c)) && SpellAll(cs) == b
  }

  /** A string is accepted if and only if it spells some sequence of scalar values. */
  lemma ValidIffSpellable(b: Bytes)
    ensures ValidUtf8(b) <==> Spellable(b)
  {
    if ValidUtf8(b) {
      var cs := ValidIsSpelled(b);
    }
    if Spellable(b) {
      var cs: seq<int> :| (forall c :: c in cs ==> Scalar(c)) && SpellAll(cs) == b;
      SpelledIsValid(cs);
    }
  }
}
