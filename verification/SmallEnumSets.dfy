// Unsigned machine words as naturals, with the bitwise operators defined
// digit by digit. A 64-bit word is a natural below WORD_LIMIT.
module Words {

  const WORD_BITS := 64
  const WORD_LIMIT := 0x1_0000_0000_0000_0000

  // Digit v of x, counting from the least significant.
  predicate Digit(x: nat, v: nat) {
    if v == 0 then x % 2 == 1 else Digit(x / 2, v - 1)
  }

  function BitOr(x: nat, y: nat): nat {
    if x == 0 then y else 2 * BitOr(x / 2, y / 2) + (if x % 2 == 1 || y % 2 == 1 then 1 else 0)
  }

  function BitAnd(x: nat, y: nat): nat {
    if x == 0 then 0 else 2 * BitAnd(x / 2, y / 2) + (if x % 2 == 1 && y % 2 == 1 then 1 else 0)
  }

  // x & ~y; the complement itself is only ever used this way.
  function BitAndNot(x: nat, y: nat): nat {
    if x == 0 then 0 else 2 * BitAndNot(x / 2, y / 2) + (if x % 2 == 1 && y % 2 == 0 then 1 else 0)
  }

  // 1 << v. The precondition is the machine's: a 64-bit shift amount below 64.
  function Bit(v: nat): (r: nat)
    requires v < WORD_BITS
    ensures r > 0
  {
    if v == 0 then 1 else 2 * Bit(v - 1)
  }

  // x >> v, under the same limit on the shift amount.
  function ShiftRight(x: nat, v: nat): nat
    requires v < WORD_BITS
  {
    if v == 0 then x else ShiftRight(x / 2, v - 1)
  }

  lemma {:induction false} ZeroDigit(v: nat)
    ensures !Digit(0, v)
  {
    if v > 0 { ZeroDigit(v - 1); }
  }

  lemma {:induction false} OrDigit(x: nat, y: nat, v: nat)
    ensures Digit(BitOr(x, y), v) <==> Digit(x, v) || Digit(y, v)
    decreases v
  {
    if x == 0 {
      ZeroDigit(v);
    } else if v > 0 {
      OrDigit(x / 2, y / 2, v - 1);
    }
  }

  lemma {:induction false} AndDigit(x: nat, y: nat, v: nat)
    ensures Digit(BitAnd(x, y), v) <==> Digit(x, v) && Digit(y, v)
    decreases v
  {
    if x == 0 {
      ZeroDigit(v);
    } else if v > 0 {
      AndDigit(x / 2, y / 2, v - 1);
    }
  }

  lemma {:induction false} AndNotDigit(x: nat, y: nat, v: nat)
    ensures Digit(BitAndNot(x, y), v) <==> Digit(x, v) && !Digit(y, v)
    decreases v
  {
    if x == 0 {
      ZeroDigit(v);
    } else if v > 0 {
      AndNotDigit(x / 2, y / 2, v - 1);
    }
  }

  lemma {:induction false} BitDigit(v: nat, w: nat)
    requires v < WORD_BITS
    ensures Digit(Bit(v), w) <==> w == v
    decreases w
  {
    if v == 0 {
      if w > 0 { ZeroDigit(w - 1); }
    } else if w > 0 {
      BitDigit(v - 1, w - 1);
    }
  }

  // tmp | (tmp - 1) for tmp = 1 << v: every digit up to v.
  lemma {:induction false} MaskDigit(v: nat, w: nat)
    requires v < WORD_BITS
    ensures Digit(BitOr(Bit(v), Bit(v) - 1), w) <==> w <= v
  {
    OrDigit(Bit(v), Bit(v) - 1, w);
    BitDigit(v, w);
    BelowDigit(v, w);
  }

  lemma {:induction false} BelowDigit(v: nat, w: nat)
    requires v < WORD_BITS
    ensures Digit(Bit(v) - 1, w) <==> w < v
    decreases w
  {
    if v == 0 {
      ZeroDigit(w);
    } else if w > 0 {
      assert (Bit(v) - 1) / 2 == Bit(v - 1) - 1;
      BelowDigit(v - 1, w - 1);
    }
  }

  lemma {:induction false} ShiftDigit(x: nat, v: nat, w: nat)
    requires v < WORD_BITS
    ensures Digit(ShiftRight(x, v), w) <==> Digit(x, v + w)
    decreases v
  {
    if v > 0 { ShiftDigit(x / 2, v - 1, w); }
  }

  // A natural without digits above v is below 2^(v+1).
  lemma {:induction false} HighDigitsBound(x: nat, v: nat)
    requires v < WORD_BITS
    requires forall w | w > v :: !Digit(x, w)
    ensures x < 2 * Bit(v)
  {
    if v == 0 {
      if x > 1 {
        var w := CountTrailingZeroBits(x / 2);
        assert Digit(x, w + 1);
      }
    } else {
      forall w | w > v - 1 ensures !Digit(x / 2, w) {
        assert !Digit(x, w + 1);
      }
      HighDigitsBound(x / 2, v - 1);
    }
  }

  lemma BitTimes16(v: nat)
    requires v + 4 < WORD_BITS
    ensures Bit(v + 4) == 16 * Bit(v)
  {
    assert Bit(v + 2) == 4 * Bit(v);
  }

  lemma {:induction false} BitBound(v: nat)
    requires v < WORD_BITS
    ensures 2 * Bit(v) <= WORD_LIMIT
    decreases WORD_BITS - v
  {
    if v < 63 {
      BitBound(v + 1);
    } else {
      assert Bit(3) == 8;
      BitTimes16(3); BitTimes16(7); BitTimes16(11); BitTimes16(15); BitTimes16(19);
      BitTimes16(23); BitTimes16(27); BitTimes16(31); BitTimes16(35); BitTimes16(39);
      BitTimes16(43); BitTimes16(47); BitTimes16(51); BitTimes16(55); BitTimes16(59);
    }
  }

  lemma {:induction false} DigitsDetermine(x: nat, y: nat)
    requires forall v: nat :: Digit(x, v) <==> Digit(y, v)
    ensures x == y
    decreases x + y
  {
    if x != 0 || y != 0 {
      assert Digit(x, 0) <==> Digit(y, 0);
      forall v: nat ensures Digit(x / 2, v) <==> Digit(y / 2, v) {
        assert Digit(x, v + 1) <==> Digit(y, v + 1);
      }
      DigitsDetermine(x / 2, y / 2);
    }
  }

  // Counting trailing zeros of a nonzero word, one halving at a time.
  function CountTrailingZeroBits(x: nat): (r: nat)
    requires x != 0
    ensures Digit(x, r)
    ensures forall w | 0 <= w < r :: !Digit(x, w)
  {
    if x % 2 == 1 then 0
    else
      var r := CountTrailingZeroBits(x / 2);
      assert forall w: nat | w < r + 1 :: !Digit(x, w) by {
        forall w: nat | w < r + 1 ensures !Digit(x, w) {
          if w > 0 { assert !Digit(x / 2, w - 1); }
        }
      }
      r + 1
  }
}

// A set of small enumerators packed into one 64-bit word, with an iterator
// that re-reads the live word on every step (data_structure.h).
module SmallEnumSets {
  import opened Words

  predicate Contains(state: nat, v: nat)
    requires v < WORD_BITS
  {
    BitAnd(state, Bit(v)) != 0
  }

  // The mathematical set a word stands for.
  ghost function Elements(state: nat): set<nat> {
    set v: nat | v < WORD_BITS && Digit(state, v)
  }

  // The representation invariant of the set type whose largest enumerator
  // is `max`: no digit above `max` is ever set.
  ghost predicate InRange(max: nat, state: nat) {
    max < WORD_BITS && forall v | v > max :: !Digit(state, v)
  }

  lemma InRangeFitsWord(max: nat, state: nat)
    requires InRange(max, state)
    ensures state < WORD_LIMIT
  {
    HighDigitsBound(state, max);
    BitBound(max);
  }

  lemma ContainsIsMembership(state: nat, v: nat)
    requires v < WORD_BITS
    ensures Contains(state, v) <==> v in Elements(state)
  {
    var m := BitAnd(state, Bit(v));
    AndDigit(state, Bit(v), v);
    BitDigit(v, v);
    ZeroDigit(v);
    if m != 0 {
      var w := CountTrailingZeroBits(m);
      AndDigit(state, Bit(v), w);
      BitDigit(v, w);
    }
  }

  // Two words of the type are equal exactly when their sets are.
  lemma EqualityIsSetEquality(max: nat, s: nat, t: nat)
    requires InRange(max, s) && InRange(max, t)
    ensures s == t <==> Elements(s) == Elements(t)
  {
    if Elements(s) == Elements(t) {
      forall v: nat ensures Digit(s, v) <==> Digit(t, v) {
        assert v in Elements(s) <==> v in Elements(t);
      }
      DigitsDetermine(s, t);
    }
  }

  // ----- applicative operations -----

  function With(max: nat, state: nat, v: nat): (r: nat)
    requires InRange(max, state) && v <= max
    ensures InRange(max, r)
    ensures Elements(r) == Elements(state) + {v}
  {
    var r := BitOr(state, Bit(v));
    assert forall w: nat :: Digit(r, w) <==> w == v || Digit(state, w) by {
      forall w: nat ensures Digit(r, w) <==> w == v || Digit(state, w) {
        OrDigit(state, Bit(v), w);
        BitDigit(v, w);
      }
    }
    r
  }

  function Without(max: nat, state: nat, v: nat): (r: nat)
    requires InRange(max, state) && v <= max
    ensures InRange(max, r)
    ensures Elements(r) == Elements(state) - {v}
  {
    var r := BitAndNot(state, Bit(v));
    assert forall w: nat :: Digit(r, w) <==> w != v && Digit(state, w) by {
      forall w: nat ensures Digit(r, w) <==> w != v && Digit(state, w) {
        AndNotDigit(state, Bit(v), w);
        BitDigit(v, w);
      }
    }
    r
  }

  function All(max: nat): (r: nat)
    requires max < WORD_BITS
    ensures InRange(max, r)
    ensures forall v: nat :: v in Elements(r) <==> v <= max
  {
    var tmp := Bit(max);
    var r := BitOr(tmp, tmp - 1);
    assert forall w: nat :: Digit(r, w) <==> w <= max by {
      forall w: nat ensures Digit(r, w) <==> w <= max { MaskDigit(max, w); }
    }
    r
  }

  function Empty(max: nat): (r: nat)
    requires max < WORD_BITS
    ensures InRange(max, r) && Elements(r) == {}
  {
    assert forall w: nat :: !Digit(0, w) by {
      forall w: nat ensures !Digit(0, w) { ZeroDigit(w); }
    }
    0
  }

  ghost predicate AllWithin(max: nat, es: seq<nat>) {
    forall i | 0 <= i < |es| :: es[i] <= max
  }

  // The variadic constructor: SmallEnumSet(e, rest...) is SmallEnumSet(rest...).With(e).
  function FromList(max: nat, es: seq<nat>): (r: nat)
    requires max < WORD_BITS && AllWithin(max, es)
    ensures InRange(max, r)
    ensures Elements(r) == set e | e in es
  {
    if es == [] then Empty(max) else With(max, FromList(max, es[1..]), es[0])
  }

  // The variadic With: With(e1).With(e2, rest...).
  function WithAll(max: nat, state: nat, es: seq<nat>): (r: nat)
    requires InRange(max, state) && AllWithin(max, es)
    ensures InRange(max, r)
    ensures Elements(r) == Elements(state) + set e | e in es
    decreases es
  {
    if es == [] then state else WithAll(max, With(max, state, es[0]), es[1..])
  }

  function WithoutAll(max: nat, state: nat, es: seq<nat>): (r: nat)
    requires InRange(max, state) && AllWithin(max, es)
    ensures InRange(max, r)
    ensures Elements(r) == Elements(state) - set e | e in es
    decreases es
  {
    if es == [] then state else WithoutAll(max, Without(max, state, es[0]), es[1..])
  }

  // Construction, With and Without depend only on which enumerators are
  // listed, not on their order or repetition.
  lemma VariadicOrderIndependent(max: nat, state: nat, es: seq<nat>, fs: seq<nat>)
    requires InRange(max, state) && AllWithin(max, es) && AllWithin(max, fs)
    requires forall e :: e in es <==> e in fs
    ensures FromList(max, es) == FromList(max, fs)
    ensures WithAll(max, state, es) == WithAll(max, state, fs)
    ensures WithoutAll(max, state, es) == WithoutAll(max, state, fs)
  {
    assert (set e | e in es) == (set e | e in fs);
    EqualityIsSetEquality(max, FromList(max, es), FromList(max, fs));
    EqualityIsSetEquality(max, WithAll(max, state, es), WithAll(max, state, fs));
    EqualityIsSetEquality(max, WithoutAll(max, state, es), WithoutAll(max, state, fs));
  }

  // ----- iteration -----

  // The first element at or after `pos`, or WORD_BITS when there is none.
  function SkipUnset(max: nat, state: nat, pos: nat): (r: nat)
    requires InRange(max, state) && pos < WORD_BITS
    ensures r == WORD_BITS || (pos <= r <= max && r in Elements(state))
    ensures forall w | pos <= w < r :: w !in Elements(state)
  {
    var tmp := ShiftRight(state, pos);
    assert forall w: nat :: Digit(state, pos + w) <==> Digit(tmp, w) by {
      forall w: nat ensures Digit(state, pos + w) <==> Digit(tmp, w) { ShiftDigit(state, pos, w); }
    }
    assert forall w | w >= pos :: Digit(state, w) <==> Digit(tmp, w - pos) by {
      forall w | w >= pos ensures Digit(state, w) <==> Digit(tmp, w - pos) {
        assert Digit(state, pos + (w - pos)) <==> Digit(tmp, w - pos);
      }
    }
    if tmp == 0 then
      assert forall w: nat :: !Digit(tmp, w) by {
        forall w: nat ensures !Digit(tmp, w) { ZeroDigit(w); }
      }
      WORD_BITS
    else
      pos + CountTrailingZeroBits(tmp)
  }

  // operator++ of the iterator, on the word current at the time of the call.
  function Advance(max: nat, state: nat, pos: nat): nat
    requires InRange(max, state)
  {
    if pos < max then SkipUnset(max, state, pos + 1) else WORD_BITS
  }

  // A walk is begin() on words[0] followed by one ++ per later word. The
  // words differ arbitrarily from step to step: any Add or Remove calls may
  // come between. ++ is only called while the iterator is not at end().
  ghost predicate IsWalk(max: nat, words: seq<nat>, positions: seq<nat>) {
    && |words| == |positions| > 0
    && (forall i | 0 <= i < |words| :: InRange(max, words[i]))
    && positions[0] == SkipUnset(max, words[0], 0)
    && forall i | 0 < i < |words| :: IsStep(max, words[i], positions[i - 1], positions[i])
  }

  ghost predicate IsStep(max: nat, word: nat, from: nat, to: nat) {
    InRange(max, word) && from != WORD_BITS && to == Advance(max, word, from)
  }

  // Every visited position is, at the moment of the visit, an element of
  // the set; only the last position of a walk can be end().
  lemma {:induction false} WalkVisitsElements(max: nat, words: seq<nat>, positions: seq<nat>, i: nat)
    requires IsWalk(max, words, positions) && i < |words|
    ensures positions[i] == WORD_BITS || (positions[i] <= max && positions[i] in Elements(words[i]))
    ensures positions[i] == WORD_BITS ==> i == |words| - 1
  {
    assert InRange(max, words[i]);
    if i > 0 { assert IsStep(max, words[i], positions[i - 1], positions[i]); }
    if i + 1 < |words| { assert IsStep(max, words[i + 1], positions[i], positions[i + 1]); }
  }

  lemma {:induction false} WalkIncreases(max: nat, words: seq<nat>, positions: seq<nat>, i: nat, j: nat)
    requires IsWalk(max, words, positions)
    requires i < j < |positions|
    ensures positions[i] + (j - i) <= positions[j]
    decreases j - i
  {
    WalkVisitsElements(max, words, positions, j - 1);
    assert IsStep(max, words[j], positions[j - 1], positions[j]);
    if i < j - 1 { WalkIncreases(max, words, positions, i, j - 1); }
  }

  // At most max + 1 elements are visited before the iterator is at end().
  lemma WalkEnds(max: nat, words: seq<nat>, positions: seq<nat>)
    requires IsWalk(max, words, positions)
    ensures |positions| <= max + 2
    ensures |positions| == max + 2 ==> positions[|positions| - 1] == WORD_BITS
  {
    var last := |positions| - 1;
    WalkVisitsElements(max, words, positions, last);
    if last > 0 {
      WalkVisitsElements(max, words, positions, last - 1);
      WalkIncreases(max, words, positions, 0, last);
      if last > 1 { WalkIncreases(max, words, positions, 0, last - 1); }
    }
  }

  // An element present in the word at every step of a finished walk is
  // visited exactly once.
  lemma {:induction false} StableElementVisitedOnce(max: nat, words: seq<nat>, positions: seq<nat>, v: nat)
    requires IsWalk(max, words, positions)
    requires positions[|positions| - 1] == WORD_BITS
    requires forall i | 0 <= i < |words| :: v in Elements(words[i])
    ensures exists i :: 0 <= i < |positions| && positions[i] == v
    ensures forall i, j | 0 <= i < j < |positions| :: !(positions[i] == v == positions[j])
  {
    assert v in Elements(words[0]);
    var n := 0;
    while positions[n] < v
      invariant 0 <= n < |positions| && positions[n] <= v
      decreases |positions| - n
    {
      assert IsStep(max, words[n + 1], positions[n], positions[n + 1]);
      assert v in Elements(words[n + 1]);
      n := n + 1;
    }
    forall i, j | 0 <= i < j < |positions| ensures positions[i] != positions[j] {
      WalkIncreases(max, words, positions, i, j);
    }
  }

  // ----- the mutable set and its iterator -----

  class SmallEnumSet {
    const kMaxValue: nat
    var state: nat

    ghost predicate Valid()
      reads this
    {
      InRange(kMaxValue, state)
    }

    constructor (max: nat)
      requires max < WORD_BITS
      ensures Valid() && kMaxValue == max && Elements(state) == {}
    {
      kMaxValue := max;
      state := Empty(max);
    }

    method Add(e: nat) returns (modified: bool)
      requires Valid() && e <= kMaxValue
      modifies this
      ensures Valid()
      ensures Elements(state) == old(Elements(state)) + {e}
      ensures modified <==> e !in old(Elements(state))
    {
      var oldState := state;
      state := BitOr(state, Bit(e));
      assert state == With(kMaxValue, oldState, e);
      modified := oldState != state;
      EqualityIsSetEquality(kMaxValue, oldState, state);
    }

    method Remove(e: nat) returns (modified: bool)
      requires Valid() && e <= kMaxValue
      modifies this
      ensures Valid()
      ensures Elements(state) == old(Elements(state)) - {e}
      ensures modified <==> e in old(Elements(state))
    {
      var oldState := state;
      state := BitAndNot(state, Bit(e));
      assert state == Without(kMaxValue, oldState, e);
      modified := oldState != state;
      EqualityIsSetEquality(kMaxValue, oldState, state);
    }
  }

  class ConstIterator {
    const target: SmallEnumSet
    var pos: nat

    // begin()
    constructor (target: SmallEnumSet)
      requires target.Valid()
      ensures this.target == target
      ensures pos == SkipUnset(target.kMaxValue, target.state, 0)
    {
      this.target := target;
      pos := SkipUnset(target.kMaxValue, target.state, 0);
    }

    // operator++
    method Increment()
      requires target.Valid()
      modifies this
      ensures pos == Advance(target.kMaxValue, target.state, old(pos))
    {
      if pos < target.kMaxValue {
        pos := SkipUnset(target.kMaxValue, target.state, pos + 1);
      } else {
        pos := WORD_BITS;
      }
    }
  }
}
