/**
 * The SHA-256 implementation: machine words of 64 bits masked to 32 bits, and
 * a hasher that is fed a message in pieces.
 */
module Picosha2 {
  import opened Util
  import opened Sha256

  type word_t = bv64

  function Mask32(x: word_t): word_t { x & 0xffff_ffff }

  function Plus64(x: word_t, y: word_t): word_t { x + y }

  function Xor64(x: word_t, y: word_t, z: word_t): word_t { x ^ y ^ z }

  function Rotr64(x: word_t, n: bv8): word_t
    requires n < 32
  {
    ((x >> n) | (x << (32 - n))) & 0xffff_ffff  // mask_32bit
  }

  function Shr64(x: word_t, n: bv8): word_t
    requires n < 32
  {
    x >> n
  }

  function Ch64(x: word_t, y: word_t, z: word_t): word_t { (x & y) ^ (!x & z) }
  function Maj64(x: word_t, y: word_t, z: word_t): word_t { (x & y) ^ (x & z) ^ (y & z) }
  function Bsig0(x: word_t): word_t { Xor64(Rotr64(x, 2), Rotr64(x, 13), Rotr64(x, 22)) }
  function Bsig1(x: word_t): word_t { Xor64(Rotr64(x, 6), Rotr64(x, 11), Rotr64(x, 25)) }
  function Ssig0(x: word_t): word_t { Xor64(Rotr64(x, 7), Rotr64(x, 18), Shr64(x, 3)) }
  function Ssig1(x: word_t): word_t { Xor64(Rotr64(x, 17), Rotr64(x, 19), Shr64(x, 10)) }

  function Assemble(b0: Octet, b1: Octet, b2: Octet, b3: Octet): word_t {
    ((b0 as word_t) << 24) | ((b1 as word_t) << 16) | ((b2 as word_t) << 8) | (b3 as word_t)
  }

  /** A 32-bit word in a machine word. */
  function Widen(x: Word): word_t { x as word_t }

  function Low(x: word_t): Word { (x & 0xffff_ffff) as Word }

  lemma MaskWidens(x: word_t)
    ensures Mask32(x) == Widen(Low(x))
  {
  }

  lemma LowWidened(a: Word)
    ensures Low(Widen(a)) == a
  {
  }

  lemma LowOfSumBits(x: word_t, y: word_t, a: Word, b: Word)
    ensures a == (x & 0xffff_ffff) as Word && b == (y & 0xffff_ffff) as Word ==>
              ((x + y) & 0xffff_ffff) as Word == a + b
  {
  }

  lemma LowOfSumIs(x: word_t, y: word_t, z: word_t, a: Word, b: Word, c: Word)
    requires Low(x) == a && Low(y) == b && Low(z) == c && z == x + y
    ensures c == a + b
  {
    LowOfSumBits(x, y, a, b);
  }

  lemma LowOfRawSum(x: word_t, y: word_t)
    ensures Low(x + y) == Low(x) + Low(y)
  {
    hide Low;
    LowOfSumIs(x, y, x + y, Low(x), Low(y), Low(x + y));
  }

  /** 64-bit addition, cut to 32 bits, is 32-bit addition. */
  lemma LowOfSum(x: word_t, y: word_t)
    ensures Low(Plus64(x, y)) == Plus(Low(x), Low(y))
  {
    hide Low;
    LowOfRawSum(x, y);
  }

  lemma RotrBits(a: Word, n: bv8)
    requires n < 32
    ensures (((a as word_t) >> n) | ((a as word_t) << (32 - n))) & 0xffff_ffff == ((a >> n) | (a << (32 - n))) as word_t
  {
  }

  lemma RotrAgrees(a: Word, n: bv8)
    requires n < 32
    ensures Rotr64(Widen(a), n) == Widen(Rotr(a, n))
  {
    RotrBits(a, n);
  }

  lemma Shr3Bits(x: word_t, a: Word)
    requires x == a as word_t
    ensures x >> 3 == (a >> 3) as word_t
  {
  }

  lemma Shr3Agrees(a: Word)
    ensures Shr64(Widen(a), 3) == Widen(Shr(a, 3))
  {
    Shr3Bits(Widen(a), a);
  }

  lemma Shr10Bits(x: word_t, a: Word)
    requires x == a as word_t
    ensures x >> 10 == (a >> 10) as word_t
  {
  }

  lemma Shr10Agrees(a: Word)
    ensures Shr64(Widen(a), 10) == Widen(Shr(a, 10))
  {
    Shr10Bits(Widen(a), a);
  }

  lemma XorAgrees(a: Word, b: Word, c: Word)
    ensures Xor64(Widen(a), Widen(b), Widen(c)) == Widen(Xor3(a, b, c))
  {
  }

  lemma ChoicesAgree(a: Word, b: Word, c: Word)
    ensures Ch64(Widen(a), Widen(b), Widen(c)) == Widen(Ch(a, b, c))
    ensures Maj64(Widen(a), Widen(b), Widen(c)) == Widen(Maj(a, b, c))
  {
  }

  lemma BytesAgree(b0: Octet, b1: Octet, b2: Octet, b3: Octet)
    ensures Assemble(b0, b1, b2, b3) == Widen(BytesToWord(b0, b1, b2, b3))
  {
  }

  lemma SigmasAgree(a: Word)
    ensures Bsig0(Widen(a)) == Widen(BigSigma0(a)) && Bsig1(Widen(a)) == Widen(BigSigma1(a))
    ensures Ssig0(Widen(a)) == Widen(SmallSigma0(a)) && Ssig1(Widen(a)) == Widen(SmallSigma1(a))
  {
    hide Widen, Rotr64, Rotr, Shr64, Shr, Xor64, Xor3;
    Shr3Agrees(a); Shr10Agrees(a);
    RotrAgrees(a, 2); RotrAgrees(a, 13); RotrAgrees(a, 22);
    XorAgrees(Rotr(a, 2), Rotr(a, 13), Rotr(a, 22));
    RotrAgrees(a, 6); RotrAgrees(a, 11); RotrAgrees(a, 25);
    XorAgrees(Rotr(a, 6), Rotr(a, 11), Rotr(a, 25));
    RotrAgrees(a, 7); RotrAgrees(a, 18);
    XorAgrees(Rotr(a, 7), Rotr(a, 18), Shr(a, 3));
    RotrAgrees(a, 17); RotrAgrees(a, 19);
    XorAgrees(Rotr(a, 17), Rotr(a, 19), Shr(a, 10));
  }

  /** 64-bit sums of 32-bit words, masked, are 32-bit sums. */
  lemma MaskedSum(x: word_t, y: word_t, a: Word, b: Word)
    requires Low(x) == a && Low(y) == b
    ensures Low(Plus64(x, y)) == Plus(a, b) && Mask32(Plus64(x, y)) == Widen(Plus(a, b))
  {
    hide Low, Mask32, Plus64, Plus, Widen;
    LowOfSum(x, y);
    MaskWidens(Plus64(x, y));
  }

  // The expressions of hash256_block.

  function Scheduled64(w2: word_t, w7: word_t, w15: word_t, w16: word_t): word_t {
    Mask32(Plus64(Plus64(Plus64(Ssig1(w2), w7), Ssig0(w15)), w16))
  }

  function Temp1(e: word_t, f: word_t, g: word_t, h: word_t, k: word_t, w: word_t): word_t {
    Plus64(Plus64(Plus64(Plus64(h, Bsig1(e)), Ch64(e, f, g)), k), w)
  }

  function Temp2(a: word_t, b: word_t, c: word_t): word_t {
    Plus64(Bsig0(a), Maj64(a, b, c))
  }

  lemma ScheduledAgrees(w2: Word, w7: Word, w15: Word, w16: Word)
    ensures Scheduled64(Widen(w2), Widen(w7), Widen(w15), Widen(w16)) == Widen(Scheduled(w2, w7, w15, w16))
  {
    SigmasAgree(w2);
    SigmasAgree(w15);
    hide Low, Mask32, Plus64, Plus, Widen, Ssig0, Ssig1, SmallSigma0, SmallSigma1;
    LowWidened(SmallSigma1(w2)); LowWidened(w7); LowWidened(SmallSigma0(w15)); LowWidened(w16);
    var sum1 := Plus64(Widen(SmallSigma1(w2)), Widen(w7));
    MaskedSum(Widen(SmallSigma1(w2)), Widen(w7), SmallSigma1(w2), w7);
    var sum2 := Plus64(sum1, Widen(SmallSigma0(w15)));
    MaskedSum(sum1, Widen(SmallSigma0(w15)), Plus(SmallSigma1(w2), w7), SmallSigma0(w15));
    MaskedSum(sum2, Widen(w16), Plus(Plus(SmallSigma1(w2), w7), SmallSigma0(w15)), w16);
  }

  lemma Temp1Agrees(s: State, k: Word, w: Word)
    ensures Low(Temp1(Widen(s.e), Widen(s.f), Widen(s.g), Widen(s.h), Widen(k), Widen(w))) == T1(s, k, w)
  {
    SigmasAgree(s.e);
    ChoicesAgree(s.e, s.f, s.g);
    hide Low, Mask32, Plus64, Plus, Widen, Bsig1, BigSigma1, Ch64, Ch;
    var sigma, choice := BigSigma1(s.e), Ch(s.e, s.f, s.g);
    LowWidened(s.h); LowWidened(sigma); LowWidened(choice); LowWidened(k); LowWidened(w);
    var sum1 := Plus64(Widen(s.h), Widen(sigma));
    MaskedSum(Widen(s.h), Widen(sigma), s.h, sigma);
    var sum2 := Plus64(sum1, Widen(choice));
    MaskedSum(sum1, Widen(choice), Plus(s.h, sigma), choice);
    var sum3 := Plus64(sum2, Widen(k));
    MaskedSum(sum2, Widen(k), Plus(Plus(s.h, sigma), choice), k);
    MaskedSum(sum3, Widen(w), Plus(Plus(Plus(s.h, sigma), choice), k), w);
  }

  lemma Temp2Agrees(s: State)
    ensures Low(Temp2(Widen(s.a), Widen(s.b), Widen(s.c))) == T2(s)
  {
    SigmasAgree(s.a);
    ChoicesAgree(s.a, s.b, s.c);
    hide Low, Mask32, Plus64, Plus, Widen, Bsig0, BigSigma0, Maj64, Maj;
    LowWidened(BigSigma0(s.a)); LowWidened(Maj(s.a, s.b, s.c));
    MaskedSum(Widen(BigSigma0(s.a)), Widen(Maj(s.a, s.b, s.c)), BigSigma0(s.a), Maj(s.a, s.b, s.c));
  }

  /** The words of `h`, and their 32-bit values. */
  ghost predicate Holds(h: seq<word_t>, s: State) {
    |h| == 8 && AreWords(h[0], h[1], h[2], h[3], h[4], h[5], h[6], h[7], s)
  }

  ghost predicate AreWords(a: word_t, b: word_t, c: word_t, d: word_t, e: word_t, f: word_t, g: word_t, h: word_t,
                           s: State) {
    && a == Widen(s.a) && b == Widen(s.b) && c == Widen(s.c) && d == Widen(s.d)
    && e == Widen(s.e) && f == Widen(s.f) && g == Widen(s.g) && h == Widen(s.h)
  }

  method MessageSchedule(block: Block) returns (w: array<word_t>)
    ensures fresh(w) && w.Length == 64
    ensures forall t :: 0 <= t < 64 ==> w[t] == Widen(W(block, t))
  {
    hide Widen, Scheduled64, Scheduled, Assemble, BytesToWord;
    w := new word_t[64](_ => 0);
    for i := 0 to 16
      invariant forall t :: 0 <= t < i ==> w[t] == Widen(W(block, t))
    {
      w[i] := Assemble(block[4 * i], block[4 * i + 1], block[4 * i + 2], block[4 * i + 3]);
      BytesAgree(block[4 * i], block[4 * i + 1], block[4 * i + 2], block[4 * i + 3]);
    }
    for i := 16 to 64
      invariant forall t :: 0 <= t < i ==> w[t] == Widen(W(block, t))
    {
      w[i] := Scheduled64(w[i - 2], w[i - 7], w[i - 15], w[i - 16]);
      ScheduledAgrees(W(block, i - 2), W(block, i - 7), W(block, i - 15), W(block, i - 16));
    }
  }

  /** One round: the new values of the first and the fifth working variable. */
  lemma RoundAgrees(s: State, k: Word, w: Word)
    ensures var temp1 := Temp1(Widen(s.e), Widen(s.f), Widen(s.g), Widen(s.h), Widen(k), Widen(w));
            && Mask32(Plus64(temp1, Temp2(Widen(s.a), Widen(s.b), Widen(s.c)))) == Widen(Round(s, k, w).a)
            && Mask32(Plus64(Widen(s.d), temp1)) == Widen(Round(s, k, w).e)
  {
    hide Widen, Mask32, Plus64, Plus, Temp1, Temp2, T1, T2, Low;
    var temp1 := Temp1(Widen(s.e), Widen(s.f), Widen(s.g), Widen(s.h), Widen(k), Widen(w));
    var temp2 := Temp2(Widen(s.a), Widen(s.b), Widen(s.c));
    Temp1Agrees(s, k, w);
    Temp2Agrees(s);
    MaskedSum(temp1, temp2, T1(s, k, w), T2(s));
    LowWidened(s.d);
    MaskedSum(Widen(s.d), temp1, s.d, T1(s, k, w));
  }

  /** hash256_block computes the next hash value of section 6.2.2, on 64-bit words. */
  method Hash256Block(message_digest: array<word_t>, block: Block, ghost s: State)
    requires Holds(message_digest[..], s)
    modifies message_digest
    ensures Holds(message_digest[..], Compress(s, block))
  {
    hide Widen, Mask32, Plus64, Plus, Temp1, Temp2, T1, T2, Low, W;
    var w := MessageSchedule(block);
    var a, b, c, d := message_digest[0], message_digest[1], message_digest[2], message_digest[3];
    var e, f, g, h := message_digest[4], message_digest[5], message_digest[6], message_digest[7];
    for i := 0 to 64
      invariant AreWords(a, b, c, d, e, f, g, h, Rounds(s, block, i)) && Holds(message_digest[..], s)
      invariant forall t :: 0 <= t < 64 ==> w[t] == Widen(W(block, t))
    {
      ghost var r := Rounds(s, block, i);
      ghost var next := Round(r, K[i], W(block, i));
      RoundAgrees(r, K[i], W(block, i));
      assert Rounds(s, block, i + 1) == next;
      var temp1 := Temp1(e, f, g, h, Widen(K[i]), w[i]);
      var temp2 := Temp2(a, b, c);
      h := g;
      g := f;
      f := e;
      e := Mask32(Plus64(d, temp1));
      d := c;
      c := b;
      b := a;
      a := Mask32(Plus64(temp1, temp2));
    }
    AddAndMask(message_digest, a, b, c, d, e, f, g, h, s, Rounds(s, block, 64));
  }

  method AddAndMask(digest: array<word_t>, a: word_t, b: word_t, c: word_t, d: word_t,
                    e: word_t, f: word_t, g: word_t, h: word_t, ghost s: State, ghost r: State)
    requires Holds(digest[..], s) && AreWords(a, b, c, d, e, f, g, h, r)
    modifies digest
    ensures Holds(digest[..], Sum(s, r))
  {
    hide Widen, Mask32, Plus64, Plus, Low;
    SumAgrees(s.a, r.a); SumAgrees(s.b, r.b); SumAgrees(s.c, r.c); SumAgrees(s.d, r.d);
    SumAgrees(s.e, r.e); SumAgrees(s.f, r.f); SumAgrees(s.g, r.g); SumAgrees(s.h, r.h);
    digest[0] := Plus64(digest[0], a);
    digest[1] := Plus64(digest[1], b);
    digest[2] := Plus64(digest[2], c);
    digest[3] := Plus64(digest[3], d);
    digest[4] := Plus64(digest[4], e);
    digest[5] := Plus64(digest[5], f);
    digest[6] := Plus64(digest[6], g);
    digest[7] := Plus64(digest[7], h);
    ghost var sums := digest[..];
    for i := 0 to 8
      invariant forall j :: 0 <= j < i ==> digest[j] == Mask32(sums[j])
      invariant forall j :: i <= j < 8 ==> digest[j] == sums[j]
    {
      digest[i] := Mask32(digest[i]);
    }
  }

  lemma SumAgrees(x: Word, y: Word)
    ensures Mask32(Plus64(Widen(x), Widen(y))) == Widen(Plus(x, y))
  {
    hide Widen, Mask32, Plus64, Plus, Low;
    LowWidened(x);
    LowWidened(y);
    MaskedSum(Widen(x), Widen(y), x, y);
  }

  // ------------------------------------------------- the length, in four digits

  const WRAP: nat := 0x1_0000_0000_0000_0000

  function Weight(i: nat): nat
    requires i <= 4
  {
    match i
    case 0 => 1
    case 1 => 0x1_0000
    case 2 => 0x1_0000_0000
    case 3 => 0x1_0000_0000_0000
    case 4 => WRAP
  }

  function DigitsValue(d: seq<nat>): nat
    requires |d| == 4
  {
    d[0] + d[1] * Weight(1) + d[2] * Weight(2) + d[3] * Weight(3)
  }

  predicate AreDigits(d: seq<nat>) {
    |d| == 4 && forall i :: 0 <= i < 4 ==> d[i] < 0x1_0000
  }

  lemma DigitReplaced(d: seq<nat>, i: nat, v: nat)
    requires |d| == 4 && i < 4
    ensures DigitsValue(d[i := v]) == DigitsValue(d) - d[i] * Weight(i) + v * Weight(i)
  {
  }

  lemma DigitCarried(i: nat, v: nat)
    requires i < 4
    ensures v % 0x1_0000 * Weight(i) + v / 0x1_0000 * Weight(i + 1) == v * Weight(i)
  {
    assert v == v % 0x1_0000 + v / 0x1_0000 * 0x1_0000;
    assert Weight(i + 1) == 0x1_0000 * Weight(i);
  }

  /** One digit takes in a carry, and passes on its own. */
  lemma CarryStep(d: seq<nat>, i: nat, carry: nat)
    requires |d| == 4 && i < 4
    ensures var v := d[i] + carry;
            DigitsValue(d[i := v % 0x1_0000]) + v / 0x1_0000 * Weight(i + 1) == DigitsValue(d) + carry * Weight(i)
  {
    var v := d[i] + carry;
    DigitCarried(i, v);
    DigitReplaced(d, i, v % 0x1_0000);
    assert v * Weight(i) == d[i] * Weight(i) + carry * Weight(i);
  }

  lemma DigitsBound(d: seq<nat>)
    requires AreDigits(d)
    ensures DigitsValue(d) < WRAP
  {
  }

  /** Adds to the number of bytes; the last carry is dropped. */
  method AddToDataLength(digits: array<nat>, n: nat)
    requires digits.Length == 4 && AreDigits(digits[..]) && n < WRAP - 0x1_0000
    modifies digits
    ensures AreDigits(digits[..])
    ensures DigitsValue(digits[..]) == (DigitsValue(old(digits[..])) + n) % WRAP
  {
    hide DigitsValue, Weight;
    ghost var total := DigitsValue(digits[..]) + n;
    DigitReplaced(digits[..], 0, digits[0] + n);
    FirstWeight(digits[0], n);
    var carry: nat := 0;
    ghost var was, dropped := digits[..], 0;
    digits[0] := (digits[0] + n) % WRAP;
    assert digits[..] == was[0 := was[0] + n];
    var i := 0;
    while i < 4
      invariant 0 <= i <= 4 && carry < 0x1_0000_0000_0000 && dropped == (if i == 4 then carry else 0)
      invariant i == 0 ==> carry == 0
      invariant digits[0] < WRAP && forall j :: 0 <= j < 4 && (j == 0 ==> i > 0) ==> digits[j] < 0x1_0000
      invariant DigitsValue(digits[..]) + carry * Weight(i) == total
    {
      CarryStep(digits[..], i, carry);
      was := digits[..];
      ghost var v := was[i] + carry;
      digits[i] := digits[i] + carry;
      if digits[i] >= 0x1_0000 {
        carry := digits[i] / 0x1_0000;
        digits[i] := digits[i] % 0x1_0000;
        assert digits[..] == was[i := v % 0x1_0000];
      } else {
        assert digits[..] == was[i := v] && v == v % 0x1_0000 && v / 0x1_0000 == 0;
        break;
      }
      i := i + 1;
      dropped := if i == 4 then carry else 0;
    }
    LastWeight();
    DigitsBound(digits[..]);
    Wrapped(DigitsValue(digits[..]), dropped, total);
  }

  lemma LastWeight()
    ensures Weight(4) == WRAP
  {
  }

  lemma FirstWeight(x: nat, n: nat)
    ensures (x + n) * Weight(0) == x * Weight(0) + n
  {
  }

  lemma Wrapped(value: nat, carry: nat, total: nat)
    requires value < WRAP && value + carry * WRAP == total
    ensures value == total % WRAP
  {
  }

  /** The value of the first `i` digits. */
  function PartialValue(d: seq<nat>, i: nat): nat
    requires i <= 4 && |d| == 4
  {
    if i == 0 then 0 else PartialValue(d, i - 1) + d[i - 1] * Weight(i - 1)
  }

  /** The value of the digits from `i` on, in units of digit `i`. */
  function TopValue(d: seq<nat>, i: nat): nat
    requires i <= 4 && |d| == 4
    decreases 4 - i
  {
    if i == 4 then 0 else d[i] + 0x1_0000 * TopValue(d, i + 1)
  }

  lemma TopValueStep(d: seq<nat>, i: nat)
    requires i < 4 && |d| == 4
    ensures TopValue(d, i) == d[i] + 0x1_0000 * TopValue(d, i + 1)
    ensures TopValue(d, 4) == 0
  {
  }

  lemma ValuesAgree(d: seq<nat>)
    requires |d| == 4
    ensures PartialValue(d, 4) == DigitsValue(d) == TopValue(d, 0)
  {
    assert PartialValue(d, 1) == d[0] * Weight(0);
    assert PartialValue(d, 2) == d[0] + d[1] * Weight(1);
    assert PartialValue(d, 3) == PartialValue(d, 2) + d[2] * Weight(2);
    assert TopValue(d, 2) == d[2] + 0x1_0000 * d[3];
  }

  lemma {:induction false} PartialValueDepends(d: seq<nat>, e: seq<nat>, i: nat)
    requires i <= 4 && |d| == |e| == 4 && d[..i] == e[..i]
    ensures PartialValue(d, i) == PartialValue(e, i)
  {
    if i > 0 {
      assert d[..i][..i - 1] == d[..i - 1] && e[..i][..i - 1] == e[..i - 1];
      assert d[..i][i - 1] == e[..i][i - 1];
      PartialValueDepends(d, e, i - 1);
    }
  }

  /** What a digit loses to the left is carried. */
  lemma ShiftedDigit(i: nat, before: nat, carry: nat)
    requires i < 4 && before < 0x1_0000 && carry < 8
    ensures (before * 8 + carry) % 0x1_0000 * Weight(i) + before / 0x2000 * Weight(i + 1)
            == 8 * (before * Weight(i)) + carry * Weight(i)
    ensures before / 0x2000 < 8
  {
    var digit, out := (before * 8 + carry) % 0x1_0000, before / 0x2000;
    assert digit + out * 0x1_0000 == before * 8 + carry;
    assert Weight(i + 1) == 0x1_0000 * Weight(i);
  }

  function HighByte(digit: nat): Octet
    requires digit < 0x1_0000
  {
    (digit / 256) as Octet
  }

  function LowByte(digit: nat): Octet
    requires digit < 0x1_0000
  {
    (digit % 256) as Octet
  }

  lemma BigEndianStep(x: nat, n: nat)
    ensures BigEndian(x, n + 1) == BigEndian(x / 256, n) + [(x % 256) as Octet]
  {
  }

  lemma BigEndianDigit(digit: nat, rest: nat, n: nat)
    requires digit < 0x1_0000
    ensures BigEndian(digit + 0x1_0000 * rest, n + 2) == BigEndian(rest, n) + [HighByte(digit), LowByte(digit)]
  {
    hide BigEndian;
    var x := digit + 0x1_0000 * rest;
    BigEndianStep(x, n + 1);
    BigEndianStep(x / 256, n);
    assert x % 256 == digit % 256 && x / 256 == digit / 256 + 256 * rest;
    var y := x / 256;
    assert y % 256 == digit / 256 && y / 256 == rest;
  }

  lemma NoDigits(d: seq<nat>, e: seq<nat>)
    requires |d| == |e| == 4
    ensures PartialValue(e, 0) + 0 * Weight(0) == 8 * PartialValue(d, 0)
  {
  }

  /** One digit is shifted, the digits below it have been. */
  lemma ShiftStep(was: seq<nat>, d: seq<nat>, i: nat, carry: nat)
    requires |was| == |d| == 4 && i < 4 && was[i] == d[i] < 0x1_0000 && carry < 8
    requires PartialValue(was, i) + carry * Weight(i) == 8 * PartialValue(d, i)
    ensures var now := was[i := (d[i] * 8 + carry) % 0x1_0000];
            PartialValue(now, i + 1) + d[i] / 0x2000 * Weight(i + 1) == 8 * PartialValue(d, i + 1)
    ensures d[i] / 0x2000 < 8
  {
    var now := was[i := (d[i] * 8 + carry) % 0x1_0000];
    ShiftedDigit(i, d[i], carry);
    PartialValueDepends(was, now, i);
    PartialStep(now, i);
    PartialStep(d, i);
    hide PartialValue, Weight;
  }

  lemma PartialStep(d: seq<nat>, i: nat)
    requires i < 4 && |d| == 4
    ensures PartialValue(d, i + 1) == PartialValue(d, i) + d[i] * Weight(i)
  {
  }

  /** From bytes to bits: the digits shifted left by three. */
  method ShiftDigits(digits: array<nat>) returns (bits: array<nat>)
    requires digits.Length == 4 && AreDigits(digits[..]) && DigitsValue(digits[..]) < WRAP / 8
    ensures fresh(bits) && bits.Length == 4 && AreDigits(bits[..])
    ensures DigitsValue(bits[..]) == 8 * DigitsValue(digits[..])
  {
    hide Weight, DigitsValue, PartialValue;
    bits := new nat[4](i requires 0 <= i < 4 reads digits => digits[i]);
    var carry: nat := 0;
    ghost var d := digits[..];
    NoDigits(d, bits[..]);
    for i := 0 to 4
      invariant digits[..] == d && bits[i..] == d[i..]
      invariant forall j :: 0 <= j < i ==> bits[j] < 0x1_0000
      invariant carry < 8
      invariant PartialValue(bits[..], i) + carry * Weight(i) == 8 * PartialValue(d, i)
    {
      ghost var was := bits[..];
      var before := bits[i];
      assert before == was[i] == was[i..][0] == d[i..][0] == d[i];
      ShiftStep(was, d, i, carry);
      bits[i] := (before * 8 + carry) % 0x1_0000;  // the three low bits of the shifted digit are free for the carry
      carry := before / 0x2000;
      assert bits[..] == was[i := bits[i]];
    }
    ValuesAgree(bits[..]);
    ValuesAgree(d);
    LastWeight();
    DigitsBound(bits[..]);
  }

  /** Eight times the number of bytes, as eight bytes. */
  method WriteDataBitLength(digits: array<nat>) returns (bytes: seq<Octet>)
    requires digits.Length == 4 && AreDigits(digits[..]) && DigitsValue(digits[..]) < WRAP / 8
    ensures bytes == BigEndian(8 * DigitsValue(digits[..]), 8)
  {
    hide DigitsValue, TopValue, BigEndian, HighByte, LowByte;
    var bits := ShiftDigits(digits);
    bytes := [];
    ghost var all := bits[..];
    ValuesAgree(all);
    TopValueStep(all, 0);
    for i := 4 downto 0
      invariant bits[..] == all && bytes == BigEndian(TopValue(all, i), 8 - 2 * i)
    {
      TopValueStep(all, i);
      BigEndianDigit(all[i], TopValue(all, i + 1), 8 - 2 * (i + 1));
      bytes := bytes + [HighByte(bits[i]), LowByte(bits[i])];
    }
  }

  // ---------------------------------------------------------------- the hasher

  /** The part of a message of `n` bytes that fills blocks. */
  function Whole(n: nat): (w: nat)
    ensures w <= n && w % 64 == 0 && n - w < 64
  {
    n - n % 64
  }

  /** What follows the whole blocks of a message of which `rest` is left over, after padding. */
  ghost function PaddedRest(rest: seq<Octet>, length: nat): seq<Octet> {
    rest + [0x80] + Zeros(PaddingZeros(length)) + BigEndian(8 * length, 8)
  }

  ghost function Absorbed(message: seq<Octet>): State {
    Fold(INITIAL_STATE, message[..Whole(|message|)])
  }

  /** The left-over bytes and a piece of a message, cut into blocks up to `i`. */
  lemma MoreAbsorbed(message: seq<Octet>, buffer: seq<Octet>, i: nat)
    requires i % 64 == 0 && i + 64 <= |buffer| && |message| % 64 == 0
    ensures var before := Fold(INITIAL_STATE, message + buffer[..i]);
            Compress(before, buffer[i..i + 64]) == Fold(INITIAL_STATE, message + buffer[..i + 64])
  {
    hide Compress, Fold;
    var block := buffer[i..i + 64];
    FoldAppend(INITIAL_STATE, message + buffer[..i], block);
    FoldOne(Fold(INITIAL_STATE, message + buffer[..i]), block);
    assert message + buffer[..i] + block == message + buffer[..i + 64];
  }

  lemma AbsorbedSoFar(message: seq<Octet>)
    ensures Absorbed(message) == Fold(INITIAL_STATE, message[..Whole(|message|)])
  {
  }

  lemma AllAbsorbed(message: seq<Octet>, data: seq<Octet>, buffer: seq<Octet>, i: nat)
    requires buffer == message[Whole(|message|)..] + data && i % 64 == 0 && i <= |buffer| < i + 64
    ensures message[..Whole(|message|)] + buffer[..i] == (message + data)[..Whole(|message + data|)]
    ensures buffer[i..] == (message + data)[Whole(|message + data|)..]
    ensures Absorbed(message + data) == Fold(INITIAL_STATE, message[..Whole(|message|)] + buffer[..i])
  {
    hide Fold;
    var w := Whole(|message|);
    assert message + data == message[..w] + buffer;
    assert Whole(|message + data|) == w + i;
  }

  /** The last one or two blocks. */
  lemma PaddingFits(message: seq<Octet>, first: Block, last: Block)
    requires var rest, length := message[Whole(|message|)..], |message|;
             if |rest| > 55
             then first == rest + [0x80] + Zeros(63 - |rest|) && last == Zeros(56) + BigEndian(8 * length, 8)
             else last == rest + [0x80] + Zeros(55 - |rest|) + BigEndian(8 * length, 8)
    ensures Fold(INITIAL_STATE, Padded(message))
         == Compress(if |message| - Whole(|message|) > 55
                     then Compress(Absorbed(message), first)
                     else Absorbed(message),
                     last)
  {
    hide Compress, BigEndian;
    var w := Whole(|message|);
    var rest, whole := message[w..], message[..w];
    var tail := PaddedRest(rest, |message|);
    assert message == whole + rest;
    assert Padded(message) == whole + tail;
    if |rest| > 55 {
      assert PaddingZeros(|message|) == 119 - |rest|;
      assert Zeros(119 - |rest|) == Zeros(63 - |rest|) + Zeros(56);
      assert tail == first + last;
      FoldAppend(INITIAL_STATE, whole, tail);
      FoldStep(Absorbed(message), first, last);
      FoldOne(Compress(Absorbed(message), first), last);
    } else {
      assert PaddingZeros(|message|) == 55 - |rest|;
      assert tail == last;
      FoldAppend(INITIAL_STATE, whole, tail);
      FoldOne(Absorbed(message), last);
    }
  }

  lemma LengthIsExact(n: nat)
    requires n < WRAP / 8
    ensures n % WRAP == n
  {
  }

  class Hash256OneByOne {
    var buffer: seq<Octet>
    const dataLengthDigits: array<nat>
    const h: array<word_t>
    ghost var message: seq<Octet>  // everything processed since the start

    constructor ()
      ensures Valid() && message == [] && fresh(h) && fresh(dataLengthDigits)
    {
      buffer, message := [], [];
      dataLengthDigits := new nat[4](_ => 0);
      h := new word_t[8](i requires 0 <= i < 8 => Widen(INITIAL[i]));
      new;
      hide Widen;
    }

    ghost predicate Valid()
      reads this, h, dataLengthDigits
    {
      && h.Length == 8 && dataLengthDigits.Length == 4
      && AreDigits(dataLengthDigits[..]) && DigitsValue(dataLengthDigits[..]) == |message| % WRAP
      && buffer == message[Whole(|message|)..]
      && Holds(h[..], Absorbed(message))
    }

    method Process(data: seq<Octet>)
      requires Valid() && |data| < WRAP - 0x1_0000
      modifies this, h, dataLengthDigits
      ensures Valid() && message == old(message) + data
    {
      hide Compress, Fold, DigitsValue, Widen, Holds, AreDigits, Absorbed;
      AddToDataLength(dataLengthDigits, |data|);
      LengthsAdd(|message|, |data|);
      AbsorbedSoFar(message);
      ghost var was := message;
      buffer := buffer + data;
      var i := ProcessBlocks(message[..Whole(|message|)]);
      AllAbsorbed(was, data, buffer, i);
      buffer := buffer[i..];
      message := message + data;
    }

    /** The loop of process: hashes all blocks in the buffer. */
    method ProcessBlocks(ghost whole: seq<Octet>) returns (i: nat)
      requires |whole| % 64 == 0 && h.Length == 8 && Holds(h[..], Fold(INITIAL_STATE, whole))
      modifies h
      ensures i % 64 == 0 && i <= |buffer| < i + 64
      ensures Holds(h[..], Fold(INITIAL_STATE, whole + buffer[..i]))
    {
      hide Compress, Fold, Widen, Holds;
      i := 0;
      assert whole + buffer[..0] == whole;
      while i + 64 <= |buffer|
        invariant i % 64 == 0 && i <= |buffer| && Holds(h[..], Fold(INITIAL_STATE, whole + buffer[..i]))
      {
        MoreAbsorbed(whole, buffer, i);
        Hash256Block(h, buffer[i..i + 64], Fold(INITIAL_STATE, whole + buffer[..i]));
        i := i + 64;
      }
    }

    /** Pads and hashes what is left; the hasher has to be initialised before it is used again. */
    method Finish()
      requires Valid() && |message| < WRAP / 8
      modifies h
      ensures h.Length == 8 && Holds(h[..], Fold(INITIAL_STATE, Padded(message)))
    {
      hide Compress, Fold, DigitsValue, Widen, BigEndian, Absorbed, Padded, Holds, AreDigits, Whole;
      LengthIsExact(|message|);
      var temp := new Octet[64](_ => 0);
      ghost var first := PadBlock(temp);
      ghost var front, remains := temp[..56], |buffer|;
      var length := WriteDataBitLength(dataLengthDigits);
      Copy(length, temp, 56);
      assert temp[..] == front + length;
      PaddingFits(message, first, temp[..]);
      Hash256Block(h, temp[..], if remains > 55 then Compress(Absorbed(message), first) else Absorbed(message));
    }

    /** Puts what is left and the padding into a block; hashes the block first if the length does not fit behind. */
    method PadBlock(temp: array<Octet>) returns (ghost first: seq<Octet>)
      requires Valid() && temp.Length == 64
      modifies h, temp
      ensures var remains, started := |buffer|, buffer + [0x80];
              && |first| == 64 && (remains > 55 ==> first == started + Zeros(63 - remains))
              && temp[..56] == (if remains > 55 then Zeros(56) else started + Zeros(55 - remains))
              && h.Length == 8
              && Holds(h[..], if remains > 55 then Compress(Absorbed(message), first) else Absorbed(message))
    {
      hide Compress, Fold, DigitsValue, Widen, BigEndian, Absorbed, Padded, Holds, AreDigits, Whole;
      var remains := |buffer|;
      Copy(buffer, temp, 0);
      temp[remains] := 0x80;
      ghost var started := buffer + [0x80];
      assert temp[..remains + 1] == started;
      first := temp[..];
      if remains > 55 {
        FillWithZeros(temp, remains + 1, 64);
        first := temp[..];
        assert first == started + Zeros(63 - remains);
        Hash256Block(h, temp[..], Absorbed(message));
        FillWithZeros(temp, 0, 60);
      } else {
        FillWithZeros(temp, remains + 1, 60);
      }
    }
  }

  /** The low byte of a shifted word. */
  function ShiftedByte(x: word_t, n: bv8): Octet
    requires n < 32
  {
    ((x >> n) & 0xff) as Octet
  }

  lemma Byte24Bits(x: word_t, a: Word)
    requires x == a as word_t
    ensures ((x >> 24) & 0xff) as Octet == ((a >> 24) & 0xff) as Octet
  {
  }

  lemma Byte24Agrees(a: Word)
    ensures ShiftedByte(Widen(a), 24) == WordByte(a, 24)
  {
    Byte24Bits(Widen(a), a);
  }

  lemma Byte16Bits(x: word_t, a: Word)
    requires x == a as word_t
    ensures ((x >> 16) & 0xff) as Octet == ((a >> 16) & 0xff) as Octet
  {
  }

  lemma Byte16Agrees(a: Word)
    ensures ShiftedByte(Widen(a), 16) == WordByte(a, 16)
  {
    Byte16Bits(Widen(a), a);
  }

  lemma Byte8Bits(x: word_t, a: Word)
    requires x == a as word_t
    ensures ((x >> 8) & 0xff) as Octet == ((a >> 8) & 0xff) as Octet
  {
  }

  lemma Byte8Agrees(a: Word)
    ensures ShiftedByte(Widen(a), 8) == WordByte(a, 8)
  {
    Byte8Bits(Widen(a), a);
  }

  lemma Byte0Bits(x: word_t, a: Word)
    requires x == a as word_t
    ensures ((x >> 0) & 0xff) as Octet == ((a >> 0) & 0xff) as Octet
  {
  }

  lemma Byte0Agrees(a: Word)
    ensures ShiftedByte(Widen(a), 0) == WordByte(a, 0)
  {
    Byte0Bits(Widen(a), a);
  }

  /** Byte `i` of a word, most significant first. */
  function ByteOfWord(x: word_t, i: nat): Octet
    requires i < 4
  {
    match i
    case 0 => ShiftedByte(x, 24)
    case 1 => ShiftedByte(x, 16)
    case 2 => ShiftedByte(x, 8)
    case 3 => ShiftedByte(x, 0)
  }

  lemma BytesOfWordAgree(a: Word, i: nat)
    requires i < 4
    ensures ByteOfWord(Widen(a), i) == WordBytes(a)[i]
  {
    hide ShiftedByte, WordByte, Widen;
    Byte24Agrees(a);
    Byte16Agrees(a);
    Byte8Agrees(a);
    Byte0Agrees(a);
  }

  function StateWord(s: State, j: nat): Word
    requires j < 8
  {
    match j
    case 0 => s.a case 1 => s.b case 2 => s.c case 3 => s.d
    case 4 => s.e case 5 => s.f case 6 => s.g case 7 => s.h
  }

  lemma HoldsAt(h: seq<word_t>, s: State, j: nat)
    requires Holds(h, s) && j < 8
    ensures h[j] == Widen(StateWord(s, j))
  {
    hide Widen;
  }

  lemma StateBytesAt(s: State, j: nat, i: nat)
    requires j < 8 && i < 4
    ensures StateBytes(s)[4 * j + i] == WordBytes(StateWord(s, j))[i]
  {
    hide WordBytes;
  }

  /** Writes at most `count` bytes of a digest. */
  method GetHashBytes(h: array<word_t>, count: nat, ghost s: State) returns (bytes: seq<Octet>)
    requires h.Length == 8 && Holds(h[..], s)
    ensures bytes == StateBytes(s)[..if count < 32 then count else 32]
  {
    hide StateBytes, WordBytes, ByteOfWord, Widen, Holds, StateWord;
    bytes := [];
    for j := 0 to 8
      invariant bytes == StateBytes(s)[..if count < 4 * j then count else 4 * j]
    {
      var i := 0;
      while i < 4 && |bytes| < count
        invariant 0 <= i <= 4 && bytes == StateBytes(s)[..if count < 4 * j + i then count else 4 * j + i]
      {
        StateBytesAt(s, j, i);
        HoldsAt(h[..], s, j);
        BytesOfWordAgree(StateWord(s, j), i);
        bytes := bytes + [ByteOfWord(h[j], i)];
        i := i + 1;
      }
    }
  }

  lemma {:induction false} FlattenPrefix(pieces: seq<seq<Octet>>, i: nat)
    requires i <= |pieces|
    ensures |Flatten(pieces[..i])| <= |Flatten(pieces)|
  {
    if i > 0 {
      assert pieces[..i][1..] == pieces[1..][..i - 1];
      FlattenPrefix(pieces[1..], i - 1);
    }
  }

  /** A message fed to a hasher in any pieces hashes to the digest of the whole message. */
  method Hash256(pieces: seq<seq<Octet>>) returns (digest: seq<Octet>)
    requires |Flatten(pieces)| < WRAP / 8
    ensures digest == Digest(Flatten(pieces))
  {
    hide Compress, Fold, Holds, Padded, StateBytes;
    var hasher := new Hash256OneByOne();
    for i := 0 to |pieces|
      invariant hasher.Valid() && hasher.message == Flatten(pieces[..i])
      invariant fresh(hasher) && fresh(hasher.h) && fresh(hasher.dataLengthDigits)
    {
      assert pieces[..i + 1] == pieces[..i] + [pieces[i]];
      FlattenSnoc(pieces[..i], pieces[i]);
      FlattenPrefix(pieces, i + 1);
      hasher.Process(pieces[i]);
    }
    assert pieces[..|pieces|] == pieces;
    hasher.Finish();
    digest := GetHashBytes(hasher.h, 32, Fold(INITIAL_STATE, Padded(hasher.message)));
  }

  /** std::copy */
  method Copy(data: seq<Octet>, to: array<Octet>, at: nat)
    requires at + |data| <= to.Length
    modifies to
    ensures to[..] == old(to[..at]) + data + old(to[at + |data|..])
  {
    forall i | 0 <= i < |data| {
      to[at + i] := data[i];
    }
  }

  /** std::fill */
  method FillWithZeros(a: array<Octet>, from: nat, to: nat)
    requires from <= to <= a.Length
    modifies a
    ensures a[..] == old(a[..from]) + Zeros(to - from) + old(a[to..])
  {
    forall i | from <= i < to {
      a[i] := 0;
    }
  }

  lemma LengthsAdd(m: nat, n: nat)
    ensures (m % WRAP + n) % WRAP == (m + n) % WRAP
  {
  }
}
