/** The checker's bitsets: 64 members to a word, `Set` and `Clear` in place,
    and the readers that the cache hashes and compares with. */
module Bitset {

  // Word operations by name, so that proofs about positions need not look into words.

  function And(a: bv64, b: bv64): bv64 { a & b }
  function Or(a: bv64, b: bv64): bv64 { a | b }
  function AndNot(a: bv64, b: bv64): bv64 { a & !b }
  function Plus(a: bv64, b: bv64): bv64 { a + b }
  function Xor(a: bv64, b: bv64): bv64 { a ^ b }
  function Twice(a: bv64): bv64 { a << 1 }
  function Half(a: bv64): bv64 { a >> 1 }
  function ByteUp(a: bv64): bv64 { a << 8 }
  function ByteDown(a: bv64): bv64 { a >> 8 }

  /** `1 << i`. */
  function Mask(i: nat): bv64
    requires i < 64
  {
    if i == 0 then 1 else Twice(Mask(i - 1))
  }

  predicate Bit(w: bv64, i: nat)
    requires i < 64
  {
    And(w, Mask(i)) != 0
  }

  predicate Get(words: seq<bv64>, pos: nat)
    requires pos < 64 * |words|
  {
    Bit(words[pos / 64], pos % 64)
  }

  /** The finite set a bitset stands for. */
  ghost function Members(words: seq<bv64>): set<nat> {
    set p | 0 <= p < 64 * |words| && Get(words, p)
  }

  // ----- in place operations

  method NewBitset(bits: nat) returns (b: array<bv64>)
    ensures fresh(b)
    ensures bits <= 64 * b.Length < bits + 64
    ensures Members(b[..]) == {}
  {
    hide Bit;
    var extra := if bits % 64 != 0 then 1 else 0;
    b := new bv64[bits / 64 + extra](_ => 0);
    forall p | 0 <= p < 64 * |b[..]|
      ensures !Get(b[..], p)
    {
      assert b[..][p / 64] == 0;
      ZeroHasNoBit(p % 64);
    }
  }

  method Clone(b: array<bv64>) returns (c: array<bv64>)
    ensures fresh(c)
    ensures c[..] == b[..]
  {
    c := new bv64[b.Length](i requires 0 <= i < b.Length reads b => b[i]);
  }

  method Set(b: array<bv64>, pos: nat)
    requires pos < 64 * b.Length
    modifies b
    ensures Members(b[..]) == old(Members(b[..])) + {pos}
  {
    hide Or, Mask, Members;
    ghost var before := b[..];
    b[pos / 64] := Or(b[pos / 64], Mask(pos % 64));
    assert b[..] == before[pos / 64 := Or(before[pos / 64], Mask(pos % 64))];
    SetWord(before, pos, b[..]);
  }

  method Clear(b: array<bv64>, pos: nat)
    requires pos < 64 * b.Length
    modifies b
    ensures Members(b[..]) == old(Members(b[..])) - {pos}
  {
    hide AndNot, Mask, Members;
    ghost var before := b[..];
    b[pos / 64] := AndNot(b[pos / 64], Mask(pos % 64));
    assert b[..] == before[pos / 64 := AndNot(before[pos / 64], Mask(pos % 64))];
    ClearWord(before, pos, b[..]);
  }

  lemma SetWord(before: seq<bv64>, pos: nat, after: seq<bv64>)
    requires pos < 64 * |before|
    requires after == before[pos / 64 := Or(before[pos / 64], Mask(pos % 64))]
    ensures Members(after) == Members(before) + {pos}
  {
    hide Bit, Or, Mask;
    forall p | 0 <= p < 64 * |before|
      ensures Get(after, p) <==> p == pos || Get(before, p)
    {
      SetBit(before[pos / 64], pos % 64, p % 64);
    }
  }

  lemma ClearWord(before: seq<bv64>, pos: nat, after: seq<bv64>)
    requires pos < 64 * |before|
    requires after == before[pos / 64 := AndNot(before[pos / 64], Mask(pos % 64))]
    ensures Members(after) == Members(before) - {pos}
  {
    hide Bit, AndNot, Mask;
    forall p | 0 <= p < 64 * |before|
      ensures Get(after, p) <==> p != pos && Get(before, p)
    {
      ClearBit(before[pos / 64], pos % 64, p % 64);
    }
  }

  // ----- one bit of one word

  lemma MaskByteUp(i: nat)
    requires i < 56
    ensures Mask(i + 8) == ByteUp(Mask(i))
  {
    hide Twice, ByteUp;
    assert Mask(i + 8) == Twice(Mask(i + 7)) && Mask(i + 7) == Twice(Mask(i + 6));
    assert Mask(i + 6) == Twice(Mask(i + 5)) && Mask(i + 5) == Twice(Mask(i + 4));
    assert Mask(i + 4) == Twice(Mask(i + 3)) && Mask(i + 3) == Twice(Mask(i + 2));
    assert Mask(i + 2) == Twice(Mask(i + 1)) && Mask(i + 1) == Twice(Mask(i));
    EightTimesTwice(Mask(i));
  }

  lemma EightTimesTwice(m: bv64)
    ensures Twice(Twice(Twice(Twice(Twice(Twice(Twice(Twice(m)))))))) == ByteUp(m)
  {
  }

  lemma MaskSevenUp(i: nat)
    requires i < 57
    ensures Mask(i + 7) == Twice(Twice(Twice(Twice(Twice(Twice(Twice(Mask(i))))))))
  {
    hide Twice;
    assert Mask(i + 7) == Twice(Mask(i + 6));
    assert Mask(i + 6) == Twice(Mask(i + 5)) && Mask(i + 5) == Twice(Mask(i + 4));
    assert Mask(i + 4) == Twice(Mask(i + 3)) && Mask(i + 3) == Twice(Mask(i + 2));
    assert Mask(i + 2) == Twice(Mask(i + 1)) && Mask(i + 1) == Twice(Mask(i));
  }

  lemma FirstMask()
    ensures Mask(0) == 1
  {
  }

  lemma TopMask()
    ensures Mask(63) != 0
  {
    hide Twice, ByteUp, Mask;
    FirstMask();
    MaskSevenUp(0);
    MaskByteUp(7); MaskByteUp(15); MaskByteUp(23); MaskByteUp(31); MaskByteUp(39); MaskByteUp(47); MaskByteUp(55);
    SixtyThreeUp();
  }

  lemma SixtyThreeUp()
    ensures ByteUp(ByteUp(ByteUp(ByteUp(ByteUp(ByteUp(ByteUp(
              Twice(Twice(Twice(Twice(Twice(Twice(Twice(1)))))))))))))) != 0
  {
  }

  lemma {:induction false} MaskNonzero(i: nat)
    requires i < 64
    ensures Mask(i) != 0
    decreases 64 - i
  {
    hide Twice;
    if i == 63 {
      TopMask();
    } else {
      MaskNonzero(i + 1);
      TwiceZero();
    }
  }

  lemma TwiceZero()
    ensures Twice(0) == 0
  {
  }

  lemma {:induction false} MasksDisjoint(i: nat, j: nat)
    requires i < j < 64
    ensures And(Mask(i), Mask(j)) == 0
  {
    hide Twice, And;
    if i == 0 {
      TwiceIsEven(Mask(j - 1));
    } else {
      MasksDisjoint(i - 1, j - 1);
      TwiceDisjoint(Mask(i - 1), Mask(j - 1));
    }
  }

  lemma TwiceIsEven(a: bv64)
    ensures And(1, Twice(a)) == 0
  {
  }

  lemma TwiceDisjoint(a: bv64, b: bv64)
    requires And(a, b) == 0
    ensures And(Twice(a), Twice(b)) == 0
  {
  }

  lemma ZeroHasNoBit(i: nat)
    requires i < 64
    ensures !Bit(0, i)
  {
    hide Mask, And;
    AndZero(Mask(i));
  }

  lemma AndZero(m: bv64)
    ensures And(0, m) == 0
  {
  }

  lemma SetBit(w: bv64, i: nat, j: nat)
    requires i < 64 && j < 64
    ensures Bit(Or(w, Mask(i)), j) <==> i == j || Bit(w, j)
  {
    hide Mask, And, Or;
    MaskNonzero(i);
    OtherMask(i, j);
    OrSame(w, Mask(i));
    OrOther(w, Mask(i), Mask(j));
  }

  lemma ClearBit(w: bv64, i: nat, j: nat)
    requires i < 64 && j < 64
    ensures Bit(AndNot(w, Mask(i)), j) <==> i != j && Bit(w, j)
  {
    hide Mask, And, AndNot;
    OtherMask(i, j);
    AndNotSame(w, Mask(i));
    AndNotOther(w, Mask(i), Mask(j));
  }

  lemma OtherMask(i: nat, j: nat)
    requires i < 64 && j < 64
    ensures i != j ==> And(Mask(i), Mask(j)) == 0
  {
    hide Mask, And;
    if i < j {
      MasksDisjoint(i, j);
    } else if j < i {
      MasksDisjoint(j, i);
      AndCommutes(Mask(i), Mask(j));
    }
  }

  lemma AndCommutes(m: bv64, m2: bv64)
    ensures And(m, m2) == And(m2, m)
  {
  }

  lemma OrSame(w: bv64, m: bv64)
    ensures m != 0 ==> And(Or(w, m), m) != 0
  {
  }

  lemma OrOther(w: bv64, m: bv64, m2: bv64)
    ensures And(m, m2) == 0 ==> And(Or(w, m), m2) == And(w, m2)
  {
  }

  lemma AndNotSame(w: bv64, m: bv64)
    ensures And(AndNot(w, m), m) == 0
  {
  }

  lemma AndNotOther(w: bv64, m: bv64, m2: bv64)
    ensures And(m, m2) == 0 ==> And(AndNot(w, m), m2) == And(w, m2)
  {
  }

  // ----- equality is set equality

  method Equals(b: seq<bv64>, b2: seq<bv64>) returns (same: bool)
    ensures same <==> |b| == |b2| && Members(b) == Members(b2)
  {
    hide Members;
    if |b| != |b2| {
      return false;
    }
    for i := 0 to |b|
      invariant b[..i] == b2[..i]
    {
      if b[i] != b2[i] {
        if Members(b) == Members(b2) {
          SameMembers(b, b2);
          assert false;
        }
        return false;
      }
    }
    assert b[..|b|] == b && b2[..|b|] == b2;
    return true;
  }

  lemma SameMembers(b: seq<bv64>, b2: seq<bv64>)
    requires |b| == |b2| && Members(b) == Members(b2)
    ensures b == b2
  {
    hide Bit;
    forall k | 0 <= k < |b|
      ensures b[k] == b2[k]
    {
      forall i | 0 <= i < 64
        ensures Bit(b[k], i) == Bit(b2[k], i)
      {
        var p := 64 * k + i;
        assert p / 64 == k && p % 64 == i;
        assert p in Members(b) <==> Get(b, p);
        assert p in Members(b2) <==> Get(b2, p);
      }
      AlwaysNarrow(b[k]);
      AlwaysNarrow(b2[k]);
      SameBits(b[k], b2[k], 64);
    }
  }

  lemma BitOfHalf(w: bv64, i: nat)
    requires i < 63
    ensures Bit(w, i + 1) == Bit(Half(w), i)
  {
    hide And, Half, Twice;
    AndTwice(w, Mask(i));
  }

  lemma AndTwice(w: bv64, m: bv64)
    ensures And(w, Twice(m)) != 0 <==> And(Half(w), m) != 0
  {
  }

  /** Only the low `n` bits of the word can be set. */
  ghost predicate Narrow(w: bv64, n: nat)
    decreases n
  {
    if n == 0 then w == 0 else Narrow(Half(w), n - 1)
  }

  lemma AlwaysNarrow(w: bv64)
    ensures Narrow(w, 64)
  {
    hide ByteDown, Half, Narrow;
    NarrowZero();
    var w1 := ByteDown(w);
    var w2 := ByteDown(w1);
    var w3 := ByteDown(w2);
    var w4 := ByteDown(w3);
    var w5 := ByteDown(w4);
    var w6 := ByteDown(w5);
    var w7 := ByteDown(w6);
    EightBytesDown(w);
    NarrowByte(w7, 0); NarrowByte(w6, 8); NarrowByte(w5, 16); NarrowByte(w4, 24);
    NarrowByte(w3, 32); NarrowByte(w2, 40); NarrowByte(w1, 48); NarrowByte(w, 56);
  }

  lemma NarrowZero()
    ensures Narrow(0, 0)
  {
  }

  lemma NarrowByte(w: bv64, n: nat)
    ensures Narrow(ByteDown(w), n) ==> Narrow(w, n + 8)
  {
    hide ByteDown, Half;
    EightHalves(w);
    NarrowNibble(Half(Half(Half(Half(w)))), n);
    NarrowNibble(w, n + 4);
  }

  lemma NarrowNibble(w: bv64, n: nat)
    ensures Narrow(Half(Half(Half(Half(w)))), n) == Narrow(w, n + 4)
  {
    hide Half;
    var h, h2, h3 := Half(w), Half(Half(w)), Half(Half(Half(w)));
    assert Narrow(w, n + 4) == Narrow(h, n + 3);
    assert Narrow(h, n + 3) == Narrow(h2, n + 2);
    assert Narrow(h2, n + 2) == Narrow(h3, n + 1);
    assert Narrow(h3, n + 1) == Narrow(Half(h3), n);
  }

  lemma EightHalves(w: bv64)
    ensures Half(Half(Half(Half(Half(Half(Half(Half(w)))))))) == ByteDown(w)
  {
  }

  lemma EightBytesDown(w: bv64)
    ensures ByteDown(ByteDown(ByteDown(ByteDown(ByteDown(ByteDown(ByteDown(ByteDown(w)))))))) == 0
  {
  }

  lemma {:induction false} SameBits(w: bv64, u: bv64, n: nat)
    requires n <= 64 && Narrow(w, n) && Narrow(u, n)
    requires forall i | 0 <= i < n :: Bit(w, i) == Bit(u, i)
    ensures w == u
    decreases n
  {
    hide And, Half;
    if n > 0 {
      forall i | 0 <= i < n - 1
        ensures Bit(Half(w), i) == Bit(Half(u), i)
      {
        BitOfHalf(w, i);
        BitOfHalf(u, i);
      }
      SameBits(Half(w), Half(u), n - 1);
      assert Bit(w, 0) == Bit(u, 0);
      HalfAndParity(w, u);
    }
  }

  lemma HalfAndParity(w: bv64, u: bv64)
    requires Half(w) == Half(u) && ((And(w, 1) != 0) <==> (And(u, 1) != 0))
    ensures w == u
  {
  }

  // ----- the population count is the cardinality

  /** `n` modulo 2^64, as a word: Go's `uint` wraps around. */
  ghost function ToWord(n: nat): bv64 {
    if n == 0 then 0 else Plus(ToWord(n - 1), 1)
  }

  /** The number of bits set in each byte of the word, side by side. */
  function ByteSums(w: bv64): bv64 {
    var v := (w & 0x5555_5555_5555_5555) + ((w & 0xAAAA_AAAA_AAAA_AAAA) >> 1);
    var v := (v & 0x3333_3333_3333_3333) + ((v & 0xCCCC_CCCC_CCCC_CCCC) >> 2);
    (v & 0x0F0F_0F0F_0F0F_0F0F) + ((v & 0xF0F0_F0F0_F0F0_F0F0) >> 4)
  }

  function Times(a: bv64, b: bv64): bv64 { a * b }
  function TopByte(a: bv64): bv64 { (a >> 56) & 0xFF }

  /** The multiplication gathers the eight sums in the top byte. */
  function Gather(v: bv64): bv64 {
    TopByte(Times(v, 0x0101_0101_0101_0101))
  }

  method Popcnt(b: seq<bv64>) returns (total: bv64)
    ensures total == ToWord(|Members(b)|)
  {
    hide Plus, ByteSums, Gather, Get;
    total := 0;
    for i := 0 to |b|
      invariant total == ToWord(|Below(b, 64 * i)|)
    {
      total := Plus(total, Gather(ByteSums(b[i])));
      CountOfWord(b[i]);
      BelowGrows(b, i, 64);
      SumOfWords(|Below(b, 64 * i)|, Ones(b[i], 64));
    }
    assert Below(b, 64 * |b|) == Members(b);
  }

  method Hash(b: seq<bv64>) returns (hash: bv64)
    ensures hash == HashOf(b)
    ensures forall i: nat | i < 64 :: Bit(hash, i) <==> (Bit(ToWord(|Members(b)|), i) <==> WordsWith(b, i) % 2 == 0)
  {
    hide Xor, Members, Bit, WordsWith;
    forall i: nat | i < 64
      ensures Bit(HashOf(b), i) <==> (Bit(ToWord(|Members(b)|), i) <==> WordsWith(b, i) % 2 == 0)
    {
      HashBits(ToWord(|Members(b)|), b, i);
    }
    hash := Popcnt(b);
    for i := 0 to |b|
      invariant hash == XorAll(ToWord(|Members(b)|), b[..i])
    {
      hash := Xor(hash, b[i]);
      assert b[..i + 1][..i] == b[..i];
    }
    assert b[..|b|] == b;
  }

  ghost function HashOf(b: seq<bv64>): bv64 {
    XorAll(ToWord(|Members(b)|), b)
  }

  ghost function XorAll(start: bv64, b: seq<bv64>): bv64 {
    if b == [] then start else Xor(XorAll(start, b[..|b| - 1]), b[|b| - 1])
  }

  /** How many of the words have bit `i`. */
  ghost function WordsWith(b: seq<bv64>, i: nat): nat
    requires i < 64
  {
    if b == [] then 0 else WordsWith(b[..|b| - 1], i) + if Bit(b[|b| - 1], i) then 1 else 0
  }

  /** Bit for bit, the hash says whether the number of words with that bit is odd,
      turned round where the cardinality has the bit. */
  lemma {:induction false} HashBits(start: bv64, b: seq<bv64>, i: nat)
    requires i < 64
    ensures Bit(XorAll(start, b), i) <==> (Bit(start, i) <==> WordsWith(b, i) % 2 == 0)
  {
    hide Bit, Xor;
    if b != [] {
      HashBits(start, b[..|b| - 1], i);
      XorBit(XorAll(start, b[..|b| - 1]), b[|b| - 1], i);
    }
  }

  lemma XorBit(a: bv64, b: bv64, i: nat)
    requires i < 64
    ensures Bit(Xor(a, b), i) <==> (Bit(a, i) <==> !Bit(b, i))
  {
    hide Mask, And, Xor;
    var m := Mask(i);
    AllOrNothing(a, i);
    AllOrNothing(b, i);
    MaskNonzero(i);
    if And(a, m) == And(b, m) == 0 {
      XorOfNone(a, b, m);
    } else if And(a, m) == 0 {
      XorOfOne(b, a, m);
      XorCommutes(a, b);
    } else if And(b, m) == 0 {
      XorOfOne(a, b, m);
    } else {
      XorOfBoth(a, b, m);
    }
  }

  /** The mask has a single bit: of a word it leaves all or nothing. */
  lemma {:induction false} AllOrNothing(w: bv64, i: nat)
    requires i < 64
    ensures And(w, Mask(i)) == 0 || And(w, Mask(i)) == Mask(i)
    decreases i
  {
    hide And, Twice, Half;
    if i == 0 {
      LowBit(w);
    } else {
      AllOrNothing(Half(w), i - 1);
      AndOfTwice(w, Mask(i - 1));
      TwiceZero();
    }
  }

  lemma AndOfTwice(w: bv64, m: bv64)
    ensures And(w, Twice(m)) == Twice(And(Half(w), m))
  {
  }

  lemma XorOfNone(a: bv64, b: bv64, m: bv64)
    requires And(a, m) == And(b, m) == 0
    ensures And(Xor(a, b), m) == 0
  {
  }

  lemma XorCommutes(a: bv64, b: bv64)
    ensures Xor(a, b) == Xor(b, a)
  {
  }

  lemma XorOfOne(a: bv64, b: bv64, m: bv64)
    requires And(a, m) == m && And(b, m) == 0
    ensures And(Xor(a, b), m) == m
  {
  }

  lemma XorOfBoth(a: bv64, b: bv64, m: bv64)
    requires And(a, m) == m && And(b, m) == m
    ensures And(Xor(a, b), m) == 0
  {
  }

  ghost function Below(words: seq<bv64>, n: nat): set<nat>
    requires n <= 64 * |words|
  {
    set p | 0 <= p < n && Get(words, p)
  }

  /** How many of the low `n` bits of a word are set. */
  ghost function Ones(w: bv64, n: nat): nat
    decreases n
  {
    if n == 0 then 0 else (if And(w, 1) != 0 then 1 else 0) + Ones(Half(w), n - 1)
  }

  lemma {:induction false} SumOfWords(a: nat, b: nat)
    ensures ToWord(a + b) == Plus(ToWord(a), ToWord(b))
  {
    hide Plus;
    if b == 0 {
      PlusZero(ToWord(a));
    } else {
      SumOfWords(a, b - 1);
      PlusAssociates(ToWord(a), ToWord(b - 1), 1);
    }
  }

  lemma PlusZero(a: bv64)
    ensures Plus(a, 0) == a && Plus(0, a) == a
  {
  }

  lemma PlusAssociates(a: bv64, b: bv64, c: bv64)
    ensures Plus(Plus(a, b), c) == Plus(a, Plus(b, c))
  {
    calc {
      Plus(Plus(a, b), c);
      Plus(a + b, c);
      (a + b) + c;
      a + (b + c);
      Plus(a, b + c);
      Plus(a, Plus(b, c));
    }
  }

  // From positions to the bits of one word.

  lemma {:induction false} OnesFromTop(w: bv64, n: nat)
    requires n < 64
    ensures Ones(w, n + 1) == Ones(w, n) + if Bit(w, n) then 1 else 0
    decreases n
  {
    hide And, Half;
    if n == 0 {
      FirstMask();
    } else {
      OnesFromTop(Half(w), n - 1);
      BitOfHalf(w, n - 1);
    }
  }

  lemma {:induction false} BelowGrows(words: seq<bv64>, k: nat, n: nat)
    requires k < |words| && n <= 64
    ensures |Below(words, 64 * k + n)| == |Below(words, 64 * k)| + Ones(words[k], n)
  {
    hide Bit, Ones, Below;
    if n == 0 {
      NoOnes(words[k]);
    } else {
      BelowGrows(words, k, n - 1);
      OnesFromTop(words[k], n - 1);
      var p := 64 * k + n - 1;
      assert p / 64 == k && p % 64 == n - 1;
      BelowStep(words, p);
    }
  }

  lemma BelowStep(words: seq<bv64>, p: nat)
    requires p < 64 * |words|
    ensures |Below(words, p + 1)| == |Below(words, p)| + if Get(words, p) then 1 else 0
  {
    hide Get;
    assert Below(words, p + 1) == Below(words, p) + if Get(words, p) then {p} else {};
  }

  lemma NoOnes(w: bv64)
    ensures Ones(w, 0) == 0
  {
  }

  // From the bits of one word to its byte sums.

  function LowByte(a: bv64): bv64 { a & 0xFF }
  function ByteAt(a: bv64, j: bv64): bv64 requires j < 8 { (a >> (8 * j)) & 0xFF }

  /** The low `n` bits added up within words. */
  ghost function BitSum(w: bv64, n: nat): bv64
    decreases n
  {
    if n == 0 then 0 else Plus(And(w, 1), BitSum(Half(w), n - 1))
  }

  lemma {:induction false} OnesAsBitSum(w: bv64, n: nat)
    ensures ToWord(Ones(w, n)) == BitSum(w, n)
    decreases n
  {
    hide And, Half, Plus;
    if n > 0 {
      OnesAsBitSum(Half(w), n - 1);
      LowBit(w);
      SumOfWords(if And(w, 1) != 0 then 1 else 0, Ones(Half(w), n - 1));
      PlusZero(1);
    }
  }

  lemma LowBit(w: bv64)
    ensures And(w, 1) == 0 || And(w, 1) == 1
  {
  }

  lemma BitSumStep(w: bv64, n: nat)
    ensures BitSum(w, n + 1) == Plus(And(w, 1), BitSum(Half(w), n)) && BitSum(w, 0) == 0
  {
  }

  lemma BitSumOfByte(w: bv64)
    ensures BitSum(w, 8) == LowByte(ByteSums(w))
  {
    hide *;
    var h := Half(w);
    var h2 := Half(h);
    var h3 := Half(h2);
    var h4 := Half(h3);
    var h5 := Half(h4);
    var h6 := Half(h5);
    var h7 := Half(h6);
    BitSumStep(w, 7); BitSumStep(h, 6); BitSumStep(h2, 5); BitSumStep(h3, 4);
    BitSumStep(h4, 3); BitSumStep(h5, 2); BitSumStep(h6, 1); BitSumStep(h7, 0);
    BitSumStep(Half(h7), 0);
    EightBits(w);
  }

  lemma EightBits(w: bv64)
    ensures var h := Half(w); var h2 := Half(h); var h3 := Half(h2); var h4 := Half(h3);
            var h5 := Half(h4); var h6 := Half(h5); var h7 := Half(h6);
            Plus(And(w, 1), Plus(And(h, 1), Plus(And(h2, 1), Plus(And(h3, 1), Plus(And(h4, 1),
              Plus(And(h5, 1), Plus(And(h6, 1), Plus(And(h7, 1), 0)))))))) == LowByte(ByteSums(w))
  {
  }

  lemma OnesOfByte(w: bv64)
    ensures ToWord(Ones(w, 8)) == LowByte(ByteSums(w))
  {
    hide BitSum, Ones, LowByte, ByteSums, ToWord;
    OnesAsBitSum(w, 8);
    BitSumOfByte(w);
  }

  lemma OnesStep(w: bv64, n: nat)
    ensures Ones(w, n + 1) == (if And(w, 1) != 0 then 1 else 0) + Ones(Half(w), n)
  {
  }

  lemma OnesByteDown(w: bv64, n: nat)
    ensures Ones(w, 8 + n) == Ones(w, 8) + Ones(ByteDown(w), n)
  {
    hide *;
    EightHalves(w);
    var h4 := Half(Half(Half(Half(w))));
    OnesNibbleDown(w, n + 4);
    OnesNibbleDown(w, 4);
    OnesNibbleDown(h4, n);
    OnesNibbleDown(h4, 0);
    NoOnes(Half(Half(Half(Half(h4)))));
  }

  lemma OnesNibbleDown(w: bv64, n: nat)
    ensures Ones(w, n + 4) == Ones(w, 4) + Ones(Half(Half(Half(Half(w)))), n)
  {
    hide *;
    var h := Half(w);
    var h2 := Half(h);
    var h3 := Half(h2);
    OnesStep(w, n + 3); OnesStep(h, n + 2); OnesStep(h2, n + 1); OnesStep(h3, n);
    OnesStep(w, 3); OnesStep(h, 2); OnesStep(h2, 1); OnesStep(h3, 0);
    NoOnes(Half(h3));
  }

  lemma OnesOfBytes(w: bv64)
    ensures var w1 := ByteDown(w); var w2 := ByteDown(w1); var w3 := ByteDown(w2); var w4 := ByteDown(w3);
            var w5 := ByteDown(w4); var w6 := ByteDown(w5); var w7 := ByteDown(w6);
            Ones(w, 64) == ((Ones(w7, 8) + Ones(w6, 8)) + (Ones(w5, 8) + Ones(w4, 8)))
                         + ((Ones(w3, 8) + Ones(w2, 8)) + (Ones(w1, 8) + Ones(w, 8)))
  {
    hide *;
    var w1 := ByteDown(w);
    var w2 := ByteDown(w1);
    var w3 := ByteDown(w2);
    var w4 := ByteDown(w3);
    var w5 := ByteDown(w4);
    var w6 := ByteDown(w5);
    var w7 := ByteDown(w6);
    OnesByteDown(w, 56); OnesByteDown(w1, 48); OnesByteDown(w2, 40); OnesByteDown(w3, 32);
    OnesByteDown(w4, 24); OnesByteDown(w5, 16); OnesByteDown(w6, 8);
  }

  lemma SumOfEight(a: nat, b: nat, c: nat, d: nat, e: nat, f: nat, g: nat, h: nat)
    ensures ToWord(((a + b) + (c + d)) + ((e + f) + (g + h)))
         == Plus(Plus(Plus(ToWord(a), ToWord(b)), Plus(ToWord(c), ToWord(d))),
                 Plus(Plus(ToWord(e), ToWord(f)), Plus(ToWord(g), ToWord(h))))
  {
    hide *;
    SumOfWords((a + b) + (c + d), (e + f) + (g + h));
    SumOfWords(a + b, c + d);
    SumOfWords(e + f, g + h);
    SumOfWords(a, b);
    SumOfWords(c, d);
    SumOfWords(e, f);
    SumOfWords(g, h);
  }

  /** A word's count is the sum of the counts of its bytes. */
  lemma CountOfWord(w: bv64)
    ensures Gather(ByteSums(w)) == ToWord(Ones(w, 64))
  {
    hide *;
    var w1 := ByteDown(w);
    var w2 := ByteDown(w1);
    var w3 := ByteDown(w2);
    var w4 := ByteDown(w3);
    var w5 := ByteDown(w4);
    var w6 := ByteDown(w5);
    var w7 := ByteDown(w6);
    OnesOfBytes(w);
    SumOfEight(Ones(w7, 8), Ones(w6, 8), Ones(w5, 8), Ones(w4, 8), Ones(w3, 8), Ones(w2, 8), Ones(w1, 8), Ones(w, 8));
    OnesOfByte(w); OnesOfByte(w1); OnesOfByte(w2); OnesOfByte(w3);
    OnesOfByte(w4); OnesOfByte(w5); OnesOfByte(w6); OnesOfByte(w7);
    SumsByteDown(w); SumsByteDown(w1); SumsByteDown(w2); SumsByteDown(w3);
    SumsByteDown(w4); SumsByteDown(w5); SumsByteDown(w6);
    SumsAreSmall(w);
    GatherAddsBytes(ByteSums(w));
  }

  lemma SumsByteDown(w: bv64)
    ensures ByteSums(ByteDown(w)) == ByteDown(ByteSums(w))
  {
  }

  lemma SumsAreSmall(w: bv64)
    ensures Small(ByteSums(w), 0xF0F0_F0F0_F0F0_F0F0)
  {
  }

  predicate Small(a: bv64, m: bv64) { a & m == 0 }

  lemma GatherAddsBytes(s: bv64)
    requires Small(s, 0xF0F0_F0F0_F0F0_F0F0)
    ensures var s1 := ByteDown(s); var s2 := ByteDown(s1); var s3 := ByteDown(s2); var s4 := ByteDown(s3);
            var s5 := ByteDown(s4); var s6 := ByteDown(s5); var s7 := ByteDown(s6);
            Gather(s) == Plus(Plus(Plus(LowByte(s7), LowByte(s6)), Plus(LowByte(s5), LowByte(s4))),
                              Plus(Plus(LowByte(s3), LowByte(s2)), Plus(LowByte(s1), LowByte(s))))
  {
    hide Gather, ByteDown, Plus, LowByte, ByteAt, Small, Times;
    var a := Times(s, 0x101);
    var b := Times(a, 0x1_0001);
    BytesByNumber(s);
    GatherInSteps(s);
    PairBytes(s);
    PairsAreSmall(s);
    QuadBytes(a);
    OctetBytes(b);
  }

  lemma BytesByNumber(s: bv64)
    ensures var s1 := ByteDown(s); var s2 := ByteDown(s1); var s3 := ByteDown(s2); var s4 := ByteDown(s3);
            var s5 := ByteDown(s4); var s6 := ByteDown(s5); var s7 := ByteDown(s6);
            && LowByte(s) == ByteAt(s, 0) && LowByte(s1) == ByteAt(s, 1)
            && LowByte(s2) == ByteAt(s, 2) && LowByte(s3) == ByteAt(s, 3)
            && LowByte(s4) == ByteAt(s, 4) && LowByte(s5) == ByteAt(s, 5)
            && LowByte(s6) == ByteAt(s, 6) && LowByte(s7) == ByteAt(s, 7)
  {
  }

  lemma GatherInSteps(s: bv64)
    ensures Gather(s) == ByteAt(Times(Times(Times(s, 0x101), 0x1_0001), 0x1_0000_0001), 7)
  {
    hide *;
    TimesInSteps(s);
    GatherTopByte(s, Times(Times(Times(s, 0x101), 0x1_0001), 0x1_0000_0001));
  }

  lemma TimesInSteps(s: bv64)
    ensures Times(Times(Times(s, 0x101), 0x1_0001), 0x1_0000_0001) == Times(s, 0x0101_0101_0101_0101)
  {
    hide *;
    TimesTwice(s, 0x101, 0x1_0001);
    TimesTwice(s, 0x101_0101, 0x1_0000_0001);
  }

  lemma TimesTwice(s: bv64, a: bv64, b: bv64)
    ensures Times(Times(s, a), b) == Times(s, a * b)
  {
    calc {
      Times(Times(s, a), b);
      Times(s * a, b);
      (s * a) * b;
      s * (a * b);
      Times(s, a * b);
    }
  }

  lemma GatherTopByte(s: bv64, p: bv64)
    requires p == Times(s, 0x0101_0101_0101_0101)
    ensures Gather(s) == ByteAt(p, 7)
  {
    hide Times, TopByte, ByteAt;
    TopByteIs(p);
  }

  lemma TopByteIs(p: bv64)
    ensures TopByte(p) == ByteAt(p, 7)
  {
  }

  lemma PairBytes(s: bv64)
    requires Small(s, 0xF0F0_F0F0_F0F0_F0F0)
    ensures ByteAt(Times(s, 0x101), 7) == Plus(ByteAt(s, 7), ByteAt(s, 6))
    ensures ByteAt(Times(s, 0x101), 5) == Plus(ByteAt(s, 5), ByteAt(s, 4))
    ensures ByteAt(Times(s, 0x101), 3) == Plus(ByteAt(s, 3), ByteAt(s, 2))
    ensures ByteAt(Times(s, 0x101), 1) == Plus(ByteAt(s, 1), ByteAt(s, 0))
  {
  }

  lemma PairsAreSmall(s: bv64)
    requires Small(s, 0xF0F0_F0F0_F0F0_F0F0)
    ensures Small(Times(s, 0x101), 0xE0E0_E0E0_E0E0_E0E0)
    ensures Small(Times(Times(s, 0x101), 0x1_0001), 0xC0C0_C0C0_C0C0_C0C0)
  {
  }

  lemma QuadBytes(a: bv64)
    requires Small(a, 0xE0E0_E0E0_E0E0_E0E0)
    ensures ByteAt(Times(a, 0x1_0001), 7) == Plus(ByteAt(a, 7), ByteAt(a, 5))
    ensures ByteAt(Times(a, 0x1_0001), 3) == Plus(ByteAt(a, 3), ByteAt(a, 1))
  {
  }

  lemma OctetBytes(b: bv64)
    requires Small(b, 0xC0C0_C0C0_C0C0_C0C0)
    ensures ByteAt(Times(b, 0x1_0000_0001), 7) == Plus(ByteAt(b, 7), ByteAt(b, 3))
  {
  }
}
