/** A packed list of bits in 64-bit words, and the set of indices it stands for. */
module BitList {
  import opened Bits

  const PER_WORD: nat := 64

  /** The values of one word. */
  ghost predicate IsWord(w: nat) {
    w < Pow2(PER_WORD)
  }

  /** Is index `i` in the list? */
  ghost predicate Has(words: seq<nat>, i: nat) {
    i / PER_WORD < |words| && Bit(words[i / PER_WORD], i % PER_WORD)
  }

  ghost function Members(words: seq<nat>): set<nat> {
    MembersBelow(words, PER_WORD * |words|)
  }

  ghost function MembersBelow(words: seq<nat>, n: nat): set<nat> {
    set i: nat | 0 <= i < n && Has(words, i)
  }

  // ---------- counting ----------

  function PopCount(w: nat): nat {
    if w == 0 then 0 else w % 2 + PopCount(w / 2)
  }

  /** Bits of `w` below position `n`. */
  ghost function CountLow(w: nat, n: nat): nat {
    if n == 0 then 0 else CountLow(w, n - 1) + if Bit(w, n - 1) then 1 else 0
  }

  ghost function CountBelow(words: seq<nat>, n: nat): nat {
    if n == 0 then 0 else CountBelow(words, n - 1) + if Has(words, n - 1) then 1 else 0
  }

  lemma {:induction false} CountLowHalf(w: nat, n: nat)
    requires n > 0
    ensures CountLow(w, n) == w % 2 + CountLow(w / 2, n - 1)
  {
    if n > 1 {
      CountLowHalf(w, n - 1);
    } else {
      assert CountLow(w, 0) == 0;
    }
  }

  lemma {:induction false} PopCountIsCount(w: nat, n: nat)
    requires w < Pow2(n)
    ensures PopCount(w) == CountLow(w, n)
  {
    if n > 0 {
      CountLowHalf(w, n);
      PopCountIsCount(w / 2, n - 1);
      if w == 0 {
        assert PopCount(w / 2) == 0;
      }
    }
  }

  /** Walking through word `j`. */
  lemma {:induction false} CountBelowWord(words: seq<nat>, j: nat, k: nat)
    requires j < |words| && k <= PER_WORD
    ensures CountBelow(words, PER_WORD * j + k) == CountBelow(words, PER_WORD * j) + CountLow(words[j], k)
  {
    if k > 0 {
      CountBelowWord(words, j, k - 1);
      var i := PER_WORD * j + k - 1;
      assert i / PER_WORD == j && i % PER_WORD == k - 1;
    }
  }

  lemma CountWholeWord(words: seq<nat>, j: nat)
    requires j < |words| && IsWord(words[j])
    ensures CountBelow(words, PER_WORD * (j + 1)) == CountBelow(words, PER_WORD * j) + PopCount(words[j])
  {
    hide Pow2, CountLow, CountBelow, PopCount;
    PopCountIsCount(words[j], PER_WORD);
    CountBelowWord(words, j, PER_WORD);
  }

  lemma {:induction false} CountBelowIsSize(words: seq<nat>, n: nat)
    ensures CountBelow(words, n) == |MembersBelow(words, n)|
  {
    var s := MembersBelow(words, n);
    if n == 0 {
      assert s == {};
    } else {
      CountBelowIsSize(words, n - 1);
      var t := MembersBelow(words, n - 1);
      assert s == if Has(words, n - 1) then t + {n - 1} else t;
    }
  }

  // ---------- the first clear bit ----------

  /** Position of the lowest set bit. */
  function Ctz(v: nat): nat
    requires v != 0
  {
    if v % 2 == 1 then 0 else 1 + Ctz(v / 2)
  }

  lemma {:induction false} CtzIsLowest(v: nat, n: nat)
    requires 0 < v < Pow2(n)
    ensures Ctz(v) < n && Bit(v, Ctz(v)) && forall j: nat :: j < Ctz(v) ==> !Bit(v, j)
  {
    if v % 2 == 0 {
      CtzIsLowest(v / 2, n - 1);
      forall j: nat | j < Ctz(v)
        ensures !Bit(v, j)
      {
        if j > 0 {
          assert !Bit(v / 2, j - 1);
        }
      }
    }
  }

  /** `__builtin_ffsll` */
  function Ffs(v: nat): nat {
    if v == 0 then 0 else Ctz(v) + 1
  }

  /** The slot finder skips the search on an empty word. */
  function FindEmptySlot(w: nat): int {
    if w != 0 then Ffs(Not(w, PER_WORD)) - 1 else 0
  }

  lemma EmptySlotIsLowestClear(w: nat)
    requires IsWord(w) && w != Pow2(PER_WORD) - 1
    ensures var r := FindEmptySlot(w);
      0 <= r < PER_WORD && !Bit(w, r) && forall j: nat :: j < r ==> Bit(w, j)
  {
    if w == 0 {
      BitZero(0);
    } else {
      var v := Not(w, PER_WORD);
      NotBound(w, PER_WORD);
      forall k: nat | k < PER_WORD
        ensures Bit(v, k) <==> !Bit(w, k)
      {
        BitNot(w, PER_WORD, k);
      }
      if v == 0 {
        forall k: nat | k < PER_WORD
          ensures Bit(w, k)
        {
          BitZero(k);
        }
        AllBitsSet(w, PER_WORD);
      }
      CtzIsLowest(v, PER_WORD);
    }
  }

  // ---------- the list ----------

  /** `__doMask`: bit `k` of a word or-ed in, or masked out. */
  function Masked(w: nat, k: nat, b: bool): nat {
    if b then Or(w, Pow2(k)) else And(w, Not(Pow2(k), PER_WORD))
  }

  lemma MaskedBits(w: nat, k: nat, b: bool)
    requires IsWord(w) && k < PER_WORD
    ensures IsWord(Masked(w, k, b))
    ensures forall j: nat :: j < PER_WORD ==> (Bit(Masked(w, k, b), j) <==> if j == k then b else Bit(w, j))
  {
    Pow2Monotone(k, PER_WORD - 1);
    OrBounds(w, Pow2(k), PER_WORD);
    AndBound(w, Not(Pow2(k), PER_WORD));
    forall j: nat | j < PER_WORD
      ensures Bit(Masked(w, k, b), j) <==> if j == k then b else Bit(w, j)
    {
      BitPow2(k, j);
      BitOr(w, Pow2(k), j);
      BitNot(Pow2(k), PER_WORD, j);
      BitAnd(w, Not(Pow2(k), PER_WORD), j);
    }
  }

  lemma FlippedBits(w: nat, k: nat)
    requires IsWord(w) && k < PER_WORD
    ensures IsWord(Xor(w, Pow2(k)))
    ensures forall j: nat :: j < PER_WORD ==> (Bit(Xor(w, Pow2(k)), j) <==> (j == k) != Bit(w, j))
  {
    Pow2Monotone(k, PER_WORD - 1);
    XorBound(w, Pow2(k), PER_WORD);
    forall j: nat | j < PER_WORD
      ensures Bit(Xor(w, Pow2(k)), j) <==> (j == k) != Bit(w, j)
    {
      BitPow2(k, j);
      BitXor(w, Pow2(k), j);
    }
  }

  class BitList {
    const size: nat
    const data: array<nat>

    ghost predicate Valid()
      reads data
    {
      data.Length == size / PER_WORD + 1 && forall j :: 0 <= j < data.Length ==> IsWord(data[j])
    }

    ghost function Set(): set<nat>
      reads data
    {
      Members(data[..])
    }

    constructor (size: nat)
      ensures Valid() && fresh(data) && this.size == size && Set() == {}
    {
      this.size := size;
      data := new nat[size / PER_WORD + 1](_ => 0);
      new;
      forall i: nat
        ensures !Bit(0, i)
      {
        BitZero(i);
      }
    }

    method Get(i: nat) returns (b: bool)
      requires Valid() && i < size
      ensures b <==> i in Set()
    {
      BitAnd(data[i / PER_WORD], Pow2(i % PER_WORD), i % PER_WORD);
      BitPow2(i % PER_WORD, i % PER_WORD);
      SingleBit(data[i / PER_WORD], i % PER_WORD);
      b := And(data[i / PER_WORD], Pow2(i % PER_WORD)) != 0;
    }

    /** `_BitRef::doMask`: one word of the list, or-ed or and-ed with one mask. */
    method Assign(i: nat, b: bool)
      requires Valid() && i < size
      modifies data
      ensures Valid() && Set() == if b then old(Set()) + {i} else old(Set()) - {i}
    {
      var j := i / PER_WORD;
      MaskedBits(data[j], i % PER_WORD, b);
      data[j] := Masked(data[j], i % PER_WORD, b);
      OneWordChanged(old(data[..]), data[..], i, b);
    }

    method SetBit(i: nat)
      requires Valid() && i < size
      modifies data
      ensures Valid() && Set() == old(Set()) + {i}
    {
      Assign(i, true);
    }

    /** Inverts bit `i` and returns its new value. */
    method Flip(i: nat) returns (b: bool)
      requires Valid() && i < size
      modifies data
      ensures Valid() && b == (i !in old(Set()))
      ensures Set() == if b then old(Set()) + {i} else old(Set()) - {i}
    {
      var j, off := i / PER_WORD, Pow2(i % PER_WORD);
      FlippedBits(data[j], i % PER_WORD);
      data[j] := Xor(data[j], off);
      SingleBit(data[j], i % PER_WORD);
      b := And(data[j], off) != 0;
      OneWordChanged(old(data[..]), data[..], i, b);
    }

    method Reset()
      requires Valid()
      modifies data
      ensures Valid() && Set() == {}
    {
      for j := 0 to data.Length
        invariant forall k :: 0 <= k < j ==> data[k] == 0
        invariant forall k :: 0 <= k < data.Length ==> IsWord(data[k])
      {
        data[j] := 0;
      }
      forall i: nat
        ensures !Bit(0, i)
      {
        BitZero(i);
      }
    }

    /** The number of set bits is the size of the set. */
    method CountActive() returns (total: nat)
      requires Valid()
      ensures total == |Set()|
    {
      total := 0;
      for j := 0 to data.Length
        invariant total == CountBelow(data[..], PER_WORD * j)
      {
        total := total + PopCount(data[j]);
        CountWholeWord(data[..], j);
      }
      CountBelowIsSize(data[..], PER_WORD * data.Length);
    }

    /** As written it counts down from the number of words, in 64-bit arithmetic. */
    method CountInactive() returns (n: nat)
      requires Valid()
      ensures n == InactiveAsWritten(size, |Set()|)
    {
      var active := CountActive();
      n := InactiveAsWritten(size, active);
    }
  }

  /** `w & (1 << k)` is nonzero exactly when bit `k` is set. */
  lemma {:induction false} SingleBit(w: nat, k: nat)
    ensures And(w, Pow2(k)) != 0 <==> Bit(w, k)
  {
    if w == 0 {
      BitZero(k);
    } else if k > 0 {
      SingleBit(w / 2, k - 1);
    }
  }

  /** Only word `i / 64` differs, and in it only bit `i % 64`. */
  lemma OneWordChanged(before: seq<nat>, after: seq<nat>, i: nat, b: bool)
    requires |before| == |after| && i / PER_WORD < |before|
    requires forall j :: 0 <= j < |before| && j != i / PER_WORD ==> after[j] == before[j]
    requires forall k: nat :: k < PER_WORD ==>
      (Bit(after[i / PER_WORD], k) <==> if k == i % PER_WORD then b else Bit(before[i / PER_WORD], k))
    ensures Members(after) == if b then Members(before) + {i} else Members(before) - {i}
  {
    forall x: nat
      ensures Has(after, x) <==> if x == i then b else Has(before, x)
    {
      if x / PER_WORD == i / PER_WORD {
        assert x == i <==> x % PER_WORD == i % PER_WORD;
      }
    }
  }

  function InactiveAsWritten(size: nat, active: nat): nat {
    (size / PER_WORD + 1 - active) % 0x1_0000_0000_0000_0000
  }

  /** `countInactive` gives the number of free slots exactly for lists of one bit. */
  lemma InactiveIff(size: nat, active: nat)
    requires active <= size < 0x1_0000_0000_0000_0000
    ensures InactiveAsWritten(size, active) == size - active <==> size == 1
  {
  }

  /** 64 bits, all clear: it answers 2. */
  lemma InactiveWitness()
    ensures InactiveAsWritten(64, 0) == 2
  {
  }
}
