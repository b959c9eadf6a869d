/**
 The range encoder that writes bytes: `low` has 33 bits, the last byte before it
 waits in `cache`, and a run of 0xFF bytes that a carry could still change is
 only counted.  Every method is proved against the unbounded interval of
 RangeCoder.
 */
module RangeEncoding {
  import opened Bytes
  import opened Lists
  import opened RangeCoder

  ghost function Ones(n: nat): seq<Byte>
  {
    seq(n, _ => 255)
  }

  /** The bytes not yet settled by a carry, read as one number. */
  ghost function Exact(out: seq<Byte>, cache: Byte, pending: nat): nat
  {
    Value(out + [cache] + Ones(pending))
  }

  lemma ValuePush(out: seq<Byte>, b: Byte)
    ensures Value(out + [b]) == Value(out) * 256 + b
  {
    assert (out + [b])[..|out|] == out;
  }

  lemma ExactGrows(out: seq<Byte>, cache: Byte, pending: nat)
    ensures Exact(out, cache, pending + 1) == Exact(out, cache, pending) * 256 + 255
  {
    var head := out + [cache];
    assert head + Ones(pending + 1) == head + Ones(pending) + [255];
    ValuePush(head + Ones(pending), 255);
  }

  lemma ExactAlone(out: seq<Byte>, cache: Byte)
    ensures Exact(out, cache, 0) == Value(out) * 256 + cache
  {
    assert out + [cache] + Ones(0) == out + [cache];
    ValuePush(out, cache);
  }

  lemma {:induction false} ExactIs(out: seq<Byte>, cache: Byte, pending: nat)
    ensures Exact(out, cache, pending) + 1 == (Value(out) * 256 + cache + 1) * Pow256(pending)
  {
    if pending == 0 {
      ExactAlone(out, cache);
    } else {
      ExactIs(out, cache, pending - 1);
      ExactGrows(out, cache, pending - 1);
      PowStep(Value(out) * 256 + cache + 1, pending - 1);
    }
  }

  lemma PowStep(a: int, n: nat)
    ensures a * Pow256(n + 1) == a * Pow256(n) * 256
  {
    assert Pow256(n + 1) == 256 * Pow256(n);
  }

  lemma PendingPush(out: seq<Byte>, carry: Bit, n: nat)
    ensures (Value(out + [(255 + carry) % 256]) + 1 - carry) * Pow256(n) == (Value(out) + 1 - carry) * Pow256(n) * 256
  {
    ValuePush(out, (255 + carry) % 256);
    Times256(Value(out) + 1 - carry, Value(out + [(255 + carry) % 256]) + 1 - carry, Pow256(n));
  }

  lemma Times256(a: int, b: int, w: int)
    requires b == a * 256
    ensures b * w == a * w * 256
  {
  }

  /** The low word after `n` shifts; four of them clear it. */
  ghost function ShiftedWord(low: nat, n: nat): nat
  {
    if n == 0 then low else ShiftedWord(low, n - 1) % TOP * 256
  }

  lemma FourShiftsClear(low: nat)
    ensures ShiftedWord(low, 4) == 0
  {
    var a := low % TOP;
    DivModUnique(a * 0x100, TOP, a / 0x1_0000, a % 0x1_0000 * 0x100);
    var b := a % 0x1_0000;
    DivModUnique(b * 0x1_0000, TOP, b / 0x100, b % 0x100 * 0x1_0000);
    assert ShiftedWord(low, 1) == a * 0x100;
    assert ShiftedWord(low, 2) == b * 0x1_0000;
    assert ShiftedWord(low, 3) == b % 0x100 * TOP;
  }

  /** What ShiftLow does to the word: carry out, top byte out, the rest moved up. */
  lemma ShiftWord(low: nat)
    requires low < 2 * WORD
    ensures low == low / WORD * WORD + low % WORD / TOP * TOP + low % TOP
    ensures low % WORD * 256 % WORD == low % TOP * 256
  {
    var h, r := low % WORD, low % WORD % TOP;
    DivModUnique(low, TOP, low / WORD * 256 + h / TOP, r);
    DivModUnique(h * 256, WORD, h / TOP, r * 256);
  }

  /** The bits of `value` from bit `n - 1` down to bit 0, each coded directly. */
  function DirectBits(value: nat, n: nat): List<Choice>
  {
    if n == 0 then Nil else Cons(Direct(value / Pow2(n - 1) % 2), DirectBits(value, n - 1))
  }

  class RangeEncoder {
    var range: nat
    var low: nat
    var cache: Byte
    var cacheSize: nat
    var out: seq<Byte>

    /** The exact Low: emitted bytes, the cached byte, the pending 0xFF bytes, then `low`. */
    ghost function Low(): nat
      reads this
      requires cacheSize >= 1
    {
      Exact(out, cache, cacheSize - 1) * WORD + low
    }

    ghost function View(): Interval
      reads this
      requires cacheSize >= 1
    {
      Interval(Low(), range, |out| + cacheSize - 1)
    }

    /** A carry out of `low` can always be added to the cached byte. */
    ghost predicate CarryFits()
      reads this
    {
      cacheSize >= 1 && low < 2 * WORD && (cache == 255 ==> low < WORD)
    }

    ghost predicate Valid()
      reads this
    {
      && cacheSize >= 1
      && TOP <= range < WORD
      && low + range <= 2 * WORD
      && (cache == 255 ==> low + range <= WORD)
    }

    constructor ()
      ensures Valid() && View() == START && out == []
    {
      low, range, cacheSize, cache, out := 0, INIT_RANGE, 1, 0, [];
      new;
      ExactAlone([], 0);
    }

    /** Writes the cached byte and the pending ones, each plus the carry. */
    method EmitPending(carry: Bit)
      requires cacheSize >= 1 && (cache == 255 ==> carry == 0)
      modifies this`cacheSize, this`out
      ensures cacheSize == 0 && |out| == old(|out| + cacheSize)
      ensures Value(out) == old(Exact(out, cache, cacheSize - 1)) + carry
    {
      ghost var n := Exact(out, cache, cacheSize - 1) + 1;
      ExactIs(out, cache, cacheSize - 1);
      var temp := cache;
      ValuePush(out, (temp + carry) % 256);
      out := out + [(temp + carry) % 256];
      temp := 0xFF;
      cacheSize := cacheSize - 1;
      while cacheSize != 0
        invariant temp == 0xFF
        invariant |out| + cacheSize == old(|out| + cacheSize)
        invariant (Value(out) + 1 - carry) * Pow256(cacheSize) == n
      {
        PowStep(Value(out) + 1 - carry, cacheSize - 1);
        PendingPush(out, carry, cacheSize - 1);
        out := out + [(temp + carry) % 256];
        cacheSize := cacheSize - 1;
      }
    }

    method ShiftLow()
      requires CarryFits()
      modifies this`low, this`cache, this`cacheSize, this`out
      ensures CarryFits()
      ensures Low() == old(Low()) * 256
      ensures |out| + cacheSize == old(|out| + cacheSize) + 1
      ensures low == old(low) % TOP * 256
      ensures old(low) < 0xFF00_0000 ==> cacheSize == 1 && cache == old(low) / TOP
      ensures cache == 255 ==> old(low) >= (if old(cache) == 255 then 0xFF00_0000 else WORD + 0xFF00_0000)
    {
      hide Exact;
      ExactGrows(out, cache, cacheSize - 1);
      ShiftWord(low);
      if low % WORD < 0xFF00_0000 || low / WORD != 0 {
        EmitPending(low / WORD);
        cache := low % WORD / TOP;
        ExactAlone(out, cache);
      }
      cacheSize := cacheSize + 1;
      low := low % WORD * 256 % WORD;
    }

    /** Five shifts push out every digit: what remains written is the exact Low. */
    method FlushData()
      requires CarryFits()
      modifies this`low, this`cache, this`cacheSize, this`out
      ensures |out| == old(|out| + cacheSize) + 4
      ensures Value(out) == old(Low())
    {
      ghost var low0, word0, n := Low(), low, |out| + cacheSize;
      FourShiftsClear(low);
      var i := 0;
      while i < 5
        invariant 0 <= i <= 5 && CarryFits()
        invariant Low() == low0 * Pow256(i)
        invariant |out| + cacheSize == n + i
        invariant low == ShiftedWord(word0, i)
        invariant i == 5 ==> low == 0 && cacheSize == 1 && cache == 0
      {
        PowStep(low0, i);
        ShiftLow();
        i := i + 1;
      }
      FlushedValue(low0, out);
    }

    static lemma FlushedValue(low0: nat, out: seq<Byte>)
      requires Exact(out, 0, 0) * WORD == low0 * Pow256(5)
      ensures Value(out) == low0
    {
      assert Pow256(5) == 0x100 * WORD by {
        assert Pow256(2) == 256 * Pow256(1);
        assert Pow256(4) == 256 * Pow256(3);
      }
      ExactAlone(out, 0);
    }

    /** The tail that EncodeBit and EncodeDirectBits share. */
    method Renormalise()
      requires cacheSize >= 1 && 0x1_0000 <= range < WORD
      requires low + range <= 2 * WORD && (cache == 255 ==> low + range <= WORD)
      modifies this
      ensures Valid() && View() == Normalise(old(View()))
    {
      if range < TOP {
        range := range * 256;
        ShiftLow();
      }
    }

    method EncodeBit(p: Prob, bit: Bit) returns (p': Prob)
      requires Valid()
      modifies this
      ensures Valid() && View() == Step(old(View()), Modelled(p, bit))
      ensures p' == Adapt(p, bit)
    {
      var newBound := range / 2048 * p;
      BoundInside(range, p);
      if bit == 0 {
        range := newBound;
        p' := p + (2048 - p) / 32;
      } else {
        low := low + newBound;
        range := range - newBound;
        p' := p - p / 32;
      }
      Renormalise();
    }

    method EncodeDirectBit(bit: Bit)
      requires Valid()
      modifies this
      ensures Valid() && View() == Step(old(View()), Direct(bit))
    {
      range := range / 2;
      low := low + if bit == 0 then 0 else range;
      Renormalise();
    }

    method EncodeDirectBits(value: nat, numBits: nat)
      requires Valid() && numBits > 0
      modifies this
      ensures Valid() && View() == Run(old(View()), DirectBits(value, numBits))
    {
      var n := numBits;
      while n != 0
        invariant 0 <= n <= numBits
        invariant Valid()
        invariant Run(View(), DirectBits(value, n)) == Run(old(View()), DirectBits(value, numBits))
      {
        n := n - 1;
        EncodeDirectBit(value / Pow2(n) % 2);
      }
    }
  }

  /** Coding `cs` one by one and flushing. */
  method EncodeAll(cs: List<Choice>) returns (out: seq<Byte>)
    ensures out == Encoded(cs)
  {
    var rc := new RangeEncoder();
    var rest := cs;
    while rest.Cons?
      invariant fresh(rc) && rc.Valid()
      invariant Run(rc.View(), rest) == Run(START, cs)
      decreases rest
    {
      match rest.head {
        case Modelled(p, bit) => var _ := rc.EncodeBit(p, bit);
        case Direct(bit) => rc.EncodeDirectBit(bit);
      }
      rest := rest.tail;
    }
    rc.FlushData();
    out := rc.out;
    EncodedValue(cs);
    ValueInjective(out, Encoded(cs));
  }
}
