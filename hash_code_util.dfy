/**
 * Building blocks for `hashCode` implementations: a field's contribution is
 * added to 37 times the running value, in 32-bit two's-complement arithmetic.
 * A Java `int` is modelled by its bit pattern read as an unsigned number, so
 * Java's wrap-around on overflow is the remainder modulo 2^32.
 */
module HashCodeUtil {

  const Modulus: int := 0x1_0000_0000

  /** The 32 bits of a Java `int`. */
  type Int32 = x: int | 0 <= x < Modulus

  /** The 16 bits of a Java `char`, a UTF-16 code unit. */
  type Char16 = c: int | 0 <= c < 0x1_0000

  /** The 64 bits of a Java `long`. */
  type Long64 = bv64

  /** The result of 32-bit arithmetic: the low 32 bits of the exact value. */
  function Wrap(x: int): Int32
  {
    x % Modulus
  }

  /** The initial value of a hash code. */
  const Seed: Int32 := 23

  /** `firstTerm`: the odd prime 37 times the running value, wrapping around. */
  function FirstTerm(seed: Int32): Int32
  {
    Wrap(37 * seed)
  }

  /** `hash(int, boolean)`. */
  function HashBool(seed: Int32, field: bool): Int32
  {
    Wrap(FirstTerm(seed) + if field then 1 else 0)
  }

  /** `hash(int, char)`: the character's code unit, zero-extended. */
  function HashChar(seed: Int32, field: Char16): Int32
  {
    Wrap(FirstTerm(seed) + field)
  }

  /** `hash(int, int)`; bytes and shorts reach it by widening. */
  function HashInt(seed: Int32, field: Int32): Int32
  {
    Wrap(FirstTerm(seed) + field)
  }

  /** `(int)(l ^ (l >>> 32))`: the low 32 bits of the long xor-ed with its high half. */
  function FoldLong(l: Long64): (r: Int32)
    ensures r == (((l & 0xFFFF_FFFF) ^ (l >> 32)) as int)
  {
    ((l ^ (l >> 32)) & 0xFFFF_FFFF) as int
  }

  /** `hash(int, long)`. */
  function HashLong(seed: Int32, field: Long64): Int32
  {
    HashInt(seed, FoldLong(field))
  }

  /**
   * The objects `hash(int, Object)` distinguishes: `null`, arrays (whose
   * elements `Array.get` returns, primitives boxed), and any other object,
   * known by an identity and the value its `hashCode` returns.
   */
  datatype JValue = Null | ArrayOf(elems: seq<JValue>) | Obj(id: nat, hashCode: Int32)

  /** What `hash(int, Object)` computes. */
  function ObjectHash(seed: Int32, v: JValue): Int32
    decreases v
  {
    match v
    case Null => HashInt(seed, 0)
    case ArrayOf(elems) => ElementsHash(seed, elems)
    case Obj(_, h) => HashInt(seed, h)
  }

  /** The left fold of `ObjectHash` over array elements. */
  function ElementsHash(seed: Int32, elems: seq<JValue>): Int32
    decreases elems
  {
    if elems == [] then seed
    else ObjectHash(ElementsHash(seed, elems[..|elems| - 1]), elems[|elems| - 1])
  }

  /** `hash(int, Object)`, recursing into array elements. */
  method Hash(seed: Int32, obj: JValue) returns (result: Int32)
    ensures result == ObjectHash(seed, obj)
    decreases obj
  {
    result := seed;
    if obj.Null? {
      result := HashInt(result, 0);
    } else if obj.ArrayOf? {
      var length := |obj.elems|;
      for i := 0 to length
        invariant result == ElementsHash(seed, obj.elems[..i])
      {
        var item := obj.elems[i];
        assert obj.elems[..i + 1][..i] == obj.elems[..i];
        result := Hash(result, item);
      }
      assert obj.elems[..length] == obj.elems;
    } else {
      result := HashInt(result, obj.hashCode);
    }
  }

  // ---------------------------------------------------------------------------
  // Scalar fields
  // ---------------------------------------------------------------------------

  /** Two values with the same low 32 bits differ by a multiple of 2^32. */
  lemma WrapDifference(a: int, b: int)
    requires Wrap(a) == Wrap(b)
    ensures a - b == (a / Modulus - b / Modulus) * Modulus
  {
  }

  /** Only zero is a multiple of 37 that wraps to zero: 37 has the inverse
      2437684141 modulo 2^32. */
  lemma OddPrimeKernel(d: int, q: int)
    requires -Modulus < d < Modulus && 37 * d == q * Modulus
    ensures d == 0
  {
    assert 2437684141 * 37 == 1 + 21 * Modulus;
    calc {
      d + 21 * Modulus * d;
      2437684141 * 37 * d;
      2437684141 * (q * Modulus);
    }
    assert d == (2437684141 * q - 21 * d) * Modulus;
  }

  /** Distinct running values give distinct first terms. */
  lemma FirstTermInjective(s: Int32, t: Int32)
    ensures FirstTerm(s) == FirstTerm(t) <==> s == t
  {
    if FirstTerm(s) == FirstTerm(t) {
      WrapDifference(37 * s, 37 * t);
      var q := 37 * s / Modulus - 37 * t / Modulus;
      assert 37 * (s - t) == q * Modulus;
      OddPrimeKernel(s - t, q);
    }
  }

  /** `true` and `false` never hash alike under the same seed. */
  lemma BoolHashesDiffer(seed: Int32)
    ensures HashBool(seed, true) != HashBool(seed, false)
  {
  }

  /** Under the same seed, two characters hash alike exactly when they are equal. */
  lemma CharHashInjective(seed: Int32, c: Char16, d: Char16)
    ensures HashChar(seed, c) == HashChar(seed, d) <==> c == d
  {
  }

  /** Under the same seed, two ints hash alike exactly when they are equal. */
  lemma IntHashInjective(seed: Int32, v: Int32, w: Int32)
    ensures HashInt(seed, v) == HashInt(seed, w) <==> v == w
  {
  }

  /** A long whose high half is zero hashes like the int with the same value. */
  lemma SmallLongHashesLikeInt(seed: Int32, l: Long64)
    requires l < 0x1_0000_0000
    ensures HashLong(seed, l) == HashInt(seed, l as int)
  {
  }

  /** Longs whose halves xor to the same value collide: 0 and 2^32 + 1 hash alike. */
  lemma LongHashCollides(seed: Int32)
    ensures HashLong(seed, 0x1_0000_0001) == HashLong(seed, 0)
  {
  }

  /** The test suite's longs: 1000000000 and 1000000001 hash apart. */
  lemma AdjacentLongsDiffer(seed: Int32)
    ensures HashLong(seed, 1000000000) != HashLong(seed, 1000000001)
  {
    SmallLongHashesLikeInt(seed, 1000000000);
    SmallLongHashesLikeInt(seed, 1000000001);
  }

  // ---------------------------------------------------------------------------
  // Objects and arrays
  // ---------------------------------------------------------------------------

  /** `null` contributes zero: its hash is the first term alone. */
  lemma NullHash(seed: Int32)
    ensures ObjectHash(seed, Null) == FirstTerm(seed)
  {
  }

  /** An empty array leaves the running value unchanged. */
  lemma EmptyArrayHash(seed: Int32)
    ensures ObjectHash(seed, ArrayOf([])) == seed
  {
  }

  /** The fold splits at any point: the elements after it continue from the
      value the elements before it produced. */
  lemma {:induction false} ElementsHashAppend(seed: Int32, xs: seq<JValue>, ys: seq<JValue>)
    ensures ElementsHash(seed, xs + ys) == ElementsHash(ElementsHash(seed, xs), ys)
    decreases |ys|
  {
    if ys == [] {
      assert xs + ys == xs;
    } else {
      var zs := xs + ys;
      assert zs[..|zs| - 1] == xs + ys[..|ys| - 1];
      assert zs[|zs| - 1] == ys[|ys| - 1];
      ElementsHashAppend(seed, xs, ys[..|ys| - 1]);
    }
  }

  /** An array nested as the only element hashes like its own elements: nesting is invisible. */
  lemma NestedArrayFlattens(seed: Int32, es: seq<JValue>)
    ensures ObjectHash(seed, ArrayOf([ArrayOf(es)])) == ObjectHash(seed, ArrayOf(es))
  {
    var one := [ArrayOf(es)];
    assert one[..0] == [];
    assert ElementsHash(seed, one) == ObjectHash(ElementsHash(seed, []), ArrayOf(es));
  }

  /** Two values that contribute alike from every running value. */
  ghost predicate Equivalent(x: JValue, y: JValue)
  {
    forall t: Int32 :: ObjectHash(t, x) == ObjectHash(t, y)
  }

  /** Distinct objects whose `hashCode` agree are equivalent. */
  lemma EqualHashCodesEquivalent(i: nat, j: nat, h: Int32)
    ensures Equivalent(Obj(i, h), Obj(j, h))
  {
  }

  /** Replacing one element by an equivalent value leaves the array's hash unchanged. */
  lemma {:induction false} ReplaceEquivalent(seed: Int32, es: seq<JValue>, k: nat, y: JValue)
    requires k < |es| && Equivalent(es[k], y)
    ensures ElementsHash(seed, es[k := y]) == ElementsHash(seed, es)
    decreases |es|
  {
    var fs := es[k := y];
    var n := |es| - 1;
    assert fs[..n] == if k < n then es[..n][k := y] else es[..n];
    if k < n {
      ReplaceEquivalent(seed, es[..n], k, y);
    }
  }

  /** Swapping two equivalent elements leaves the array's hash unchanged, which
      is what the test suite's two orderings of equal dates rely on. */
  lemma SwapEquivalent(seed: Int32, es: seq<JValue>, i: nat, j: nat)
    requires i < |es| && j < |es| && Equivalent(es[i], es[j])
    ensures ElementsHash(seed, es[i := es[j]][j := es[i]]) == ElementsHash(seed, es)
  {
    var fs := es[i := es[j]];
    ReplaceEquivalent(seed, es, i, es[j]);
    assert Equivalent(fs[j], es[i]);
    ReplaceEquivalent(seed, fs, j, es[i]);
  }

  /** Order matters in general: two objects whose hash codes are 0 and 1 give
      different hashes in the two orders. */
  lemma OrderMatters(seed: Int32)
    ensures ObjectHash(seed, ArrayOf([Obj(0, 0), Obj(1, 1)])) != ObjectHash(seed, ArrayOf([Obj(1, 1), Obj(0, 0)]))
  {
    TwoObjects(seed, Obj(0, 0), Obj(1, 1));
    TwoObjects(seed, Obj(1, 1), Obj(0, 0));
    var u: int := FirstTerm(seed);
    assert HashInt(seed, 0) == u;
    assert HashInt(seed, 1) == Wrap(u + 1);
    ShiftedHashesDiffer(u);
  }

  /** An array of two objects hashes as the two hash codes fed in turn. */
  lemma TwoObjects(seed: Int32, p: JValue, q: JValue)
    requires p.Obj? && q.Obj?
    ensures ObjectHash(seed, ArrayOf([p, q])) == HashInt(HashInt(seed, p.hashCode), q.hashCode)
  {
    var a := [p, q];
    assert a[..1] == [p] && a[..1][..0] == [];
    assert ElementsHash(seed, a[..1]) == HashInt(seed, p.hashCode);
    assert ElementsHash(seed, a) == ObjectHash(ElementsHash(seed, a[..1]), q);
  }

  /** The arithmetic behind `OrderMatters`: feeding 1 then 0 and 0 then 1 after
      a running value `u` gives 37 * u + 1 and 37 * u + 37, which differ by 36,
      no multiple of 2^32. */
  lemma ShiftedHashesDiffer(u: Int32)
    ensures HashInt(u, 1) != HashInt(Wrap(u + 1), 0)
  {
    if u == Modulus - 1 {
      assert Wrap(u + 1) == 0;
      LastValueShifted();
    } else {
      var w: int := FirstTerm(u);
      WrapShift(37 * u, 1);
      WrapShift(37 * u, 37);
      assert Wrap(u + 1) == u + 1;
      if Wrap(w + 1) == Wrap(w + 37) {
        WrapDifference(w + 37, w + 1);
      }
    }
  }

  /** The case of `ShiftedHashesDiffer` where `u + 1` wraps to zero. */
  lemma LastValueShifted()
    ensures HashInt(Modulus - 1, 1) != HashInt(0, 0)
  {
    assert FirstTerm(Modulus - 1) == Modulus - 37;
  }

  /** Adding to a value and adding to its low 32 bits agree in the low 32 bits. */
  lemma WrapShift(a: int, k: int)
    ensures Wrap(a + k) == Wrap(Wrap(a) + k)
  {
    assert a == (a / Modulus) * Modulus + Wrap(a);
  }
}
