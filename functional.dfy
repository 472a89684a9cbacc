/**
  Function objects and hashes of ccystl/functor/functional.h.

  The arithmetic, comparison and logical functors are modelled on `int` and `bool`; C++
  integer division truncates toward zero, which `Divides` and `Modulus` write out.  A
  `size_t` is 64 bits wide (`bv64`) on the platforms where the source picks the 64-bit
  FNV constants and 32 bits wide (`bv32`) elsewhere, so the wrap-around of the FNV
  multiplication is the bit-vector multiplication.
 */
module Functional {
  import Order
  import Utils

  // ---------------------------------------------------------------------------------------
  // Arithmetic functors

  /** `plus<int>`. */
  function Plus(x: int, y: int): (r: int) { x + y }

  /** `minus<int>`. */
  function Minus(x: int, y: int): (r: int) { x - y }

  /** `multiplies<int>`. */
  function Multiplies(x: int, y: int): (r: int) { x * y }

  /** `negate<int>`. */
  function Negate(x: int): (r: int) { -x }

  function Abs(x: int): (r: nat) { if x < 0 then -x else x }

  /** `divides<int>`: C++ `/`, which truncates toward zero.  Division by zero is undefined
      in C++, so the caller must not divide by zero. */
  function Divides(x: int, y: int): (r: int)
    requires y != 0
  {
    var q := Abs(x) / Abs(y);
    if (x < 0) == (y < 0) then q else -q
  }

  /** `modulus<int>`: C++ `%`, whose result takes the sign of the dividend. */
  function Modulus(x: int, y: int): (r: int)
    requires y != 0
  {
    var m := Abs(x) % Abs(y);
    if x < 0 then -m else m
  }

  /** The C++ division laws: the quotient times the divisor plus the remainder gives the
      dividend back, the remainder is smaller than the divisor in magnitude and has the
      dividend's sign, and the quotient is rounded toward zero. */
  lemma DivisionLaws(x: int, y: int)
    requires y != 0
    ensures Divides(x, y) * y + Modulus(x, y) == x
    ensures Abs(Modulus(x, y)) < Abs(y)
    ensures x >= 0 ==> Modulus(x, y) >= 0
    ensures x < 0 ==> Modulus(x, y) <= 0
    ensures Abs(Divides(x, y) * y) <= Abs(x)
  {
    var ax, ay := Abs(x), Abs(y);
    var q0, m0 := Euclid(ax, ay);
    var q: int, m: int := q0, m0;
    var d, r := Divides(x, y), Modulus(x, y);
    assert d == (if (x < 0) == (y < 0) then q else -q);
    assert r == (if x < 0 then -m else m);
    Signs(q, ay, d, y);
  }

  /** Division of natural numbers names its quotient and remainder. */
  lemma Euclid(a: nat, b: nat) returns (q: nat, m: nat)
    requires b > 0
    ensures q == a / b && m == a % b && q * b + m == a && m < b
  {
    q, m := a / b, a % b;
  }

  /** The sign rule for a product of `q` or `-q` with `n` or `-n`. */
  lemma Signs(q: int, n: int, d: int, y: int)
    requires (d == q || d == -q) && (y == n || y == -n)
    ensures d * y == (if (d == q) == (y == n) then q * n else -(q * n))
  {
  }

  /** Division by -1 and by 1, and the identity element of `plus` under `minus`. */
  lemma NegateLaws(x: int)
    ensures Negate(Negate(x)) == x
    ensures Plus(x, Negate(x)) == 0
    ensures Minus(x, x) == IdentityPlus()
    ensures Divides(x, -1) == Negate(x) && Modulus(x, -1) == 0
  {
  }

  // ---------------------------------------------------------------------------------------
  // Comparison and logical functors

  /** `equal_to<int>`. */
  predicate EqualTo(x: int, y: int) { x == y }

  /** `not_equal_to<int>`. */
  predicate NotEqualTo(x: int, y: int) { x != y }

  /** `greater<int>`. */
  predicate Greater(x: int, y: int) { x > y }

  /** `less<int>`: the comparator every `<` overload of the algorithms uses. */
  predicate Less(x: int, y: int) { x < y }

  /** `greater_equal<int>`. */
  predicate GreaterEqual(x: int, y: int) { x >= y }

  /** `less_equal<int>`. */
  predicate LessEqual(x: int, y: int) { x <= y }

  /** `logical_and<bool>`. */
  predicate LogicalAnd(x: bool, y: bool) { x && y }

  /** `logical_or<bool>`. */
  predicate LogicalOr(x: bool, y: bool) { x || y }

  /** `logical_not<bool>`. */
  predicate LogicalNot(x: bool) { !x }

  /** `less` is a strict total order, so the algorithms' comparator requirements hold for
      their `<` overloads. */
  lemma LessIsStrictTotalOrder()
    ensures Order.StrictTotalOrder(Less)
  {
  }

  /** `greater` is a strict total order too: it is `less` with the operands swapped. */
  lemma GreaterIsStrictTotalOrder()
    ensures Order.StrictTotalOrder(Greater)
  {
  }

  /** Every comparison functor is `less` with its operands swapped or its result negated,
      and `not_equal_to` is the negation of `equal_to`. */
  lemma ComparisonsFromLess(x: int, y: int)
    ensures Greater(x, y) == Less(y, x)
    ensures LessEqual(x, y) == !Less(y, x)
    ensures GreaterEqual(x, y) == !Less(x, y)
    ensures EqualTo(x, y) == (!Less(x, y) && !Less(y, x))
    ensures NotEqualTo(x, y) == !EqualTo(x, y)
  {
  }

  /** De Morgan's laws for the logical functors. */
  lemma LogicalLaws(x: bool, y: bool)
    ensures LogicalNot(LogicalAnd(x, y)) == LogicalOr(LogicalNot(x), LogicalNot(y))
    ensures LogicalNot(LogicalOr(x, y)) == LogicalAnd(LogicalNot(x), LogicalNot(y))
    ensures LogicalNot(LogicalNot(x)) == x
  {
  }

  // ---------------------------------------------------------------------------------------
  // Identity elements, identity, selection and projection

  /** `identity_element(plus<int>)`. */
  function IdentityPlus(): (e: int) { 0 }

  /** `identity_element(multiplies<int>)`. */
  function IdentityMultiplies(): (e: int) { 1 }

  /** Each identity element is a left and a right unit of its functor. */
  lemma IdentityElementsAreUnits(x: int)
    ensures Plus(IdentityPlus(), x) == x && Plus(x, IdentityPlus()) == x
    ensures Multiplies(IdentityMultiplies(), x) == x && Multiplies(x, IdentityMultiplies()) == x
  {
  }

  /** Only 0 is a unit of `plus`, and only 1 is a unit of `multiplies`: the identity
      elements are the only choice. */
  lemma IdentityElementsAreUnique(e: int)
    ensures (forall x :: Plus(e, x) == x) <==> e == IdentityPlus()
    ensures (forall x :: Multiplies(e, x) == x) <==> e == IdentityMultiplies()
  {
    if forall x :: Plus(e, x) == x {
      assert Plus(e, 0) == 0;
    }
    if forall x :: Multiplies(e, x) == x {
      assert Multiplies(e, 1) == 1;
    }
  }

  /** `identity<T>`. */
  function Identity<T>(x: T): (r: T) { x }

  /** `selectfirst<pair>`. */
  function SelectFirst<A, B>(p: Utils.Pair<A, B>): (r: A)
    reads p
  {
    p.first
  }

  /** `selectsecond<pair>`. */
  function SelectSecond<A, B>(p: Utils.Pair<A, B>): (r: B)
    reads p
  {
    p.second
  }

  /** `projectfirst<Arg1, Arg2>`. */
  function ProjectFirst<A, B>(x: A, y: B): (r: A) { x }

  /** `projectsecond<Arg1, Arg2>`. */
  function ProjectSecond<A, B>(x: A, y: B): (r: B) { y }

  /** Selecting a component of a pair is projecting its two components, and neither
      changes the value it passes on. */
  lemma SelectIsProject<A, B>(p: Utils.Pair<A, B>)
    ensures SelectFirst(p) == ProjectFirst(p.first, p.second) == Identity(p.first)
    ensures SelectSecond(p) == ProjectSecond(p.first, p.second) == Identity(p.second)
  {
  }

  /** A pair built by make_pair from two values gives them back through the selectors. */
  method SelectMadePair<A, B>(x: A, y: B) returns (a: A, b: B)
    ensures a == x && b == y
  {
    var p := Utils.MakePair(x, y);
    a, b := SelectFirst(p), SelectSecond(p);
  }

  // ---------------------------------------------------------------------------------------
  // Hashes

  const SizeModulus: int := 0x1_0000_0000_0000_0000

  /** The integer `hash` specialisations: `static_cast<size_t>(val)` for a value of any
      integer type from `signed char` to `unsigned long long`, which is `val` modulo 2^64. */
  function IntegerHash(val: int): (h: nat)
    requires -0x8000_0000_0000_0000 <= val < SizeModulus
    ensures h < SizeModulus
  {
    val % SizeModulus
  }

  /** The integer hash is the identity on the values a `size_t` holds, and adds 2^64 to
      a negative value. */
  lemma IntegerHashValues(val: int)
    requires -0x8000_0000_0000_0000 <= val < SizeModulus
    ensures 0 <= val ==> IntegerHash(val) == val
    ensures val < 0 ==> IntegerHash(val) == val + SizeModulus
  {
  }

  /** Two different values of the same signed or unsigned integer type hash differently. */
  lemma IntegerHashInjective(x: int, y: int)
    requires (-0x8000_0000_0000_0000 <= x < 0x8000_0000_0000_0000 && -0x8000_0000_0000_0000 <= y < 0x8000_0000_0000_0000)
          || (0 <= x < SizeModulus && 0 <= y < SizeModulus)
    ensures IntegerHash(x) == IntegerHash(y) <==> x == y
  {
    IntegerHashValues(x);
    IntegerHashValues(y);
  }

  /** `hash<bool>`: `false` hashes to 0 and `true` to 1. */
  function BoolHash(b: bool): (h: nat)
    ensures h <= 1 && (h == 1 <==> b)
  {
    if b then 1 else 0
  }

  /** The 64-bit FNV-1a offset basis, 14695981039346656037. */
  const FnvOffset64: bv64 := 0xcbf2_9ce4_8422_2325
  /** The 64-bit FNV prime, 1099511628211. */
  const FnvPrime64: bv64 := 0x100_0000_01b3
  /** The 32-bit FNV-1a offset basis, 2166136261. */
  const FnvOffset32: bv32 := 0x811c_9dc5
  /** The 32-bit FNV prime, 16777619. */
  const FnvPrime32: bv32 := 0x100_0193

  /** One FNV-1a step, `result ^= byte; result *= prime`: XOR the byte in, then multiply
      by the prime modulo 2^64. */
  function Fnv64Step(h: bv64, b: bv8): (r: bv64) {
    (h ^ (b as bv64)) * FnvPrime64
  }

  /** FNV-1a over `bytes`, continuing from the hash `h`. */
  function Fnv64From(h: bv64, bytes: seq<bv8>): (r: bv64)
    ensures |bytes| == 0 ==> r == h
    decreases |bytes|
  {
    if |bytes| == 0 then h else Fnv64From(Fnv64Step(h, bytes[0]), bytes[1..])
  }

  /** FNV-1a over `bytes` with a 64-bit `size_t`: from the offset basis, one step per
      byte. */
  function Fnv1a64(bytes: seq<bv8>): (r: bv64)
    ensures |bytes| == 0 ==> r == FnvOffset64
  {
    Fnv64From(FnvOffset64, bytes)
  }

  lemma {:induction false} Fnv64FromAppend(h: bv64, bytes: seq<bv8>, b: bv8)
    ensures Fnv64From(h, bytes + [b]) == Fnv64Step(Fnv64From(h, bytes), b)
    decreases |bytes|
  {
    if |bytes| > 0 {
      assert (bytes + [b])[1..] == bytes[1..] + [b];
      Fnv64FromAppend(Fnv64Step(h, bytes[0]), bytes[1..], b);
    } else {
      assert (bytes + [b])[1..] == [];
    }
  }

  /** The step law: hashing one more byte is one more step on the hash so far. */
  lemma Fnv64StepLaw(bytes: seq<bv8>, b: bv8)
    ensures Fnv1a64(bytes + [b]) == Fnv64Step(Fnv1a64(bytes), b)
  {
    Fnv64FromAppend(FnvOffset64, bytes, b);
  }

  /** The published FNV-1a test vectors for "", "a" and "foobar". */
  lemma Fnv64TestVectors()
    ensures Fnv1a64([]) == 14695981039346656037
    ensures Fnv1a64([0x61]) == 0xaf63_dc4c_8601_ec8c
    ensures Fnv1a64([0x66, 0x6f, 0x6f, 0x62, 0x61, 0x72]) == 0x8594_4171_f739_67e8
  {
  }

  /** bitwise_hash(first, count) with a 64-bit `size_t`. */
  method BitwiseHash64(bytes: seq<bv8>) returns (result: bv64)
    ensures result == Fnv1a64(bytes)
  {
    result := FnvOffset64;
    for i := 0 to |bytes|
      invariant result == Fnv1a64(bytes[..i])
    {
      result := Fnv64Step(result, bytes[i]);
      Fnv64StepLaw(bytes[..i], bytes[i]);
      assert bytes[..i + 1] == bytes[..i] + [bytes[i]];
    }
    assert bytes[..|bytes|] == bytes;
  }

  /** One FNV-1a step with a 32-bit `size_t`. */
  function Fnv32Step(h: bv32, b: bv8): (r: bv32) {
    (h ^ (b as bv32)) * FnvPrime32
  }

  /** FNV-1a over `bytes` with a 32-bit `size_t`, continuing from the hash `h`. */
  function Fnv32From(h: bv32, bytes: seq<bv8>): (r: bv32)
    ensures |bytes| == 0 ==> r == h
    decreases |bytes|
  {
    if |bytes| == 0 then h else Fnv32From(Fnv32Step(h, bytes[0]), bytes[1..])
  }

  /** FNV-1a over `bytes` with a 32-bit `size_t`. */
  function Fnv1a32(bytes: seq<bv8>): (r: bv32)
    ensures |bytes| == 0 ==> r == FnvOffset32
  {
    Fnv32From(FnvOffset32, bytes)
  }

  lemma {:induction false} Fnv32FromAppend(h: bv32, bytes: seq<bv8>, b: bv8)
    ensures Fnv32From(h, bytes + [b]) == Fnv32Step(Fnv32From(h, bytes), b)
    decreases |bytes|
  {
    if |bytes| > 0 {
      assert (bytes + [b])[1..] == bytes[1..] + [b];
      Fnv32FromAppend(Fnv32Step(h, bytes[0]), bytes[1..], b);
    } else {
      assert (bytes + [b])[1..] == [];
    }
  }

  /** The 32-bit test vectors for "", "a" and "foobar". */
  lemma Fnv32TestVectors()
    ensures Fnv1a32([]) == 2166136261
    ensures Fnv1a32([0x61]) == 0xe40c_292c
    ensures Fnv1a32([0x66, 0x6f, 0x6f, 0x62, 0x61, 0x72]) == 0xbf9c_f968
  {
  }

  /** bitwise_hash(first, count) with a 32-bit `size_t`. */
  method BitwiseHash32(bytes: seq<bv8>) returns (result: bv32)
    ensures result == Fnv1a32(bytes)
  {
    result := FnvOffset32;
    for i := 0 to |bytes|
      invariant result == Fnv1a32(bytes[..i])
    {
      result := Fnv32Step(result, bytes[i]);
      Fnv32FromAppend(FnvOffset32, bytes[..i], bytes[i]);
      assert bytes[..i + 1] == bytes[..i] + [bytes[i]];
    }
    assert bytes[..|bytes|] == bytes;
  }
}
