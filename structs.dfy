/** `StructImpl`: a fixed-length tuple of values over a mutable `data` array, with
    element access, Java's array hash, and an `equals` that, on equal contents,
    makes the two structs share the older array. */
module Structs {
  import opened Common

  // ---------------------------------------------------------------------------
  // Java's 32-bit int arithmetic and Arrays.hashCode
  // ---------------------------------------------------------------------------

  const Modulus: int := 0x1_0000_0000
  const Half: int := 0x8000_0000

  /** Two's-complement wrap-around of a Java `int` result. */
  function Wrap32(x: int): (r: int)
    ensures -Half <= r < Half
  {
    (x + Half) % Modulus - Half
  }

  lemma {:induction false} ModShift(a: int, k: int)
    ensures (a + Modulus * k) % Modulus == a % Modulus
    decreases if k < 0 then -k else k
  {
    if k > 0 {
      ModShift(a, k - 1);
      assert a + Modulus * k == (a + Modulus * (k - 1)) + Modulus;
    } else if k < 0 {
      ModShift(a, k + 1);
      assert a + Modulus * (k + 1) == (a + Modulus * k) + Modulus;
    }
  }

  /** Adding a multiple of 2^32 does not change a wrapped value. */
  lemma WrapShift(x: int, k: int)
    ensures Wrap32(x + Modulus * k) == Wrap32(x)
  {
    ModShift(x + Half, k);
    assert x + Modulus * k + Half == (x + Half) + Modulus * k;
  }

  /** `Arrays.hashCode(data)`: start at 1, then `31 * h + hash(e)` for each element in
      order, all in 32-bit ints; `hash` is the elements' `hashCode` (0 for null). */
  function ArrayHash<T>(s: seq<T>, hash: T -> int): int {
    if |s| == 0 then 1 else Wrap32(31 * ArrayHash(s[..|s| - 1], hash) + hash(s[|s| - 1]))
  }

  /** The same polynomial over unbounded integers: `31^n + sum 31^(n-1-i) * hash(s[i])`. */
  function PolyHash<T>(s: seq<T>, hash: T -> int): int {
    if |s| == 0 then 1 else 31 * PolyHash(s[..|s| - 1], hash) + hash(s[|s| - 1])
  }

  /** `Arrays.hashCode` is the polynomial hash reduced into the 32-bit range. */
  lemma {:induction false} ArrayHashIsPoly<T>(s: seq<T>, hash: T -> int)
    ensures ArrayHash(s, hash) == Wrap32(PolyHash(s, hash))
    ensures -Half <= ArrayHash(s, hash) < Half
    decreases |s|
  {
    if |s| > 0 {
      var p := s[..|s| - 1];
      ArrayHashIsPoly(p, hash);
      var x := PolyHash(p, hash);
      var k := (x + Half) / Modulus;
      assert Wrap32(x) == x - Modulus * k;
      var y := hash(s[|s| - 1]);
      assert 31 * Wrap32(x) + y == (31 * x + y) + Modulus * (-31 * k);
      WrapShift(31 * x + y, -31 * k);
    }
  }

  // ---------------------------------------------------------------------------
  // The struct
  // ---------------------------------------------------------------------------

  /** A struct: `runtimeClass` stands for `getClass()`, `data` for the backing array. */
  class StructImpl<T(==)> {
    const runtimeClass: nat
    var data: array<T>

    /** `StructImpl(data)`: `postCreate` is the identity here, so the struct keeps the array it is given. */
    constructor (cls: nat, data: array<T>)
      ensures runtimeClass == cls && this.data == data
    {
      runtimeClass := cls;
      this.data := data;
    }

    /** `get(i)`: the `i`-th value, or the array's index exception. */
    method Get(i: int) returns (r: Result<T>)
      ensures (i < 0 || i >= data.Length) <==> r == Failure(IndexOutOfBounds)
      ensures 0 <= i < data.Length ==> r == Success(data[i])
    {
      if i < 0 || i >= data.Length {
        return Failure(IndexOutOfBounds);
      }
      return Success(data[i]);
    }

    /** `set(i, val)`: writes slot `i` and returns `val`; nothing else changes. */
    method Set(i: int, val: T) returns (r: Result<T>)
      modifies data
      ensures (i < 0 || i >= data.Length) <==> r == Failure(IndexOutOfBounds)
      ensures (i < 0 || i >= data.Length) ==> data[..] == old(data[..])
      ensures 0 <= i < data.Length ==> r == Success(val) && data[..] == old(data[..])[i := val]
    {
      if i < 0 || i >= data.Length {
        return Failure(IndexOutOfBounds);
      }
      data[i] := val;
      return Success(val);
    }

    method Length() returns (n: nat)
      ensures n == data.Length
    {
      return data.Length;
    }

    /** `hashCode()`: `Arrays.hashCode(data)`. */
    method HashCode(hash: T -> int) returns (h: int)
      ensures h == ArrayHash(data[..], hash)
    {
      h := 1;
      var i := 0;
      while i < data.Length
        invariant 0 <= i <= data.Length
        invariant h == ArrayHash(data[..i], hash)
      {
        assert data[..i + 1][..i] == data[..i];
        h := Wrap32(31 * h + hash(data[i]));
        i := i + 1;
      }
      assert data[..data.Length] == data[..];
    }

    /** `equals(obj)`: true for the same struct; false for null, another class or other contents,
        changing nothing; on equal contents in distinct arrays, both structs end up on the array
        with the larger `age` (the other's on a tie) and no array is written. */
    method Equals(other: StructImpl?<T>, age: array<T> -> int) returns (b: bool)
      modifies this, other
      ensures other == this ==> b && unchanged(this)
      ensures other != this ==>
                (b <==> other != null && other.runtimeClass == runtimeClass && old(data[..]) == old(other.data[..]))
      ensures !b ==> unchanged(this) && (other != null ==> unchanged(other))
      ensures b && other != null && old(data) == old(other.data) ==> unchanged(this) && unchanged(other)
      ensures b && other != this ==>
                && data == other.data
                && data == (if old(data) == old(other.data) || age(old(data)) > age(old(other.data)) then old(data) else old(other.data))
      ensures data[..] == old(data[..])
      ensures other != null ==> other.data[..] == old(other.data[..])
    {
      if other == this {
        return true;
      }
      if other == null || other.runtimeClass != runtimeClass {
        return false;
      }
      if other.data == data {
        return true;
      }
      if data[..] != other.data[..] {
        return false;
      }
      if age(data) > age(other.data) {
        other.data := data;
      } else {
        data := other.data;
      }
      return true;
    }
  }

  /** What a caller observes of two structs across `equals`: `get(i)`, `length()` and `hashCode()`
      of each are the same before and after, and equal structs have equal hash codes. */
  method ObserveAcrossEquals<T(==)>(s: StructImpl<T>, t: StructImpl<T>, age: array<T> -> int, hash: T -> int, i: int)
    returns (equal: bool, before: (Result<T>, nat, int), after: (Result<T>, nat, int), hashS: int, hashT: int)
    modifies s, t
    ensures before == after
    ensures equal ==> hashS == hashT
  {
    var g0 := s.Get(i);
    var n0 := s.Length();
    var h0 := s.HashCode(hash);
    before := (g0, n0, h0);
    equal := s.Equals(t, age);
    var g1 := s.Get(i);
    var n1 := s.Length();
    var h1 := s.HashCode(hash);
    after := (g1, n1, h1);
    hashS := h1;
    hashT := t.HashCode(hash);
  }

  /** `set(i, v)` followed by `get(i)` returns `v`. */
  method SetThenGet<T(==)>(s: StructImpl<T>, i: int, val: T) returns (r: Result<T>)
    modifies s.data
    ensures 0 <= i < s.data.Length ==> r == Success(val)
    ensures (i < 0 || i >= s.data.Length) ==> r == Failure(IndexOutOfBounds)
  {
    var _ := s.Set(i, val);
    r := s.Get(i);
  }
}
