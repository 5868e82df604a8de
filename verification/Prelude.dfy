/** Types and sequence facts shared by every component. */
module Prelude {

  type Byte = bv8
  type Bytes = seq<Byte>

  datatype Option<+T> = None | Some(value: T)

  datatype Result<+T, +E> = Ok(value: T) | Err(error: E)

  function Min(a: int, b: int): int {
    if a <= b then a else b
  }

  function Max(a: int, b: int): int {
    if a <= b then b else a
  }

  /** Rust's `u64::div_ceil`. */
  function DivCeil(a: nat, b: nat): nat
    requires b > 0
  {
    if a % b == 0 then a / b else a / b + 1
  }

  lemma DivCeilBounds(a: nat, b: nat)
    requires b > 0
    ensures a <= DivCeil(a, b) * b < a + b
    ensures forall i: nat :: i < DivCeil(a, b) <==> i * b < a
  {
    var q := DivCeil(a, b);
    assert a == (a / b) * b + a % b;
    assert a <= q * b < a + b;
    forall i: nat
      ensures i < q <==> i * b < a
    {
      if i < q { MulMono(i, q - 1, b); } else { MulMono(q, i, b); }
    }
  }

  lemma MulMono(i: nat, j: nat, b: nat)
    requires i <= j
    ensures i * b <= j * b
  {
  }

  lemma DivBracket(pos: nat, b: nat)
    requires b > 0
    ensures (pos / b) * b <= pos < (pos / b) * b + b
  {
    assert pos == (pos / b) * b + pos % b;
  }

  lemma DivMono(a: nat, c: nat, b: nat)
    requires b > 0 && a <= c
    ensures a / b <= c / b
  {
    DivBracket(a, b);
    DivBracket(c, b);
    if c / b < a / b { MulMono(c / b + 1, a / b, b); }
  }

  /** The quotient is the only block number whose block holds the position. */
  lemma DivUnique(pos: nat, b: nat, i: nat)
    requires b > 0 && i * b <= pos < i * b + b
    ensures pos / b == i
  {
    var q := pos / b;
    assert pos == q * b + pos % b;
    if q < i { MulMono(q + 1, i, b); }
    if i < q { MulMono(i + 1, q, b); }
  }

  // ----- sequences without repetition -----

  ghost predicate NoDup<T>(s: seq<T>) {
    forall i, j :: 0 <= i < j < |s| ==> s[i] != s[j]
  }

  ghost function Elems<T>(s: seq<T>): set<T> {
    set x | x in s
  }

  lemma SomeMember<T>(s: seq<T>)
    ensures s == [] || s[0] in s
  {
  }

  lemma TakeSnoc<T>(s: seq<T>, k: nat)
    requires k < |s|
    ensures s[..k + 1] == s[..k] + [s[k]]
    ensures Elems(s[..k + 1]) == Elems(s[..k]) + {s[k]}
  {
  }

  lemma NoDupCard<T>(s: seq<T>)
    requires NoDup(s)
    ensures |Elems(s)| == |s|
  {
    if s != [] {
      var rest := s[..|s| - 1];
      NoDupCard(rest);
      assert Elems(s) == Elems(rest) + {s[|s| - 1]};
    }
  }

  lemma ElemsConcat<T>(a: seq<T>, b: seq<T>)
    ensures Elems(a + b) == Elems(a) + Elems(b)
  {
  }

  lemma NoDupConcat<T>(a: seq<T>, b: seq<T>)
    requires NoDup(a) && NoDup(b) && Elems(a) !! Elems(b)
    ensures NoDup(a + b)
  {
    forall i, j | 0 <= i < j < |a + b|
      ensures (a + b)[i] != (a + b)[j]
    {
      if i < |a| <= j {
        assert a[i] in Elems(a) && b[j - |a|] in Elems(b);
      }
    }
  }

  lemma NoDupSnoc<T>(s: seq<T>, x: T)
    requires NoDup(s) && x !in Elems(s)
    ensures NoDup(s + [x]) && Elems(s + [x]) == Elems(s) + {x} && (s + [x])[..|s|] == s
  {
    NoDupConcat(s, [x]);
  }

  /** The elements of `s` outside `drop`, in order. */
  ghost function Minus<T>(s: seq<T>, drop: set<T>): seq<T> {
    if s == [] then [] else if s[0] in drop then Minus(s[1..], drop) else [s[0]] + Minus(s[1..], drop)
  }

  lemma MinusElems<T>(s: seq<T>, drop: set<T>)
    ensures Elems(Minus(s, drop)) == Elems(s) - drop
    ensures NoDup(s) ==> NoDup(Minus(s, drop))
  {
    if s != [] {
      MinusElems(s[1..], drop);
      assert s == [s[0]] + s[1..];
      ElemsConcat([s[0]], s[1..]);
      ElemsConcat([s[0]], Minus(s[1..], drop));
      if NoDup(s) && s[0] !in drop {
        assert s[0] !in Elems(s[1..]);
        NoDupConcat([s[0]], Minus(s[1..], drop));
      }
    }
  }

  lemma MinusConcat<T>(a: seq<T>, b: seq<T>, drop: set<T>)
    ensures Minus(a + b, drop) == Minus(a, drop) + Minus(b, drop)
  {
    if a == [] {
      assert a + b == b;
    } else {
      assert (a + b)[1..] == a[1..] + b;
      MinusConcat(a[1..], b, drop);
    }
  }

  lemma MinusNothing<T>(s: seq<T>, drop: set<T>)
    requires Elems(s) !! drop
    ensures Minus(s, drop) == s
  {
    if s != [] {
      assert s[0] in Elems(s);
      assert Elems(s[1..]) <= Elems(s);
      MinusNothing(s[1..], drop);
    }
  }

  lemma MinusAll<T>(s: seq<T>, drop: set<T>)
    requires Elems(s) <= drop
    ensures Minus(s, drop) == []
  {
    if s != [] {
      assert s[0] in Elems(s);
      assert Elems(s[1..]) <= Elems(s);
      MinusAll(s[1..], drop);
    }
  }

  lemma MinusTwice<T>(s: seq<T>, a: set<T>, b: set<T>)
    ensures Minus(Minus(s, a), b) == Minus(s, a + b)
  {
    if s != [] {
      MinusTwice(s[1..], a, b);
    }
  }

  /** The block `lo, lo + 1, ..., hi - 1`. */
  function Interval(lo: nat, hi: nat): (s: seq<nat>)
    requires lo <= hi
    ensures |s| == hi - lo && forall k :: 0 <= k < |s| ==> s[k] == lo + k
    ensures NoDup(s) && forall i :: i in s <==> lo <= i < hi
  {
    var s := seq(hi - lo, i requires 0 <= i => lo + i);
    CountingMembers(s, lo);
    s
  }

  lemma CountingMembers(s: seq<nat>, lo: nat)
    requires forall k :: 0 <= k < |s| ==> s[k] == lo + k
    ensures forall i :: i in s <==> lo <= i < lo + |s|
  {
    forall i | lo <= i < lo + |s|
      ensures i in s
    {
      assert s[i - lo] == i;
    }
  }
}
