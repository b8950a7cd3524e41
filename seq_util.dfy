/** Sequence helpers that mirror Python list idioms used by the generators. */
module SeqUtil {

  /** Python's `[x] * n`: `n` copies of `x`, and nothing when `n <= 0`. */
  function Replicate<T>(x: T, n: int): (r: seq<T>)
    ensures |r| == if n < 0 then 0 else n
    ensures forall j :: 0 <= j < |r| ==> r[j] == x
    decreases if n < 0 then 0 else n
  {
    if n <= 0 then [] else [x] + Replicate(x, n - 1)
  }

  /** Python's `[x, y] * n`: the pair repeated `n` times, nothing when `n <= 0`. */
  function Alternate<T>(x: T, y: T, n: int): (r: seq<T>)
    ensures |r| == if n < 0 then 0 else 2 * n
    ensures forall j :: 0 <= j < |r| ==> r[j] == if j % 2 == 0 then x else y
    decreases if n < 0 then 0 else n
  {
    if n <= 0 then [] else [x, y] + Alternate(x, y, n - 1)
  }

  /** Python's `s[:-1]`: everything but the last element; empty stays empty. */
  function DropLast<T>(s: seq<T>): (r: seq<T>)
    ensures |r| == if s == [] then 0 else |s| - 1
    ensures forall j :: 0 <= j < |r| ==> r[j] == s[j]
  {
    if s == [] then [] else s[..|s| - 1]
  }

  /** `b"".join(chunks)`: the chunks laid end to end. */
  function Flatten<T>(chunks: seq<seq<T>>): seq<T>
  {
    if chunks == [] then [] else chunks[0] + Flatten(chunks[1..])
  }

  lemma {:induction false} FlattenConcat<T>(a: seq<seq<T>>, b: seq<seq<T>>)
    ensures Flatten(a + b) == Flatten(a) + Flatten(b)
  {
    if a == [] {
      assert a + b == b;
    } else {
      assert (a + b)[1..] == a[1..] + b;
      FlattenConcat(a[1..], b);
    }
  }

  lemma FlattenOne<T>(a: seq<T>)
    ensures Flatten([a]) == a
  {
    assert [a][1..] == [];
    assert a + [] == a;
  }

  lemma FlattenTwo<T>(a: seq<T>, b: seq<T>)
    ensures Flatten([a, b]) == a + b
  {
    assert [a, b][1..] == [b];
    FlattenOne(b);
  }

  lemma FlattenThree<T>(a: seq<T>, b: seq<T>, c: seq<T>)
    ensures Flatten([a, b, c]) == a + b + c
  {
    assert [a, b, c][1..] == [b, c];
    FlattenTwo(b, c);
  }

  lemma FlattenFour<T>(a: seq<T>, b: seq<T>, c: seq<T>, d: seq<T>)
    ensures Flatten([a, b, c, d]) == a + b + c + d
  {
    assert [a, b, c, d][1..] == [b, c, d];
    FlattenThree(b, c, d);
  }

  lemma FlattenFive<T>(a: seq<T>, b: seq<T>, c: seq<T>, d: seq<T>, e: seq<T>)
    ensures Flatten([a, b, c, d, e]) == a + b + c + d + e
  {
    assert [a, b, c, d, e][1..] == [b, c, d, e];
    FlattenFour(b, c, d, e);
  }

  /** No element occurs twice. */
  predicate Distinct<T(==)>(s: seq<T>)
  {
    forall i, j :: 0 <= i < j < |s| ==> s[i] != s[j]
  }

  /** Two repetition-free sequences with no element in common make a repetition-free one. */
  lemma DistinctConcat<T>(a: seq<T>, b: seq<T>)
    requires Distinct(a) && Distinct(b)
    requires forall x :: x in a ==> x !in b
    ensures Distinct(a + b)
  {
    forall i, j | 0 <= i < j < |a + b|
      ensures (a + b)[i] != (a + b)[j]
    {
      if j < |a| {
        assert (a + b)[i] == a[i] && (a + b)[j] == a[j];
      } else if |a| <= i {
        assert (a + b)[i] == b[i - |a|] && (a + b)[j] == b[j - |a|];
      } else {
        assert (a + b)[i] == a[i] && (a + b)[j] == b[j - |a|];
        assert a[i] in a;
      }
    }
  }

  /** The number of occurrences of `x` in `s`. */
  function Count<T(==)>(s: seq<T>, x: T): nat
  {
    if s == [] then 0 else (if s[0] == x then 1 else 0) + Count(s[1..], x)
  }

  /** In a sequence without repetitions every member occurs exactly once. */
  lemma {:induction false} DistinctCountsOnce<T>(s: seq<T>, x: T)
    requires Distinct(s) && x in s
    ensures Count(s, x) == 1
  {
    if s[0] == x {
      NotInCountsZero(s[1..], x);
    } else {
      DistinctCountsOnce(s[1..], x);
    }
  }

  lemma {:induction false} NotInCountsZero<T>(s: seq<T>, x: T)
    requires x !in s
    ensures Count(s, x) == 0
  {
    if s != [] {
      NotInCountsZero(s[1..], x);
    }
  }

  lemma AppendAssociative<T>(a: seq<T>, b: seq<T>, c: seq<T>)
    ensures a + (b + c) == (a + b) + c
  {
  }

  /** The first `|a|` elements of `a + b` are `a`. */
  lemma PrefixOfConcat<T>(a: seq<T>, b: seq<T>)
    ensures (a + b)[..|a|] == a
  {
  }

  /** A sequence is its head followed by its tail. */
  lemma HeadTail<T>(s: seq<T>)
    requires s != []
    ensures s == [s[0]] + s[1..]
  {
  }

  /** Dropping from a suffix is dropping from the whole. */
  lemma DropOfSuffix<T>(s: seq<T>, i: nat, k: nat)
    requires i + k <= |s|
    ensures s[i..][k..] == s[i + k..]
  {
  }

  /** Taking from a suffix is slicing the whole. */
  lemma TakeOfSuffix<T>(s: seq<T>, i: nat, k: nat)
    requires i + k <= |s|
    ensures s[i..][..k] == s[i..i + k]
  {
  }

  predicate HasPrefix<T(==)>(s: seq<T>, p: seq<T>)
  {
    |p| <= |s| && s[..|p|] == p
  }

  lemma {:induction false} CountConcat<T>(a: seq<T>, b: seq<T>, x: T)
    ensures Count(a + b, x) == Count(a, x) + Count(b, x)
  {
    if a == [] {
      assert a + b == b;
    } else {
      assert (a + b)[1..] == a[1..] + b;
      CountConcat(a[1..], b, x);
    }
  }

  /** `[x] * n` holds `x` exactly `n` times (none when `n <= 0`). */
  lemma {:induction false} CountReplicate<T>(x: T, n: int)
    ensures Count(Replicate(x, n), x) == if n < 0 then 0 else n
    decreases if n < 0 then 0 else n
  {
    if n > 0 {
      CountReplicate(x, n - 1);
      assert ([x] + Replicate(x, n - 1))[1..] == Replicate(x, n - 1);
    }
  }

  /** `([x, y] * n)[:-1]` holds `n` copies of `x` and `n - 1` of `y`. */
  lemma {:induction false} CountAlternation<T>(x: T, y: T, n: int)
    requires x != y && n >= 1
    ensures Count(DropLast(Alternate(x, y, n)), x) == n
    ensures Count(DropLast(Alternate(x, y, n)), y) == n - 1
  {
    var a := Alternate(x, y, n);
    if n == 1 {
      assert DropLast(a) == [x];
      assert [x][1..] == [];
    } else {
      var rest := DropLast(Alternate(x, y, n - 1));
      CountAlternation(x, y, n - 1);
      assert DropLast(a) == [x, y] + rest;
      CountConcat([x, y], rest, x);
      CountConcat([x, y], rest, y);
      assert [x, y][1..] == [y] && [y][1..] == [];
    }
  }
}
