/** Sequence helpers shared by pagination (`prepare_pages`) and batching
    (`process_pages_parallel`): both cut a list into consecutive chunks. */
module Seqs {

  /** Taking back the part before an appended element. */
  lemma TakeSnoc<T>(a: seq<T>, x: T)
    ensures (a + [x])[..|a|] == a && (a + [x])[|a|] == x
  {
  }

  /** Regrouping a concatenation of four parts. */
  lemma Regroup<T>(a: seq<T>, b: seq<T>, c: seq<T>, d: seq<T>)
    ensures a + b + c + d == a + (b + c + d)
  {
  }

  /** `u` occurs in `s` starting at index `o`. */
  ghost predicate OccursAt<T>(s: seq<T>, o: nat, u: seq<T>) {
    o + |u| <= |s| && s[o..o + |u|] == u
  }

  /** Where a part sits inside a concatenation. */
  lemma SliceMiddle<T>(s: seq<T>, h: seq<T>, b1: seq<T>, u: seq<T>, b2: seq<T>, r1: seq<T>, r2: seq<T>, o: nat)
    requires s == h + (b1 + u + b2) + r1 + r2
    requires o == |h| + |b1|
    ensures OccursAt(s, o, u)
  {
    forall i | 0 <= i < |u|
      ensures s[o + i] == u[i]
    {
    }
  }

  /** The parts after a prefix. */
  lemma SliceAfter<T>(s: seq<T>, a: seq<T>, u: seq<T>, r: seq<T>, o: nat)
    requires s == a + u + r
    requires o == |a|
    ensures OccursAt(s, o, u)
  {
  }

  /** `f` of the element at `k` sits between the images of the elements
      before and after it. */
  lemma FlatMapSplit<T, U>(s: seq<T>, k: nat, f: T -> seq<U>)
    requires k < |s|
    ensures FlatMap(s, f) == FlatMap(s[..k], f) + f(s[k]) + FlatMap(s[k + 1..], f)
  {
    assert s == s[..k + 1] + s[k + 1..];
    FlatMapAppend(s[..k + 1], s[k + 1..], f);
    FlatMapPrefix(s, k, f);
  }

  /** A slice of a suffix is a slice of the whole, shifted. */
  lemma DropSlice<T>(s: seq<T>, d: nat, i: nat, j: nat)
    requires d <= |s| && i <= j <= |s| - d
    ensures s[d..][i..j] == s[d + i..d + j]
  {
  }

  /** The first `n` elements of a concatenation come from its left part
      when that part has at least `n`. */
  lemma TakeAppend<T>(a: seq<T>, b: seq<T>, n: nat)
    requires n <= |a|
    ensures n <= |a + b| && (a + b)[..n] == a[..n]
  {
  }

  /** A non-empty sequence is its front and its last element. */
  lemma SplitLast<T>(a: seq<T>)
    requires |a| >= 1
    ensures a[..|a| - 1] + [a[|a| - 1]] == a
  {
  }

  /** The concatenation of a sequence of sequences. */
  function Flatten<T>(ss: seq<seq<T>>): seq<T>
    decreases |ss|
  {
    if ss == [] then [] else Flatten(ss[..|ss| - 1]) + ss[|ss| - 1]
  }

  lemma FlattenSnoc<T>(s: seq<seq<T>>, x: seq<T>)
    ensures Flatten(s + [x]) == Flatten(s) + x
  {
    assert (s + [x])[..|s|] == s;
  }

  lemma {:induction false} FlattenAppend<T>(a: seq<seq<T>>, b: seq<seq<T>>)
    ensures Flatten(a + b) == Flatten(a) + Flatten(b)
    decreases |b|
  {
    if b == [] {
      assert a + b == a;
    } else {
      var init, x := b[..|b| - 1], b[|b| - 1];
      assert b == init + [x];
      assert a + b == (a + init) + [x];
      FlattenSnoc(a + init, x);
      FlattenSnoc(init, x);
      FlattenAppend(a, init);
    }
  }

  /** The concatenation of `f` applied to each element, in order. */
  function FlatMap<T, U>(s: seq<T>, f: T -> seq<U>): seq<U>
    decreases |s|
  {
    if s == [] then [] else FlatMap(s[..|s| - 1], f) + f(s[|s| - 1])
  }

  lemma FlatMapSnoc<T, U>(s: seq<T>, x: T, f: T -> seq<U>)
    ensures FlatMap(s + [x], f) == FlatMap(s, f) + f(x)
  {
    TakeSnoc(s, x);
  }

  lemma {:induction false} FlatMapAppend<T, U>(a: seq<T>, b: seq<T>, f: T -> seq<U>)
    ensures FlatMap(a + b, f) == FlatMap(a, f) + FlatMap(b, f)
    decreases |b|
  {
    if b == [] {
      assert a + b == a;
    } else {
      assert a + b == (a + b[..|b| - 1]) + [b[|b| - 1]];
      FlatMapSnoc(a + b[..|b| - 1], b[|b| - 1], f);
      FlatMapAppend(a, b[..|b| - 1], f);
      FlatMapSnoc(b[..|b| - 1], b[|b| - 1], f);
      SplitLast(b);
    }
  }

  /** Extending a prefix by the next element. */
  lemma FlatMapPrefix<T, U>(s: seq<T>, i: nat, f: T -> seq<U>)
    requires i < |s|
    ensures FlatMap(s[..i + 1], f) == FlatMap(s[..i], f) + f(s[i])
  {
    assert s[..i + 1] == s[..i] + [s[i]];
    FlatMapSnoc(s[..i], s[i], f);
  }

  /** `f` applied to each element. */
  function Map<T, U>(s: seq<T>, f: T -> U): (r: seq<U>)
    ensures |r| == |s|
    ensures forall i :: 0 <= i < |s| ==> r[i] == f(s[i])
  {
    seq(|s|, i requires 0 <= i < |s| => f(s[i]))
  }

  lemma MapSnoc<T, U>(s: seq<T>, x: T, f: T -> U)
    ensures Map(s + [x], f) == Map(s, f) + [f(x)]
  {
  }

  lemma MapPrefix<T, U>(s: seq<T>, i: nat, f: T -> U)
    requires i < |s|
    ensures Map(s[..i + 1], f) == Map(s[..i], f) + [f(s[i])]
  {
  }

  /** Two images per element, `f(i)` then `g(i, s[i])`, in order. */
  function Pairs<T, U>(s: seq<T>, f: nat -> U, g: (nat, T) -> U): (r: seq<U>)
    ensures |r| == 2 * |s|
    decreases |s|
  {
    if s == [] then []
    else
      var i := |s| - 1;
      Pairs(s[..i], f, g) + [f(i), g(i, s[i])]
  }

  lemma {:induction false} PairsAt<T, U>(s: seq<T>, f: nat -> U, g: (nat, T) -> U, i: nat)
    requires i < |s|
    ensures Pairs(s, f, g)[2 * i] == f(i)
    ensures Pairs(s, f, g)[2 * i + 1] == g(i, s[i])
    decreases |s|
  {
    var last := |s| - 1;
    if i < last {
      PairsAt(s[..last], f, g, i);
    }
  }

  /** The pairs placed after three other elements. */
  lemma PairsAfterThree<T, U>(x: U, y: U, z: U, s: seq<T>, f: nat -> U, g: (nat, T) -> U, i: nat)
    requires i < |s|
    ensures ([x, y, z] + Pairs(s, f, g))[3 + 2 * i] == f(i)
    ensures ([x, y, z] + Pairs(s, f, g))[4 + 2 * i] == g(i, s[i])
  {
    PairsAt(s, f, g, i);
  }

  /** Extending a prefix by the next element adds its two images. */
  lemma PairsPrefix<T, U>(s: seq<T>, f: nat -> U, g: (nat, T) -> U, i: nat)
    requires i < |s|
    ensures Pairs(s[..i + 1], f, g) == Pairs(s[..i], f, g) + [f(i), g(i, s[i])]
  {
    assert s[..i + 1][..i] == s[..i];
  }

  /** Regrouping after two appended elements. */
  lemma SnocTwo<T>(a: seq<T>, b: seq<T>, x: T, y: T)
    ensures a + b + [x] + [y] == a + (b + [x, y])
  {
  }

  lemma FlattenOne<T>(s: seq<T>)
    ensures Flatten([s]) == s
  {
    assert [s][..0] == [];
  }

  /** `s` cut into consecutive pieces of `n` elements, the last one possibly
      shorter; no piece is empty. */
  function Chunks<T>(s: seq<T>, n: nat): seq<seq<T>>
    requires n > 0
    decreases |s|
  {
    if s == [] then []
    else if |s| <= n then [s]
    else [s[..n]] + Chunks(s[n..], n)
  }

  /** The chunks put back together give the input, every chunk has between
      one and `n` elements, and only the last may have fewer than `n`. */
  lemma {:induction false} ChunksProperties<T>(s: seq<T>, n: nat)
    requires n > 0
    ensures Flatten(Chunks(s, n)) == s
    ensures forall i :: 0 <= i < |Chunks(s, n)| ==> 1 <= |Chunks(s, n)[i]| <= n
    ensures forall i :: 0 <= i < |Chunks(s, n)| - 1 ==> |Chunks(s, n)[i]| == n
    decreases |s|
  {
    if s == [] {
    } else if |s| <= n {
      FlattenOne(s);
    } else {
      ChunksProperties(s[n..], n);
      FlattenAppend([s[..n]], Chunks(s[n..], n));
      FlattenOne(s[..n]);
      assert s == s[..n] + s[n..];
    }
  }

  /** Full chunks followed by one non-empty, not over-full chunk are the
      chunking of their concatenation. */
  lemma {:induction false} ChunksOfFull<T>(full: seq<seq<T>>, last: seq<T>, n: nat)
    requires n > 0
    requires forall i :: 0 <= i < |full| ==> |full[i]| == n
    requires 1 <= |last| <= n
    ensures Chunks(Flatten(full) + last, n) == full + [last]
    decreases |full|
  {
    if full == [] {
      assert Flatten(full) + last == last;
    } else {
      var rest := full[1..];
      FlattenAppend([full[0]], rest);
      FlattenOne(full[0]);
      assert full == [full[0]] + rest;
      var s := Flatten(full) + last;
      assert s == full[0] + (Flatten(rest) + last);
      assert s[..n] == full[0];
      assert s[n..] == Flatten(rest) + last;
      ChunksOfFull(rest, last, n);
    }
  }
}
