/** Sequence helpers shared by the reader and the event-display rules:
    an optional value, an order-preserving filter (the shape of every
    "build a list in a loop and keep what passes" and every NumPy boolean
    mask in the program) and Python's substring test `sub in s`. */
module Collections {

  datatype Option<T> = None | Some(value: T)

  /** The last element of a non-empty sequence. */
  function Last<T>(s: seq<T>): T
    requires s != []
  {
    s[|s| - 1]
  }

  /** The element appended last is the last one. */
  lemma LastSnoc<T>(s: seq<T>, x: T)
    ensures s + [x] != [] && Last(s + [x]) == x
  {
  }

  /** A non-empty sequence is its first element, then the rest. */
  lemma HeadSplit<T>(s: seq<T>)
    requires s != []
    ensures s == [s[0]] + s[1..]
  {
  }

  lemma Associate<T>(a: seq<T>, b: seq<T>, c: seq<T>)
    ensures (a + b) + c == a + (b + c)
  {
  }

  lemma Reassociate<T>(a: seq<T>, b: seq<T>, c: seq<T>, d: seq<T>)
    ensures a + (b + c) + d == (a + b) + (c + d)
  {
  }

  /** A prefix reaching past `a` is `a`, then the first `j` elements of `b`. */
  lemma PrefixOfConcat<T>(a: seq<T>, b: seq<T>, k: nat, j: nat)
    requires k == |a| + j && j <= |b|
    ensures (a + b)[..k] == a + b[..j]
  {
  }

  /** Dropping `i` elements and then `j` more drops `k == i + j`. */
  lemma DropDrop<T>(s: seq<T>, i: nat, j: nat, k: nat)
    requires k == i + j <= |s|
    ensures s[i..][j..] == s[k..]
  {
  }

  /** The two parts of a concatenation are its slices at the boundary. */
  lemma SplitAt<T>(a: seq<T>, b: seq<T>)
    ensures (a + b)[..|a|] == a && (a + b)[|a|..] == b
  {
  }

  /** The first k+1 elements of an array are its first k, then the k-th. */
  lemma SliceSnoc<T>(a: array<T>, k: nat)
    requires k < a.Length
    ensures a[..k + 1] == a[..k] + [a[k]]
  {
  }

  /** Python's `s.index(x)`: the first position of `x` in `s`. */
  function IndexOf<T(==)>(s: seq<T>, x: T): (i: nat)
    requires x in s
    ensures i < |s| && s[i] == x
    ensures forall j :: 0 <= j < i ==> s[j] != x
  {
    if s[0] == x then 0
    else
      var i := 1 + IndexOf(s[1..], x);
      assert forall j :: 1 <= j < i ==> s[j] == s[1..][j - 1];
      i
  }

  /** The elements of `s` that satisfy `keep`, in their original order. */
  function Filter<T>(s: seq<T>, keep: T -> bool): (r: seq<T>)
    ensures |r| <= |s|
    decreases |s|
  {
    if s == [] then []
    else Filter(s[..|s| - 1], keep) + (if keep(s[|s| - 1]) then [s[|s| - 1]] else [])
  }

  /** Extending the input by one element extends the result by that element
      exactly when it is kept; this is the step of every filtering loop. */
  lemma FilterSnoc<T>(s: seq<T>, x: T, keep: T -> bool)
    ensures Filter(s + [x], keep) == Filter(s, keep) + (if keep(x) then [x] else [])
  {
    assert (s + [x])[..|s + [x]| - 1] == s;
  }

  /** An element is in the result exactly when it is in the input and kept. */
  lemma {:induction false} FilterMembership<T>(s: seq<T>, keep: T -> bool, x: T)
    ensures x in Filter(s, keep) <==> x in s && keep(x)
    decreases |s|
  {
    if s != [] {
      var init := s[..|s| - 1];
      FilterMembership(init, keep, x);
      assert s == init + [s[|s| - 1]];
    }
  }

  /** Filtering preserves order: the result on a concatenation is the
      concatenation of the results. */
  lemma {:induction false} FilterConcat<T>(a: seq<T>, b: seq<T>, keep: T -> bool)
    ensures Filter(a + b, keep) == Filter(a, keep) + Filter(b, keep)
    decreases |b|
  {
    if b != [] {
      var init := b[..|b| - 1];
      var x := b[|b| - 1];
      assert b == init + [x];
      assert a + b == (a + init) + [x];
      FilterConcat(a, init, keep);
      FilterSnoc(a + init, x, keep);
      FilterSnoc(init, x, keep);
    } else {
      assert a + b == a;
    }
  }

  /** Each kept value occurs in the result as often as in the input, and
      every other value not at all. */
  lemma {:induction false} FilterMultiplicity<T>(s: seq<T>, keep: T -> bool, x: T)
    ensures multiset(Filter(s, keep))[x] == if keep(x) then multiset(s)[x] else 0
    decreases |s|
  {
    if s != [] {
      var init := s[..|s| - 1];
      FilterMultiplicity(init, keep, x);
      assert s == init + [s[|s| - 1]];
    }
  }

  /** Filtering by a predicate and by its negation splits the input: together
      the two results hold every element exactly as often as the input. */
  lemma {:induction false} FilterSplit<T>(s: seq<T>, keep: T -> bool, drop: T -> bool)
    requires forall x :: drop(x) == !keep(x)
    ensures multiset(Filter(s, keep)) + multiset(Filter(s, drop)) == multiset(s)
    decreases |s|
  {
    if s != [] {
      var init := s[..|s| - 1];
      var x := s[|s| - 1];
      FilterSplit(init, keep, drop);
      assert s == init + [x];
      assert drop(x) == !keep(x);
    }
  }

  /** `sub` occurs in `s` starting at position `i`. */
  predicate OccursAt(s: string, sub: string, i: int)
  {
    0 <= i && i + |sub| <= |s| && s[i..i + |sub|] == sub
  }

  /** Python's `sub in s` on strings: `sub` is a substring of `s`. */
  function Contains(s: string, sub: string): (b: bool)
    ensures b <==> exists i :: OccursAt(s, sub, i)
    decreases |s|
  {
    if |sub| > |s| then false
    else if s[..|sub|] == sub then assert OccursAt(s, sub, 0); true
    else
      var rest := Contains(s[1..], sub);
      assert forall i :: OccursAt(s[1..], sub, i) <==> OccursAt(s, sub, i + 1) by {
        forall i ensures OccursAt(s[1..], sub, i) <==> OccursAt(s, sub, i + 1) {
          if 0 <= i && i + |sub| <= |s[1..]| {
            assert s[1..][i..i + |sub|] == s[i + 1..i + 1 + |sub|];
          }
        }
      }
      assert rest ==> exists i :: OccursAt(s, sub, i) by {
        if rest {
          var i :| OccursAt(s[1..], sub, i);
          assert OccursAt(s, sub, i + 1);
        }
      }
      assert (exists i :: OccursAt(s, sub, i)) ==> rest by {
        if exists i :: OccursAt(s, sub, i) {
          var i :| OccursAt(s, sub, i);
          assert i != 0;
          assert OccursAt(s[1..], sub, i - 1);
        }
      }
      rest
  }
}
