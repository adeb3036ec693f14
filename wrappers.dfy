/** An optional value: a parse that may fail, a field that may be absent. */
module Wrappers {

  datatype Option<+T> = None | Some(value: T)

  /** The zero- or one-element sequence holding the value of `o`, if any. */
  function ToSeq<T>(o: Option<T>): (s: seq<T>)
    ensures |s| <= 1
    ensures o.Some? <==> |s| == 1
    ensures o.Some? ==> s[0] == o.value
  {
    if o.Some? then [o.value] else []
  }

  /** The values `f` yields on the elements of `s`, in order, skipping the `None`s. */
  function FilterMap<A, B>(f: A -> Option<B>, s: seq<A>): (r: seq<B>)
    ensures |r| <= |s|
  {
    if s == [] then [] else FilterMap(f, s[..|s| - 1]) + ToSeq(f(s[|s| - 1]))
  }

  /** The number of elements of `s` on which `f` yields `None`. */
  function CountNone<A, B>(f: A -> Option<B>, s: seq<A>): nat {
    if s == [] then 0 else CountNone(f, s[..|s| - 1]) + (if f(s[|s| - 1]).None? then 1 else 0)
  }

  /** Extending a prefix by one element extends the result by that element's value, if any. */
  lemma {:induction false} FilterMapPrefix<A, B>(f: A -> Option<B>, s: seq<A>, i: nat)
    requires i < |s|
    ensures FilterMap(f, s[..i + 1]) == FilterMap(f, s[..i]) + ToSeq(f(s[i]))
    ensures CountNone(f, s[..i + 1]) == CountNone(f, s[..i]) + (if f(s[i]).None? then 1 else 0)
  {
    assert s[..i + 1][..i] == s[..i];
  }

  /** Every element is either kept or counted as `None`. */
  lemma {:induction false} FilterMapCount<A, B>(f: A -> Option<B>, s: seq<A>)
    ensures |FilterMap(f, s)| + CountNone(f, s) == |s|
  {
    if s != [] {
      FilterMapCount(f, s[..|s| - 1]);
    }
  }

  /** Filtering a concatenation filters each part in turn. */
  lemma {:induction false} FilterMapAppend<A, B>(f: A -> Option<B>, a: seq<A>, b: seq<A>)
    ensures FilterMap(f, a + b) == FilterMap(f, a) + FilterMap(f, b)
    ensures CountNone(f, a + b) == CountNone(f, a) + CountNone(f, b)
  {
    if b == [] {
      assert a + b == a;
    } else {
      var b' := b[..|b| - 1];
      assert (a + b)[..|a + b| - 1] == a + b';
      FilterMapAppend(f, a, b');
    }
  }

  /** A value is kept iff `f` yields it on some element. */
  lemma {:induction false} FilterMapIn<A, B>(f: A -> Option<B>, s: seq<A>, y: B)
    ensures y in FilterMap(f, s) <==> exists k :: 0 <= k < |s| && f(s[k]) == Some(y)
  {
    if s != [] {
      var n := |s| - 1;
      var s' := s[..n];
      FilterMapIn(f, s', y);
      assert FilterMap(f, s) == FilterMap(f, s') + ToSeq(f(s[n]));
      if y in FilterMap(f, s) && y in FilterMap(f, s') {
        var k :| 0 <= k < |s'| && f(s'[k]) == Some(y);
        assert s[k] == s'[k];
      }
      if exists k :: 0 <= k < |s| && f(s[k]) == Some(y) {
        var k :| 0 <= k < |s| && f(s[k]) == Some(y);
        if k < n {
          assert s'[k] == s[k];
        }
      }
    }
  }

  /** Filtering splits around any one element. */
  lemma {:induction false} FilterMapAround<A, B>(f: A -> Option<B>, a: seq<A>, x: A, b: seq<A>)
    ensures FilterMap(f, a + [x] + b) == FilterMap(f, a) + ToSeq(f(x)) + FilterMap(f, b)
    ensures CountNone(f, a + [x] + b) == CountNone(f, a) + (if f(x).None? then 1 else 0) + CountNone(f, b)
  {
    FilterMapAppend(f, a + [x], b);
    FilterMapAppend(f, a, [x]);
    assert [x][..0] == [];
  }

  /** An element on which `f` yields `None` contributes nothing wherever it stands. */
  lemma {:induction false} FilterMapDrop<A, B>(f: A -> Option<B>, a: seq<A>, x: A, b: seq<A>)
    requires f(x).None?
    ensures FilterMap(f, a + [x] + b) == FilterMap(f, a + b)
  {
    FilterMapAround(f, a, x, b);
    FilterMapAppend(f, a, b);
  }
}
