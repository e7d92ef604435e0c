/**
  The list of occupied rule priorities kept by the reconciler (the `Int64Array`
  type of main.go): a plain sequence of integers, searched front to back, with
  remove-by-value deleting the first occurrence only.
 */
module PrioritySet {

  /** Index of the first occurrence of `v` in `c`, or -1 when `v` does not occur. */
  function IndexOf(c: seq<int>, v: int): (i: int)
    ensures -1 <= i < |c|
    ensures i == -1 <==> v !in c
    ensures 0 <= i ==> c[i] == v && v !in c[..i]
  {
    if |c| == 0 then -1
    else if c[0] == v then 0
    else
      var j := IndexOf(c[1..], v);
      if j < 0 then -1
      else
        assert c[..j + 1] == [c[0]] + c[1..][..j];
        j + 1
  }

  /** Membership test, answered through `IndexOf`. */
  predicate Include(c: seq<int>, v: int): (b: bool)
    ensures b <==> v in c
  {
    IndexOf(c, v) > -1
  }

  /** Removes the first occurrence of `v`; a value that does not occur leaves `c` as it is. */
  function Remove(c: seq<int>, v: int): (r: seq<int>)
    ensures v !in c ==> r == c
    ensures v in c ==> |r| == |c| - 1
  {
    var idx := IndexOf(c, v);
    if idx < 0 then c else c[..idx] + c[idx + 1..]
  }

  /** Putting `v` back at the index of its first occurrence restores the sequence: `Remove`
      deletes exactly that one element and keeps the others in their order. */
  lemma RemoveRoundTrip(c: seq<int>, v: int)
    requires v in c
    ensures var i := IndexOf(c, v); var r := Remove(c, v);
            i <= |r| && c == r[..i] + [v] + r[i..] && v !in r[..i]
  {
    var i := IndexOf(c, v);
    var r := Remove(c, v);
    assert r[..i] == c[..i] && r[i..] == c[i + 1..];
    assert c == c[..i] + [v] + c[i + 1..];
  }

  /** `Remove` takes away one copy of `v` and nothing else. */
  lemma RemoveCount(c: seq<int>, v: int)
    ensures multiset(Remove(c, v)) == multiset(c) - multiset{v}
  {
    if v in c {
      RemoveRoundTrip(c, v);
      var i := IndexOf(c, v);
      var r := Remove(c, v);
      assert c == r[..i] + [v] + r[i..];
      assert r == r[..i] + r[i..];
    }
  }

  /** Removing from a sequence that starts with `x` either drops `x` or keeps it in front. */
  lemma RemoveCons(x: int, c: seq<int>, v: int)
    ensures Remove([x] + c, v) == if x == v then c else [x] + Remove(c, v)
  {
    var xc := [x] + c;
    assert xc[0] == x && xc[1..] == c;
    if x == v {
      assert IndexOf(xc, v) == 0;
      assert Remove(xc, v) == xc[..0] + xc[1..];
    } else {
      var j := IndexOf(c, v);
      assert IndexOf(xc, v) == if j < 0 then -1 else j + 1;
      if j >= 0 {
        assert Remove(xc, v) == xc[..j + 1] + xc[j + 2..];
        assert xc[..j + 1] == [x] + c[..j];
        assert xc[j + 2..] == c[j + 1..];
        assert Remove(c, v) == c[..j] + c[j + 1..];
      }
    }
  }

  /** Two removals commute, so their order never changes the resulting sequence. */
  lemma {:induction false} RemoveCommutes(c: seq<int>, a: int, b: int)
    ensures Remove(Remove(c, a), b) == Remove(Remove(c, b), a)
    decreases |c|
  {
    if |c| == 0 {
    } else {
      var x, t := c[0], c[1..];
      assert c == [x] + t;
      RemoveCons(x, t, a);
      RemoveCons(x, t, b);
      if x == a && x == b {
      } else if x == a {
        RemoveCons(x, Remove(t, b), a);
      } else if x == b {
        RemoveCons(x, Remove(t, a), b);
      } else {
        RemoveCons(x, Remove(t, a), b);
        RemoveCons(x, Remove(t, b), a);
        RemoveCommutes(t, a, b);
      }
    }
  }

  /** After removing `v`, a value is still included exactly when it occurred before and
      is either a different value or a second copy of `v`. */
  lemma IncludeAfterRemove(c: seq<int>, v: int, w: int)
    ensures Include(Remove(c, v), w) <==> Include(c, w) && (w != v || multiset(c)[v] > 1)
  {
    RemoveCount(c, v);
    assert w in Remove(c, v) <==> multiset(Remove(c, v))[w] > 0;
    assert w in c <==> multiset(c)[w] > 0;
  }
}
