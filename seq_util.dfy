/**
 * Sequence helpers shared by the reader, the fragmenter and the reducer:
 * sums of scope lists, group offsets in a flat list, concatenation of a
 * list of lists, and Python's clamped slice.
 */
module SeqUtil {

  datatype Option<T> = None | Some(value: T)

  function Min(a: int, b: int): int
  {
    if a <= b then a else b
  }

  /** Python's `sum` over a list of counts. */
  function Sum(s: seq<nat>): nat
  {
    if s == [] then 0 else Sum(s[..|s| - 1]) + s[|s| - 1]
  }

  /** Where group `k` starts in a flat list grouped by the counts `s`. */
  function Offset(s: seq<nat>, k: nat): (r: nat)
    requires k <= |s|
    ensures r <= Sum(s)
    ensures k < |s| ==> r + s[k] <= Sum(s)
  {
    OffsetBounded(s, k);
    Sum(s[..k])
  }

  /** Group `k` of the flat list `flat` grouped by `scopes`. */
  function Group<T>(flat: seq<T>, scopes: seq<nat>, k: nat): (r: seq<T>)
    requires k < |scopes| && Offset(scopes, k) + scopes[k] <= |flat|
    ensures |r| == scopes[k]
  {
    flat[Offset(scopes, k)..Offset(scopes, k) + scopes[k]]
  }

  /** Python's `s[i:j]` for non-negative bounds: out-of-range bounds are clamped. */
  function Slice<T>(s: seq<T>, i: nat, j: nat): (r: seq<T>)
    ensures j <= |s| && i <= j ==> r == s[i..j]
    ensures |r| <= |s|
  {
    if i >= j || i >= |s| then [] else s[i..Min(j, |s|)]
  }

  /** Concatenation of a list of lists, in order. */
  function Concat<T>(ss: seq<seq<T>>): seq<T>
  {
    if ss == [] then [] else Concat(ss[..|ss| - 1]) + ss[|ss| - 1]
  }

  lemma {:induction false} SumAppend(a: seq<nat>, b: seq<nat>)
    ensures Sum(a + b) == Sum(a) + Sum(b)
    decreases |b|
  {
    if b == [] {
      assert a + b == a;
    } else {
      assert (a + b)[..|a + b| - 1] == a + b[..|b| - 1];
      SumAppend(a, b[..|b| - 1]);
    }
  }

  lemma OffsetBounded(s: seq<nat>, k: nat)
    requires k <= |s|
    ensures Sum(s[..k]) <= Sum(s)
    ensures k < |s| ==> Sum(s[..k]) + s[k] <= Sum(s)
  {
    assert s == s[..k] + s[k..];
    SumAppend(s[..k], s[k..]);
    if k < |s| {
      assert s[k..] == [s[k]] + s[k + 1..];
      SumAppend([s[k]], s[k + 1..]);
      assert Sum([s[k]]) == s[k] by {
        assert [s[k]][..0] == [];
      }
    }
  }

  lemma OffsetNext(s: seq<nat>, k: nat)
    requires k < |s|
    ensures Offset(s, k + 1) == Offset(s, k) + s[k]
  {
    assert s[..k + 1][..k] == s[..k];
  }

  /** Offsets only look at the counts before the group. */
  lemma OffsetPrefix(s: seq<nat>, t: seq<nat>, k: nat)
    requires k <= |s|
    ensures Offset(s + t, k) == Offset(s, k)
  {
    assert (s + t)[..k] == s[..k];
  }

  lemma ConcatSnoc<T>(ss: seq<seq<T>>, x: seq<T>)
    ensures Concat(ss + [x]) == Concat(ss) + x
  {
    assert (ss + [x])[..|ss|] == ss;
  }

  lemma {:induction false} ConcatAppend<T>(a: seq<seq<T>>, b: seq<seq<T>>)
    ensures Concat(a + b) == Concat(a) + Concat(b)
    decreases |b|
  {
    if b == [] {
      assert a + b == a;
    } else {
      var init := b[..|b| - 1];
      assert a + b == (a + init) + [b[|b| - 1]];
      ConcatSnoc(a + init, b[|b| - 1]);
      ConcatAppend(a, init);
      assert b == init + [b[|b| - 1]];
      ConcatSnoc(init, b[|b| - 1]);
    }
  }

  lemma AppendAssoc<T>(a: seq<T>, b: seq<T>, c: seq<T>)
    ensures (a + b) + c == a + (b + c)
  {
  }

  lemma TakeSnoc<T>(s: seq<T>, i: nat)
    requires i < |s|
    ensures s[..i + 1] == s[..i] + [s[i]]
  {
  }
}
