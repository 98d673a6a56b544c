/**
 * The handful of Python `str` operations the broker uses, all with a
 * one-character separator: `partition`, `split`, `split` with a
 * maximum count, `join`, and substring containment.
 */
module Text {

  /** Position of the first occurrence of `c` in `s`. */
  function IndexOf(s: string, c: char): (i: nat)
    requires c in s
    ensures i < |s| && s[i] == c
    ensures c !in s[..i]
  {
    if s[0] == c then 0
    else
      var j := IndexOf(s[1..], c);
      assert s[..j + 1] == [s[0]] + s[1..][..j];
      j + 1
  }

  /** The three parts `str.partition` returns. */
  datatype Parts = Parts(head: string, found: bool, tail: string)

  /** `s.partition(c)`: split at the first `c`; without one, everything is the head. */
  function Partition(s: string, c: char): (p: Parts)
    ensures p.found <==> c in s
    ensures c !in p.head
    ensures p.found ==> s == p.head + [c] + p.tail
    ensures !p.found ==> p.head == s && p.tail == ""
  {
    if c in s then
      var i := IndexOf(s, c);
      assert s == s[..i] + [c] + s[i + 1..];
      Parts(s[..i], true, s[i + 1..])
    else
      Parts(s, false, "")
  }

  /** Partition is the inverse of gluing a `c`-free head to a tail with `c`. */
  lemma PartitionOfGlued(h: string, c: char, t: string)
    requires c !in h
    ensures Partition(h + [c] + t, c) == Parts(h, true, t)
  {
    var s := h + [c] + t;
    assert s[|h|] == c;
    var p := Partition(s, c);
    assert p.head == s[..|h|] == h;
    assert p.tail == s[|h| + 1..] == t;
  }

  /** `c.join(xs)`. */
  function Join(xs: seq<string>, c: char): string
  {
    if |xs| == 0 then ""
    else if |xs| == 1 then xs[0]
    else xs[0] + [c] + Join(xs[1..], c)
  }

  /** `s.split(c)`: the maximal `c`-free pieces, which `Join` glues back to `s`. */
  function Split(s: string, c: char): (r: seq<string>)
    ensures |r| >= 1
    ensures forall i :: 0 <= i < |r| ==> c !in r[i]
    ensures Join(r, c) == s
    decreases |s|
  {
    var p := Partition(s, c);
    if p.found then [p.head] + Split(p.tail, c) else [s]
  }

  /** Split undoes Join when no piece contains the separator. */
  lemma {:induction false} SplitOfJoin(xs: seq<string>, c: char)
    requires |xs| >= 1
    requires forall i :: 0 <= i < |xs| ==> c !in xs[i]
    ensures Split(Join(xs, c), c) == xs
    decreases |xs|
  {
    if |xs| > 1 {
      PartitionOfGlued(xs[0], c, Join(xs[1..], c));
      SplitOfJoin(xs[1..], c);
      assert [xs[0]] + xs[1..] == xs;
    }
  }

  /** `s.split(c, n)`: at most `n` cuts, the rest left in the last piece. */
  function SplitMax(s: string, c: char, n: nat): (r: seq<string>)
    ensures 1 <= |r| <= n + 1
    ensures Join(r, c) == s
    ensures forall i :: 0 <= i < |r| - 1 ==> c !in r[i]
    ensures |r| >= 2 <==> n >= 1 && c in s
    ensures |r| >= 2 ==> Partition(s, c).head == r[0]
    // it cuts at every separator until it has made n cuts
    ensures |r| == 1 + Min(n, Count(s, c))
    decreases n
  {
    var p := Partition(s, c);
    if n == 0 || !p.found then
      CountWithout(s, c);
      [s]
    else
      CountOfGlued(p.head, c, p.tail);
      [p.head] + SplitMax(p.tail, c, n - 1)
  }

  function Min(a: nat, b: nat): nat
  {
    if a <= b then a else b
  }

  /** The number of occurrences of `c` in `s`. */
  function Count(s: string, c: char): nat
  {
    if |s| == 0 then 0 else (if s[0] == c then 1 else 0) + Count(s[1..], c)
  }

  lemma {:induction false} CountWithout(s: string, c: char)
    ensures c !in s ==> Count(s, c) == 0
    decreases |s|
  {
    if |s| > 0 && c !in s {
      assert c !in s[1..];
      CountWithout(s[1..], c);
    }
  }

  lemma {:induction false} CountConcat(a: string, b: string, c: char)
    ensures Count(a + b, c) == Count(a, c) + Count(b, c)
    decreases |a|
  {
    if |a| > 0 {
      assert (a + b)[1..] == a[1..] + b;
      CountConcat(a[1..], b, c);
    } else {
      assert a + b == b;
    }
  }

  /** A `c`-free head, a `c`, then the tail: one more than the tail holds. */
  lemma CountOfGlued(h: string, c: char, t: string)
    requires c !in h
    ensures Count(h + [c] + t, c) == 1 + Count(t, c)
  {
    CountWithout(h, c);
    CountConcat(h + [c], t, c);
    CountConcat(h, [c], c);
    assert [c][1..] == [];
  }

  /** A character found in none of the parts is not in the glued string. */
  lemma NotInGlued(a: string, c: char, b: string, x: char)
    requires x !in a && x != c && x !in b
    ensures x !in a + [c] + b
  {
    var s := a + [c] + b;
    forall j | 0 <= j < |s| ensures s[j] != x {
      if j < |a| { assert s[j] == a[j]; }
      else if j > |a| { assert s[j] == b[j - |a| - 1]; }
    }
  }

  /** `t in s` for strings. */
  predicate Contains(s: string, t: string)
  {
    exists i, j :: 0 <= i <= j <= |s| && s[i..j] == t
  }

  lemma ContainsSelf(t: string)
    ensures Contains(t, t)
  {
    assert t[0..|t|] == t;
  }

  lemma ContainsExtendLeft(a: string, s: string, t: string)
    requires Contains(s, t)
    ensures Contains(a + s, t)
  {
    var i, j :| 0 <= i <= j <= |s| && s[i..j] == t;
    assert (a + s)[|a| + i..|a| + j] == t;
  }

  lemma ContainsExtendRight(s: string, b: string, t: string)
    requires Contains(s, t)
    ensures Contains(s + b, t)
  {
    var i, j :| 0 <= i <= j <= |s| && s[i..j] == t;
    assert (s + b)[i..j] == t;
  }

  lemma ContainsMiddle(a: string, t: string, b: string)
    ensures Contains(a + t + b, t)
  {
    var s := a + t + b;
    assert s[|a|..|a| + |t|] == t;
  }

  /** A substring of a substring is a substring. */
  lemma ContainsTransitive(s: string, u: string, t: string)
    requires Contains(s, u) && Contains(u, t)
    ensures Contains(s, t)
  {
    var i, j :| 0 <= i <= j <= |s| && s[i..j] == u;
    var k, l :| 0 <= k <= l <= |u| && u[k..l] == t;
    var w := s[i + k..i + l];
    assert |w| == |t|;
    forall x | 0 <= x < |w|
      ensures w[x] == t[x]
    {
      assert w[x] == s[i + k + x] == u[k + x];
    }
  }
}
