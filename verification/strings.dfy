/** JavaScript's `String.prototype.split` and `Array.prototype.join` with a
    one-character separator, and the facts about them that the query-string
    code relies on. */
module Strings {

  /** `parts.join(c)`: the parts with one separator between neighbours. */
  function Join(parts: seq<string>, c: char): string
  {
    if |parts| == 0 then ""
    else if |parts| == 1 then parts[0]
    else parts[0] + [c] + Join(parts[1..], c)
  }

  /** True when no part contains the separator. */
  predicate SeparatorFree(parts: seq<string>, c: char)
  {
    forall i :: 0 <= i < |parts| ==> c !in parts[i]
  }

  /** `s.split(c)`: splits at every occurrence of `c`. The result is never
      empty, none of its parts holds `c`, joining it back gives `s`, and it
      has more than one part exactly when `c` occurs in `s`. */
  function Split(s: string, c: char): (parts: seq<string>)
    ensures |parts| >= 1
    ensures SeparatorFree(parts, c)
    ensures Join(parts, c) == s
    ensures |parts| == 1 <==> c !in s
    decreases |s|
  {
    if |s| == 0 then [""]
    else
      var rest := Split(s[1..], c);
      if s[0] == c then
        assert s == [c] + Join(rest, c);
        [""] + rest
      else
        JoinGrowFirst(rest, s[0], c);
        assert s == [s[0]] + s[1..];
        [[s[0]] + rest[0]] + rest[1..]
  }

  /** Prepending a character to the first part prepends it to the join. */
  lemma JoinGrowFirst(parts: seq<string>, x: char, c: char)
    requires |parts| >= 1
    ensures Join([[x] + parts[0]] + parts[1..], c) == [x] + Join(parts, c)
  {
    var grown := [[x] + parts[0]] + parts[1..];
    assert grown[1..] == parts[1..];
  }

  /** Joining two non-empty lists puts one separator between their joins. */
  lemma {:induction false} JoinAppend(xs: seq<string>, ys: seq<string>, c: char)
    requires |xs| >= 1 && |ys| >= 1
    ensures Join(xs + ys, c) == Join(xs, c) + [c] + Join(ys, c)
    decreases |xs|
  {
    if |xs| == 1 {
      assert (xs + ys)[1..] == ys;
    } else {
      JoinAppend(xs[1..], ys, c);
      assert (xs + ys)[1..] == xs[1..] + ys;
    }
  }

  /** The parts of a separator-free list are determined by their join. */
  lemma {:induction false} JoinInjective(xs: seq<string>, ys: seq<string>, c: char)
    requires |xs| >= 1 && |ys| >= 1
    requires SeparatorFree(xs, c) && SeparatorFree(ys, c)
    requires Join(xs, c) == Join(ys, c)
    ensures xs == ys
    decreases |xs|
  {
    var j := Join(xs, c);
    if |xs| == 1 && |ys| == 1 {
    } else if |xs| == 1 || |ys| == 1 {
      assert false;
    } else {
      var a, b := xs[0], ys[0];
      FirstSeparator(xs, c);
      FirstSeparator(ys, c);
      assert |a| == |b|;
      assert a == j[..|a|] == b;
      assert Join(xs[1..], c) == j[|a| + 1..] == Join(ys[1..], c);
      JoinInjective(xs[1..], ys[1..], c);
      assert xs == [a] + xs[1..];
      assert ys == [b] + ys[1..];
    }
  }

  /** In the join of two or more separator-free parts, the first separator
      sits right after the first part. */
  lemma FirstSeparator(xs: seq<string>, c: char)
    requires |xs| >= 2 && SeparatorFree(xs, c)
    ensures Join(xs, c)[|xs[0]|] == c
    ensures forall k :: 0 <= k < |xs[0]| ==> Join(xs, c)[k] != c
  {
    assert c !in xs[0];
  }

  /** Splitting undoes joining a separator-free, non-empty list. */
  lemma SplitJoin(parts: seq<string>, c: char)
    requires |parts| >= 1 && SeparatorFree(parts, c)
    ensures Split(Join(parts, c), c) == parts
  {
    JoinInjective(Split(Join(parts, c), c), parts, c);
  }

  /** Splitting at a separator splits each side independently. */
  lemma SplitConcat(a: string, b: string, c: char)
    ensures Split(a + [c] + b, c) == Split(a, c) + Split(b, c)
  {
    var both := Split(a, c) + Split(b, c);
    JoinAppend(Split(a, c), Split(b, c), c);
    assert SeparatorFree(both, c) by {
      forall i | 0 <= i < |both|
        ensures c !in both[i]
      {
        if i < |Split(a, c)| {
          assert both[i] == Split(a, c)[i];
        } else {
          assert both[i] == Split(b, c)[i - |Split(a, c)|];
        }
      }
    }
    JoinInjective(Split(a + [c] + b, c), both, c);
  }

  /** Every character of a part occurs in the join. */
  lemma {:induction false} PartsInJoin(parts: seq<string>, c: char)
    ensures forall i, ch :: 0 <= i < |parts| && ch in parts[i] ==> ch in Join(parts, c)
    decreases |parts|
  {
    if |parts| > 1 {
      PartsInJoin(parts[1..], c);
      forall i, ch | 0 <= i < |parts| && ch in parts[i]
        ensures ch in Join(parts, c)
      {
        if i > 0 {
          assert parts[i] == parts[1..][i - 1];
        }
      }
    }
  }

  /** A character other than the separator that no part holds is not in the join. */
  lemma {:induction false} JoinAvoids(parts: seq<string>, c: char, d: char)
    requires d != c
    requires forall i :: 0 <= i < |parts| ==> d !in parts[i]
    ensures d !in Join(parts, c)
    decreases |parts|
  {
    if |parts| > 1 {
      JoinAvoids(parts[1..], c, d);
    }
  }

  /** Each part preceded by a separator: what `parts.join(c)` holds after its
      first part. */
  function Prefixed(parts: seq<string>, c: char): string
  {
    if |parts| == 0 then "" else [c] + parts[0] + Prefixed(parts[1..], c)
  }

  /** A join is its first part followed by the other parts, each behind a
      separator. */
  lemma {:induction false} JoinCons(a: string, parts: seq<string>, c: char)
    ensures Join([a] + parts, c) == a + Prefixed(parts, c)
    decreases |parts|
  {
    if |parts| == 0 {
      assert [a] + parts == [a];
    } else {
      JoinCons(parts[0], parts[1..], c);
      var joined := [a] + parts;
      assert joined[0] == a && joined[1..] == parts;
      assert [parts[0]] + parts[1..] == parts;
      var rest := Prefixed(parts[1..], c);
      assert Join(joined, c) == a + [c] + (parts[0] + rest);
      assert Prefixed(parts, c) == [c] + parts[0] + rest;
      assert a + [c] + (parts[0] + rest) == a + ([c] + parts[0] + rest);
    }
  }

  /** Text holding the separator, and so split into at least two parts, begins with its first two parts and
      the separator between them, followed by the end of the text or by a
      further separator. */
  lemma FirstTwoParts(s: string, c: char)
    ensures c in s ==> var parts := Split(s, c);
      var n := |parts[0]| + 1 + |parts[1]|;
      n <= |s| && s[..n] == parts[0] + [c] + parts[1] && (n == |s| || s[n] == c)
  {
    if c !in s {
      return;
    }
    var parts := Split(s, c);
    var p0, p1, tail := parts[0], parts[1], parts[2..];
    var rest := Prefixed(tail, c);
    assert Join(parts, c) == p0 + [c] + Join(parts[1..], c);
    assert parts[1..] == [p1] + tail;
    JoinCons(p1, tail, c);
    var head := p0 + [c] + p1;
    assert s == p0 + [c] + (p1 + rest);
    assert s == head + rest;
    PrefixedStart(tail, c);
  }

  /** Prefixed parts are empty or start with the separator. */
  lemma PrefixedStart(parts: seq<string>, c: char)
    ensures var p := Prefixed(parts, c); p == "" || p[0] == c
  {
  }
}
