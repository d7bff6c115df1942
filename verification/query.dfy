/** The query-string helpers of ajax.js: `GetURLParameter`, which looks up one
    argument of the page location, and `GetURL`, which rewrites a URL so that it
    ends with a fresh cache-busting `RANDOMISER` argument.

    The page location (`document.location.href`) and the random number
    (`Math.random()`) are passed in as strings. */
module Query {
  import opened Wrappers
  import opened Strings

  /** The key of the cache-busting argument. */
  const Randomiser: string := "RANDOMISER"

  /** Text that JavaScript's `concat` writes for an `undefined` argument. */
  const Undefined: string := "undefined"

  /** One `&`-separated argument as the code reads it: `split('=')[0]` is the
      key and `split('=')[1]` the value, `None` standing for `undefined` when
      the argument has no `=`. Anything after a second `=` is not read. */
  datatype Param = Param(key: string, value: Option<string>)

  /** True when every character of `part` occurs in `whole`. */
  predicate CharsFrom(part: string, whole: string)
  {
    forall ch :: ch in part ==> ch in whole
  }

  /** Reads one argument (ajax.js lines 18-21 and 39-44): the key is the text
      before the first `=`, and the value the text from there to the next `=`
      or the end. */
  function ParseParam(arg: string): (p: Param)
    ensures '=' !in p.key && CharsFrom(p.key, arg)
    ensures p.value.None? <==> '=' !in arg
    ensures p.value.None? ==> p.key == arg
    ensures p.value.Some? ==> '=' !in p.value.value && CharsFrom(p.value.value, arg)
    ensures p.value.Some? ==> var n := |p.key| + 1 + |p.value.value|;
      n <= |arg| && arg[..n] == p.key + "=" + p.value.value && (n == |arg| || arg[n] == '=')
  {
    var kv := Split(arg, '=');
    PartsInJoin(kv, '=');
    FirstTwoParts(arg, '=');
    Param(kv[0], if |kv| > 1 then Some(kv[1]) else None)
  }

  /** Every argument, read. */
  function ParamsOf(args: seq<string>): (ps: seq<Param>)
    ensures |ps| == |args|
    ensures forall k :: 0 <= k < |args| ==> ps[k] == ParseParam(args[k])
  {
    seq(|args|, k requires 0 <= k < |args| => ParseParam(args[k]))
  }

  /** The `&`-arguments of the text between the first `?` of `href` and the
      next `?` (or the end): `href.split('?')[1].split('&')`. */
  function QueryArgs(href: string): (args: seq<string>)
    requires '?' in href
    ensures |args| >= 1
    ensures forall k :: 0 <= k < |args| ==> '?' !in args[k] && '&' !in args[k]
    ensures var base := Split(href, '?')[0]; var n := |base| + 1 + |Join(args, '&')|;
      n <= |href| && href[..n] == base + "?" + Join(args, '&') && (n == |href| || href[n] == '?')
  {
    var sp := Split(href, '?');
    PartsInJoin(sp, '?');
    FirstTwoParts(href, '?');
    var args := Split(sp[1], '&');
    PartsInJoin(args, '&');
    args
  }

  /** True when some parameter has key `name`. */
  predicate HasKey(ps: seq<Param>, name: string)
  {
    exists k :: 0 <= k < |ps| && ps[k].key == name
  }

  /** Reference lookup: the value of the first parameter keyed `name`, or the
      empty string when no parameter has that key. */
  function ValueOf(ps: seq<Param>, name: string): Option<string>
  {
    if |ps| == 0 then Some("")
    else if ps[0].key == name then ps[0].value
    else ValueOf(ps[1..], name)
  }

  /** The value returned is that of the first parameter keyed `name`. */
  lemma {:induction false} ValueOfFirst(ps: seq<Param>, name: string, j: nat)
    requires j < |ps| && ps[j].key == name
    requires forall k :: 0 <= k < j ==> ps[k].key != name
    ensures ValueOf(ps, name) == ps[j].value
    decreases j
  {
    if j > 0 {
      ValueOfFirst(ps[1..], name, j - 1);
    }
  }

  /** Without a parameter keyed `name` the lookup yields the empty string. */
  lemma {:induction false} ValueOfAbsent(ps: seq<Param>, name: string)
    requires !HasKey(ps, name)
    ensures ValueOf(ps, name) == Some("")
    decreases |ps|
  {
    if |ps| > 0 {
      assert ps[0].key != name;
      ValueOfAbsent(ps[1..], name);
    }
  }

  /** The loop of ajax.js lines 16-23 from index `i` on: the index of the first
      argument at or after `i` whose key is `name`. */
  function FindFrom(args: seq<string>, name: string, i: nat): (r: Option<nat>)
    ensures r.Some? ==> i <= r.value < |args| && ParseParam(args[r.value]).key == name
    ensures r.Some? ==> forall k :: i <= k < r.value ==> ParseParam(args[k]).key != name
    ensures r.None? ==> forall k :: i <= k < |args| ==> ParseParam(args[k]).key != name
    decreases |args| - i
  {
    if i >= |args| then None
    else if Split(args[i], '=')[0] == name then Some(i)
    else FindFrom(args, name, i + 1)
  }

  /** `GetURLParameter(name)` with the location passed in as `href`
      (ajax.js lines 7-26). `None` is the `undefined` returned for a matching
      argument without `=`. Without `?` in `href` the result is the empty
      string; otherwise it is the reference lookup over the query's
      parameters. */
  function GetURLParameter(href: string, name: string): (r: Option<string>)
    ensures '?' !in href ==> r == Some("")
    ensures '?' in href ==> r == ValueOf(ParamsOf(QueryArgs(href)), name)
  {
    var sp := Split(href, '?');
    if |sp| < 2 then Some("")
    else
      var args := Split(sp[1], '&');
      match FindFrom(args, name, 0)
      case None =>
        ValueOfAbsent(ParamsOf(args), name);
        Some("")
      case Some(j) =>
        ValueOfFirst(ParamsOf(args), name, j);
        ParseParam(args[j]).value
  }

  /** The parameters `GetURL` keeps: all but those keyed `RANDOMISER`, in
      their original order. */
  function Drop(ps: seq<Param>): (kept: seq<Param>)
    ensures |kept| <= |ps|
    ensures forall k :: 0 <= k < |kept| ==> kept[k].key != Randomiser
  {
    if |ps| == 0 then []
    else
      assert ps == [ps[0]] + ps[1..];
      (if ps[0].key == Randomiser then [] else [ps[0]]) + Drop(ps[1..])
  }

  /** A list without a `RANDOMISER` is kept whole. */
  lemma {:induction false} DropNone(ps: seq<Param>)
    requires !HasKey(ps, Randomiser)
    ensures Drop(ps) == ps
    decreases |ps|
  {
    if |ps| > 0 {
      assert ps[0].key != Randomiser;
      DropNone(ps[1..]);
      assert ps == [ps[0]] + ps[1..];
    }
  }

  /** Dropping works argument by argument, so the kept ones stay in order. */
  lemma {:induction false} DropAppend(xs: seq<Param>, ys: seq<Param>)
    ensures Drop(xs + ys) == Drop(xs) + Drop(ys)
    decreases |xs|
  {
    if |xs| > 0 {
      var zs := xs + ys;
      assert zs[0] == xs[0];
      assert zs[1..] == xs[1..] + ys;
      DropAppend(xs[1..], ys);
      var head := if xs[0].key == Randomiser then [] else [xs[0]];
      assert Drop(zs) == head + Drop(zs[1..]);
      assert Drop(xs) == head + Drop(xs[1..]);
      assert head + (Drop(xs[1..]) + Drop(ys)) == (head + Drop(xs[1..])) + Drop(ys);
    } else {
      assert xs + ys == ys;
    }
  }

  /** How `GetURL` writes a kept argument back: `key=value`, with the text
      `undefined` when the argument had no `=` (ajax.js line 44). */
  function RenderParam(p: Param): (r: string)
    ensures '=' !in p.key && (p.value.Some? ==> '=' !in p.value.value) ==>
      ParseParam(r) == Defined(p)
  {
    var r := p.key + "=" + p.value.GetOr(Undefined);
    if '=' !in p.key && (p.value.Some? ==> '=' !in p.value.value) then
      assert '=' !in Undefined;
      assert r == EmitParam(Defined(p));
      ParseEmit(Defined(p));
      r
    else r
  }

  /** An argument written back by `GetURL` after reading: up to (not
      including) its second `=`, so `k=v=w` becomes `k=v`; an argument without
      `=` gains `=undefined`. */
  lemma RewrittenArgument(arg: string)
    ensures '=' in arg ==> var w := RenderParam(ParseParam(arg));
      w <= arg && (|w| == |arg| || arg[|w|] == '=') && multiset(w)['='] == 1
    ensures '=' !in arg ==> RenderParam(ParseParam(arg)) == arg + "=" + Undefined
  {
    var p := ParseParam(arg);
    if '=' in arg {
      var w := RenderParam(p);
      assert w == p.key + "=" + p.value.value;
      assert multiset(w) == multiset(p.key) + multiset("=") + multiset(p.value.value);
      assert multiset(p.key)['='] == 0 && multiset(p.value.value)['='] == 0;
    }
  }

  /** The argument `k=v=w` is written back as `k=v`. */
  lemma SecondEqualsExample()
    ensures RenderParam(ParseParam("k=v=w")) == "k=v"
  {
    var p := ParseParam("k=v=w");
    assert "k=v=w"[1] == '=' && "k=v=w"[3] == '=';
    assert |p.key| == 1;
    assert |p.value.value| == 1;
  }

  function Renders(ps: seq<Param>): (out: seq<string>)
    ensures |out| == |ps|
    ensures forall k :: 0 <= k < |ps| ==> out[k] == RenderParam(ps[k])
  {
    seq(|ps|, k requires 0 <= k < |ps| => RenderParam(ps[k]))
  }

  /** The empty leading segment that the `i>0` guard of ajax.js line 42
      produces when the first argument is the one dropped. */
  function Lead(ps: seq<Param>): seq<string>
  {
    if |ps| > 0 && ps[0].key == Randomiser then [""] else []
  }

  /** Reference form of the rebuilt arguments: the kept parameters rendered and
      joined by `&`, behind an empty segment when the leading argument was a
      `RANDOMISER`. */
  function KeptOpts(ps: seq<Param>): string
  {
    Join(Lead(ps) + Renders(Drop(ps)), '&')
  }

  /** The loop of ajax.js lines 37-45 from index `i` on, over the arguments
      already read, with `_opts` built so far. The `&` delimiter is written
      when the index is positive, whether or not an argument was written
      before. */
  function OptsLoop(ps: seq<Param>, i: nat, opts: string): (out: string)
    ensures opts <= out
    decreases |ps| - i
  {
    if i >= |ps| then opts
    else if ps[i].key == Randomiser then OptsLoop(ps, i + 1, opts)
    else
      var delimited := if i > 0 then opts + "&" else opts;
      OptsLoop(ps, i + 1, delimited + RenderParam(ps[i]))
  }

  /** `GetURL(url)` with the random number passed in as its text `r`
      (ajax.js lines 28-54). */
  function GetURL(url: string, r: string): (out: string)
    ensures '?' in out
    ensures var tail := "RANDOMISER=" + r;
      |tail| < |out| && out[|out| - |tail|..] == tail
  {
    var sp := Split(url, '?');
    if |sp| > 1 then
      var head := sp[0] + "?" + OptsLoop(ParamsOf(Split(sp[1], '&')), 0, "");
      assert head[|sp[0]|] == '?';
      AppendedTail(head, "&RANDOMISER=", r);
      head + "&RANDOMISER=" + r
    else
      AppendedTail(url, "?RANDOMISER=", r);
      url + "?RANDOMISER=" + r
  }

  /** Text written after `front` as a one-character delimiter, `RANDOMISER=`
      and `r` ends with `RANDOMISER=` and `r`, and keeps `front` in front. */
  lemma AppendedTail(front: string, lit: string, r: string)
    requires lit == "&RANDOMISER=" || lit == "?RANDOMISER="
    ensures var out := front + lit + r; var tail := "RANDOMISER=" + r;
      |tail| < |out| && out[|out| - |tail|..] == tail && out[..|front|] == front && out[|front|] == lit[0]
  {
    assert lit == [lit[0]] + "RANDOMISER=";
    var out := front + lit + r;
    assert out == (front + [lit[0]]) + ("RANDOMISER=" + r);
  }

  /** Dropping and rendering from index `i` takes the argument at `i` first. */
  lemma RenderedFrom(ps: seq<Param>, i: nat)
    requires i < |ps|
    ensures Renders(Drop(ps[i..])) ==
      (if ps[i].key == Randomiser then [] else [RenderParam(ps[i])]) + Renders(Drop(ps[i + 1..]))
  {
    assert ps[i..][0] == ps[i];
    assert ps[i..][1..] == ps[i + 1..];
  }

  /** What the loop writes for the arguments from index `i` on, when `i` is
      past the first: each kept argument behind a `&`. */
  function TailOpts(ps: seq<Param>, i: nat): string
    requires i <= |ps|
  {
    Prefixed(Renders(Drop(ps[i..])), '&')
  }

  /** Past the first index, the loop appends each kept argument behind a `&`. */
  lemma {:induction false} OptsLoopTail(ps: seq<Param>, i: nat, opts: string)
    requires 1 <= i <= |ps|
    ensures OptsLoop(ps, i, opts) == opts + TailOpts(ps, i)
    decreases |ps| - i
  {
    if i == |ps| {
      assert ps[i..] == [];
      assert opts + "" == opts;
    } else if ps[i].key == Randomiser {
      OptsLoopTail(ps, i + 1, opts);
      TailOptsSkip(ps, i);
    } else {
      var here := RenderParam(ps[i]);
      OptsLoopTail(ps, i + 1, opts + "&" + here);
      TailOptsStep(ps, i);
      Regroup(opts, "&", here, TailOpts(ps, i + 1));
    }
  }

  /** A dropped argument adds nothing to the tail. */
  lemma TailOptsSkip(ps: seq<Param>, i: nat)
    requires i < |ps| && ps[i].key == Randomiser
    ensures TailOpts(ps, i) == TailOpts(ps, i + 1)
  {
    RenderedFrom(ps, i);
    assert Renders(Drop(ps[i..])) == Renders(Drop(ps[i + 1..]));
  }

  /** A kept argument adds itself behind a `&`. */
  lemma TailOptsStep(ps: seq<Param>, i: nat)
    requires i < |ps| && ps[i].key != Randomiser
    ensures TailOpts(ps, i) == "&" + RenderParam(ps[i]) + TailOpts(ps, i + 1)
  {
    var here := RenderParam(ps[i]);
    var rest := Renders(Drop(ps[i + 1..]));
    RenderedFrom(ps, i);
    assert ([here] + rest)[1..] == rest;
  }

  /** The loop of ajax.js lines 37-45 computes the reference form. */
  lemma OptsLoopIsKeptOpts(ps: seq<Param>)
    ensures OptsLoop(ps, 0, "") == KeptOpts(ps)
  {
    if |ps| > 0 {
      if ps[0].key == Randomiser {
        OptsLoopTail(ps, 1, "");
        KeptOptsSkipFirst(ps);
        assert "" + TailOpts(ps, 1) == TailOpts(ps, 1);
      } else {
        var here := RenderParam(ps[0]);
        assert "" + here == here;
        OptsLoopTail(ps, 1, here);
        KeptOptsKeepFirst(ps);
      }
    }
  }

  /** A leading `RANDOMISER` leaves an empty first segment. */
  lemma KeptOptsSkipFirst(ps: seq<Param>)
    requires |ps| > 0 && ps[0].key == Randomiser
    ensures KeptOpts(ps) == TailOpts(ps, 1)
  {
    RenderedFrom(ps, 0);
    assert ps[0..] == ps;
    var rest := Renders(Drop(ps[1..]));
    JoinCons("", rest, '&');
    assert Lead(ps) + Renders(Drop(ps)) == [""] + rest;
    assert "" + Prefixed(rest, '&') == Prefixed(rest, '&');
  }

  /** A kept first argument is the first segment. */
  lemma KeptOptsKeepFirst(ps: seq<Param>)
    requires |ps| > 0 && ps[0].key != Randomiser
    ensures KeptOpts(ps) == RenderParam(ps[0]) + TailOpts(ps, 1)
  {
    RenderedFrom(ps, 0);
    assert ps[0..] == ps;
    var here := RenderParam(ps[0]);
    var rest := Renders(Drop(ps[1..]));
    JoinCons(here, rest, '&');
    assert Lead(ps) + Renders(Drop(ps)) == [here] + rest;
  }

  /** `GetURL` always ends with the new randomiser: a URL without `?` just gets
      `?RANDOMISER=r`; otherwise the text before the first `?` is followed by
      the kept arguments of the text up to the next `?`, and then by
      `&RANDOMISER=r`. */
  lemma GetURLShape(url: string, r: string)
    ensures '?' !in url ==> GetURL(url, r) == url + "?RANDOMISER=" + r
    ensures '?' in url ==>
      GetURL(url, r) == Split(url, '?')[0] + "?" + KeptOpts(ParamsOf(QueryArgs(url))) + "&RANDOMISER=" + r
  {
    if '?' in url {
      OptsLoopIsKeptOpts(ParamsOf(QueryArgs(url)));
    }
  }

  // ---------------------------------------------------------------------
  // Query strings built from parameters

  /** Text that holds none of the characters the query syntax splits on. */
  predicate Plain(s: string)
  {
    '?' !in s && '&' !in s && '=' !in s
  }

  /** A parameter whose key and value are plain text. */
  predicate WellFormed(p: Param)
  {
    Plain(p.key) && (p.value.Some? ==> Plain(p.value.value))
  }

  predicate AllWellFormed(ps: seq<Param>)
  {
    forall k :: 0 <= k < |ps| ==> WellFormed(ps[k])
  }

  /** How a parameter is written in a URL: `key=value`, or the bare key when
      it has no value. */
  function EmitParam(p: Param): string
  {
    if p.value.Some? then p.key + "=" + p.value.value else p.key
  }

  function Emits(ps: seq<Param>): (out: seq<string>)
    ensures |out| == |ps|
    ensures forall k :: 0 <= k < |ps| ==> out[k] == EmitParam(ps[k])
  {
    seq(|ps|, k requires 0 <= k < |ps| => EmitParam(ps[k]))
  }

  /** The query text of a list of parameters: the written parameters joined
      by `&`. */
  function QueryText(ps: seq<Param>): string
  {
    Join(Emits(ps), '&')
  }

  /** Reading a written parameter gives it back. */
  lemma ParseEmit(p: Param)
    requires '=' !in p.key && (p.value.Some? ==> '=' !in p.value.value)
    ensures ParseParam(EmitParam(p)) == p
  {
    if p.value.Some? {
      SplitConcat(p.key, p.value.value, '=');
      assert Split(EmitParam(p), '=') == [p.key, p.value.value];
    }
  }

  /** Reading every written parameter gives the list back. */
  lemma ParamsOfEmits(ps: seq<Param>)
    requires AllWellFormed(ps)
    ensures ParamsOf(Emits(ps)) == ps
  {
    forall k | 0 <= k < |ps|
      ensures ParamsOf(Emits(ps))[k] == ps[k]
    {
      ParseEmit(ps[k]);
    }
  }

  /** A written well-formed parameter holds neither `?` nor `&`. */
  lemma EmitsAreSegments(ps: seq<Param>)
    requires AllWellFormed(ps)
    ensures Segments(Emits(ps))
  {
  }

  /** The URL `base?segments...rest`, where `rest` is empty or starts at a
      second `?`, has the text before `?` as its base and the segments as its
      query arguments: whatever follows a second `?` is not read. */
  lemma QueryOfJoin(base: string, segs: seq<string>, rest: string)
    requires '?' !in base
    requires |segs| >= 1
    requires Segments(segs)
    requires rest == [] || rest[0] == '?'
    ensures '?' in base + "?" + Join(segs, '&') + rest
    ensures Split(base + "?" + Join(segs, '&') + rest, '?')[0] == base
    ensures QueryArgs(base + "?" + Join(segs, '&') + rest) == segs
  {
    var q := Join(segs, '&');
    JoinAvoids(segs, '&', '?');
    SplitAtQuery(base, q, rest);
    SeparatorFreeSegments(segs);
    SplitJoin(segs, '&');
  }

  /** Splitting `base?q` or `base?q?tail` on `?` gives `base` and `q` first. */
  lemma SplitAtQuery(base: string, q: string, rest: string)
    requires '?' !in base && '?' !in q
    requires rest == [] || rest[0] == '?'
    ensures var sp := Split(base + "?" + q + rest, '?');
      |sp| >= 2 && sp[0] == base && sp[1] == q
  {
    var url := base + "?" + q + rest;
    if rest == [] {
      assert url == base + ['?'] + q;
      SplitConcat(base, q, '?');
    } else {
      var tail := rest[1..];
      assert url == base + ['?'] + (q + ['?'] + tail);
      SplitConcat(base, q + ['?'] + tail, '?');
      SplitConcat(q, tail, '?');
    }
  }

  lemma SeparatorFreeSegments(segs: seq<string>)
    requires Segments(segs)
    ensures SeparatorFree(segs, '&')
  {
  }

  /** `GetURLParameter` on a URL whose query was written from well-formed
      parameters finds the value of the first one keyed `name` (the empty
      string when there is none, `undefined` when that one has no value);
      text after a second `?` is lost. */
  lemma GetURLParameterOfQuery(base: string, ps: seq<Param>, rest: string, name: string)
    requires '?' !in base && (rest == [] || rest[0] == '?')
    requires |ps| >= 1 && AllWellFormed(ps)
    ensures GetURLParameter(base + "?" + QueryText(ps) + rest, name) == ValueOf(ps, name)
  {
    EmitsAreSegments(ps);
    QueryOfJoin(base, Emits(ps), rest);
    ParamsOfEmits(ps);
  }

  /** `GetURL` on a URL whose query was written from well-formed parameters
      keeps the base, rewrites the parameters as the reference form says and
      ends with the new randomiser; text after a second `?` is lost. */
  lemma GetURLOfQuery(base: string, ps: seq<Param>, rest: string, r: string)
    requires '?' !in base && (rest == [] || rest[0] == '?')
    requires |ps| >= 1 && AllWellFormed(ps)
    ensures GetURL(base + "?" + QueryText(ps) + rest, r) == base + "?" + KeptOpts(ps) + "&RANDOMISER=" + r
  {
    var url := base + "?" + QueryText(ps) + rest;
    EmitsAreSegments(ps);
    QueryOfJoin(base, Emits(ps), rest);
    ParamsOfEmits(ps);
    GetURLShape(url, r);
  }

  // ---------------------------------------------------------------------
  // Reading back a rewritten URL

  /** A parameter as `GetURL` writes it back and `GetURLParameter` then reads
      it: a missing value has become the text `undefined`. */
  function Defined(p: Param): Param
  {
    Param(p.key, Some(p.value.GetOr(Undefined)))
  }

  function Defineds(ps: seq<Param>): (out: seq<Param>)
    ensures |out| == |ps|
    ensures forall k :: 0 <= k < |ps| ==> out[k] == Defined(ps[k])
  {
    seq(|ps|, k requires 0 <= k < |ps| => Defined(ps[k]))
  }

  /** Looking up in a concatenation looks in the first list, then the second. */
  lemma {:induction false} ValueOfAppend(xs: seq<Param>, ys: seq<Param>, name: string)
    ensures HasKey(xs + ys, name) <==> HasKey(xs, name) || HasKey(ys, name)
    ensures ValueOf(xs + ys, name) == if HasKey(xs, name) then ValueOf(xs, name) else ValueOf(ys, name)
    decreases |xs|
  {
    if |xs| == 0 {
      assert xs + ys == ys;
    } else {
      ValueOfAppend(xs[1..], ys, name);
      assert (xs + ys)[1..] == xs[1..] + ys;
      assert xs[0] == (xs + ys)[0];
      if xs[0].key != name {
        assert HasKey(xs, name) <==> HasKey(xs[1..], name) by {
          if HasKey(xs, name) {
            var k :| 0 <= k < |xs| && xs[k].key == name;
            assert xs[1..][k - 1] == xs[k];
          }
        }
        assert HasKey(xs + ys, name) <==> HasKey(xs[1..] + ys, name) by {
          if HasKey(xs + ys, name) {
            var k :| 0 <= k < |xs + ys| && (xs + ys)[k].key == name;
            assert (xs[1..] + ys)[k - 1] == (xs + ys)[k];
          }
        }
      }
    }
  }

  /** Writing values back as text changes a lookup only by turning
      `undefined` into its text. */
  lemma {:induction false} ValueOfDefineds(ps: seq<Param>, name: string)
    ensures HasKey(Defineds(ps), name) <==> HasKey(ps, name)
    ensures ValueOf(Defineds(ps), name) == Some(ValueOf(ps, name).GetOr(Undefined))
    decreases |ps|
  {
    if |ps| > 0 {
      ValueOfDefineds(ps[1..], name);
      assert Defineds(ps)[1..] == Defineds(ps[1..]);
      if ps[0].key != name {
        assert HasKey(ps, name) <==> HasKey(ps[1..], name) by {
          if HasKey(ps, name) {
            var k :| 0 <= k < |ps| && ps[k].key == name;
            assert ps[1..][k - 1] == ps[k];
          }
        }
      }
    }
  }

  /** Dropping the `RANDOMISER` parameters does not change any other lookup. */
  lemma {:induction false} ValueOfDrop(ps: seq<Param>, name: string)
    requires name != Randomiser
    ensures HasKey(Drop(ps), name) <==> HasKey(ps, name)
    ensures ValueOf(Drop(ps), name) == ValueOf(ps, name)
    decreases |ps|
  {
    if |ps| > 0 {
      ValueOfDrop(ps[1..], name);
      var head := if ps[0].key == Randomiser then [] else [ps[0]];
      assert Drop(ps) == head + Drop(ps[1..]);
      ValueOfAppend(head, Drop(ps[1..]), name);
      if ps[0].key != name {
        assert HasKey(ps, name) <==> HasKey(ps[1..], name) by {
          if HasKey(ps, name) {
            var k :| 0 <= k < |ps| && ps[k].key == name;
            assert ps[1..][k - 1] == ps[k];
          }
        }
      }
    }
  }

  /** Every parameter of a query is well formed: an argument holds no `&`
      and no `?`, and its key and value hold no `=`. */
  lemma QueryParamsWellFormed(url: string)
    requires '?' in url
    ensures AllWellFormed(ParamsOf(QueryArgs(url)))
  {
    var q := Split(url, '?')[1];
    var args := QueryArgs(url);
    PartsInJoin(args, '&');
    forall k | 0 <= k < |args|
      ensures WellFormed(ParseParam(args[k]))
    {
      assert '?' !in args[k];
      assert '&' !in args[k];
    }
  }

  /** Dropping keeps well-formedness. */
  lemma {:induction false} DropWellFormed(ps: seq<Param>)
    requires AllWellFormed(ps)
    ensures AllWellFormed(Drop(ps))
    decreases |ps|
  {
    if |ps| > 0 {
      DropWellFormed(ps[1..]);
      var head := if ps[0].key == Randomiser then [] else [ps[0]];
      assert Drop(ps) == head + Drop(ps[1..]);
    }
  }

  /** Writing kept parameters and reading them back gives them with their
      values defined. */
  lemma RendersReadBack(ps: seq<Param>)
    requires AllWellFormed(ps)
    ensures ParamsOf(Renders(ps)) == Defineds(ps)
  {
    forall k | 0 <= k < |ps|
      ensures ParamsOf(Renders(ps))[k] == Defineds(ps)[k]
    {
      assert RenderParam(ps[k]) == EmitParam(Defined(ps[k]));
      ParseEmit(Defined(ps[k]));
    }
  }

  /** The parameters the URL rewritten by `GetURL` carries: the empty leading
      segment if the first argument was a `RANDOMISER`, the kept parameters with
      their values defined, and the new randomiser last. */
  function RewrittenParams(url: string, r: string): seq<Param>
  {
    if '?' in url then
      var ps := ParamsOf(QueryArgs(url));
      ParamsOf(Lead(ps)) + Defineds(Drop(ps)) + [Param(Randomiser, Some(r))]
    else
      [Param(Randomiser, Some(r))]
  }

  /** The argument `GetURL` appends reads as the randomiser parameter. */
  lemma RandomiserArgument(r: string)
    requires Plain(r)
    ensures ParseParam("RANDOMISER=" + r) == Param(Randomiser, Some(r))
    ensures '?' !in "RANDOMISER=" + r && '&' !in "RANDOMISER=" + r
  {
    ParseEmit(Param(Randomiser, Some(r)));
    assert Randomiser + "=" == "RANDOMISER=";
    assert EmitParam(Param(Randomiser, Some(r))) == "RANDOMISER=" + r;
  }

  /** The rewritten arguments before the randomiser: at least one, and none
      holding `?` or `&`. */
  lemma KeptSegments(ps: seq<Param>)
    requires |ps| >= 1 && AllWellFormed(ps)
    ensures |Lead(ps) + Renders(Drop(ps))| >= 1
    ensures Segments(Lead(ps) + Renders(Drop(ps)))
  {
    KeptNonEmpty(ps);
    DropWellFormed(ps);
    RenderedSegments(Drop(ps));
    assert Segments(Lead(ps));
    SegmentsAppend(Lead(ps), Renders(Drop(ps)));
  }

  /** True when no segment holds `?` or `&`. */
  predicate Segments(l: seq<string>)
  {
    forall k :: 0 <= k < |l| ==> '?' !in l[k] && '&' !in l[k]
  }

  lemma SegmentsAppend(a: seq<string>, b: seq<string>)
    requires Segments(a) && Segments(b)
    ensures Segments(a + b)
  {
    forall k | 0 <= k < |a + b|
      ensures '?' !in (a + b)[k] && '&' !in (a + b)[k]
    {
      if k < |a| {
        assert (a + b)[k] == a[k];
      } else {
        assert (a + b)[k] == b[k - |a|];
      }
    }
  }

  /** Something is always written before the randomiser: the kept first
      argument, or the empty segment a dropped one leaves. */
  lemma KeptNonEmpty(ps: seq<Param>)
    requires |ps| >= 1
    ensures |Lead(ps) + Renders(Drop(ps))| >= 1
  {
    if ps[0].key != Randomiser {
      assert Drop(ps) == [ps[0]] + Drop(ps[1..]);
    }
  }

  /** A well-formed parameter is written without `?` or `&`. */
  lemma RenderedSegments(ps: seq<Param>)
    requires AllWellFormed(ps)
    ensures Segments(Renders(ps))
  {
    assert '?' !in Undefined && '&' !in Undefined;
    forall k | 0 <= k < |ps|
      ensures '?' !in RenderParam(ps[k]) && '&' !in RenderParam(ps[k])
    {
      assert WellFormed(ps[k]);
    }
  }

  /** On a URL with a query, `GetURL` writes the kept arguments and the
      randomiser as `&`-joined segments behind the base. The trailing `+ []`
      is the empty text after the query, in the form `QueryOfJoin` reads. */
  lemma GetURLSegments(url: string, r: string)
    requires Plain(r) && '?' in url
    ensures var ps := ParamsOf(QueryArgs(url));
      GetURL(url, r) == Split(url, '?')[0] + "?" + Join(Lead(ps) + Renders(Drop(ps)) + ["RANDOMISER=" + r], '&') + []
  {
    var ps := ParamsOf(QueryArgs(url));
    QueryParamsWellFormed(url);
    KeptSegments(ps);
    GetURLShape(url, r);
    AppendRandomiser(Split(url, '?')[0] + "?", Lead(ps) + Renders(Drop(ps)), r);
  }

  /** Appending `&RANDOMISER=r` to a join adds one more segment. The trailing
      `+ []` is the empty text after the query, as in `GetURLSegments`. */
  lemma AppendRandomiser(head: string, l0: seq<string>, r: string)
    requires |l0| >= 1
    ensures head + Join(l0, '&') + "&RANDOMISER=" + r == head + Join(l0 + ["RANDOMISER=" + r], '&') + []
  {
    var x := "RANDOMISER=" + r;
    JoinAppend(l0, [x], '&');
    assert Join([x], '&') == x;
    var j := Join(l0, '&');
    DelimitedRandomiser(r);
    Associative(head, j, "&RANDOMISER=" + r);
    Associative(j, ['&'], x);
  }

  /** The literal `GetURL` appends is a `&` followed by the randomiser argument. */
  lemma DelimitedRandomiser(r: string)
    ensures "&RANDOMISER=" + r == ['&'] + ("RANDOMISER=" + r)
  {
    assert "&RANDOMISER=" == ['&'] + "RANDOMISER=";
    Associative(['&'], "RANDOMISER=", r);
  }

  /** Regrouping a concatenation; called to put a term into the grouping
      that the next step of a proof matches on. */
  lemma Regroup(a: string, b: string, c: string, d: string)
    ensures a + b + c + d == a + (b + c + d)
  {
  }

  /** Concatenation is associative, stated for the same purpose. */
  lemma Associative(a: string, b: string, c: string)
    ensures a + b + c == a + (b + c)
  {
  }

  /** Reading arguments works argument by argument. */
  lemma ParamsOfAppend(a: seq<string>, b: seq<string>)
    ensures ParamsOf(a + b) == ParamsOf(a) + ParamsOf(b)
  {
  }

  /** The arguments `GetURL` writes for a URL with a query, read back. */
  lemma ParamsOfGetURLWithQuery(url: string, r: string)
    requires Plain(r) && '?' in url
    ensures '?' in GetURL(url, r)
    ensures ParamsOf(QueryArgs(GetURL(url, r))) == RewrittenParams(url, r)
  {
    var x := "RANDOMISER=" + r;
    RandomiserArgument(r);
    var ps := ParamsOf(QueryArgs(url));
    QueryParamsWellFormed(url);
    KeptSegments(ps);
    var l0 := Lead(ps) + Renders(Drop(ps));
    assert Segments([x]);
    SegmentsAppend(l0, [x]);
    GetURLSegments(url, r);
    QueryOfJoin(Split(url, '?')[0], l0 + [x], []);
    RewrittenFromSegments(ps, r);
  }

  /** Reading back the written segments gives the rewritten parameters. */
  lemma RewrittenFromSegments(ps: seq<Param>, r: string)
    requires Plain(r) && AllWellFormed(ps)
    ensures ParamsOf(Lead(ps) + Renders(Drop(ps)) + ["RANDOMISER=" + r])
      == ParamsOf(Lead(ps)) + Defineds(Drop(ps)) + [Param(Randomiser, Some(r))]
  {
    RandomiserArgument(r);
    DropWellFormed(ps);
    RendersReadBack(Drop(ps));
    ParamsOfAppend(Lead(ps), Renders(Drop(ps)));
    ParamsOfAppend(Lead(ps) + Renders(Drop(ps)), ["RANDOMISER=" + r]);
  }

  /** The arguments `GetURL` writes, read back by the query parser. */
  lemma ParamsOfGetURL(url: string, r: string)
    requires Plain(r)
    ensures '?' in GetURL(url, r)
    ensures ParamsOf(QueryArgs(GetURL(url, r))) == RewrittenParams(url, r)
  {
    if '?' in url {
      ParamsOfGetURLWithQuery(url, r);
    } else {
      var x := "RANDOMISER=" + r;
      RandomiserArgument(r);
      GetURLShape(url, r);
      QueryOfJoin(url, [x], []);
      StartRandomiser(url, r);
      assert Join([x], '&') == x;
    }
  }

  /** The literal appended to a URL without query is a `?` followed by the
      randomiser argument. The trailing `+ []` is the empty text after the
      query, in the form `QueryOfJoin` reads. */
  lemma StartRandomiser(url: string, r: string)
    ensures url + "?RANDOMISER=" + r == url + "?" + ("RANDOMISER=" + r) + []
  {
    assert "?RANDOMISER=" == "?" + "RANDOMISER=";
    Associative("?", "RANDOMISER=", r);
    Associative(url, "?", "RANDOMISER=" + r);
    Associative(url, "?RANDOMISER=", r);
  }

  /** The rewritten URL carries the new randomiser: looking it up gives `r`. */
  lemma GetURLRandomiserFound(url: string, r: string)
    requires Plain(r)
    ensures GetURLParameter(GetURL(url, r), Randomiser) == Some(r)
  {
    ParamsOfGetURL(url, r);
    var last := [Param(Randomiser, Some(r))];
    if '?' in url {
      var ps := ParamsOf(QueryArgs(url));
      var lead := ParamsOf(Lead(ps));
      var kept := Defineds(Drop(ps));
      assert !HasKey(lead, Randomiser);
      assert !HasKey(kept, Randomiser);
      ValueOfAppend(lead, kept, Randomiser);
      ValueOfAppend(lead + kept, last, Randomiser);
    }
  }

  /** Every other parameter looks up as before, except that a matching
      argument without `=` now reads as the text `undefined`. The empty key is
      excluded: a leading `RANDOMISER` leaves an empty segment in front. */
  lemma GetURLKeepsOtherParameters(url: string, r: string, name: string)
    requires Plain(r)
    requires name != Randomiser && name != ""
    ensures GetURLParameter(GetURL(url, r), name) == Some(GetURLParameter(url, name).GetOr(Undefined))
  {
    ParamsOfGetURL(url, r);
    var last := [Param(Randomiser, Some(r))];
    assert !HasKey(last, name);
    ValueOfAbsent(last, name);
    if '?' in url {
      var ps := ParamsOf(QueryArgs(url));
      var lead := ParamsOf(Lead(ps));
      var kept := Defineds(Drop(ps));
      assert !HasKey(lead, name);
      ValueOfAppend(lead, kept, name);
      ValueOfAppend(lead + kept, last, name);
      ValueOfDefineds(Drop(ps), name);
      ValueOfDrop(ps, name);
      if !HasKey(ps, name) {
        ValueOfAbsent(ps, name);
      }
    }
  }

  /** The rewritten URL carries exactly one randomiser, as its last
      parameter: no parameter before it has that key. */
  lemma GetURLSingleRandomiser(url: string, r: string)
    requires Plain(r)
    ensures '?' in GetURL(url, r)
    ensures var ps := ParamsOf(QueryArgs(GetURL(url, r)));
      |ps| >= 1 && ps[|ps| - 1] == Param(Randomiser, Some(r)) &&
      forall k :: 0 <= k < |ps| - 1 ==> ps[k].key != Randomiser
  {
    ParamsOfGetURL(url, r);
    RewrittenRandomiserLast(url, r);
  }

  /** The randomiser is the last of the rewritten parameters, and the only
      one with its key. */
  lemma RewrittenRandomiserLast(url: string, r: string)
    ensures var ps := RewrittenParams(url, r);
      |ps| >= 1 && ps[|ps| - 1] == Param(Randomiser, Some(r)) &&
      forall k :: 0 <= k < |ps| - 1 ==> ps[k].key != Randomiser
  {
    if '?' in url {
      var ps := ParamsOf(QueryArgs(url));
      var front := ParamsOf(Lead(ps)) + Defineds(Drop(ps));
      FrontKeys(ps);
      assert RewrittenParams(url, r) == front + [Param(Randomiser, Some(r))];
    }
  }

  /** No parameter before the new randomiser has its key. */
  lemma FrontKeys(ps: seq<Param>)
    ensures var front := ParamsOf(Lead(ps)) + Defineds(Drop(ps));
      forall k :: 0 <= k < |front| ==> front[k].key != Randomiser
  {
    var lead := ParamsOf(Lead(ps));
    var kept := Defineds(Drop(ps));
    if |Lead(ps)| > 0 {
      EmptyArgument();
      assert lead == [Param("", None)];
    }
    assert forall k :: 0 <= k < |lead| ==> lead[k].key == "";
    assert forall k :: 0 <= k < |kept| ==> kept[k].key == Drop(ps)[k].key;
  }

  /** The empty segment reads as the empty key without a value. */
  lemma EmptyArgument()
    ensures ParseParam("") == Param("", None)
  {
    assert Split("", '=') == [""];
  }

  /** A lookup in a literal location. */
  lemma LookupExample()
    ensures GetURLParameter("p?a=1&b=2", "b") == Some("2")
  {
    var ps := [Param("a", Some("1")), Param("b", Some("2"))];
    assert AllWellFormed(ps);
    assert EmitParam(ps[0]) == "a=1" && EmitParam(ps[1]) == "b=2";
    assert Emits(ps) == ["a=1", "b=2"];
    assert QueryText(ps) == "a=1" + "&" + "b=2";
    assert "p" + "?" + QueryText(ps) + "" == "p?a=1&b=2";
    GetURLParameterOfQuery("p", ps, "", "b");
    assert "a"[0] != "b"[0];
    ValueOfFirst(ps, "b", 1);
  }

  /** A leading randomiser is dropped but leaves its `&` behind: the
      arguments `RANDOMISER=1&a=2` are rebuilt as `&a=2`. */
  lemma LeadingRandomiserExample()
    ensures KeptOpts([Param(Randomiser, Some("1")), Param("a", Some("2"))]) == "&a=2"
  {
    var a := Param("a", Some("2"));
    var ps := [Param(Randomiser, Some("1")), a];
    assert "a"[0] != Randomiser[0];
    assert !HasKey([a], Randomiser);
    DropNone([a]);
    assert ps[1..] == [a];
    assert Drop(ps) == [a];
    assert Lead(ps) == [""];
    assert RenderParam(a) == "a=2";
    assert Renders([a]) == ["a=2"];
    assert Lead(ps) + Renders(Drop(ps)) == ["", "a=2"];
    assert Join(["a=2"], '&') == "a=2";
  }
}
