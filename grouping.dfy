/**
 * The grouping and averaging parts of `aggregate_daily_sentiment`, stated for
 * any items, any way of filing an item under a date (`key`, `None` for an
 * item that is skipped) and any way of scoring it.
 */
module Grouping {
  import opened Wrappers
  import opened Dates
  import opened Dicts

  /** `sentiment_per_date[d].append(x)` on a `defaultdict(list)`: a new key goes last. */
  function AddScore(g: DateDict<seq<real>>, d: Date, x: real): (r: DateDict<seq<real>>)
    requires g.Valid()
    ensures r.Valid()
    ensures r.keys == if d in g.entries then g.keys else g.keys + [d]
    ensures r.entries == g.entries[d := if d in g.entries then g.entries[d] + [x] else [x]]
  {
    if d in g.entries then DateDict(g.keys, g.entries[d := g.entries[d] + [x]])
    else DateDict(g.keys + [d], g.entries[d := [x]])
  }

  /** The dict the grouping loop has built after visiting `xs` in order. */
  function GroupBy<A>(xs: seq<A>, key: A -> Option<Date>, score: A -> real): (g: DateDict<seq<real>>)
    ensures g.Valid()
    ensures forall d :: d in g.entries ==> g.entries[d] != []
    decreases |xs|
  {
    if xs == [] then EmptyDict()
    else
      var last := xs[|xs| - 1];
      var g := GroupBy(xs[..|xs| - 1], key, score);
      match key(last)
      case None => g
      case Some(d) => AddScore(g, d, score(last))
  }

  /** Some item of `xs` is filed under `d`. */
  ghost predicate FiledUnder<A>(xs: seq<A>, key: A -> Option<Date>, d: Date) {
    exists i :: 0 <= i < |xs| && key(xs[i]) == Some(d)
  }

  /** Independent of any dict: the scores of the items filed under `d`, in order. */
  function ScoresOn<A>(xs: seq<A>, key: A -> Option<Date>, score: A -> real, d: Date): seq<real>
    decreases |xs|
  {
    if xs == [] then []
    else
      var last := xs[|xs| - 1];
      var rest := ScoresOn(xs[..|xs| - 1], key, score, d);
      if key(last) == Some(d) then rest + [score(last)] else rest
  }

  /** The number of items that are not skipped. */
  function DatedCount<A>(xs: seq<A>, key: A -> Option<Date>): nat
    decreases |xs|
  {
    if xs == [] then 0
    else DatedCount(xs[..|xs| - 1], key) + (if key(xs[|xs| - 1]).Some? then 1 else 0)
  }

  /** The total size of the groups listed in `keys`. */
  function SizeOver(keys: seq<Date>, m: map<Date, seq<real>>): nat
    requires forall i :: 0 <= i < |keys| ==> keys[i] in m
    decreases |keys|
  {
    if keys == [] then 0
    else SizeOver(keys[..|keys| - 1], m) + |m[keys[|keys| - 1]]|
  }

  // ---------------------------------------------------------------------
  // Properties of the grouping

  /** One step of the loop: the grouping of a prefix one item longer. */
  lemma GroupByStep<A>(xs: seq<A>, i: nat, key: A -> Option<Date>, score: A -> real)
    requires i < |xs|
    ensures GroupBy(xs[..i + 1], key, score) ==
              match key(xs[i])
              case None => GroupBy(xs[..i], key, score)
              case Some(d) => AddScore(GroupBy(xs[..i], key, score), d, score(xs[i]))
  {
    assert xs[..i + 1][..i] == xs[..i];
  }

  lemma FiledUnderSnoc<A>(xs: seq<A>, key: A -> Option<Date>, d: Date)
    requires xs != []
    ensures FiledUnder(xs, key, d) <==>
              FiledUnder(xs[..|xs| - 1], key, d) || key(xs[|xs| - 1]) == Some(d)
  {
    var n := |xs| - 1;
    var init := xs[..n];
    if FiledUnder(init, key, d) {
      var i :| 0 <= i < n && key(init[i]) == Some(d);
      assert xs[i] == init[i];
    }
    if FiledUnder(xs, key, d) && key(xs[n]) != Some(d) {
      var i :| 0 <= i < |xs| && key(xs[i]) == Some(d);
      assert init[i] == xs[i];
    }
  }

  /** The dict's dates are exactly the dates of the items that are not skipped. */
  lemma {:induction false} GroupByKeys<A>(xs: seq<A>, key: A -> Option<Date>, score: A -> real)
    ensures forall d :: d in GroupBy(xs, key, score).entries <==> FiledUnder(xs, key, d)
    decreases |xs|
  {
    if xs != [] {
      GroupByKeys(xs[..|xs| - 1], key, score);
      forall d
        ensures d in GroupBy(xs, key, score).entries <==> FiledUnder(xs, key, d)
      {
        FiledUnderSnoc(xs, key, d);
      }
    }
  }

  /** Each date's group is exactly the scores of the items filed under it, in order. */
  lemma {:induction false} GroupByScores<A>(xs: seq<A>, key: A -> Option<Date>, score: A -> real)
    ensures forall d :: d in GroupBy(xs, key, score).entries ==>
                        GroupBy(xs, key, score).entries[d] == ScoresOn(xs, key, score, d)
    ensures forall d :: d !in GroupBy(xs, key, score).entries ==> ScoresOn(xs, key, score, d) == []
    decreases |xs|
  {
    if xs != [] {
      GroupByScores(xs[..|xs| - 1], key, score);
    }
  }

  lemma {:induction false} SizeOverUntouched(keys: seq<Date>, m: map<Date, seq<real>>, d: Date, v: seq<real>)
    requires forall i :: 0 <= i < |keys| ==> keys[i] in m
    requires d !in keys
    ensures SizeOver(keys, m[d := v]) == SizeOver(keys, m)
    decreases |keys|
  {
    if keys != [] {
      SizeOverUntouched(keys[..|keys| - 1], m, d, v);
    }
  }

  lemma {:induction false} SizeOverUpdate(keys: seq<Date>, m: map<Date, seq<real>>, d: Date, v: seq<real>)
    requires forall i :: 0 <= i < |keys| ==> keys[i] in m
    requires Distinct(keys)
    requires d in keys
    ensures SizeOver(keys, m[d := v]) == SizeOver(keys, m) - |m[d]| + |v|
    decreases |keys|
  {
    var init := keys[..|keys| - 1];
    if keys[|keys| - 1] == d {
      assert d !in init;
      SizeOverUntouched(init, m, d, v);
    } else {
      SizeOverUpdate(init, m, d, v);
    }
  }

  /** The group sizes add up to the number of items that are not skipped. */
  lemma {:induction false} GroupSizesSum<A>(xs: seq<A>, key: A -> Option<Date>, score: A -> real)
    ensures SizeOver(GroupBy(xs, key, score).keys, GroupBy(xs, key, score).entries) == DatedCount(xs, key)
    decreases |xs|
  {
    if xs != [] {
      var init := xs[..|xs| - 1];
      var last := xs[|xs| - 1];
      var g := GroupBy(init, key, score);
      GroupSizesSum(init, key, score);
      match key(last)
      case None =>
      case Some(d) =>
        var x := score(last);
        if d in g.entries {
          SizeOverUpdate(g.keys, g.entries, d, g.entries[d] + [x]);
        } else {
          SizeOverUntouched(g.keys, g.entries, d, [x]);
          var keys := g.keys + [d];
          assert keys[..|keys| - 1] == g.keys;
        }
    }
  }

  /** An item that is skipped leaves the grouping as it was. */
  lemma SkippedItemIgnored<A>(xs: seq<A>, x: A, key: A -> Option<Date>, score: A -> real)
    requires key(x).None?
    ensures GroupBy(xs + [x], key, score) == GroupBy(xs, key, score)
  {
    assert (xs + [x])[..|xs|] == xs;
  }

  /** An item that is filed appends its own score to its date's group, whatever the score is. */
  lemma FiledItemAppended<A>(xs: seq<A>, x: A, key: A -> Option<Date>, score: A -> real)
    requires key(x).Some?
    ensures var d := key(x).value;
            var before := GroupBy(xs, key, score);
            d in GroupBy(xs + [x], key, score).entries &&
            GroupBy(xs + [x], key, score).entries[d] ==
              (if d in before.entries then before.entries[d] else []) + [score(x)]
  {
    assert (xs + [x])[..|xs|] == xs;
  }

  // ---------------------------------------------------------------------
  // The per-day mean

  function Sum(s: seq<real>): real
    decreases |s|
  {
    if s == [] then 0.0 else Sum(s[..|s| - 1]) + s[|s| - 1]
  }

  /** The arithmetic mean `sum(scores)/len(scores)`, over the reals. */
  function Mean(s: seq<real>): (r: real)
    requires s != []
    ensures r * (|s| as real) == Sum(s)
  {
    Sum(s) / (|s| as real)
  }

  /** The keys in `keys` whose group is non-empty, in the same order (the comprehension's `if scores`). */
  function NonEmptyKeys(keys: seq<Date>, m: map<Date, seq<real>>): (r: seq<Date>)
    requires forall i :: 0 <= i < |keys| ==> keys[i] in m
    ensures forall d :: d in r ==> d in keys
    decreases |keys|
  {
    if keys == [] then []
    else
      var rest := NonEmptyKeys(keys[..|keys| - 1], m);
      if m[keys[|keys| - 1]] != [] then rest + [keys[|keys| - 1]] else rest
  }

  lemma {:induction false} NonEmptyKeysMembers(keys: seq<Date>, m: map<Date, seq<real>>)
    requires forall i :: 0 <= i < |keys| ==> keys[i] in m
    ensures forall d :: d in NonEmptyKeys(keys, m) <==> d in keys && m[d] != []
    decreases |keys|
  {
    if keys != [] {
      NonEmptyKeysMembers(keys[..|keys| - 1], m);
      assert keys == keys[..|keys| - 1] + [keys[|keys| - 1]];
    }
  }

  lemma {:induction false} NonEmptyKeysDistinct(keys: seq<Date>, m: map<Date, seq<real>>)
    requires forall i :: 0 <= i < |keys| ==> keys[i] in m
    requires Distinct(keys)
    ensures Distinct(NonEmptyKeys(keys, m))
    decreases |keys|
  {
    if keys != [] {
      var init, last := keys[..|keys| - 1], keys[|keys| - 1];
      NonEmptyKeysDistinct(init, m);
      var rest := NonEmptyKeys(init, m);
      assert last !in init;
      assert last !in rest;
      var r := NonEmptyKeys(keys, m);
      if m[last] != [] {
        assert r == rest + [last];
        forall i, j | 0 <= i < j < |r|
          ensures r[i] != r[j]
        {
          assert r[i] == rest[i];
          if j < |rest| {
            assert r[j] == rest[j];
          } else {
            assert rest[i] in rest;
          }
        }
      } else {
        assert r == rest;
      }
    }
  }

  /** `a` occurs in `keys` strictly before `b`. */
  ghost predicate Before(keys: seq<Date>, a: Date, b: Date) {
    exists p, q :: 0 <= p < q < |keys| && keys[p] == a && keys[q] == b
  }

  /** Filtering keeps the relative order of the keys that remain. */
  lemma {:induction false} NonEmptyKeysOrder(keys: seq<Date>, m: map<Date, seq<real>>)
    requires forall i :: 0 <= i < |keys| ==> keys[i] in m
    ensures forall i, j :: 0 <= i < j < |NonEmptyKeys(keys, m)| ==>
              Before(keys, NonEmptyKeys(keys, m)[i], NonEmptyKeys(keys, m)[j])
    decreases |keys|
  {
    if keys != [] {
      var init, last := keys[..|keys| - 1], keys[|keys| - 1];
      NonEmptyKeysOrder(init, m);
      var rest := NonEmptyKeys(init, m);
      var r := NonEmptyKeys(keys, m);
      assert r == if m[last] != [] then rest + [last] else rest;
      forall i, j | 0 <= i < j < |r|
        ensures Before(keys, r[i], r[j])
      {
        assert r[i] == rest[i];
        if j < |rest| {
          assert r[j] == rest[j];
          assert Before(init, rest[i], rest[j]);
          var p, q :| 0 <= p < q < |init| && init[p] == rest[i] && init[q] == rest[j];
          assert keys[p] == init[p] && keys[q] == init[q];
        } else {
          assert r[j] == last;
          assert rest[i] in rest;
          var p :| 0 <= p < |init| && init[p] == rest[i];
          assert keys[p] == init[p];
        }
      }
    }
  }

  lemma {:induction false} NonEmptyKeysAll(keys: seq<Date>, m: map<Date, seq<real>>)
    requires forall i :: 0 <= i < |keys| ==> keys[i] in m
    ensures (forall i :: 0 <= i < |keys| ==> m[keys[i]] != []) ==> NonEmptyKeys(keys, m) == keys
    decreases |keys|
  {
    if keys != [] {
      NonEmptyKeysAll(keys[..|keys| - 1], m);
    }
  }

  /**
   * `{date: sum(scores)/len(scores) for date, scores in g.items() if scores}`:
   * every non-empty group becomes its mean, in the order of `g`.
   */
  function DailyAverages(g: DateDict<seq<real>>): (avg: DateDict<real>)
    requires g.Valid()
    ensures avg.Valid()
    ensures forall d :: d in avg.entries <==> d in g.entries && g.entries[d] != []
    ensures forall d :: d in avg.entries ==> g.entries[d] != [] && avg.entries[d] == Mean(g.entries[d])
    ensures forall i, j :: 0 <= i < j < |avg.keys| ==> Before(g.keys, avg.keys[i], avg.keys[j])
    ensures (forall d :: d in g.entries ==> g.entries[d] != []) ==> avg.keys == g.keys
  {
    NonEmptyKeysMembers(g.keys, g.entries);
    NonEmptyKeysDistinct(g.keys, g.entries);
    NonEmptyKeysOrder(g.keys, g.entries);
    NonEmptyKeysAll(g.keys, g.entries);
    DateDict(NonEmptyKeys(g.keys, g.entries),
             map d | d in g.entries && g.entries[d] != [] :: Mean(g.entries[d]))
  }

  lemma {:induction false} SumBounds(s: seq<real>, lo: real, hi: real)
    requires forall i :: 0 <= i < |s| ==> lo <= s[i] <= hi
    ensures (|s| as real) * lo <= Sum(s) <= (|s| as real) * hi
    decreases |s|
  {
    if s != [] {
      SumBounds(s[..|s| - 1], lo, hi);
    }
  }

  /** A day's average lies within the range of its scores, so within [-1, 1] for compound scores. */
  lemma MeanWithin(s: seq<real>, lo: real, hi: real)
    requires s != []
    requires forall i :: 0 <= i < |s| ==> lo <= s[i] <= hi
    ensures lo <= Mean(s) <= hi
  {
    SumBounds(s, lo, hi);
    var n := |s| as real;
    assert Mean(s) * n == Sum(s);
  }

  lemma {:induction false} SumAppend(s: seq<real>, t: seq<real>)
    ensures Sum(s + t) == Sum(s) + Sum(t)
    decreases |t|
  {
    if t == [] {
      assert s + t == s;
    } else {
      var u := t[..|t| - 1];
      assert (s + t)[..|s + t| - 1] == s + u;
      SumAppend(s, u);
    }
  }

  lemma SumRemove(t: seq<real>, j: nat)
    requires j < |t|
    ensures Sum(t) == Sum(t[..j] + t[j + 1..]) + t[j]
  {
    var before, x, after := t[..j], t[j], t[j + 1..];
    assert t == (before + [x]) + after;
    SumAppend(before + [x], after);
    SumAppend(before, [x]);
    assert [x][..0] == [];
    assert Sum([x]) == x;
    SumAppend(before, after);
  }

  /** The order the items arrive in does not change a day's sum. */
  lemma {:induction false} SumPermutation(s: seq<real>, t: seq<real>)
    requires multiset(s) == multiset(t)
    ensures Sum(s) == Sum(t)
    decreases |s|
  {
    if s != [] {
      var x := s[|s| - 1];
      var init := s[..|s| - 1];
      assert s == init + [x];
      assert x in multiset(t);
      var j :| 0 <= j < |t| && t[j] == x;
      var rest := t[..j] + t[j + 1..];
      assert t == t[..j] + [x] + t[j + 1..];
      assert multiset(t) == multiset(t[..j]) + multiset{x} + multiset(t[j + 1..]);
      assert multiset(s) == multiset(init) + multiset{x};
      assert multiset(rest) == multiset(t[..j]) + multiset(t[j + 1..]);
      assert multiset(init) == multiset(s) - multiset{x};
      assert multiset(rest) == multiset(t) - multiset{x};
      SumPermutation(init, rest);
      SumRemove(t, j);
    } else {
      assert |t| == |multiset(t)|;
    }
  }

  /** Two mean computations over the same scores in a different order agree. */
  lemma MeanPermutation(s: seq<real>, t: seq<real>)
    requires s != [] && multiset(s) == multiset(t)
    ensures t != [] && Mean(s) == Mean(t)
  {
    assert |s| == |multiset(s)| == |multiset(t)| == |t|;
    SumPermutation(s, t);
  }
}
