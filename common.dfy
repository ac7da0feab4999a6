/**
 * Shared vocabulary of the front end: optional values (a TypeScript `T | null`
 * or an optional property), the three difficulty levels, and the array and
 * string operations the pages build on: `Array.prototype.filter`,
 * `Array.from(new Set(...))`, `toLowerCase`, `includes` and `slice(0, k)` with
 * a "+N more" suffix.
 */
module Common {

  datatype Option<+T> = None | Some(value: T)

  /** The `"Easy" | "Medium" | "Hard"` union used by tests and questions. */
  datatype Difficulty = Easy | Medium | Hard

  // ---------------------------------------------------------------------------
  // Order-preserving selection (Array.prototype.filter)
  // ---------------------------------------------------------------------------

  /** Keeps the elements of `xs` that satisfy `p`, in their original order. */
  function Filter<T(!new)>(xs: seq<T>, p: T -> bool): (r: seq<T>)
    ensures |r| <= |xs|
    ensures forall x :: x in r <==> x in xs && p(x)
  {
    if xs == [] then []
    else if p(xs[0]) then [xs[0]] + Filter(xs[1..], p)
    else Filter(xs[1..], p)
  }

  /** `idx` lists, in increasing order, positions of `xs` that spell out `r`. */
  ghost predicate Embeds<T>(idx: seq<int>, r: seq<T>, xs: seq<T>)
  {
    && |idx| == |r|
    && (forall k :: 0 <= k < |idx| ==> 0 <= idx[k] < |xs| && r[k] == xs[idx[k]])
    && (forall k, l :: 0 <= k < l < |idx| ==> idx[k] < idx[l])
  }

  /** `r` is obtained from `xs` by deleting elements, without reordering. */
  ghost predicate IsSubsequence<T>(r: seq<T>, xs: seq<T>)
  {
    exists idx :: Embeds(idx, r, xs)
  }

  function Shifted(idx: seq<int>): (s: seq<int>)
    ensures |s| == |idx| && forall k :: 0 <= k < |idx| ==> s[k] == idx[k] + 1
  {
    seq(|idx|, k requires 0 <= k < |idx| => idx[k] + 1)
  }

  lemma ShiftedMembers(idx: seq<int>, i: int)
    ensures i in Shifted(idx) <==> i - 1 in idx
  {
    var s := Shifted(idx);
    if i in s {
      var k :| 0 <= k < |s| && s[k] == i;
      assert idx[k] == i - 1;
    }
    if i - 1 in idx {
      var k :| 0 <= k < |idx| && idx[k] == i - 1;
      assert s[k] == i;
    }
  }

  /** Positions into `xs[1..]` become positions into `xs` by adding one. */
  lemma EmbedsSkip<T>(idx: seq<int>, r: seq<T>, xs: seq<T>)
    requires |xs| > 0 && Embeds(idx, r, xs[1..])
    ensures Embeds(Shifted(idx), r, xs)
  {
  }

  /** Taking the head of `xs` as well puts position 0 in front. */
  lemma EmbedsTake<T>(idx: seq<int>, r: seq<T>, xs: seq<T>)
    requires |xs| > 0 && Embeds(idx, r, xs[1..])
    ensures Embeds([0] + Shifted(idx), [xs[0]] + r, xs)
  {
    EmbedsSkip(idx, r, xs);
    var s := [0] + Shifted(idx);
    forall k, l | 0 <= k < l < |s| ensures s[k] < s[l] {
      if k > 0 {
        assert s[k] == Shifted(idx)[k - 1] && s[l] == Shifted(idx)[l - 1];
      }
    }
  }

  /**
   * The result of `Filter` is the subsequence of `xs` made of exactly the
   * positions whose element satisfies `p`.
   */
  lemma {:induction false} FilterSelects<T(!new)>(xs: seq<T>, p: T -> bool) returns (idx: seq<int>)
    ensures Embeds(idx, Filter(xs, p), xs)
    ensures forall i :: 0 <= i < |xs| ==> (i in idx <==> p(xs[i]))
  {
    if xs == [] {
      idx := [];
    } else {
      var rest := FilterSelects(xs[1..], p);
      var tail := Shifted(rest);
      if p(xs[0]) {
        EmbedsTake(rest, Filter(xs[1..], p), xs);
        idx := [0] + tail;
      } else {
        EmbedsSkip(rest, Filter(xs[1..], p), xs);
        idx := tail;
      }
      forall i | 0 <= i < |xs| ensures i in idx <==> p(xs[i]) {
        ShiftedMembers(rest, i);
        if i == 0 {
          assert -1 !in rest;
        } else {
          assert xs[i] == xs[1..][i - 1];
        }
      }
    }
  }

  lemma FilterIsSubsequence<T(!new)>(xs: seq<T>, p: T -> bool)
    ensures IsSubsequence(Filter(xs, p), xs)
  {
    var idx := FilterSelects(xs, p);
  }

  /** A predicate that holds everywhere keeps every element. */
  lemma {:induction false} FilterKeepsAll<T(!new)>(xs: seq<T>, p: T -> bool)
    requires forall x :: x in xs ==> p(x)
    ensures Filter(xs, p) == xs
  {
    if xs != [] {
      assert forall x :: x in xs[1..] ==> x in xs;
      FilterKeepsAll(xs[1..], p);
    }
  }

  /** Two complementary filters split `xs` into two parts that make it up again. */
  lemma {:induction false} FilterSplits<T(!new)>(xs: seq<T>, p: T -> bool, q: T -> bool)
    requires forall x :: x in xs ==> (q(x) <==> !p(x))
    ensures |Filter(xs, p)| + |Filter(xs, q)| == |xs|
    ensures multiset(Filter(xs, p)) + multiset(Filter(xs, q)) == multiset(xs)
  {
    if xs != [] {
      assert forall x :: x in xs[1..] ==> x in xs;
      FilterSplits(xs[1..], p, q);
      assert xs == [xs[0]] + xs[1..];
    }
  }

  // ---------------------------------------------------------------------------
  // De-duplication in first-occurrence order (Array.from(new Set(xs)))
  // ---------------------------------------------------------------------------

  predicate NoDuplicates<T(==)>(s: seq<T>)
  {
    forall i, j :: 0 <= i < j < |s| ==> s[i] != s[j]
  }

  /**
   * Inserting the elements of `xs` one by one into a set and listing the set in
   * insertion order: an element is appended the first time it is seen.
   */
  function Dedupe<T(==,!new)>(xs: seq<T>): (r: seq<T>)
    ensures NoDuplicates(r)
    ensures |r| <= |xs|
    ensures forall x :: x in r <==> x in xs
  {
    if xs == [] then []
    else
      var r := Dedupe(xs[..|xs| - 1]);
      assert forall x :: x in xs <==> x in xs[..|xs| - 1] || x == xs[|xs| - 1] by {
        assert xs == xs[..|xs| - 1] + [xs[|xs| - 1]];
      }
      if xs[|xs| - 1] in r then r else r + [xs[|xs| - 1]]
  }

  /** The position where `x` first occurs in `xs`. */
  function FirstIndex<T(==)>(xs: seq<T>, x: T): (i: nat)
    requires x in xs
    ensures i < |xs| && xs[i] == x
    ensures forall k :: 0 <= k < i ==> xs[k] != x
  {
    if xs[0] == x then 0 else 1 + FirstIndex(xs[1..], x)
  }

  lemma {:induction false} FirstIndexOfPrefix<T>(ys: seq<T>, z: T, x: T)
    requires x in ys
    ensures FirstIndex(ys + [z], x) == FirstIndex(ys, x)
  {
    var i := FirstIndex(ys, x);
    var j := FirstIndex(ys + [z], x);
    assert (ys + [z])[i] == x;
    assert j <= i;
    assert ys[j] == x;
  }

  /** `Dedupe` lists the distinct values in the order of their first occurrence. */
  lemma {:induction false} DedupeFirstOccurrenceOrder<T(!new)>(xs: seq<T>)
    ensures forall i, j :: 0 <= i < j < |Dedupe(xs)| ==>
      FirstIndex(xs, Dedupe(xs)[i]) < FirstIndex(xs, Dedupe(xs)[j])
  {
    if xs != [] {
      var ys, z := xs[..|xs| - 1], xs[|xs| - 1];
      assert xs == ys + [z];
      DedupeFirstOccurrenceOrder(ys);
      var r := Dedupe(ys);
      forall x | x in r ensures FirstIndex(xs, x) == FirstIndex(ys, x) {
        FirstIndexOfPrefix(ys, z, x);
      }
      if z !in r {
        assert FirstIndex(xs, z) == |ys| by {
          var f := FirstIndex(xs, z);
          assert z !in ys;
          assert forall k :: 0 <= k < |ys| ==> xs[k] == ys[k];
        }
        forall i, j | 0 <= i < j < |Dedupe(xs)|
          ensures FirstIndex(xs, Dedupe(xs)[i]) < FirstIndex(xs, Dedupe(xs)[j])
        {
          assert Dedupe(xs) == r + [z];
          if j == |r| {
            assert Dedupe(xs)[i] == r[i];
          }
        }
      }
    }
  }

  /** `xs.map(f)` */
  function Project<T, U>(xs: seq<T>, f: T -> U): (ys: seq<U>)
    ensures |ys| == |xs| && forall i :: 0 <= i < |xs| ==> ys[i] == f(xs[i])
  {
    seq(|xs|, i requires 0 <= i < |xs| => f(xs[i]))
  }

  /**
   * `Array.from(new Set(xs.map(f)))`: every value of `f` over `xs`, each
   * once, and nothing else.
   */
  function DistinctValues<T, U(==,!new)>(xs: seq<T>, f: T -> U): (r: seq<U>)
    ensures NoDuplicates(r)
    ensures forall u :: u in r <==> exists x :: x in xs && f(x) == u
  {
    var ys := Project(xs, f);
    assert forall u :: u in ys <==> exists x :: x in xs && f(x) == u by {
      forall u ensures u in ys <==> exists x :: x in xs && f(x) == u {
        if u in ys {
          var i :| 0 <= i < |ys| && ys[i] == u;
          assert xs[i] in xs && f(xs[i]) == u;
        }
        if exists x :: x in xs && f(x) == u {
          var x :| x in xs && f(x) == u;
          var i :| 0 <= i < |xs| && xs[i] == x;
          assert ys[i] == u;
        }
      }
    }
    Dedupe(ys)
  }

  // ---------------------------------------------------------------------------
  // Case-insensitive substring search
  // ---------------------------------------------------------------------------

  /** `toLowerCase` on ASCII letters; every other character is left unchanged. */
  function LowerChar(c: char): char
  {
    if 'A' <= c <= 'Z' then (c as int + 32) as char else c
  }

  function ToLower(s: string): (r: string)
    ensures |r| == |s| && forall i :: 0 <= i < |s| ==> r[i] == LowerChar(s[i])
  {
    seq(|s|, i requires 0 <= i < |s| => LowerChar(s[i]))
  }

  lemma ToLowerIdempotent(s: string)
    ensures ToLower(ToLower(s)) == ToLower(s)
  {
  }

  predicate OccursAt(hay: string, needle: string, i: int)
  {
    0 <= i && i + |needle| <= |hay| && hay[i..i + |needle|] == needle
  }

  /** `hay.includes(needle)`: some window of `hay` spells `needle`. */
  function Includes(hay: string, needle: string): (b: bool)
    ensures b <==> exists i :: OccursAt(hay, needle, i)
    decreases |hay|
  {
    if |needle| > |hay| then
      assert forall i :: !OccursAt(hay, needle, i);
      false
    else if hay[..|needle|] == needle then
      assert OccursAt(hay, needle, 0);
      true
    else
      var b := Includes(hay[1..], needle);
      assert b ==> exists i :: OccursAt(hay, needle, i) by {
        if b {
          var i :| OccursAt(hay[1..], needle, i);
          assert hay[1..][i..i + |needle|] == hay[i + 1..i + 1 + |needle|];
          assert OccursAt(hay, needle, i + 1);
        }
      }
      assert (exists i :: OccursAt(hay, needle, i)) ==> b by {
        if exists i :: OccursAt(hay, needle, i) {
          var i :| OccursAt(hay, needle, i);
          assert i != 0;
          assert hay[1..][i - 1..i - 1 + |needle|] == hay[i..i + |needle|];
          assert OccursAt(hay[1..], needle, i - 1);
        }
      }
      b
  }

  /** The empty query is contained in every string. */
  lemma IncludesEmpty(hay: string)
    ensures Includes(hay, "")
  {
    assert OccursAt(hay, "", 0);
  }

  /** `s.toLowerCase().includes(q.toLowerCase())`. */
  predicate MatchesQuery(s: string, query: string)
  {
    Includes(ToLower(s), ToLower(query))
  }

  lemma MatchesEmptyQuery(s: string)
    ensures MatchesQuery(s, "")
  {
    IncludesEmpty(ToLower(s));
  }

  // ---------------------------------------------------------------------------
  // Preview truncation: `xs.slice(0, limit)` and, beyond it, "+N more"
  // ---------------------------------------------------------------------------

  datatype Preview<T> = Preview(shown: seq<T>, more: Option<nat>)

  function Truncate<T>(xs: seq<T>, limit: nat): (p: Preview<T>)
    ensures |p.shown| == if |xs| < limit then |xs| else limit
    ensures p.shown <= xs
    ensures p.more.Some? <==> |xs| > limit
    ensures |p.shown| + (if p.more.Some? then p.more.value else 0) == |xs|
  {
    Preview(if |xs| < limit then xs else xs[..limit],
            if |xs| > limit then Some(|xs| - limit) else None)
  }

  /** `(part / whole) * 100` in exact arithmetic. */
  function Percent(part: nat, whole: nat): real
    requires whole > 0
  {
    (part as real) / (whole as real) * 100.0
  }

  /** A part of a whole is between 0 and 100 percent of it, and 100 percent exactly when it is all of it. */
  lemma PercentBounds(part: nat, whole: nat)
    requires 0 < whole && part <= whole
    ensures 0.0 <= Percent(part, whole) <= 100.0
    ensures Percent(part, whole) == 100.0 <==> part == whole
  {
    var q := (part as real) / (whole as real);
    assert q * (whole as real) == part as real;
    assert q <= 1.0 by {
      if q > 1.0 {
        assert q * (whole as real) > 1.0 * (whole as real);
      }
    }
    if q * 100.0 == 100.0 {
      assert q == 1.0;
    }
  }
}
