/**
 * The JavaScript string and array operations the resolver is built from:
 * `String.prototype.includes`, `String.prototype.split` with a one-character
 * separator, `Array.prototype.indexOf` on an array of strings and
 * `Array.prototype.filter(Boolean)`. Strings are sequences of Unicode scalar
 * values rather than UTF-16 code units.
 */
module JsStrings {

  /** `sub` occurs in `s` starting at offset `i`. */
  predicate OccursAt(s: string, sub: string, i: int) {
    0 <= i <= |s| - |sub| && s[i..i + |sub|] == sub
  }

  /** `s.includes(sub)`, written as the left-to-right search it performs. */
  function Includes(s: string, sub: string): bool
    decreases |s|
  {
    sub <= s || (|s| > 0 && Includes(s[1..], sub))
  }

  /** `Includes` holds exactly when `sub` occurs in `s` at some offset. */
  lemma {:induction false} IncludesIff(s: string, sub: string)
    ensures Includes(s, sub) <==> exists i :: OccursAt(s, sub, i)
    decreases |s|
  {
    if sub <= s {
      assert OccursAt(s, sub, 0);
    } else if |s| > 0 {
      IncludesIff(s[1..], sub);
      if Includes(s[1..], sub) {
        var i :| OccursAt(s[1..], sub, i);
        assert s[i + 1..i + 1 + |sub|] == s[1..][i..i + |sub|];
        assert OccursAt(s, sub, i + 1);
      }
      if exists i :: OccursAt(s, sub, i) {
        var i :| OccursAt(s, sub, i);
        assert i != 0;
        assert s[1..][i - 1..i - 1 + |sub|] == s[i..i + |sub|];
        assert OccursAt(s[1..], sub, i - 1);
      }
    }
  }

  lemma IncludesWhenOccurs(s: string, sub: string, i: int)
    requires OccursAt(s, sub, i)
    ensures Includes(s, sub)
  {
    IncludesIff(s, sub);
  }

  /** `sub` is absent when no position holding its first character starts a copy of it. */
  lemma NotIncludedWhenMisaligned(s: string, sub: string)
    requires |sub| > 0
    requires forall i :: 0 <= i < |s| && s[i] == sub[0] ==> !OccursAt(s, sub, i)
    ensures !Includes(s, sub)
  {
    IncludesIff(s, sub);
  }

  /** `s.split(d)` for a one-character separator `d`: never empty; an empty string gives `[""]`. */
  function Split(s: string, d: char): (parts: seq<string>)
    ensures |parts| >= 1
    decreases |s|
  {
    if s == [] then [""]
    else
      var rest := Split(s[1..], d);
      if s[0] == d then [""] + rest
      else [[s[0]] + rest[0]] + rest[1..]
  }

  /** `parts.join(d)`, the inverse of `Split`. */
  function Join(parts: seq<string>, d: char): string
    decreases |parts|
  {
    if |parts| == 0 then ""
    else if |parts| == 1 then parts[0]
    else parts[0] + [d] + Join(parts[1..], d)
  }

  /** Splitting yields pieces free of the separator that join back to the input. */
  lemma {:induction false} SplitJoin(s: string, d: char)
    ensures Join(Split(s, d), d) == s
    ensures forall k :: 0 <= k < |Split(s, d)| ==> d !in Split(s, d)[k]
    decreases |s|
  {
    if s != [] {
      var rest := Split(s[1..], d);
      SplitJoin(s[1..], d);
      if s[0] == d {
        assert Join([""] + rest, d) == "" + [d] + Join(rest, d);
        assert s == [d] + s[1..];
      } else {
        var parts := [[s[0]] + rest[0]] + rest[1..];
        assert parts == Split(s, d);
        if |rest| == 1 {
          assert Join(parts, d) == [s[0]] + rest[0];
        } else {
          assert parts[1..] == rest[1..];
          assert Join(parts, d) == [s[0]] + rest[0] + [d] + Join(rest[1..], d);
          assert Join(rest, d) == rest[0] + [d] + Join(rest[1..], d);
        }
        assert s == [s[0]] + s[1..];
        forall k | 0 <= k < |parts| ensures d !in parts[k] {
          if k > 0 {
            assert parts[k] == rest[k];
          } else {
            assert d !in rest[0];
          }
        }
      }
    }
  }

  /** A separator-free string is one piece. */
  lemma {:induction false} SplitWithoutSeparator(p: string, d: char)
    requires d !in p
    ensures Split(p, d) == [p]
    decreases |p|
  {
    if p != [] {
      SplitWithoutSeparator(p[1..], d);
      assert [p[0]] + p[1..] == p;
    }
  }

  /** A separator ends the first piece exactly where it stands. */
  lemma {:induction false} SplitAtSeparator(p: string, d: char, t: string)
    requires d !in p
    ensures Split(p + [d] + t, d) == [p] + Split(t, d)
    decreases |p|
  {
    if p == [] {
      assert p + [d] + t == [d] + t;
      assert ([d] + t)[1..] == t;
    } else {
      var s := p + [d] + t;
      assert s[0] == p[0];
      assert s[1..] == p[1..] + [d] + t;
      SplitAtSeparator(p[1..], d, t);
      assert [p[0]] + p[1..] == p;
    }
  }

  /** Splitting a join of separator-free pieces gives those pieces back. */
  lemma {:induction false} SplitOfJoin(parts: seq<string>, d: char)
    requires |parts| >= 1
    requires forall k :: 0 <= k < |parts| ==> d !in parts[k]
    ensures Split(Join(parts, d), d) == parts
    decreases |parts|
  {
    if |parts| == 1 {
      SplitWithoutSeparator(parts[0], d);
    } else {
      SplitOfJoin(parts[1..], d);
      SplitAtSeparator(parts[0], d, Join(parts[1..], d));
      assert [parts[0]] + parts[1..] == parts;
    }
  }

  /** `xs.indexOf(x)`: the first index holding `x`, or -1. */
  function IndexOf(xs: seq<string>, x: string): (r: int)
    ensures -1 <= r < |xs|
    ensures r == -1 <==> x !in xs
    ensures 0 <= r ==> xs[r] == x && x !in xs[..r]
    decreases |xs|
  {
    if |xs| == 0 then -1
    else if xs[0] == x then 0
    else
      var k := IndexOf(xs[1..], x);
      assert xs == [xs[0]] + xs[1..];
      if k == -1 then -1
      else
        assert xs[..k + 1] == [xs[0]] + xs[1..][..k];
        k + 1
  }

  /** `xs.filter(Boolean)` on strings: the non-empty elements, in order. */
  function NonEmpty(xs: seq<string>): (r: seq<string>)
    ensures forall k :: 0 <= k < |r| ==> r[k] != ""
    ensures forall x :: x in r <==> x in xs && x != ""
    decreases |xs|
  {
    if |xs| == 0 then []
    else
      assert xs == [xs[0]] + xs[1..];
      if xs[0] == "" then NonEmpty(xs[1..])
      else [xs[0]] + NonEmpty(xs[1..])
  }

  /** `filter(Boolean)` on one element keeps it exactly when it is non-empty. */
  lemma NonEmptySingle(x: string)
    ensures NonEmpty([x]) == if x == "" then [] else [x]
  {
    assert [x][1..] == [];
  }

  /**
   * `filter(Boolean)` works element by element: filtering a concatenation is
   * concatenating the filtered parts, so order and repetitions are kept.
   */
  lemma {:induction false} NonEmptyAppend(xs: seq<string>, ys: seq<string>)
    ensures NonEmpty(xs + ys) == NonEmpty(xs) + NonEmpty(ys)
    decreases |xs|
  {
    if |xs| == 0 {
      assert xs + ys == ys;
    } else {
      assert (xs + ys)[0] == xs[0];
      assert (xs + ys)[1..] == xs[1..] + ys;
      NonEmptyAppend(xs[1..], ys);
    }
  }

  /** The last kept element is the last non-empty element of the input. */
  lemma {:induction false} NonEmptyLast(xs: seq<string>)
    requires |NonEmpty(xs)| > 0
    ensures exists j :: 0 <= j < |xs| && xs[j] == NonEmpty(xs)[|NonEmpty(xs)| - 1]
                        && forall k :: j < k < |xs| ==> xs[k] == ""
    decreases |xs|
  {
    var rest := xs[1..];
    var tail := NonEmpty(rest);
    LastKept(xs);
    if |tail| > 0 {
      NonEmptyLast(rest);
      var j :| 0 <= j < |rest| && rest[j] == tail[|tail| - 1]
               && forall k :: j < k < |rest| ==> rest[k] == "";
      assert forall k :: j + 1 < k < |xs| ==> xs[k] == rest[k - 1];
      assert xs[j + 1] == rest[j];
    } else {
      NothingKeptAfterFirst(xs);
    }
  }

  /** The last kept element comes from the tail when the tail keeps any, else it is the head. */
  lemma LastKept(xs: seq<string>)
    requires |NonEmpty(xs)| > 0
    ensures var r, tail := NonEmpty(xs), NonEmpty(xs[1..]);
      r[|r| - 1] == if |tail| > 0 then tail[|tail| - 1] else xs[0]
  {
    var r, tail := NonEmpty(xs), NonEmpty(xs[1..]);
    if xs[0] == "" {
      assert r == tail;
    } else {
      assert r == [xs[0]] + tail;
    }
  }

  lemma NothingKeptAfterFirst(xs: seq<string>)
    requires |xs| > 0 && |NonEmpty(xs[1..])| == 0
    ensures forall k :: 0 < k < |xs| ==> xs[k] == ""
  {
    var rest := xs[1..];
    forall k | 0 < k < |xs| ensures xs[k] == "" {
      assert xs[k] == rest[k - 1];
      assert rest[k - 1] in rest;
    }
  }

  /** `filter(Boolean)` keeps something exactly when some element is non-empty. */
  lemma NonEmptyKeepsAny(xs: seq<string>)
    ensures |NonEmpty(xs)| > 0 <==> exists k :: 0 <= k < |xs| && xs[k] != ""
  {
    var r := NonEmpty(xs);
    if |r| > 0 {
      assert r[0] in r;
    }
    if exists k :: 0 <= k < |xs| && xs[k] != "" {
      var k :| 0 <= k < |xs| && xs[k] != "";
      assert xs[k] in xs;
    }
  }
}
