/**
 * The JavaScript string operations the front end relies on, stated over
 * `seq<char>`: `String.prototype.split` with a literal separator,
 * `Array.prototype.join`, and `String.prototype.replace` with a literal
 * pattern, both in its first-match form and in its global (`/g`) form.
 * Every one scans left to right and takes the leftmost, non-overlapping
 * match, as the JavaScript engine does.
 */
module Strings {

  /** A character of the regular-expression class `\d`. */
  predicate IsDigit(c: char)
  {
    '0' <= c <= '9'
  }

  /** Dropping a prefix of the first part of a concatenation. */
  lemma DropAppend(a: string, b: string, n: nat)
    requires n <= |a|
    ensures (a + b)[n..] == a[n..] + b
  {
  }

  /** Taking a prefix that lies within the first part of a concatenation. */
  lemma TakeAppend(a: string, b: string, n: nat)
    requires n <= |a|
    ensures (a + b)[..n] == a[..n]
  {
  }

  /** `d` occurs in `s` at index `i`. */
  predicate OccursAt(s: string, d: string, i: nat)
  {
    i + |d| <= |s| && s[i..i + |d|] == d
  }

  /** `s.includes(d)` */
  predicate Contains(s: string, d: string)
  {
    exists i: nat :: i <= |s| && OccursAt(s, d, i)
  }

  /** `s` begins with `d`. */
  predicate StartsWith(s: string, d: string)
  {
    |d| <= |s| && s[..|d|] == d
  }

  /** `s.split(d)` for a non-empty literal separator `d`. */
  function Split(s: string, d: string): (r: seq<string>)
    requires |d| > 0
    ensures |r| >= 1
    ensures r[0] <= s
    decreases |s|
  {
    if |s| < |d| then [s]
    else if s[..|d|] == d then [""] + Split(s[|d|..], d)
    else
      var rest := Split(s[1..], d);
      [[s[0]] + rest[0]] + rest[1..]
  }

  /** `ps.join(d)`; the join of no pieces is the empty string. */
  function Join(ps: seq<string>, d: string): string
  {
    if |ps| == 0 then ""
    else if |ps| == 1 then ps[0]
    else ps[0] + d + Join(ps[1..], d)
  }

  /** `s.replace(p, r)` with a literal pattern: only the first match is replaced. */
  function ReplaceFirst(s: string, p: string, r: string): string
    requires |p| > 0
    decreases |s|
  {
    if |s| < |p| then s
    else if s[..|p|] == p then r + s[|p|..]
    else [s[0]] + ReplaceFirst(s[1..], p, r)
  }

  /** `s.replace(/p/g, r)` with a literal pattern: every match is replaced. */
  function ReplaceAll(s: string, p: string, r: string): string
    requires |p| > 0
    decreases |s|
  {
    if |s| < |p| then s
    else if s[..|p|] == p then r + ReplaceAll(s[|p|..], p, r)
    else [s[0]] + ReplaceAll(s[1..], p, r)
  }

  // ---------------------------------------------------------------------
  // Small facts about occurrences
  // ---------------------------------------------------------------------

  lemma JoinCons(ps: seq<string>, d: string)
    requires |ps| >= 2
    ensures Join(ps, d) == ps[0] + d + Join(ps[1..], d)
  {
  }

  /** A single character occurs as a one-character string exactly where it is an element. */
  lemma ContainsChar(s: string, c: char)
    ensures Contains(s, [c]) <==> c in s
  {
    if c in s {
      var i :| 0 <= i < |s| && s[i] == c;
      assert s[i..i + 1] == [c];
      assert OccursAt(s, [c], i);
    }
    if Contains(s, [c]) {
      var i: nat :| i <= |s| && OccursAt(s, [c], i);
      assert s[i..i + 1] == [c];
      assert s[i] == s[i..i + 1][0];
    }
  }

  /** An occurrence in a suffix of `s` is an occurrence in `s`. */
  lemma OccursInSuffix(s: string, d: string, k: nat, i: nat)
    requires k <= |s| && OccursAt(s[k..], d, i)
    ensures OccursAt(s, d, k + i)
  {
    assert s[k..][i..i + |d|] == s[k + i..k + i + |d|];
  }

  /** An occurrence in a prefix of `s` is an occurrence in `s`. */
  lemma OccursInPrefix(s: string, t: string, d: string, i: nat)
    requires t <= s && OccursAt(t, d, i)
    ensures OccursAt(s, d, i)
  {
    assert t[i..i + |d|] == s[i..i + |d|];
  }

  // ---------------------------------------------------------------------
  // Split / Join laws
  // ---------------------------------------------------------------------

  /** One step of `Split` where the separator starts the text. */
  lemma SplitAtMatch(s: string, d: string)
    requires |d| > 0 && StartsWith(s, d)
    ensures Split(s, d) == [""] + Split(s[|d|..], d)
  {
  }

  /** One step of `Split` where the text starts with anything but the separator. */
  lemma SplitAtOther(s: string, d: string)
    requires |d| > 0 && |s| >= |d| && !StartsWith(s, d)
    ensures var rest := Split(s[1..], d);
      Split(s, d) == [[s[0]] + rest[0]] + rest[1..]
  {
  }

  /** Joining the pieces of a split with the removed separator gives back the input. */
  lemma {:induction false} JoinSplit(s: string, d: string)
    requires |d| > 0
    ensures Join(Split(s, d), d) == s
    decreases |s|
  {
    if StartsWith(s, d) {
      SplitAtMatch(s, d);
      JoinSplit(s[|d|..], d);
      JoinAfterSeparator(d, Split(s[|d|..], d));
      assert s == d + s[|d|..];
    } else if |s| >= |d| {
      SplitAtOther(s, d);
      JoinSplit(s[1..], d);
      JoinAfterCharacter(s, d, Split(s[1..], d));
    }
  }

  /** Joining behind an empty first piece puts the separator in front. */
  lemma JoinAfterSeparator(d: string, ts: seq<string>)
    requires |ts| >= 1
    ensures Join([""] + ts, d) == d + Join(ts, d)
  {
    var ps := [""] + ts;
    assert ps[1..] == ts;
    JoinCons(ps, d);
    assert ps[0] + d == d;
  }

  /** The join step of `JoinSplit` where the text starts with anything but the separator. */
  lemma JoinAfterCharacter(s: string, d: string, ts: seq<string>)
    requires |s| > 0 && |ts| >= 1 && Join(ts, d) == s[1..]
    ensures Join([[s[0]] + ts[0]] + ts[1..], d) == s
  {
    JoinPrepend(ts, s[0], d);
    assert s == [s[0]] + s[1..];
  }

  /** No piece of a split contains the separator. */
  lemma {:induction false} SplitPiecesFree(s: string, d: string)
    requires |d| > 0
    ensures forall k :: 0 <= k < |Split(s, d)| ==> !Contains(Split(s, d)[k], d)
    decreases |s|
  {
    if |s| < |d| {
      assert forall i: nat :: !OccursAt(s, d, i);
    } else if StartsWith(s, d) {
      SplitPiecesFree(s[|d|..], d);
      PiecesFreeAtMatch(s, d);
    } else {
      SplitPiecesFree(s[1..], d);
      PiecesFreeAtOther(s, d);
    }
  }

  /** The step of `SplitPiecesFree` where the text starts with the separator. */
  lemma PiecesFreeAtMatch(s: string, d: string)
    requires |d| > 0 && StartsWith(s, d)
    requires forall k :: 0 <= k < |Split(s[|d|..], d)| ==> !Contains(Split(s[|d|..], d)[k], d)
    ensures forall k :: 0 <= k < |Split(s, d)| ==> !Contains(Split(s, d)[k], d)
  {
    var r := Split(s, d);
    var tail := Split(s[|d|..], d);
    SplitAtMatch(s, d);
    forall k | 0 <= k < |r| ensures !Contains(r[k], d) {
      if k == 0 {
        assert forall i: nat :: !OccursAt(r[0], d, i);
      } else {
        assert r[k] == tail[k - 1];
      }
    }
  }

  /** The step of `SplitPiecesFree` past a character that starts no match. */
  lemma PiecesFreeAtOther(s: string, d: string)
    requires |d| > 0 && |s| >= |d| && !StartsWith(s, d)
    requires forall k :: 0 <= k < |Split(s[1..], d)| ==> !Contains(Split(s[1..], d)[k], d)
    ensures forall k :: 0 <= k < |Split(s, d)| ==> !Contains(Split(s, d)[k], d)
  {
    var r := Split(s, d);
    var rest := Split(s[1..], d);
    SplitAtOther(s, d);
    forall k | 0 <= k < |r| ensures !Contains(r[k], d) {
      if k == 0 {
        assert rest[0] <= s[1..];
        PrependFree(s[0], rest[0], d, s);
      } else {
        assert r[k] == rest[k];
      }
    }
  }

  /**
   * A character followed by a text free of `d` is free of `d` when it is a
   * prefix of a text that does not start with `d`.
   */
  lemma PrependFree(c: char, q: string, d: string, s: string)
    requires |d| > 0 && !Contains(q, d) && |s| > 0 && s[0] == c && q <= s[1..] && !StartsWith(s, d)
    ensures !Contains([c] + q, d)
  {
    var p := [c] + q;
    forall i: nat ensures !OccursAt(p, d, i) {
      if i == 0 {
        if |d| <= |p| {
          assert p[..|d|] == s[..|d|];
        }
      } else if i + |d| <= |p| {
        assert p[i..i + |d|] == q[i - 1..i - 1 + |d|];
        assert !OccursAt(q, d, i - 1);
      }
    }
  }

  /** A string without the separator splits into itself alone. */
  lemma {:induction false} SplitWithoutSeparator(s: string, d: string)
    requires |d| > 0 && !Contains(s, d)
    ensures Split(s, d) == [s]
    decreases |s|
  {
    if |s| >= |d| {
      assert !OccursAt(s, d, 0);
      assert !StartsWith(s, d);
      forall i: nat ensures !OccursAt(s[1..], d, i) {
        if OccursAt(s[1..], d, i) {
          OccursInSuffix(s, d, 1, i);
        }
      }
      SplitWithoutSeparator(s[1..], d);
      assert s == [s[0]] + s[1..];
    }
  }

  /**
   * The split has a single piece exactly when the separator does not occur:
   * splitting on a separator that is absent yields the whole string.
   */
  lemma SplitSingleIff(s: string, d: string)
    requires |d| > 0
    ensures |Split(s, d)| == 1 <==> !Contains(s, d)
  {
    var r := Split(s, d);
    JoinSplit(s, d);
    SplitPiecesFree(s, d);
    if |r| == 1 {
      assert s == r[0];
    } else {
      JoinCons(r, d);
      assert OccursAt(Join(r, d), d, |r[0]|);
    }
  }

  /**
   * For a one-character separator that no piece contains, splitting the join
   * gives back the pieces: split and join are inverse on such lists.
   */
  lemma {:induction false} SplitJoin(ps: seq<string>, c: char)
    requires |ps| >= 1
    requires forall k :: 0 <= k < |ps| ==> c !in ps[k]
    ensures Split(Join(ps, [c]), [c]) == ps
    decreases |ps|
  {
    if |ps| == 1 {
      ContainsChar(ps[0], c);
      SplitWithoutSeparator(ps[0], [c]);
    } else {
      JoinCons(ps, [c]);
      var x := ps[0] + [c] + Join(ps[1..], [c]);
      forall j | 0 <= j < |ps[0]| ensures !OccursAt(x, [c], j) {
        assert x[j] == ps[0][j];
      }
      SplitAtFirst(ps[0], [c], Join(ps[1..], [c]));
      SplitJoin(ps[1..], c);
      assert ps == [ps[0]] + ps[1..];
    }
  }

  // ---------------------------------------------------------------------
  // Replacement laws
  // ---------------------------------------------------------------------

  /** Prepending a character to the first piece prepends it to the join. */
  lemma JoinPrepend(ps: seq<string>, c: char, d: string)
    requires |ps| >= 1
    ensures Join([[c] + ps[0]] + ps[1..], d) == [c] + Join(ps, d)
  {
    var qs := [[c] + ps[0]] + ps[1..];
    if |ps| >= 2 {
      JoinCons(qs, d);
      JoinCons(ps, d);
      assert qs[1..] == ps[1..];
    }
  }

  /** A global replacement is a split on the pattern joined with the replacement. */
  lemma {:induction false} ReplaceAllIsSplitJoin(s: string, p: string, r: string)
    requires |p| > 0
    ensures ReplaceAll(s, p, r) == Join(Split(s, p), r)
    decreases |s|
  {
    if StartsWith(s, p) {
      ReplaceAllIsSplitJoin(s[|p|..], p, r);
      ReplaceAllAtMatch(s, p, r);
    } else if |s| >= |p| {
      ReplaceAllIsSplitJoin(s[1..], p, r);
      ReplaceAllAtOther(s, p, r);
    }
  }

  /** The step of `ReplaceAllIsSplitJoin` where the text starts with the pattern. */
  lemma ReplaceAllAtMatch(s: string, p: string, r: string)
    requires |p| > 0 && StartsWith(s, p)
    requires ReplaceAll(s[|p|..], p, r) == Join(Split(s[|p|..], p), r)
    ensures ReplaceAll(s, p, r) == Join(Split(s, p), r)
  {
    SplitAtMatch(s, p);
    JoinAfterSeparator(r, Split(s[|p|..], p));
  }

  /** The step of `ReplaceAllIsSplitJoin` past a character that starts no match. */
  lemma ReplaceAllAtOther(s: string, p: string, r: string)
    requires |p| > 0 && |s| >= |p| && !StartsWith(s, p)
    requires ReplaceAll(s[1..], p, r) == Join(Split(s[1..], p), r)
    ensures ReplaceAll(s, p, r) == Join(Split(s, p), r)
  {
    SplitAtOther(s, p);
    JoinPrepend(Split(s[1..], p), s[0], r);
  }

  /**
   * A first-match replacement rewrites the text before the first occurrence
   * and leaves every later occurrence of the pattern in place.
   */
  lemma {:induction false} ReplaceFirstIsSplitHead(s: string, p: string, r: string)
    requires |p| > 0
    ensures var ps := Split(s, p);
      ReplaceFirst(s, p, r) == if |ps| == 1 then s else ps[0] + r + Join(ps[1..], p)
    decreases |s|
  {
    if StartsWith(s, p) {
      ReplaceFirstAtMatch(s, p, r);
    } else if |s| >= |p| {
      var rest := Split(s[1..], p);
      SplitAtOther(s, p);
      ReplaceFirstIsSplitHead(s[1..], p, r);
      ReplaceFirstStep(s, p, r, rest, ReplaceFirst(s[1..], p, r));
    }
  }

  /** `ReplaceFirstIsSplitHead` where the text starts with the pattern. */
  lemma ReplaceFirstAtMatch(s: string, p: string, r: string)
    requires |p| > 0 && StartsWith(s, p)
    ensures var ps := Split(s, p);
      |ps| >= 2 && ReplaceFirst(s, p, r) == ps[0] + r + Join(ps[1..], p)
  {
    var t := s[|p|..];
    SplitAtMatch(s, p);
    assert Split(s, p)[1..] == Split(t, p);
    JoinSplit(t, p);
    assert ReplaceFirst(s, p, r) == r + t;
  }

  /** The step of `ReplaceFirstIsSplitHead` past a character that starts no match. */
  lemma ReplaceFirstStep(s: string, p: string, r: string, rest: seq<string>, x: string)
    requires |s| > 0 && |rest| >= 1
    requires x == if |rest| == 1 then s[1..] else rest[0] + r + Join(rest[1..], p)
    ensures var ps := [[s[0]] + rest[0]] + rest[1..];
      [s[0]] + x == if |ps| == 1 then s else ps[0] + r + Join(ps[1..], p)
  {
    var ps := [[s[0]] + rest[0]] + rest[1..];
    assert |ps| == |rest|;
    if |rest| == 1 {
      assert s == [s[0]] + s[1..];
    } else {
      assert ps[1..] == rest[1..];
      assert [s[0]] + (rest[0] + r + Join(rest[1..], p)) == ([s[0]] + rest[0]) + r + Join(rest[1..], p);
    }
  }

  /** Replacing the first match by the pattern itself changes nothing. */
  lemma ReplaceFirstBySelf(s: string, p: string)
    requires |p| > 0
    ensures ReplaceFirst(s, p, p) == s
  {
    var ps := Split(s, p);
    ReplaceFirstIsSplitHead(s, p, p);
    JoinSplit(s, p);
    if |ps| > 1 {
      JoinCons(ps, p);
    }
  }

  /**
   * Without an occurrence a first-match replacement changes nothing; with
   * one, the text is `a + p + b` with no occurrence in `a`, and only that
   * first occurrence is replaced: `b` is kept as it is, later occurrences
   * included.
   */
  lemma ReplaceFirstAtFirst(s: string, p: string, r: string)
    requires |p| > 0
    ensures !Contains(s, p) ==> ReplaceFirst(s, p, r) == s
    ensures Contains(s, p) ==>
      (exists a, b :: s == a + p + b && !Contains(a, p) && ReplaceFirst(s, p, r) == a + r + b)
  {
    var ps := Split(s, p);
    SplitSingleIff(s, p);
    ReplaceFirstIsSplitHead(s, p, r);
    if |ps| > 1 {
      JoinSplit(s, p);
      JoinCons(ps, p);
      SplitPiecesFree(s, p);
      var a, b := ps[0], Join(ps[1..], p);
      assert s == a + p + b && !Contains(a, p);
    }
  }

  /** A first-match replacement by something at least as long never shortens the text. */
  lemma {:induction false} ReplaceFirstLonger(s: string, p: string, r: string)
    requires |p| > 0 && |r| >= |p|
    ensures |ReplaceFirst(s, p, r)| >= |s|
    decreases |s|
  {
    if |s| >= |p| && s[..|p|] != p {
      ReplaceFirstLonger(s[1..], p, r);
    }
  }

  /** Replacing every match by something at least as long never shortens the text. */
  lemma {:induction false} ReplaceAllLonger(s: string, p: string, r: string)
    requires |p| > 0 && |r| >= |p|
    ensures |ReplaceAll(s, p, r)| >= |s|
    decreases |s|
  {
    if |s| >= |p| {
      if s[..|p|] == p {
        ReplaceAllLonger(s[|p|..], p, r);
      } else {
        ReplaceAllLonger(s[1..], p, r);
      }
    }
  }

  /** A join whose pieces and separator avoid a character avoids it too. */
  lemma {:induction false} JoinAvoids(ps: seq<string>, d: string, c: char)
    requires c !in d
    requires forall k :: 0 <= k < |ps| ==> c !in ps[k]
    ensures c !in Join(ps, d)
    decreases |ps|
  {
    if |ps| >= 2 {
      JoinAvoids(ps[1..], d, c);
      JoinCons(ps, d);
    }
  }

  /** After a global replacement of a one-character pattern by text without it, the character is gone. */
  lemma ReplaceAllRemovesChar(s: string, c: char, r: string)
    requires c !in r
    ensures c !in ReplaceAll(s, [c], r)
  {
    var ps := Split(s, [c]);
    ReplaceAllIsSplitJoin(s, [c], r);
    SplitPiecesFree(s, [c]);
    forall k | 0 <= k < |ps| ensures c !in ps[k] {
      ContainsChar(ps[k], c);
    }
    JoinAvoids(ps, r, c);
  }

  // ---------------------------------------------------------------------
  // Occurrences across joins
  // ---------------------------------------------------------------------

  /** Each piece of a join stands somewhere inside it. */
  lemma {:induction false} JoinFactor(ps: seq<string>, d: string, k: nat)
    requires k < |ps|
    ensures exists a, b :: Join(ps, d) == a + ps[k] + b
    decreases k
  {
    if |ps| == 1 {
      assert Join(ps, d) == "" + ps[0] + "";
    } else if k == 0 {
      JoinCons(ps, d);
      assert Join(ps, d) == "" + ps[0] + (d + Join(ps[1..], d));
    } else {
      JoinCons(ps, d);
      JoinFactor(ps[1..], d, k - 1);
      var a, b :| Join(ps[1..], d) == a + ps[1..][k - 1] + b;
      assert Join(ps, d) == (ps[0] + d + a) + ps[k] + b;
    }
  }

  /** What a factor contains, the whole contains. */
  lemma ContainsInFactor(a: string, t: string, b: string, e: string)
    requires Contains(t, e)
    ensures Contains(a + t + b, e)
  {
    var i: nat :| i <= |t| && OccursAt(t, e, i);
    assert (a + t + b)[|a| + i..|a| + i + |e|] == t[i..i + |e|];
    assert OccursAt(a + t + b, e, |a| + i);
  }

  /** Splitting cannot create an occurrence the input did not have. */
  lemma SplitKeepsAbsence(s: string, d: string, e: string)
    requires |d| > 0 && !Contains(s, e)
    ensures forall k :: 0 <= k < |Split(s, d)| ==> !Contains(Split(s, d)[k], e)
  {
    var ps := Split(s, d);
    JoinSplit(s, d);
    forall k | 0 <= k < |ps| ensures !Contains(ps[k], e) {
      JoinFactor(ps, d, k);
      var a, b :| Join(ps, d) == a + ps[k] + b;
      if Contains(ps[k], e) {
        ContainsInFactor(a, ps[k], b, e);
      }
    }
  }

  /** Read from index `i` on, `d` agrees with the start of `e` wherever both have a character. */
  predicate Overlaps(d: string, e: string, i: nat)
  {
    forall k :: 0 <= k < |d| - i && k < |e| ==> d[i + k] == e[k]
  }

  /**
   * No occurrence of `d` can begin inside a text and reach into an `e` that
   * follows it: no proper suffix of `d` runs into `e`. With `e == d` this says
   * that occurrences of `d` never overlap.
   */
  predicate Clear(d: string, e: string)
  {
    forall i :: 0 < i < |d| ==> !Overlaps(d, e, i)
  }

  /** In `a + e + b`, a text `a` free of `d` holds no start of `d` when `d` is clear of `e`. */
  lemma NoOccurrenceBefore(a: string, d: string, e: string, b: string)
    requires |d| > 0 && Clear(d, e) && !Contains(a, d)
    ensures forall j :: 0 <= j < |a| ==> !OccursAt(a + e + b, d, j)
  {
    var s := a + e + b;
    forall j | 0 <= j < |a| ensures !OccursAt(s, d, j) {
      if j + |d| <= |a| {
        assert !OccursAt(a, d, j);
        assert s[j..j + |d|] == a[j..j + |d|];
      } else {
        var i := |a| - j;
        assert !Overlaps(d, e, i);
        var k :| 0 <= k < |d| - i && k < |e| && d[i + k] != e[k];
        assert s[|a| + k] == e[k];
        if j + |d| <= |s| {
          assert s[j..j + |d|][i + k] == s[|a| + k];
        }
      }
    }
  }

  /**
   * Splitting `a + d + b` when no occurrence of `d` starts inside `a`: the
   * first piece is `a` and the rest is the split of `b`.
   */
  lemma {:induction false} SplitAtFirst(a: string, d: string, b: string)
    requires |d| > 0
    requires forall j :: 0 <= j < |a| ==> !OccursAt(a + d + b, d, j)
    ensures Split(a + d + b, d) == [a] + Split(b, d)
    decreases |a|
  {
    var s := a + d + b;
    if |a| == 0 {
      assert s[..|d|] == d;
      assert s[|d|..] == b;
    } else {
      assert !OccursAt(s, d, 0);
      var t := a[1..] + d + b;
      assert s[1..] == t;
      forall j | 0 <= j < |a[1..]| ensures !OccursAt(t, d, j) {
        assert !OccursAt(s, d, j + 1);
        if j + |d| <= |t| {
          assert s[j + 1..j + 1 + |d|] == t[j..j + |d|];
        }
      }
      SplitAtFirst(a[1..], d, b);
      assert [s[0]] + a[1..] == a;
    }
  }
}
