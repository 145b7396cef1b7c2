/**
 * Dotted version strings and the plugin's version comparison: both strings
 * are split on '.', every segment is read with `int()`, the shorter list is
 * padded with zeros, and the first segment that differs decides.
 */
module Versions {
  import opened Wrappers
  import opened PyStr
  import opened PyInt

  /** The integer segments of a version string, or `None` where `int()` raises. */
  function ParseVersion(v: string): Option<seq<int>> {
    ParseAll(Split(v, '.'))
  }

  /** The canonical text of a list of segments, `'.'.join(map(str, parts))`. */
  function VersionText(parts: seq<int>): string
    requires |parts| >= 1
  {
    Join(seq(|parts|, i requires 0 <= i < |parts| => IntText(parts[i])), '.')
  }

  /** Segment `i` of a version, zero past its end (the padding). */
  function Segment(parts: seq<int>, i: nat): int {
    if i < |parts| then parts[i] else 0
  }

  /** The segments after the first one; no segments stay no segments. */
  function Rest(parts: seq<int>): seq<int> {
    if parts == [] then [] else parts[1..]
  }

  /**
   * `_compare_versions` on parsed segments: -1 when `x` is older than `y`,
   * 0 when they are equal, 1 when `x` is newer.
   */
  function CompareParts(x: seq<int>, y: seq<int>): (r: int)
    ensures r == -1 || r == 0 || r == 1
    decreases |x| + |y|
  {
    if x == [] && y == [] then 0
    else if Segment(x, 0) < Segment(y, 0) then -1
    else if Segment(x, 0) > Segment(y, 0) then 1
    else CompareParts(Rest(x), Rest(y))
  }

  /** The first `k` segments agree. */
  ghost predicate SameUpTo(x: seq<int>, y: seq<int>, k: nat) {
    forall i: nat | i < k :: Segment(x, i) == Segment(y, i)
  }

  /** Equal once padded with zeros: "1.2" and "1.2.0". */
  ghost predicate Equivalent(x: seq<int>, y: seq<int>) {
    forall i: nat :: Segment(x, i) == Segment(y, i)
  }

  /** `x` is older: at the first segment where they differ, `x` is smaller. */
  ghost predicate Precedes(x: seq<int>, y: seq<int>) {
    exists k: nat :: SameUpTo(x, y, k) && Segment(x, k) < Segment(y, k)
  }

  lemma SegmentOfRest(x: seq<int>, i: nat)
    ensures Segment(Rest(x), i) == Segment(x, i + 1)
  {
  }

  /** What each result of `CompareParts` says about the two versions. */
  lemma {:induction false} CompareSound(x: seq<int>, y: seq<int>)
    ensures CompareParts(x, y) == 0 ==> Equivalent(x, y)
    ensures CompareParts(x, y) == -1 ==> Precedes(x, y)
    ensures CompareParts(x, y) == 1 ==> Precedes(y, x)
    decreases |x| + |y|
  {
    if x == [] && y == [] {
    } else if Segment(x, 0) < Segment(y, 0) {
      assert SameUpTo(x, y, 0);
    } else if Segment(x, 0) > Segment(y, 0) {
      assert SameUpTo(y, x, 0);
    } else {
      var x', y' := Rest(x), Rest(y);
      CompareSound(x', y');
      forall i: nat ensures Segment(x', i) == Segment(x, i + 1) && Segment(y', i) == Segment(y, i + 1) {
        SegmentOfRest(x, i);
        SegmentOfRest(y, i);
      }
      if CompareParts(x, y) == 0 {
        forall i: nat ensures Segment(x, i) == Segment(y, i) {
          if i > 0 { assert Segment(x', i - 1) == Segment(y', i - 1); }
        }
      } else if CompareParts(x, y) == -1 {
        var k: nat :| SameUpTo(x', y', k) && Segment(x', k) < Segment(y', k);
        assert SameUpTo(x, y, k + 1) by {
          forall i: nat | i < k + 1 ensures Segment(x, i) == Segment(y, i) {
            if i > 0 { assert Segment(x', i - 1) == Segment(y', i - 1); }
          }
        }
      } else {
        var k: nat :| SameUpTo(y', x', k) && Segment(y', k) < Segment(x', k);
        assert SameUpTo(y, x, k + 1) by {
          forall i: nat | i < k + 1 ensures Segment(y, i) == Segment(x, i) {
            if i > 0 { assert Segment(y', i - 1) == Segment(x', i - 1); }
          }
        }
      }
    }
  }

  /** No two versions are at once equal, older and newer. */
  lemma Exclusive(x: seq<int>, y: seq<int>)
    ensures !(Equivalent(x, y) && Precedes(x, y))
    ensures !(Equivalent(x, y) && Precedes(y, x))
    ensures !(Precedes(x, y) && Precedes(y, x))
  {
  }

  /**
   * The first differing segment decides, in both directions: the result is
   * 0 exactly for versions equal up to zero padding, -1 exactly when the
   * first version is older and 1 exactly when it is newer.
   */
  lemma CompareMeaning(x: seq<int>, y: seq<int>)
    ensures CompareParts(x, y) == 0 <==> Equivalent(x, y)
    ensures CompareParts(x, y) == -1 <==> Precedes(x, y)
    ensures CompareParts(x, y) == 1 <==> Precedes(y, x)
  {
    CompareSound(x, y);
    Exclusive(x, y);
  }

  /** A version compares equal to itself. */
  lemma CompareReflexive(x: seq<int>)
    ensures CompareParts(x, x) == 0
  {
    CompareMeaning(x, x);
  }

  /** Swapping the arguments negates the result. */
  lemma CompareAntisymmetric(x: seq<int>, y: seq<int>)
    ensures CompareParts(y, x) == -CompareParts(x, y)
  {
    CompareMeaning(x, y);
    CompareMeaning(y, x);
  }

  lemma PrecedesTransitive(x: seq<int>, y: seq<int>, z: seq<int>)
    requires Precedes(x, y) && Precedes(y, z)
    ensures Precedes(x, z)
  {
    var k1: nat :| SameUpTo(x, y, k1) && Segment(x, k1) < Segment(y, k1);
    var k2: nat :| SameUpTo(y, z, k2) && Segment(y, k2) < Segment(z, k2);
    var k := if k1 < k2 then k1 else k2;
    assert SameUpTo(x, z, k);
    assert Segment(x, k) < Segment(z, k);
  }

  lemma PrecedesRespectsEquivalence(x: seq<int>, y: seq<int>, x': seq<int>, y': seq<int>)
    requires Equivalent(x, x') && Equivalent(y, y') && Precedes(x, y)
    ensures Precedes(x', y')
  {
    var k: nat :| SameUpTo(x, y, k) && Segment(x, k) < Segment(y, k);
    assert SameUpTo(x', y', k);
  }

  /** "Not newer" and "older" chain: the comparison is a total preorder. */
  lemma CompareTransitive(x: seq<int>, y: seq<int>, z: seq<int>)
    ensures CompareParts(x, y) <= 0 && CompareParts(y, z) <= 0 ==> CompareParts(x, z) <= 0
    ensures CompareParts(x, y) < 0 && CompareParts(y, z) <= 0 ==> CompareParts(x, z) < 0
    ensures CompareParts(x, y) <= 0 && CompareParts(y, z) < 0 ==> CompareParts(x, z) < 0
  {
    CompareMeaning(x, y);
    CompareMeaning(y, z);
    CompareMeaning(x, z);
    if CompareParts(x, y) <= 0 && CompareParts(y, z) <= 0 {
      if Precedes(x, y) && Precedes(y, z) {
        PrecedesTransitive(x, y, z);
      } else if Precedes(x, y) {
        PrecedesRespectsEquivalence(x, y, x, z);
      } else if Precedes(y, z) {
        assert Equivalent(y, x);
        PrecedesRespectsEquivalence(y, z, x, z);
      }
    }
  }

  /** Missing trailing segments count as 0: "1.2" and "1.2.0" compare equal to the same versions. */
  lemma {:induction false} ComparePadded(x: seq<int>, y: seq<int>)
    ensures CompareParts(x + [0], y) == CompareParts(x, y)
    ensures CompareParts(y, x + [0]) == CompareParts(y, x)
  {
    var x' := x + [0];
    assert Equivalent(x, x') by {
      forall i: nat ensures Segment(x, i) == Segment(x', i) {
        if i < |x| { assert x'[i] == x[i]; }
      }
    }
    assert Equivalent(x', x);
    CompareMeaning(x, y);
    CompareMeaning(x', y);
    CompareMeaning(y, x);
    CompareMeaning(y, x');
    if Precedes(x, y) { PrecedesRespectsEquivalence(x, y, x', y); }
    if Precedes(x', y) { PrecedesRespectsEquivalence(x', y, x, y); }
    if Precedes(y, x) { PrecedesRespectsEquivalence(y, x, y, x'); }
    if Precedes(y, x') { PrecedesRespectsEquivalence(y, x', y, x); }
  }

  lemma NoDotInIntText(n: int)
    ensures '.' !in IntText(n)
  {
    var d := Decimal(if n < 0 then -n else n);
    assert forall i | 0 <= i < |d| :: d[i] != '.';
    if n < 0 {
      assert IntText(n) == "-" + d;
      assert forall i | 0 <= i < |IntText(n)| :: IntText(n)[i] != '.' by {
        forall i | 0 <= i < |IntText(n)| ensures IntText(n)[i] != '.' {
          if i > 0 { assert IntText(n)[i] == d[i - 1]; }
        }
      }
    }
  }

  /** Reading back the canonical text of a list of segments gives the segments. */
  lemma ParseVersionText(parts: seq<int>)
    requires |parts| >= 1
    ensures ParseVersion(VersionText(parts)) == Some(parts)
  {
    var texts := seq(|parts|, i requires 0 <= i < |parts| => IntText(parts[i]));
    forall k | 0 <= k < |texts| ensures '.' !in texts[k] && ParseInt(texts[k]) == Some(parts[k]) {
      NoDotInIntText(parts[k]);
      ParseIntText(parts[k]);
    }
    SplitJoin(texts, '.');
    ParseAllValues(texts, parts);
  }

  /** `_compare_versions(current, latest)`; `None` where it raises `ValueError`. */
  function VersionOrder(current: string, latest: string): Option<int> {
    match (ParseVersion(current), ParseVersion(latest))
    case (Some(x), Some(y)) => Some(CompareParts(x, y))
    case _ => None
  }

  /**
   * `_compare_versions`: both strings are parsed, then the segments are
   * compared by the index loop of `CompareSegments`.
   */
  method CompareVersions(current: string, latest: string) returns (r: Option<int>)
    ensures r == VersionOrder(current, latest)
  {
    var currParts := ParseVersion(current);
    var latestParts := ParseVersion(latest);
    if currParts.None? || latestParts.None? {
      return None;
    }
    var order := CompareSegments(currParts.value, latestParts.value);
    return Some(order);
  }

  /**
   * The loop of `_compare_versions` over the zero-padded segments,
   * returning at the first difference.
   */
  method CompareSegments(x: seq<int>, y: seq<int>) returns (r: int)
    ensures r == CompareParts(x, y)
  {
    var n := if |x| < |y| then |y| else |x|;
    var i := 0;
    while i < n
      invariant 0 <= i <= n
      invariant SameUpTo(x, y, i)
    {
      var a := if i < |x| then x[i] else 0;
      var b := if i < |y| then y[i] else 0;
      assert a == Segment(x, i) && b == Segment(y, i);
      if a < b {
        assert CompareParts(x, y) == -1 by {
          assert SameUpTo(x, y, i) && Segment(x, i) < Segment(y, i);
          CompareMeaning(x, y);
        }
        return -1;
      } else if a > b {
        assert CompareParts(x, y) == 1 by {
          assert SameUpTo(y, x, i) && Segment(y, i) < Segment(x, i);
          CompareMeaning(x, y);
        }
        return 1;
      }
      assert SameUpTo(x, y, i + 1) by {
        forall j: nat | j < i + 1 ensures Segment(x, j) == Segment(y, j) {
          if j < i { assert SameUpTo(x, y, i); }
        }
      }
      i := i + 1;
    }
    assert Equivalent(x, y) by {
      forall j: nat ensures Segment(x, j) == Segment(y, j) {
        if j >= n { assert Segment(x, j) == 0 == Segment(y, j); }
      }
    }
    CompareMeaning(x, y);
    return 0;
  }

  lemma VersionTextCons(n: int, rest: seq<int>)
    ensures VersionText([n]) == IntText(n)
    ensures |rest| >= 1 ==> VersionText([n] + rest) == IntText(n) + ("." + VersionText(rest))
  {
    var whole := [n] + rest;
    var texts := seq(|whole|, i requires 0 <= i < |whole| => IntText(whole[i]));
    if |rest| >= 1 {
      assert texts[1..] == seq(|rest|, i requires 0 <= i < |rest| => IntText(rest[i]));
    }
  }

  lemma SplitShort(a: char, b: char, c: char)
    requires a != '.' && b != '.' && c != '.'
    ensures Split([a, '.', b], '.') == [[a], [b]]
    ensures Split([a, '.', b, '.', c], '.') == [[a], [b], [c]]
  {
    assert Split([], '.') == [""];
    assert Split([c], '.') == [[c]] by { assert [c][1..] == [] && [c] + [] == [c]; }
    assert Split([b], '.') == [[b]] by { assert [b][1..] == [] && [b] + [] == [b]; }
    assert Split(['.', c], '.') == [[], [c]] by { assert ['.', c][1..] == [c]; }
    assert Split([b, '.', c], '.') == [[b], [c]] by { assert [b, '.', c][1..] == ['.', c] && [b] + [] == [b]; }
    assert Split(['.', b, '.', c], '.') == [[], [b], [c]] by { assert ['.', b, '.', c][1..] == [b, '.', c]; }
    assert Split([a, '.', b, '.', c], '.') == [[a], [b], [c]] by {
      assert [a, '.', b, '.', c][1..] == ['.', b, '.', c] && [a] + [] == [a];
      assert [[], [b], [c]][1..] == [[b], [c]];
    }
    assert Split(['.', b], '.') == [[], [b]] by { assert ['.', b][1..] == [b]; }
    assert Split([a, '.', b], '.') == [[a], [b]] by {
      assert [a, '.', b][1..] == ['.', b] && [a] + [] == [a];
      assert [[], [b]][1..] == [[b]];
    }
  }

  /** Single-digit segments: "a.b" and "a.b.c". */
  lemma ParseShortVersion(a: nat, b: nat, c: nat)
    requires a < 10 && b < 10 && c < 10
    ensures ParseVersion([DigitChar(a), '.', DigitChar(b)]) == Some([a, b])
    ensures ParseVersion([DigitChar(a), '.', DigitChar(b), '.', DigitChar(c)]) == Some([a, b, c])
  {
    SplitShort(DigitChar(a), DigitChar(b), DigitChar(c));
    ParseDigitText(a);
    ParseDigitText(b);
    ParseDigitText(c);
    ParseAllValues([[DigitChar(a)], [DigitChar(b)]], [a, b]);
    ParseAllValues([[DigitChar(a)], [DigitChar(b)], [DigitChar(c)]], [a, b, c]);
  }

  /** "1.2.0" and "1.2" compare equal. */
  lemma CompareExamplePadded()
    ensures VersionOrder("1.2.0", "1.2") == Some(0)
  {
    ParseShortVersion(1, 2, 0);
    assert [DigitChar(1), '.', DigitChar(2), '.', DigitChar(0)] == "1.2.0";
    assert [DigitChar(1), '.', DigitChar(2)] == "1.2";
    ComparePadded([1, 2], [1, 2]);
    CompareReflexive([1, 2]);
    assert [1, 2] + [0] == [1, 2, 0];
  }

  /** "1.2.3" is older than "1.3.0". */
  lemma CompareExampleOlder()
    ensures VersionOrder("1.2.3", "1.3.0") == Some(-1)
  {
    ParseShortVersion(1, 2, 3);
    ParseShortVersion(1, 3, 0);
    assert [DigitChar(1), '.', DigitChar(2), '.', DigitChar(3)] == "1.2.3";
    assert [DigitChar(1), '.', DigitChar(3), '.', DigitChar(0)] == "1.3.0";
    assert Rest([1, 2, 3]) == [2, 3] && Rest([1, 3, 0]) == [3, 0];
    assert CompareParts([1, 2, 3], [1, 3, 0]) == CompareParts([2, 3], [3, 0]) == -1;
  }

  /** "2.0.0" is newer than "1.9.9". */
  lemma CompareExampleNewer()
    ensures VersionOrder("2.0.0", "1.9.9") == Some(1)
  {
    ParseShortVersion(2, 0, 0);
    ParseShortVersion(1, 9, 9);
    assert [DigitChar(2), '.', DigitChar(0), '.', DigitChar(0)] == "2.0.0";
    assert [DigitChar(1), '.', DigitChar(9), '.', DigitChar(9)] == "1.9.9";
  }
}
