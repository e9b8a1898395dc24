/** The shell's file-name matcher: `*` matches any string, `?` any single character, and the pattern must
    cover the whole name.  The matcher is a single loop that backtracks to the last star only. */
module Globs {

  /** What a pattern means, read off the pattern from left to right. */
  predicate Matches(p: string, s: string)
    decreases |p| + |s|
  {
    if p == [] then s == []
    else if p[0] == '*' then Matches(p[1..], s) || (s != [] && Matches(p, s[1..]))
    else s != [] && (p[0] == '?' || p[0] == s[0]) && Matches(p[1..], s[1..])
  }

  /** One character of the pattern against one character of the name, as the loop tests it first: a star
      in the pattern that faces a star in the name is an ordinary character. */
  predicate Fits(p: string, s: string, i: nat, j: nat) {
    i < |p| && j < |s| && (p[i] == '?' || p[i] == s[j])
  }

  /** What the loop decides from pattern position i and name position j. */
  predicate Accepts(p: string, s: string, i: nat, j: nat)
    requires i <= |p| && j <= |s|
    decreases |p| - i, |s| - j, 0
  {
    if Fits(p, s, i, j) then Accepts(p, s, i + 1, j + 1)
    else if i < |p| && p[i] == '*' then AcceptsLater(p, s, i + 1, j)
    else i == |p| && j == |s|
  }

  /** Position i can be reached at some name position from j on. */
  predicate AcceptsLater(p: string, s: string, i: nat, j: nat)
    requires i <= |p| && j <= |s|
    decreases |p| - i, |s| - j, 1
  {
    Accepts(p, s, i, j) || (j < |s| && AcceptsLater(p, s, i, j + 1))
  }

  lemma {:induction false} LaterFrom(p: string, s: string, i: nat, j: nat, m: nat)
    requires i <= |p| && j <= m <= |s|
    requires AcceptsLater(p, s, i, m)
    ensures AcceptsLater(p, s, i, j)
    decreases m - j
  {
    if j < m {
      LaterFrom(p, s, i, j + 1, m);
    }
  }

  lemma {:induction false} LaterWitness(p: string, s: string, i: nat, j: nat) returns (m: nat)
    requires i <= |p| && j <= |s| && AcceptsLater(p, s, i, j)
    ensures j <= m <= |s| && Accepts(p, s, i, m)
    decreases |s| - j
  {
    if Accepts(p, s, i, j) {
      m := j;
    } else {
      m := LaterWitness(p, s, i, j + 1);
    }
  }

  ghost predicate FitsShifted(p: string, s: string, x: nat, shift: int) {
    x + shift >= 0 && Fits(p, s, x, x + shift)
  }

  /** The loop walked from (a, v) to (i, j) one fitting character at a time. */
  ghost predicate Walked(p: string, s: string, a: nat, v: nat, i: nat, j: nat) {
    && a <= i <= |p| && v <= j <= |s| && i - a == j - v
    && var shift := v - a; forall x :: a <= x < i ==> FitsShifted(p, s, x, shift)
  }

  lemma WalkedTail(p: string, s: string, a: nat, v: nat, i: nat, j: nat)
    requires Walked(p, s, a, v, i, j) && a < i
    ensures Fits(p, s, a, v) && Walked(p, s, a + 1, v + 1, i, j)
  {
    assert FitsShifted(p, s, a, v - a);
  }

  lemma WalkedOn(p: string, s: string, a: nat, v: nat, i: nat, j: nat)
    requires Walked(p, s, a, v, i, j) && Fits(p, s, i, j)
    ensures Walked(p, s, a, v, i + 1, j + 1)
  {
    assert i + (v - a) == j;
  }

  /** Why the last star is enough: whatever a later start of the same stretch of pattern could accept, it
      passes the end of the stretch no earlier than the walk did. */
  lemma {:induction false} Overtaken(p: string, s: string, a: nat, v: nat, i: nat, j: nat, u: nat) returns (m: nat)
    requires Walked(p, s, a, v, i, j) && v <= u <= |s| && Accepts(p, s, a, u)
    ensures j <= m <= |s| && Accepts(p, s, i, m)
    decreases i - a
  {
    if a == i {
      return u;
    }
    WalkedTail(p, s, a, v, i, j);
    if Fits(p, s, a, u) {
      m := Overtaken(p, s, a + 1, v + 1, i, j, u + 1);
    } else {
      var w := LaterWitness(p, s, a + 1, u);
      m := Overtaken(p, s, a + 1, v + 1, i, j, w);
    }
  }

  /** A star at (i, j) makes every earlier star superfluous. */
  lemma NewStar(p: string, s: string, star: nat, v: nat, i: nat, j: nat)
    requires Walked(p, s, star + 1, v, i, j) && i < |p| && p[i] == '*' && !Fits(p, s, i, j)
    requires AcceptsLater(p, s, star + 1, v)
    ensures Accepts(p, s, i, j)
  {
    var u := LaterWitness(p, s, star + 1, v);
    var m := Overtaken(p, s, star + 1, v, i, j, u);
    if Fits(p, s, i, m) {
      assert AcceptsLater(p, s, i + 1, m + 1);
      LaterFrom(p, s, i + 1, j, m + 1);
    } else {
      LaterFrom(p, s, i + 1, j, m);
    }
  }

  /** At the end of the name no earlier star can help. */
  lemma NoneLeft(p: string, s: string, star: nat, v: nat, i: nat)
    requires Walked(p, s, star + 1, v, i, |s|)
    requires AcceptsLater(p, s, star + 1, v)
    ensures Accepts(p, s, i, |s|)
  {
    var u := LaterWitness(p, s, star + 1, v);
    var m := Overtaken(p, s, star + 1, v, i, |s|, u);
  }

  /** At the end of the name only stars may remain. */
  lemma {:induction false} OnlyStars(p: string, s: string, i: nat)
    requires i <= |p|
    ensures Accepts(p, s, i, |s|) <==> forall k :: i <= k < |p| ==> p[k] == '*'
    decreases |p| - i
  {
    if i < |p| {
      OnlyStars(p, s, i + 1);
    }
  }

  /** The backtracking loop.  Without a saved star the answer is `Accepts` here; with one it is that or a
      later start after the star. */
  method GlobMatch(p: string, s: string) returns (r: bool)
    ensures r == Accepts(p, s, 0, 0)
  {
    var i, j := 0, 0;
    var hasStar, star, starS := false, 0, 0;
    while j < |s|
      invariant i <= |p| && j <= |s|
      invariant hasStar ==> star < |p| && starS <= j && Walked(p, s, star + 1, starS, i, j)
      invariant Accepts(p, s, 0, 0) <==> if hasStar then AcceptsLater(p, s, star + 1, starS) else Accepts(p, s, i, j)
      decreases if hasStar then |s| - starS else |s| + 1, |s| - j, |p| - i
    {
      if i < |p| && (p[i] == '?' || p[i] == s[j]) {
        assert Fits(p, s, i, j);
        assert hasStar ==> Walked(p, s, star + 1, starS, i + 1, j + 1) by {
          if hasStar { WalkedOn(p, s, star + 1, starS, i, j); }
        }
        i, j := i + 1, j + 1;
      } else if i < |p| && p[i] == '*' {
        if hasStar && AcceptsLater(p, s, star + 1, starS) {
          NewStar(p, s, star, starS, i, j);
        }
        if hasStar && Accepts(p, s, i, j) {
          EarlierStar(p, s, star, starS, i, j);
        }
        hasStar, star := true, i;
        i := i + 1;
        starS := j;
      } else if hasStar {
        if Accepts(p, s, star + 1, starS) {
          Stuck(p, s, star, starS, i, j);
        }
        i := star + 1;
        starS := starS + 1;
        j := starS;
      } else {
        return false;
      }
    }
    if hasStar && AcceptsLater(p, s, star + 1, starS) {
      NoneLeft(p, s, star, starS, i);
    }
    if hasStar && Accepts(p, s, i, j) {
      EarlierStar(p, s, star, starS, i, j);
    }
    OnlyStars(p, s, i);
    while i < |p| && p[i] == '*'
      invariant i <= |p|
      invariant Accepts(p, s, 0, 0) <==> forall k :: i <= k < |p| ==> p[k] == '*'
    {
      i := i + 1;
    }
    return i == |p|;
  }

  /** Accepting at the end of the walk is accepting at its start. */
  lemma {:induction false} AlongWalk(p: string, s: string, a: nat, v: nat, i: nat, j: nat)
    requires Walked(p, s, a, v, i, j)
    ensures Accepts(p, s, a, v) <==> Accepts(p, s, i, j)
    decreases i - a
  {
    if a < i {
      WalkedTail(p, s, a, v, i, j);
      AlongWalk(p, s, a + 1, v + 1, i, j);
    }
  }

  lemma EarlierStar(p: string, s: string, star: nat, v: nat, i: nat, j: nat)
    requires Walked(p, s, star + 1, v, i, j) && Accepts(p, s, i, j)
    ensures AcceptsLater(p, s, star + 1, v)
  {
    AlongWalk(p, s, star + 1, v, i, j);
  }

  lemma Stuck(p: string, s: string, star: nat, v: nat, i: nat, j: nat)
    requires Walked(p, s, star + 1, v, i, j) && Accepts(p, s, star + 1, v) && j < |s|
    ensures Fits(p, s, i, j) || (i < |p| && p[i] == '*')
  {
    AlongWalk(p, s, star + 1, v, i, j);
  }

  // ---------- how the loop's answer relates to the meaning of the pattern ----------

  /** The matcher never accepts a name its pattern does not cover. */
  lemma {:induction false} Sound(p: string, s: string, i: nat, j: nat)
    requires i <= |p| && j <= |s|
    ensures Accepts(p, s, i, j) ==> Matches(p[i..], s[j..])
    ensures AcceptsLater(p, s, i, j) ==> Matches(['*'] + p[i..], s[j..])
    decreases |p| - i, |s| - j
  {
    if j < |s| {
      Sound(p, s, i, j + 1);
      assert s[j..][1..] == s[j + 1..];
    }
    assert (['*'] + p[i..])[1..] == p[i..];
    if i < |p| {
      assert p[i..][1..] == p[i + 1..];
      if Fits(p, s, i, j) {
        Sound(p, s, i + 1, j + 1);
      } else if p[i] == '*' {
        Sound(p, s, i + 1, j);
        assert p[i..] == ['*'] + p[i + 1..];
      }
    }
  }

  /** Where the name holds no star it decides exactly what the pattern means. */
  lemma {:induction false} Complete(p: string, s: string, i: nat, j: nat)
    requires i <= |p| && j <= |s| && '*' !in s[j..]
    ensures Accepts(p, s, i, j) <==> Matches(p[i..], s[j..])
    ensures AcceptsLater(p, s, i, j) <==> Matches(['*'] + p[i..], s[j..])
    decreases |p| - i, |s| - j
  {
    if j < |s| {
      Complete(p, s, i, j + 1);
      assert s[j..][1..] == s[j + 1..];
      assert s[j] in s[j..];
    }
    assert (['*'] + p[i..])[1..] == p[i..];
    if i < |p| {
      assert p[i..][1..] == p[i + 1..];
      if Fits(p, s, i, j) {
        Complete(p, s, i + 1, j + 1);
      } else if p[i] == '*' {
        Complete(p, s, i + 1, j);
        assert p[i..] == ['*'] + p[i + 1..];
      }
    }
  }

  function Wildcards(n: nat): (p: string)
    ensures |p| == n && forall i :: 0 <= i < n ==> p[i] == '?'
  {
    seq(n, _ => '?')
  }

  lemma {:induction false} WildcardsMatch(n: nat, s: string)
    ensures Matches(Wildcards(n), s) <==> |s| == n
    decreases n
  {
    if n > 0 && s != [] {
      assert Wildcards(n)[1..] == Wildcards(n - 1);
      WildcardsMatch(n - 1, s[1..]);
    }
  }

  /** A pattern the matcher gets wrong for a name whose first star is at x: it spends its own star on the
      name's star and is left with one wildcard too many. */
  function TripUp(s: string, x: nat): string
    requires x < |s|
  {
    Wildcards(x) + ['*'] + Wildcards(|s| - x)
  }

  lemma {:induction false} TripUpMatches(s: string, x: nat)
    requires x < |s|
    ensures Matches(TripUp(s, x), s)
    decreases x
  {
    var p := TripUp(s, x);
    if x == 0 {
      assert p[1..] == Wildcards(|s|);
      WildcardsMatch(|s|, s);
    } else {
      assert p[1..] == TripUp(s[1..], x - 1);
      TripUpMatches(s[1..], x - 1);
    }
  }

  lemma {:induction false} TripUpRejected(s: string, x: nat, i: nat)
    requires x < |s| && s[x] == '*' && i <= |s|
    ensures !Accepts(TripUp(s, x), s, i, i)
    decreases |s| - i
  {
    var p := TripUp(s, x);
    assert |p| == |s| + 1;
    if i < |s| {
      assert Fits(p, s, i, i);
      TripUpRejected(s, x, i + 1);
    } else {
      assert p[|s|] == '?';
    }
  }

  /** For a given name the matcher is right about every pattern exactly when the name holds no star. */
  lemma RightIffNoStar(s: string)
    ensures (forall p :: Accepts(p, s, 0, 0) <==> Matches(p, s)) <==> '*' !in s
  {
    assert s[0..] == s;
    if '*' in s {
      var x :| 0 <= x < |s| && s[x] == '*';
      TripUpMatches(s, x);
      TripUpRejected(s, x, 0);
    } else {
      forall p ensures Accepts(p, s, 0, 0) <==> Matches(p, s) {
        Complete(p, s, 0, 0);
        assert p[0..] == p;
      }
    }
  }
}
