/** The fragment of Python's `re.match` the name checks use: a pattern is a
    sequence of atoms — a literal character, the class `[0-9]`, or a
    character followed by `*` — and `re.match` succeeds when some prefix of
    the name matches the whole pattern. */
module Regex {
  import opened Strings

  datatype Atom = Lit(c: char) | Digit | Star(c: char)

  predicate IsDigit(c: char) {
    '0' <= c <= '9'
  }

  /** The atoms of `[0-9]` written `n` times. */
  function Digits(n: nat): (r: seq<Atom>)
    ensures |r| == n && forall k :: 0 <= k < n ==> r[k] == Digit
  {
    seq(n, _ => Digit)
  }

  /** The atoms of a string of ordinary characters. */
  function Lits(s: string): (r: seq<Atom>)
    ensures |r| == |s| && forall k :: 0 <= k < |s| ==> r[k] == Lit(s[k])
  {
    seq(|s|, k requires 0 <= k < |s| => Lit(s[k]))
  }

  /** The atoms of `c*` for each character of `s`, as in `_*-*-*`. */
  function Stars(s: string): (r: seq<Atom>)
    ensures |r| == |s| && forall k :: 0 <= k < |s| ==> r[k] == Star(s[k])
  {
    seq(|s|, k requires 0 <= k < |s| => Star(s[k]))
  }

  /** `re.match(p, s)` succeeds: with nothing left of the pattern the match
      ends, whatever follows in `s`; a starred character matches as many
      copies as the rest of the pattern allows. */
  predicate MatchPrefix(p: seq<Atom>, s: string)
    decreases |s|, |p|
  {
    if |p| == 0 then true
    else match p[0]
      case Lit(c) => |s| > 0 && s[0] == c && MatchPrefix(p[1..], s[1..])
      case Digit => |s| > 0 && IsDigit(s[0]) && MatchPrefix(p[1..], s[1..])
      case Star(c) => MatchPrefix(p[1..], s) || (|s| > 0 && s[0] == c && MatchPrefix(p, s[1..]))
  }

  predicate Accepts(a: Atom, c: char) {
    match a
    case Lit(d) => c == d
    case Digit => IsDigit(c)
    case Star(_) => false
  }

  /** The first `|p|` characters of `s` fit the star-free pattern `p`
      position by position. */
  predicate Fits(p: seq<Atom>, s: string) {
    |p| <= |s| && forall k :: 0 <= k < |p| ==> Accepts(p[k], s[k])
  }

  /** A pattern made only of starred characters matches every name, taking
      each star zero times. */
  lemma {:induction false} StarsMatchAnything(p: seq<Atom>, s: string)
    requires forall k :: 0 <= k < |p| ==> p[k].Star?
    ensures MatchPrefix(p, s)
    decreases |p|
  {
    if |p| > 0 {
      StarsMatchAnything(p[1..], s);
    }
  }

  /** A star-free pattern followed by starred characters: the stars change
      nothing, and the match is a fixed prefix test. */
  lemma {:induction false} FixedThenStars(fixed: seq<Atom>, stars: seq<Atom>, s: string)
    requires forall k :: 0 <= k < |fixed| ==> !fixed[k].Star?
    requires forall k :: 0 <= k < |stars| ==> stars[k].Star?
    ensures MatchPrefix(fixed + stars, s) <==> Fits(fixed, s)
    decreases |fixed|
  {
    if |fixed| == 0 {
      assert fixed + stars == stars;
      StarsMatchAnything(stars, s);
    } else {
      var p := fixed + stars;
      assert p[0] == fixed[0];
      assert p[1..] == fixed[1..] + stars;
      if |s| > 0 {
        FixedThenStars(fixed[1..], stars, s[1..]);
        if Fits(fixed[1..], s[1..]) && Accepts(fixed[0], s[0]) {
          assert Fits(fixed, s) by {
            forall k | 0 <= k < |fixed|
              ensures Accepts(fixed[k], s[k])
            {
              if k > 0 {
                assert Accepts(fixed[1..][k - 1], s[1..][k - 1]);
              }
            }
          }
        }
        if Fits(fixed, s) {
          assert Accepts(fixed[0], s[0]);
          assert Fits(fixed[1..], s[1..]) by {
            forall k | 0 <= k < |fixed[1..]|
              ensures Accepts(fixed[1..][k], s[1..][k])
            {
              assert Accepts(fixed[k + 1], s[k + 1]);
            }
          }
        }
      }
    }
  }

  predicate AllDigits(s: string) {
    forall k :: 0 <= k < |s| ==> IsDigit(s[k])
  }

  /** Fitting a concatenation is fitting each part in turn. */
  lemma FitsConcat(a: seq<Atom>, b: seq<Atom>, s: string)
    ensures Fits(a + b, s) <==> Fits(a, s) && Fits(b, s[|a|..])
  {
    if Fits(a, s) && Fits(b, s[|a|..]) {
      forall k | 0 <= k < |a + b|
        ensures Accepts((a + b)[k], s[k])
      {
        if k >= |a| {
          assert Accepts(b[k - |a|], s[|a|..][k - |a|]);
        }
      }
    }
    if Fits(a + b, s) {
      assert forall k :: 0 <= k < |a| ==> (a + b)[k] == a[k];
      forall k | 0 <= k < |b|
        ensures Accepts(b[k], s[|a|..][k])
      {
        assert (a + b)[|a| + k] == b[k];
      }
    }
  }

  lemma FitsLits(t: string, s: string)
    ensures Fits(Lits(t), s) <==> StartsWith(s, t)
  {
    if Fits(Lits(t), s) {
      forall k | 0 <= k < |t|
        ensures s[..|t|][k] == t[k]
      {
        assert Accepts(Lits(t)[k], s[k]);
      }
    }
    if StartsWith(s, t) {
      forall k | 0 <= k < |t|
        ensures Accepts(Lits(t)[k], s[k])
      {
        assert s[..|t|][k] == s[k];
      }
    }
  }

  lemma FitsDigits(n: nat, s: string)
    ensures Fits(Digits(n), s) <==> n <= |s| && AllDigits(s[..n])
  {
    if n <= |s| && AllDigits(s[..n]) {
      forall k | 0 <= k < n
        ensures IsDigit(s[k])
      {
        assert s[..n][k] == s[k];
      }
    }
  }
}
