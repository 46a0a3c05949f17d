/** SQLite's LIKE operator as the search uses it: no ESCAPE clause, default
    case-insensitive mode. `%` matches any run of characters, `_` matches
    exactly one character, and every other pattern character matches a text
    character equal to it up to ASCII case. */
module Like {
  import opened Text

  predicate IsWildcard(c: char) {
    c == '%' || c == '_'
  }

  predicate NoWildcards(p: string) {
    forall i :: 0 <= i < |p| ==> !IsWildcard(p[i])
  }

  /** `t LIKE p`. */
  predicate LikeMatch(p: string, t: string)
    decreases |p| + |t|
  {
    if |p| == 0 then |t| == 0
    else if p[0] == '%' then LikeMatch(p[1..], t) || (|t| > 0 && LikeMatch(p, t[1..]))
    else if |t| == 0 then false
    else if p[0] == '_' then LikeMatch(p[1..], t[1..])
    else FoldEq(p[0], t[0]) && LikeMatch(p[1..], t[1..])
  }

  /** The pattern the search builds from a filter: `%filter%`. */
  function ContainsPattern(filter: string): (p: string)
    ensures |p| == |filter| + 2 && p[0] == '%' && p[|p| - 1] == '%'
    ensures p[1..|p| - 1] == filter
  {
    "%" + filter + "%"
  }

  /** A lone `%` matches every text. */
  lemma {:induction false} PercentMatchesAll(t: string)
    ensures LikeMatch("%", t)
  {
    if |t| > 0 {
      PercentMatchesAll(t[1..]);
    }
  }

  /** A wildcard-free pattern followed by `%` matches exactly the texts that
      start with the pattern, up to ASCII case. */
  lemma {:induction false} PrefixPattern(f: string, t: string)
    requires NoWildcards(f)
    ensures LikeMatch(f + "%", t) <==> |f| <= |t| && MatchesAt(t, 0, f)
  {
    if |f| == 0 {
      assert f + "%" == "%";
      PercentMatchesAll(t);
    } else {
      var p := f + "%";
      assert p[0] == f[0] && !IsWildcard(f[0]);
      assert p[1..] == f[1..] + "%";
      if |t| > 0 {
        assert NoWildcards(f[1..]);
        PrefixPattern(f[1..], t[1..]);
        if |f| <= |t| && MatchesAt(t, 0, f) {
          assert FoldEq(f[0], t[0]);
          forall k | 0 <= k < |f| - 1 ensures FoldEq(f[1..][k], t[1..][k]) {
            assert FoldEq(f[k + 1], t[k + 1]);
          }
        }
        if LikeMatch(p, t) {
          forall k | 0 <= k < |f| ensures FoldEq(f[k], t[k]) {
            if k > 0 { assert f[1..][k - 1] == f[k] && t[1..][k - 1] == t[k]; }
          }
        }
      }
    }
  }

  /** A leading `%` lets the rest of the pattern match any suffix. */
  lemma {:induction false} LeadingPercent(g: string, t: string)
    ensures LikeMatch("%" + g, t) <==> exists i: nat :: i <= |t| && LikeMatch(g, t[i..])
  {
    var p := "%" + g;
    assert p[0] == '%' && p[1..] == g;
    if |t| == 0 {
      if LikeMatch(g, t) { assert t[0..] == t; }
    } else {
      LeadingPercent(g, t[1..]);
      if LikeMatch(p, t) {
        if LikeMatch(g, t) {
          assert t[0..] == t;
        } else {
          var i: nat :| i <= |t[1..]| && LikeMatch(g, t[1..][i..]);
          assert t[1..][i..] == t[i + 1..];
        }
      }
      if exists i: nat :: i <= |t| && LikeMatch(g, t[i..]) {
        var i: nat :| i <= |t| && LikeMatch(g, t[i..]);
        if i > 0 {
          assert t[1..][i - 1..] == t[i..];
        } else {
          assert t[0..] == t;
        }
      }
    }
  }

  /** For a filter without `%` or `_`, `t LIKE '%filter%'` holds exactly when
      `t` contains the filter, ASCII letters compared without case. */
  lemma ContainsPatternIff(f: string, t: string)
    requires NoWildcards(f)
    ensures LikeMatch(ContainsPattern(f), t) <==> ContainsFolded(t, f)
  {
    assert ContainsPattern(f) == "%" + (f + "%");
    LeadingPercent(f + "%", t);
    if LikeMatch(ContainsPattern(f), t) {
      var i: nat :| i <= |t| && LikeMatch(f + "%", t[i..]);
      PrefixPattern(f, t[i..]);
      forall k | 0 <= k < |f| ensures FoldEq(f[k], t[i + k]) {
        assert t[i..][k] == t[i + k];
      }
      assert MatchesAt(t, i, f);
    }
    if ContainsFolded(t, f) {
      var i: nat :| i + |f| <= |t| && MatchesAt(t, i, f);
      forall k | 0 <= k < |f| ensures FoldEq(f[k], t[i..][k]) {
        assert t[i..][k] == t[i + k];
      }
      PrefixPattern(f, t[i..]);
    }
  }

  /** Because the filter is not escaped, a filter of one `_` matches every
      non-empty text. */
  lemma UnderscoreFilterMatchesNonEmpty(t: string)
    ensures LikeMatch(ContainsPattern("_"), t) <==> |t| > 0
  {
    assert ContainsPattern("_") == "%" + "_%";
    LeadingPercent("_%", t);
    if |t| > 0 {
      assert ("_%")[1..] == "%";
      PercentMatchesAll(t[1..]);
      assert t[0..] == t;
    }
  }

  /** Likewise a filter of one `%` matches every text, empty ones included. */
  lemma PercentFilterMatchesAll(t: string)
    ensures LikeMatch(ContainsPattern("%"), t)
  {
    assert ContainsPattern("%") == "%" + "%%";
    LeadingPercent("%%", t);
    assert ("%%")[1..] == "%";
    PercentMatchesAll(t);
    assert t[0..] == t;
  }
}
