/**
 * SQLite's LIKE operator with its default settings: `%` matches any run of
 * characters, `_` matches exactly one string element (SQLite's matches one
 * UTF-8 character, which may be several bytes), every other pattern character matches
 * itself ignoring ASCII case, and there is no escape character. TRIM(x)
 * without a second argument removes spaces from both ends.
 */
module SqlLike {
  import Text

  /** ASCII lower-casing; other characters are left alone. */
  function Lower(c: char): (l: char)
    ensures 'A' <= c <= 'Z' ==> l as int == c as int + 32
    ensures !('A' <= c <= 'Z') ==> l == c
  {
    if 'A' <= c <= 'Z' then (c as int + 32) as char else c
  }

  /** Equal up to ASCII case. */
  predicate FoldEq(a: string, b: string) {
    |a| == |b| && forall k :: 0 <= k < |a| ==> Lower(a[k]) == Lower(b[k])
  }

  predicate WildcardFree(p: string) {
    forall k :: 0 <= k < |p| ==> p[k] != '%' && p[k] != '_'
  }

  /** `s LIKE p`. */
  predicate Like(s: string, p: string)
    decreases |s| + |p|
  {
    if p == [] then s == []
    else if p[0] == '%' then Like(s, p[1..]) || (s != [] && Like(s[1..], p))
    else s != [] && (p[0] == '_' || Lower(p[0]) == Lower(s[0])) && Like(s[1..], p[1..])
  }

  /** A lone `%` matches every string. */
  lemma {:induction false} PercentMatchesAll(s: string)
    ensures Like(s, "%")
    decreases |s|
  {
    if s != [] {
      PercentMatchesAll(s[1..]);
    }
  }

  /** `s LIKE 'lit%'` holds exactly when `s` starts with `lit`, ignoring ASCII case. */
  lemma {:induction false} LikePrefix(s: string, lit: string)
    requires WildcardFree(lit)
    ensures Like(s, lit + "%") <==> |lit| <= |s| && FoldEq(s[..|lit|], lit)
    decreases |lit|
  {
    if lit == [] {
      PercentMatchesAll(s);
      assert lit + "%" == "%";
    } else {
      var p := lit + "%";
      assert p[1..] == lit[1..] + "%";
      if s != [] {
        LikePrefix(s[1..], lit[1..]);
        if |lit| <= |s| && FoldEq(s[..|lit|], lit) {
          assert FoldEq(s[1..][..|lit| - 1], lit[1..]);
        }
        if Like(s, p) {
          assert FoldEq(s[1..][..|lit| - 1], lit[1..]);
          forall k | 0 <= k < |lit| ensures Lower(s[..|lit|][k]) == Lower(lit[k]) {
            if k > 0 {
              assert s[..|lit|][k] == s[1..][..|lit| - 1][k - 1];
            }
          }
        }
      }
    }
  }

  /** Where `q` occurs in `s` at offset `i`, ignoring ASCII case. */
  predicate OccursAt(s: string, q: string, i: nat) {
    i + |q| <= |s| && FoldEq(s[i..i + |q|], q)
  }

  /**
   * `s LIKE '%q%'` for a wildcard-free `q` holds exactly when `q` occurs
   * somewhere in `s`, ignoring ASCII case.
   */
  lemma {:induction false} LikeContains(s: string, q: string)
    requires WildcardFree(q)
    ensures Like(s, "%" + q + "%") <==> exists i: nat :: OccursAt(s, q, i)
    decreases |s|
  {
    var p := "%" + q + "%";
    assert p[1..] == q + "%";
    LikePrefix(s, q);
    assert Like(s, q + "%") <==> OccursAt(s, q, 0) by {
      if |q| <= |s| {
        assert s[0..|q|] == s[..|q|];
      }
    }
    if s == [] {
      if exists i: nat :: OccursAt(s, q, i) {
        var i: nat :| OccursAt(s, q, i);
        assert i == 0;
      }
    } else {
      LikeContains(s[1..], q);
      if Like(s[1..], p) {
        var i: nat :| OccursAt(s[1..], q, i);
        assert s[1..][i..i + |q|] == s[i + 1..i + 1 + |q|];
        assert OccursAt(s, q, i + 1);
      }
      if exists i: nat :: OccursAt(s, q, i) {
        var i: nat :| OccursAt(s, q, i);
        if i > 0 {
          assert s[1..][i - 1..i - 1 + |q|] == s[i..i + |q|];
          assert OccursAt(s[1..], q, i - 1);
        }
      }
    }
  }

  /** The three prefix patterns the history search excludes, spelled out. */
  lemma PrefixPatterns(c: string)
    ensures Like(c, "bsh%") <==> |c| >= 3 && FoldEq(c[..3], "bsh")
    ensures Like(c, "./bsh%") <==> |c| >= 5 && FoldEq(c[..5], "./bsh")
    ensures Like(c, "#%") <==> |c| >= 1 && c[0] == '#'
  {
    BshPattern(c);
    DotBshPattern(c);
    HashPattern(c);
  }

  lemma BshPattern(c: string)
    ensures Like(c, "bsh%") <==> |c| >= 3 && FoldEq(c[..3], "bsh")
  {
    assert "bsh" + "%" == "bsh%";
    LikePrefix(c, "bsh");
  }

  lemma DotBshPattern(c: string)
    ensures Like(c, "./bsh%") <==> |c| >= 5 && FoldEq(c[..5], "./bsh")
  {
    assert "./bsh" + "%" == "./bsh%";
    LikePrefix(c, "./bsh");
  }

  lemma HashPattern(c: string)
    ensures Like(c, "#%") <==> |c| >= 1 && c[0] == '#'
  {
    assert "#" + "%" == "#%";
    LikePrefix(c, "#");
    if |c| >= 1 && c[0] == '#' {
      assert FoldEq(c[..1], "#");
    }
  }

  function IsSqlSpace(c: char): bool {
    c == ' '
  }

  /** `s` is `r` at position `i` with nothing but spaces around it. */
  predicate SpacePadded(s: string, r: string, i: int) {
    0 <= i <= |s| - |r| && r == s[i..i + |r|]
    && (forall k :: 0 <= k < i ==> s[k] == ' ')
    && (forall k :: i + |r| <= k < |s| ==> s[k] == ' ')
  }

  /** SQLite TRIM(x): removes spaces, and only spaces, from both ends. */
  function Trim(s: string): (r: string)
    ensures r == [] || (r[0] != ' ' && r[|r| - 1] != ' ')
    ensures exists i :: SpacePadded(s, r, i)
  {
    Text.StripEnds(s, IsSqlSpace);
    Text.StripSlice(s, IsSqlSpace);
    assert SpacePadded(s, Text.Strip(s, IsSqlSpace), |s| - |Text.StripLeft(s, IsSqlSpace)|);
    Text.Strip(s, IsSqlSpace)
  }
}
