/**
 * Name normalisation and the two ways the catalog compares text: Python's
 * `needle in hay` substring test and SQLite's `LIKE` pattern match.
 * Lower-casing is ASCII case folding, which is what SQLite's `LOWER` does.
 */
module Text {

  function LowerChar(c: char): char {
    if 'A' <= c <= 'Z' then (c as int - 'A' as int + 'a' as int) as char else c
  }

  /** `LOWER(s)` in SQL, `s.lower()` in Python (ASCII letters only). */
  function Lower(s: string): (r: string)
    ensures |r| == |s|
    ensures forall i | 0 <= i < |s| :: r[i] == LowerChar(s[i])
  {
    seq(|s|, i requires 0 <= i < |s| => LowerChar(s[i]))
  }

  /** Normalising twice is normalising once, so "Dirt", "dirt" and "DIRT" share one key. */
  lemma LowerIdempotent(s: string)
    ensures Lower(Lower(s)) == Lower(s)
  {
  }

  predicate OccursAt(hay: string, needle: string, i: int) {
    0 <= i && i + |needle| <= |hay| && hay[i..i + |needle|] == needle
  }

  /**
   * Python's `needle in hay`: only a needle no longer than the text can
   * occur, and a prefix of the text always does.
   */
  predicate Contains(hay: string, needle: string)
    ensures Contains(hay, needle) ==> |needle| <= |hay|
    ensures |needle| <= |hay| && hay[..|needle|] == needle ==> Contains(hay, needle)
  {
    assert |needle| <= |hay| && hay[..|needle|] == needle ==> OccursAt(hay, needle, 0);
    exists i | 0 <= i <= |hay| - |needle| :: OccursAt(hay, needle, i)
  }

  /** The empty string occurs in every string. */
  lemma EmptyIsContained(hay: string)
    ensures Contains(hay, "")
  {
    assert OccursAt(hay, "", 0);
  }

  predicate NoWildcards(k: string) {
    forall i | 0 <= i < |k| :: k[i] != '%' && k[i] != '_'
  }

  /**
   * SQLite's `s LIKE p` without an ESCAPE clause: `%` matches any run of
   * characters, `_` any single character, every other character itself.
   * SQLite also folds ASCII case here; the catalog lowers both operands
   * first, so exact comparison of the lowered texts is the same test.
   * A pattern without wildcards matches only itself.
   */
  predicate Like(s: string, p: string)
    ensures NoWildcards(p) ==> (Like(s, p) <==> s == p)
    decreases |s|, |p|
  {
    assert NoWildcards(p) && p != [] ==> NoWildcards(p[1..]) by {
      if NoWildcards(p) && p != [] {
        assert forall i | 0 <= i < |p| - 1 :: p[1..][i] == p[i + 1];
      }
    }
    assert s != [] && p != [] ==> (s == p <==> s[0] == p[0] && s[1..] == p[1..]) by {
      if s != [] && p != [] && s[0] == p[0] && s[1..] == p[1..] {
        assert s == [s[0]] + s[1..] && p == [p[0]] + p[1..];
      }
    }
    if p == [] then s == []
    else if p[0] == '%' then Like(s, p[1..]) || (s != [] && Like(s[1..], p))
    else s != [] && (p[0] == '_' || p[0] == s[0]) && Like(s[1..], p[1..])
  }

  lemma {:induction false} LikePercentMatchesAll(s: string)
    ensures Like(s, "%")
    decreases |s|
  {
    assert "%"[1..] == [];
    if s != [] {
      LikePercentMatchesAll(s[1..]);
    }
  }

  /** A wildcard-free `k` followed by `%` matches exactly the strings that start with `k`. */
  lemma {:induction false} LikePrefix(s: string, k: string)
    requires NoWildcards(k)
    ensures Like(s, k + "%") <==> (|k| <= |s| && s[..|k|] == k)
    decreases |k|
  {
    if k == [] {
      assert k + "%" == "%";
      LikePercentMatchesAll(s);
    } else {
      var p := k + "%";
      assert p[0] == k[0] && p[0] != '%' && p[0] != '_';
      assert p[1..] == k[1..] + "%";
      assert NoWildcards(k[1..]);
      if s != [] {
        LikePrefix(s[1..], k[1..]);
        if |k| <= |s| {
          assert s[..|k|] == [s[0]] + s[1..][..|k| - 1];
          assert k == [k[0]] + k[1..];
        }
      }
    }
  }

  /** A leading `%` lets the rest of the pattern match any suffix. */
  lemma {:induction false} LikeSomeSuffix(s: string, q: string)
    ensures Like(s, "%" + q) <==> exists j | 0 <= j <= |s| :: Like(s[j..], q)
    decreases |s|
  {
    var p := "%" + q;
    assert p[0] == '%' && p[1..] == q;
    assert s[0..] == s;
    if s == [] {
    } else {
      LikeSomeSuffix(s[1..], q);
      if Like(s[1..], p) {
        var j :| 0 <= j <= |s[1..]| && Like(s[1..][j..], q);
        assert s[1..][j..] == s[j + 1..];
      }
      if j :| 0 <= j <= |s| && Like(s[j..], q) {
        if j > 0 {
          assert s[1..][j - 1..] == s[j..];
        }
      }
    }
  }

  /** The `'%' + keyword + '%'` pattern is a substring test when the keyword has no wildcard. */
  lemma LikeIsSubstring(s: string, k: string)
    requires NoWildcards(k)
    ensures Like(s, "%" + k + "%") <==> Contains(s, k)
  {
    assert "%" + k + "%" == "%" + (k + "%");
    LikeSomeSuffix(s, k + "%");
    if Contains(s, k) {
      var i :| 0 <= i <= |s| - |k| && OccursAt(s, k, i);
      LikePrefix(s[i..], k);
      assert s[i..][..|k|] == s[i..i + |k|];
    }
    if j :| 0 <= j <= |s| && Like(s[j..], k + "%") {
      LikePrefix(s[j..], k);
      assert s[j..][..|k|] == s[j..j + |k|];
      assert OccursAt(s, k, j);
    }
  }

  /**
   * `LOWER(name) LIKE LOWER('%' || keyword || '%')` holds exactly when the
   * lowered keyword occurs in the lowered name, for keywords without `%` or `_`.
   */
  lemma SqlLikeIsCaseInsensitiveSubstring(name: string, keyword: string)
    requires NoWildcards(keyword)
    ensures Like(Lower(name), Lower("%" + keyword + "%")) <==> Contains(Lower(name), Lower(keyword))
  {
    assert Lower("%" + keyword + "%") == "%" + Lower(keyword) + "%";
    assert NoWildcards(Lower(keyword));
    LikeIsSubstring(Lower(name), Lower(keyword));
  }
}
