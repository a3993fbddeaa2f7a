/**
 * The store-side name match behind the search endpoint (main.py:147). On
 * SQLite, the ORM's case-insensitive `ilike` is `lower(name) LIKE
 * lower(pattern)`; both the built-in `lower()` and `LIKE` fold only the ASCII
 * letters, and `LIKE` without an ESCAPE clause treats '%' as any run of
 * characters and '_' as any single character. This module states that
 * behaviour of the engine as an explicit model.
 */
module SqlLike {

  /** ASCII-only lower-casing of one character. */
  function FoldChar(c: char): (d: char)
    ensures !('A' <= d <= 'Z')
    ensures d == c || ('A' <= c <= 'Z' && d as int == c as int + 32)
  {
    if 'A' <= c <= 'Z' then (c as int + 32) as char else c
  }

  /** ASCII-only lower-casing of a string, character by character. */
  function Fold(s: string): (r: string)
    ensures |r| == |s|
    ensures forall i :: 0 <= i < |s| ==> r[i] == FoldChar(s[i])
  {
    seq(|s|, i requires 0 <= i < |s| => FoldChar(s[i]))
  }

  /** Folding twice is folding once. */
  lemma FoldIdempotent(s: string)
    ensures Fold(Fold(s)) == Fold(s)
  {
  }

  /** Folding works per character, so it distributes over concatenation. */
  lemma FoldAppend(a: string, b: string)
    ensures Fold(a + b) == Fold(a) + Fold(b)
  {
    assert |Fold(a + b)| == |Fold(a) + Fold(b)|;
    forall i | 0 <= i < |a + b| ensures Fold(a + b)[i] == (Fold(a) + Fold(b))[i] {
      if i < |a| { assert (a + b)[i] == a[i]; } else { assert (a + b)[i] == b[i - |a|]; }
    }
  }

  /** Folding a slice gives the same slice of the folded string. */
  lemma FoldSlice(s: string, i: int, j: int)
    requires 0 <= i <= j <= |s|
    ensures Fold(s)[i..j] == Fold(s[i..j])
  {
  }

  /** `s LIKE p` on strings already folded: '%' matches any run, '_' any one character, the rest literally. */
  predicate Like(s: string, p: string): (b: bool)
    ensures NoWildcards(p) ==> (b <==> s == p)
    decreases |s| + |p|
  {
    if p == [] then s == []
    else if p[0] == '%' then Like(s, p[1..]) || (s != [] && Like(s[1..], p))
    else s != [] && (p[0] == '_' || s[0] == p[0]) && Like(s[1..], p[1..])
  }

  /** A term that holds neither of the two wildcard characters. */
  predicate NoWildcards(t: string)
  {
    forall i :: 0 <= i < |t| ==> t[i] != '%' && t[i] != '_'
  }

  /** t occurs in s starting at position k. */
  predicate OccursAt(t: string, s: string, k: int)
  {
    0 <= k <= |s| - |t| && s[k..k + |t|] == t
  }

  /** The plain substring relation that a search term is meant to express. */
  ghost predicate IsSubstring(t: string, s: string)
  {
    exists k :: OccursAt(t, s, k)
  }

  /** Folding never creates or removes a wildcard character. */
  lemma FoldKeepsNoWildcards(t: string)
    requires NoWildcards(t)
    ensures NoWildcards(Fold(t))
  {
  }

  /** A lone '%' matches every string. */
  lemma {:induction false} LikePercentMatchesAll(s: string)
    ensures Like(s, "%")
    decreases |s|
  {
    if s != [] {
      LikePercentMatchesAll(s[1..]);
    }
  }

  /** A wildcard-free prefix of the pattern must match the same prefix of the string, literally. */
  lemma {:induction false} LikeLiteralPrefix(s: string, t: string, p: string)
    requires NoWildcards(t)
    ensures Like(s, t + p) <==> |t| <= |s| && s[..|t|] == t && Like(s[|t|..], p)
    decreases |t|
  {
    if t != [] {
      assert (t + p)[0] == t[0];
      assert (t + p)[1..] == t[1..] + p;
      assert NoWildcards(t[1..]) by {
        forall i | 0 <= i < |t[1..]| ensures t[1..][i] != '%' && t[1..][i] != '_' {
          assert t[1..][i] == t[i + 1];
        }
      }
      if s != [] {
        LikeLiteralPrefix(s[1..], t[1..], p);
        if |t| <= |s| {
          assert s[1..][..|t| - 1] == s[1..|t|];
          assert s[..|t|] == [s[0]] + s[1..|t|];
          assert t == [t[0]] + t[1..];
          assert s[1..][|t| - 1..] == s[|t|..];
        }
      }
    } else {
      assert t + p == p;
      assert s[..0] == t && s[0..] == s;
    }
  }

  /** A leading '%' lets the rest of the pattern match any suffix of the string. */
  lemma {:induction false} LikeLeadingPercent(s: string, q: string)
    ensures Like(s, "%" + q) <==> exists k :: 0 <= k <= |s| && Like(s[k..], q)
    decreases |s|
  {
    var p := "%" + q;
    assert p[0] == '%' && p[1..] == q;
    assert s[0..] == s;
    if s != [] {
      LikeLeadingPercent(s[1..], q);
      if Like(s[1..], p) {
        var k :| 0 <= k <= |s[1..]| && Like(s[1..][k..], q);
        assert s[1..][k..] == s[k + 1..];
      }
      if k :| 0 <= k <= |s| && Like(s[k..], q) {
        if k > 0 {
          assert s[1..][k - 1..] == s[k..];
        }
      }
    }
  }

  /** For a wildcard-free term t, the pattern '%t%' matches exactly the strings that contain t. */
  lemma LikeContains(s: string, t: string)
    requires NoWildcards(t)
    ensures Like(s, "%" + t + "%") <==> IsSubstring(t, s)
  {
    assert "%" + t + "%" == "%" + (t + "%");
    LikeLeadingPercent(s, t + "%");
    if Like(s, "%" + t + "%") {
      var k :| 0 <= k <= |s| && Like(s[k..], t + "%");
      LikeLiteralPrefix(s[k..], t, "%");
      assert s[k..][..|t|] == s[k..k + |t|];
      assert OccursAt(t, s, k);
    }
    if IsSubstring(t, s) {
      var k :| OccursAt(t, s, k);
      LikeLiteralPrefix(s[k..], t, "%");
      assert s[k..][..|t|] == s[k..k + |t|];
      LikePercentMatchesAll(s[k..][|t|..]);
    }
  }
}
