/** SQLite's `LIKE` operator as the search query uses it: `%` matches any run
    of characters, `_` matches exactly one, there is no ESCAPE clause, and
    letters are compared with ASCII case folding only. */
module SqlLike {

  /** SQLite's default `LIKE` folds only the 26 ASCII letters. */
  function Fold(c: char): char {
    if 'A' <= c <= 'Z' then (c as int + 32) as char else c
  }

  /** `s LIKE p`. */
  function Like(s: string, p: string): bool
    decreases |s| + |p|
  {
    if |p| == 0 then |s| == 0
    else if p[0] == '%' then Like(s, p[1..]) || (|s| > 0 && Like(s[1..], p))
    else |s| > 0 && (p[0] == '_' || Fold(s[0]) == Fold(p[0])) && Like(s[1..], p[1..])
  }

  /** The pattern `f"%{query}%"` the search builds. */
  function SubstringPattern(q: string): string {
    "%" + q + "%"
  }

  predicate NoWildcards(q: string) {
    forall i :: 0 <= i < |q| ==> q[i] != '%' && q[i] != '_'
  }

  /** `a` and `b` are equal up to ASCII case. */
  predicate FoldEq(a: string, b: string) {
    |a| == |b| && forall i :: 0 <= i < |a| ==> Fold(a[i]) == Fold(b[i])
  }

  predicate OccursAt(s: string, q: string, k: int)
    requires 0 <= k <= |s| - |q|
  {
    FoldEq(s[k..k + |q|], q)
  }

  /** `q` occurs in `s` as a contiguous piece, ignoring ASCII case. */
  predicate ContainsFolded(s: string, q: string) {
    exists k :: 0 <= k <= |s| - |q| && OccursAt(s, q, k)
  }

  lemma {:induction false} PercentMatchesAll(s: string)
    ensures Like(s, "%")
    decreases |s|
  {
    assert "%"[1..] == "";
    if |s| > 0 {
      PercentMatchesAll(s[1..]);
    }
  }

  /** A wildcard-free `q` followed by `%` matches exactly the texts that begin with `q`. */
  lemma {:induction false} LiteralThenPercent(s: string, q: string)
    requires NoWildcards(q)
    ensures Like(s, q + "%") <==> |q| <= |s| && FoldEq(s[..|q|], q)
    decreases |q|
  {
    if |q| == 0 {
      assert q + "%" == "%";
      PercentMatchesAll(s);
    } else {
      assert (q + "%")[1..] == q[1..] + "%";
      assert (q + "%")[0] == q[0];
      if |s| > 0 {
        LiteralThenPercent(s[1..], q[1..]);
        if |q| <= |s| {
          var a := s[..|q|];
          assert a[1..] == s[1..][..|q| - 1];
          assert FoldEq(a, q) <==> Fold(a[0]) == Fold(q[0]) && FoldEq(a[1..], q[1..]) by {
            if Fold(a[0]) == Fold(q[0]) && FoldEq(a[1..], q[1..]) {
              forall i | 0 <= i < |a| ensures Fold(a[i]) == Fold(q[i]) {
                if i > 0 {
                  assert a[i] == a[1..][i - 1] && q[i] == q[1..][i - 1];
                }
              }
            }
          }
        }
      }
    }
  }

  /** A leading `%` lets the rest of the pattern match any suffix. */
  lemma {:induction false} LeadingPercent(s: string, r: string)
    ensures Like(s, "%" + r) <==> exists k :: 0 <= k <= |s| && Like(s[k..], r)
    decreases |s|
  {
    assert ("%" + r)[1..] == r;
    assert s[0..] == s;
    if |s| > 0 {
      LeadingPercent(s[1..], r);
      if exists k :: 0 <= k <= |s| && Like(s[k..], r) {
        var k :| 0 <= k <= |s| && Like(s[k..], r);
        if k > 0 {
          assert s[1..][k - 1..] == s[k..];
        }
      }
      if exists k :: 0 <= k <= |s[1..]| && Like(s[1..][k..], r) {
        var k :| 0 <= k <= |s[1..]| && Like(s[1..][k..], r);
        assert s[1..][k..] == s[k + 1..];
      }
    }
  }

  /** For a query free of wildcards, `LIKE '%q%'` is a case-insensitive
      (ASCII only) substring test. */
  lemma SubstringSearch(s: string, q: string)
    requires NoWildcards(q)
    ensures Like(s, SubstringPattern(q)) <==> ContainsFolded(s, q)
  {
    assert SubstringPattern(q) == "%" + (q + "%");
    LeadingPercent(s, q + "%");
    forall k | 0 <= k <= |s|
      ensures Like(s[k..], q + "%") <==> k <= |s| - |q| && OccursAt(s, q, k)
    {
      LiteralThenPercent(s[k..], q);
      if k <= |s| - |q| {
        assert s[k..][..|q|] == s[k..k + |q|];
      }
    }
  }

  /** The empty query matches every text, the empty one included. */
  lemma EmptyQueryMatchesAll(s: string)
    ensures Like(s, SubstringPattern(""))
  {
    SubstringSearch(s, "");
    assert OccursAt(s, "", 0);
  }

  /** A query character `_` is passed through as a wildcard: "_" finds every
      non-empty text, although such a text need not contain an underscore. */
  lemma UnderscoreQueryIsWildcard(s: string)
    requires |s| > 0
    ensures Like(s, SubstringPattern("_"))
    ensures s == "ab" ==> !ContainsFolded(s, "_")
  {
    assert SubstringPattern("_") == "%" + "_%";
    LeadingPercent(s, "_%");
    assert "_%"[1..] == "%";
    PercentMatchesAll(s[1..]);
    assert Like(s[0..], "_%") by { assert s[0..] == s; }
    if s == "ab" {
      forall k | 0 <= k <= |s| - 1 ensures !OccursAt(s, "_", k) {
        assert Fold(s[k]) != '_';
      }
    }
  }
}
