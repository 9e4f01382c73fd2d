/**
  The part of SQLite's LIKE operator that the storage queries use: `%`
  matches any run of characters, `_` matches exactly one character and
  every other pattern character matches itself up to ASCII case folding.
  No ESCAPE clause is used by the analyzer, so none is modelled.
*/
module SqlLike {

  /** ASCII case folding, as LIKE applies it by default. */
  function Fold(c: char): char
  {
    if 'A' <= c <= 'Z' then (c as int + 32) as char else c
  }

  /** A character that case folding cannot confuse with any other. */
  predicate Caseless(c: char)
  {
    !('A' <= c <= 'Z') && !('a' <= c <= 'z')
  }

  /** `s LIKE p`. */
  predicate Like(s: string, p: string)
    decreases |p|, |s|
  {
    if p == [] then s == []
    else if p[0] == '%' then Like(s, p[1..]) || (s != [] && Like(s[1..], p))
    else if p[0] == '_' then s != [] && Like(s[1..], p[1..])
    else s != [] && Fold(s[0]) == Fold(p[0]) && Like(s[1..], p[1..])
  }

  predicate HasSuffix(s: string, suffix: string)
  {
    |suffix| <= |s| && s[|s| - |suffix|..] == suffix
  }

  /** A pattern of caseless literal characters matches only itself. */
  lemma {:induction false} LikeLiteral(s: string, lit: string)
    requires forall i :: 0 <= i < |lit| ==> lit[i] != '%' && lit[i] != '_' && Caseless(lit[i])
    ensures Like(s, lit) <==> s == lit
  {
    if lit != [] && s != [] {
      LikeLiteral(s[1..], lit[1..]);
      assert Fold(s[0]) == Fold(lit[0]) <==> s[0] == lit[0];
      if s[0] == lit[0] && s[1..] == lit[1..] {
        assert s == [s[0]] + s[1..] && lit == [lit[0]] + lit[1..];
      }
    }
  }

  /** `%` matches everything. */
  lemma {:induction false} LikeAnything(s: string)
    ensures Like(s, "%")
  {
    if s != [] {
      LikeAnything(s[1..]);
    }
  }

  /** A leading `%` lets the rest of the pattern match any suffix of `s`. */
  lemma {:induction false} LikeLeadingPercent(s: string, p: string)
    ensures Like(s, "%" + p) <==> exists k :: 0 <= k <= |s| && Like(s[k..], p)
  {
    var q := "%" + p;
    assert q[0] == '%' && q[1..] == p;
    assert s[0..] == s;
    if s != [] {
      LikeLeadingPercent(s[1..], p);
      if Like(s[1..], q) {
        var k :| 0 <= k <= |s[1..]| && Like(s[1..][k..], p);
        assert s[1..][k..] == s[k + 1..];
      }
      if k :| 0 < k <= |s| && Like(s[k..], p) {
        assert s[1..][k - 1..] == s[k..];
      }
    }
  }

  /** `path LIKE '%+000000'` is the suffix test. */
  lemma OverflowStartPattern(s: string)
    ensures Like(s, "%+000000") <==> HasSuffix(s, "+000000")
  {
    var lit := "+000000";
    assert "%+000000" == "%" + lit;
    OverflowSuffixIsLiteral();
    LikeLeadingPercent(s, lit);
    if HasSuffix(s, lit) {
      LikeLiteral(s[|s| - |lit|..], lit);
    }
    if k :| 0 <= k <= |s| && Like(s[k..], lit) {
      LikeLiteral(s[k..], lit);
      assert s[k..] == lit;
      assert |s| - k == 7;
    }
  }

  lemma OverflowSuffixIsLiteral()
    ensures forall i :: 0 <= i < |"+000000"| ==> "+000000"[i] != '%' && "+000000"[i] != '_' && Caseless("+000000"[i])
  {
    var lit := "+000000";
    forall i | 0 <= i < |lit| ensures lit[i] != '%' && lit[i] != '_' && Caseless(lit[i]) {
      assert lit[i] == '+' || lit[i] == '0';
    }
  }

  /** `path LIKE '%+%'` is the containment test. */
  lemma ContainsPlusPattern(s: string)
    ensures Like(s, "%+%") <==> '+' in s
  {
    var tail := "+%";
    assert "%+%" == "%" + tail;
    LikeLeadingPercent(s, tail);
    if '+' in s {
      var k :| 0 <= k < |s| && s[k] == '+';
      LikeAnything(s[k + 1..]);
      assert s[k..][1..] == s[k + 1..];
    }
    if k :| 0 <= k <= |s| && Like(s[k..], tail) {
      assert s[k..] != [] && s[k..][0] == '+';
      assert s[k] == '+';
    }
  }
}
