/** LIKE as in section 9.7.1 of the PostgreSQL manual, and when `prefix%` is plain prefix matching. */
module LikePattern {
  import opened Text

  predicate Like(p: string, s: string)
    decreases |p|, |s|
  {
    if p == "" then s == ""
    else if p[0] == '%' then Like(p[1..], s) || (s != "" && Like(p, s[1..]))
    else if p[0] == '_' then s != "" && Like(p[1..], s[1..])
    else if p[0] == '\\' then |p| > 1 && s != "" && s[0] == p[1] && Like(p[2..], s[1..])
    else s != "" && s[0] == p[0] && Like(p[1..], s[1..])
  }

  /** No wildcard and no escape. */
  predicate Plain(p: string) {
    forall c | c in p :: c != '%' && c != '_' && c != '\\'
  }

  lemma {:induction false} PercentMatchesAll(s: string)
    ensures Like("%", s)
  {
    if s == "" {
      assert Like("%"[1..], s);
    } else {
      PercentMatchesAll(s[1..]);
    }
  }

  lemma PrefixCons(s: string, p: string)
    requires s != "" && p != ""
    ensures HasPrefix(s, p) <==> s[0] == p[0] && HasPrefix(s[1..], p[1..])
  {
    assert p == [p[0]] + p[1..] && s == [s[0]] + s[1..];
  }

  // ---- the pattern language -----------------------------------------------------------------

  /** '%' stands for any text, also none. */
  lemma {:induction false} PercentSkips(p: string, s: string)
    ensures Like("%" + p, s) <==> exists k :: 0 <= k <= |s| && Like(p, s[k..])
    decreases |s|
  {
    var q := "%" + p;
    assert q[1..] == p && s[0..] == s;
    if s == "" {
      assert forall k | 0 <= k <= |s| :: s[k..] == s;
    } else {
      PercentSkips(p, s[1..]);
      if k :| 0 <= k <= |s| && Like(p, s[k..]) {
        assert k > 0 ==> s[k..] == s[1..][k - 1..];
      }
      if k :| 0 <= k <= |s[1..]| && Like(p, s[1..][k..]) {
        assert s[1..][k..] == s[k + 1..];
      }
    }
  }

  function Underscores(n: nat): string {
    if n == 0 then "" else "_" + Underscores(n - 1)
  }

  /** Each '_' stands for exactly one character. */
  lemma {:induction false} UnderscoresCount(n: nat, s: string)
    ensures Like(Underscores(n), s) <==> |s| == n
  {
    if n == 0 {
    } else {
      assert Underscores(n)[1..] == Underscores(n - 1);
      if s != "" {
        UnderscoresCount(n - 1, s[1..]);
      }
    }
  }

  /** Every character behind a backslash. */
  function Escaped(p: string): string {
    if p == "" then "" else ['\\', p[0]] + Escaped(p[1..])
  }

  /** An escaped prefix is always matched literally: with escaping the query would mean what it says. */
  lemma {:induction false} EscapedPrefix(p: string, s: string)
    ensures Like(Escaped(p) + "%", s) <==> HasPrefix(s, p)
    decreases |p|
  {
    if p == "" {
      assert Escaped(p) + "%" == "%";
      PercentMatchesAll(s);
    } else {
      var q := Escaped(p) + "%";
      assert q[0] == '\\' && q[1] == p[0] && q[2..] == Escaped(p[1..]) + "%";
      if s != "" {
        EscapedPrefix(p[1..], s[1..]);
        PrefixCons(s, p);
      }
    }
  }

  // ---- prefixes ---------------------------------------------------------------------------------

  lemma {:induction false} PlainPrefix(p: string, s: string)
    requires Plain(p)
    ensures Like(p + "%", s) <==> HasPrefix(s, p)
    decreases |p|
  {
    if p == "" {
      assert p + "%" == "%";
      PercentMatchesAll(s);
    } else {
      assert p[0] in p && (p + "%")[1..] == p[1..] + "%";
      assert forall c | c in p[1..] :: c in p;
      if s != "" {
        PlainPrefix(p[1..], s[1..]);
        PrefixCons(s, p);
      }
    }
  }

  /** A text that `p%` matches: wildcards resolved, escapes undone. */
  function Sample(p: string): string
    decreases |p|
  {
    if p == "" then ""
    else if p[0] == '%' then Sample(p[1..])
    else if p[0] == '_' then "x" + Sample(p[1..])
    else if p[0] == '\\' then (if |p| == 1 then "%" else [p[1]] + Sample(p[2..]))
    else [p[0]] + Sample(p[1..])
  }

  lemma {:induction false} SampleMatches(p: string)
    ensures Like(p + "%", Sample(p))
    decreases |p|
  {
    var q := p + "%";
    if p == "" {
      assert q == "%";
      PercentMatchesAll("");
    } else if p[0] == '\\' {
      if |p| == 1 {
        assert q[2..] == "" && Sample(p)[1..] == "";
      } else {
        assert q[2..] == p[2..] + "%" && Sample(p)[1..] == Sample(p[2..]);
        SampleMatches(p[2..]);
      }
    } else {
      assert q[1..] == p[1..] + "%";
      SampleMatches(p[1..]);
      assert p[0] != '%' ==> Sample(p)[1..] == Sample(p[1..]);
    }
  }

  lemma {:induction false} SampleDiffers(p: string)
    ensures |Sample(p)| <= |p|
    ensures !Plain(p) ==> Sample(p) != p
    decreases |p|
  {
    if p == "" {
    } else {
      assert p == [p[0]] + p[1..];
      if p[0] == '\\' {
        if |p| > 1 {
          SampleDiffers(p[2..]);
        }
      } else {
        SampleDiffers(p[1..]);
        if p[0] != '%' && p[0] != '_' && !Plain(p) {
          assert !Plain(p[1..]);
          assert Sample(p)[1..] == Sample(p[1..]);
        }
      }
    }
  }

  /** `LIKE prefix%` is prefix matching exactly when the prefix is plain. */
  lemma PrefixPatternIffPlain(p: string)
    ensures (forall s :: Like(p + "%", s) <==> HasPrefix(s, p)) <==> Plain(p)
  {
    if Plain(p) {
      forall s ensures Like(p + "%", s) <==> HasPrefix(s, p) {
        PlainPrefix(p, s);
      }
    } else {
      SampleMatches(p);
      SampleDiffers(p);
      assert Like(p + "%", Sample(p)) && !HasPrefix(Sample(p), p);
    }
  }
}
