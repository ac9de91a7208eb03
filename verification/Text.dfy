/** The few string helpers of Go's `strings` package that the modelled code relies on. */
module Text {

  datatype Option<T> = None | Some(value: T)

  /** White_Space as unicode.IsSpace defines it. */
  predicate IsSpace(c: char) {
    var n := c as int;
    || 9 <= n <= 13 || n == 0x20 || n == 0x85 || n == 0xA0 || n == 0x1680
    || 0x2000 <= n <= 0x200A || n == 0x2028 || n == 0x2029 || n == 0x202F || n == 0x205F || n == 0x3000
  }

  /** Neither end is white space; true of the empty string. */
  predicate Trimmed(s: string) {
    s != [] ==> !IsSpace(s[0]) && !IsSpace(s[|s| - 1])
  }

  function TrimLeft(s: string): (r: string)
    ensures r != [] ==> !IsSpace(r[0])
    ensures r != [] ==> s != [] && r[|r| - 1] == s[|s| - 1]
  {
    if s != [] && IsSpace(s[0]) then TrimLeft(s[1..]) else s
  }

  function TrimRight(s: string): (r: string)
    ensures r <= s
    ensures r != [] ==> !IsSpace(r[|r| - 1])
  {
    if s != [] && IsSpace(s[|s| - 1]) then TrimRight(s[..|s| - 1]) else s
  }

  function TrimSpace(s: string): (r: string)
    ensures Trimmed(r)
    ensures Trimmed(s) ==> r == s
  {
    TrimRight(TrimLeft(s))
  }

  predicate HasPrefix(s: string, prefix: string) {
    prefix <= s
  }

  predicate HasSuffix(s: string, suffix: string) {
    |suffix| <= |s| && s[|s| - |suffix|..] == suffix
  }

  /** A text without white space survives trimming whatever blank surrounds it. */
  lemma TrimSpaceTail(s: string, blank: string)
    requires forall c | c in s :: !IsSpace(c)
    requires forall c | c in blank :: IsSpace(c)
    ensures TrimSpace(s + blank) == s
    decreases |blank|
  {
    if s == [] {
      assert s + blank == blank;
      TrimLeftBlank(blank);
    } else if blank == [] {
      assert s + blank == s;
    } else {
      var t := s + blank;
      assert t[|t| - 1] == blank[|blank| - 1];
      assert t[..|t| - 1] == s + blank[..|blank| - 1];
      TrimSpaceTail(s, blank[..|blank| - 1]);
      assert t[0] == s[0] && TrimLeft(t) == t && TrimLeft(t[..|t| - 1]) == t[..|t| - 1];
    }
  }

  lemma {:induction false} TrimLeftBlank(s: string)
    requires forall c | c in s :: IsSpace(c)
    ensures TrimLeft(s) == []
  {
    if s == [] {
    } else {
      TrimLeftBlank(s[1..]);
    }
  }

  /** Nothing but white space; true of the empty string. */
  predicate AllSpace(s: string) {
    forall c | c in s :: IsSpace(c)
  }

  lemma {:induction false} TrimLeftCuts(s: string) returns (cut: string)
    ensures s == cut + TrimLeft(s) && AllSpace(cut)
  {
    cut := "";
    if s == "" || !IsSpace(s[0]) {
    } else {
      cut := TrimLeftCuts(s[1..]);
      cut := [s[0]] + cut;
      assert s == [s[0]] + s[1..];
    }
  }

  lemma {:induction false} TrimRightCuts(s: string) returns (cut: string)
    ensures s == TrimRight(s) + cut && AllSpace(cut)
  {
    cut := "";
    if s == "" || !IsSpace(s[|s| - 1]) {
    } else {
      cut := TrimRightCuts(s[..|s| - 1]);
      cut := cut + [s[|s| - 1]];
      assert s == s[..|s| - 1] + [s[|s| - 1]];
    }
  }

  /** Trimming removes white space at the two ends and nothing else. */
  lemma TrimSpaceCuts(s: string) returns (left: string, right: string)
    ensures s == left + TrimSpace(s) + right && AllSpace(left) && AllSpace(right)
  {
    left := TrimLeftCuts(s);
    right := TrimRightCuts(TrimLeft(s));
  }

  /** A text is blank after trimming exactly when it was white space throughout. */
  lemma BlankIff(s: string)
    ensures TrimSpace(s) == "" <==> AllSpace(s)
  {
    var left, right := TrimSpaceCuts(s);
    if TrimSpace(s) != "" {
      assert TrimSpace(s)[0] in s;
    }
  }

  /** White space among the ASCII characters. */
  lemma AsciiSpaces(c: char)
    requires c as int < 128
    ensures IsSpace(c) <==> c == ' ' || c == '\t' || c == '\n' || c == '\r' || c as int == 11 || c as int == 12
  {
  }
}
