/**
 The URL escaping of cmd/opendray/mcp_memory.go and what a server makes of it.
 A character stands for one byte of the request.
 */
module UrlQuery {
  import opened Text

  /** The bytes the replacer knows. */
  predicate Replaced(c: char) {
    c == '%' || c == '+' || c == ' ' || c == '/' || c == '?' || c == '&' || c == '=' || c == '#'
  }

  /** The replacer's pairs. */
  function EscapeByte(c: char): string {
    match c
    case '%' => "%25"
    case '+' => "%2B"
    case ' ' => "%20"
    case '/' => "%2F"
    case '?' => "%3F"
    case '&' => "%26"
    case '=' => "%3D"
    case '#' => "%23"
    case _ => [c]
  }

  /** One pass over the input; replaced text is never scanned again. */
  function Escape(s: string): string {
    if s == "" then "" else EscapeByte(s[0]) + Escape(s[1..])
  }

  // ---- decoding ----------------------------------------------------------------------------

  function HexValue(c: char): Option<nat> {
    if '0' <= c <= '9' then Some(c as int - '0' as int)
    else if 'A' <= c <= 'F' then Some(c as int - 'A' as int + 10)
    else if 'a' <= c <= 'f' then Some(c as int - 'a' as int + 10)
    else None
  }

  /** Percent-decoding; `form` also turns '+' into a space. Malformed input has no value. */
  function Unescape(s: string, form: bool): Option<string> {
    if s == "" then Some("")
    else if s[0] == '%' then
      if |s| < 3 || HexValue(s[1]).None? || HexValue(s[2]).None? then None
      else
        var rest := Unescape(s[3..], form);
        if rest.None? then None
        else Some([(HexValue(s[1]).value * 16 + HexValue(s[2]).value) as char] + rest.value)
    else
      var rest := Unescape(s[1..], form);
      if rest.None? then None
      else Some([if form && s[0] == '+' then ' ' else s[0]] + rest.value)
  }

  /** Why '+' has to be escaped: form decoding reads a raw one as a space, path decoding does not. */
  lemma RawPlusDiffers()
    ensures Unescape("+", false) == Some("+") && Unescape("+", true) == Some(" ")
  {
    assert "+"[1..] == "" && Unescape("", false) == Unescape("", true) == Some("");
    assert ['+'] + "" == "+" && [' '] + "" == " ";
  }

  /** Each replacement is '%' and the two hexadecimal digits of the byte it replaces. */
  lemma ReplacementIsHex(c: char)
    requires Replaced(c)
    ensures var e := EscapeByte(c);
            && |e| == 3 && e[0] == '%' && HexValue(e[1]).Some? && HexValue(e[2]).Some?
            && HexValue(e[1]).value * 16 + HexValue(e[2]).value == c as int
            && e[1] <= 'F' && e[2] <= 'F'
  {
  }

  /** An escaped byte decodes to itself, in front of anything and in both modes. */
  lemma EscapedByteDecodes(c: char, rest: string, form: bool)
    ensures Unescape(EscapeByte(c) + rest, form) ==
            if Unescape(rest, form).None? then None else Some([c] + Unescape(rest, form).value)
  {
    var e := EscapeByte(c);
    if Replaced(c) {
      ReplacementIsHex(c);
      assert (e + rest)[3..] == rest;
    } else {
      assert (e + rest)[1..] == rest;
    }
  }

  /** Path decoding and form decoding both give back the original, for every string. */
  lemma {:induction false} RoundTrip(s: string, form: bool)
    ensures Unescape(Escape(s), form) == Some(s)
  {
    if s == "" {
    } else {
      RoundTrip(s[1..], form);
      EscapedByteDecodes(s[0], Escape(s[1..]), form);
      assert s == [s[0]] + s[1..];
    }
  }

  /** Characters that structure a URL and are replaced; a raw '%' remains only as the start of an escape. */
  predicate Separator(c: char) {
    Replaced(c) && c != '%'
  }

  lemma {:induction false} NoRawSeparator(s: string)
    ensures forall c | c in Escape(s) :: !Separator(c)
    ensures ';' in Escape(s) <==> ';' in s
  {
    if s == "" {
    } else {
      NoRawSeparator(s[1..]);
      assert s == [s[0]] + s[1..];
      assert forall c | c in EscapeByte(s[0]) :: !Separator(c);
      assert ';' in EscapeByte(s[0]) <==> s[0] == ';';
    }
  }

  // ---- what Go's client refuses to send ---------------------------------------------------------

  /** Bytes for which url.Parse, and so http.NewRequestWithContext, fails. */
  predicate IsControl(c: char) {
    c as int < 0x20 || c as int == 0x7F
  }

  predicate HasControl(s: string) {
    exists c | c in s :: IsControl(c)
  }

  lemma HasControlConcat(a: string, b: string)
    ensures HasControl(a + b) <==> HasControl(a) || HasControl(b)
  {
    assert forall c :: c in a + b <==> c in a || c in b;
  }

  /** Escaping neither adds nor removes a control byte. */
  lemma {:induction false} EscapeKeepsControl(s: string)
    ensures HasControl(Escape(s)) <==> HasControl(s)
  {
    if s == "" {
    } else {
      EscapeKeepsControl(s[1..]);
      assert s == [s[0]] + s[1..];
      HasControlConcat([s[0]], s[1..]);
      HasControlConcat(EscapeByte(s[0]), Escape(s[1..]));
      ByteKeepsControl(s[0]);
    }
  }

  lemma ByteKeepsControl(c: char)
    ensures HasControl(EscapeByte(c)) <==> HasControl([c])
  {
    if Replaced(c) {
      ReplacementIsPrintable(c);
    }
  }

  lemma ReplacementIsPrintable(c: char)
    requires Replaced(c)
    ensures !IsControl(c) && !HasControl(EscapeByte(c))
  {
  }

  // ---- splitting ------------------------------------------------------------------------------

  /** The first position of c, or the length of s. */
  function IndexOf(s: string, c: char): (i: nat)
    ensures i <= |s| && c !in s[..i]
    ensures i < |s| ==> s[i] == c
  {
    if s == "" || s[0] == c then 0 else 1 + IndexOf(s[1..], c)
  }

  lemma {:induction false} IndexAfter(a: string, c: char, b: string)
    requires c !in a
    ensures IndexOf(a + [c] + b, c) == |a|
  {
    var s := a + [c] + b;
    if a == "" {
    } else {
      assert a[0] in a && s[1..] == a[1..] + [c] + b;
      assert forall x | x in a[1..] :: x in a;
      IndexAfter(a[1..], c, b);
    }
  }

  lemma {:induction false} IndexOfAbsent(s: string, c: char)
    requires c !in s
    ensures IndexOf(s, c) == |s|
  {
    if s == "" {
    } else {
      assert s[0] in s && forall x | x in s[1..] :: x in s;
      IndexOfAbsent(s[1..], c);
    }
  }

  function Split(s: string, sep: char): seq<string>
    decreases |s|
  {
    var i := IndexOf(s, sep);
    if i == |s| then [s] else [s[..i]] + Split(s[i + 1..], sep)
  }

  function Join(parts: seq<string>, sep: char): string
    requires parts != []
  {
    if |parts| == 1 then parts[0] else parts[0] + [sep] + Join(parts[1..], sep)
  }

  lemma SplitFirst(first: string, sep: char, rest: string)
    requires sep !in first
    ensures Split(first + [sep] + rest, sep) == [first] + Split(rest, sep)
  {
    var s := first + [sep] + rest;
    IndexAfter(first, sep, rest);
    assert s[..|first|] == first && s[|first| + 1..] == rest;
  }

  lemma {:induction false} SplitJoin(parts: seq<string>, sep: char)
    requires parts != [] && forall i | 0 <= i < |parts| :: sep !in parts[i]
    ensures Split(Join(parts, sep), sep) == parts
    decreases |parts|
  {
    if |parts| == 1 {
      IndexOfAbsent(parts[0], sep);
      assert parts == [parts[0]];
    } else {
      SplitFirst(parts[0], sep, Join(parts[1..], sep));
      SplitJoin(parts[1..], sep);
      assert parts == [parts[0]] + parts[1..];
    }
  }

  // ---- multi-parameter queries --------------------------------------------------------------------

  datatype Param = Param(name: string, value: string)

  /** Parameter names in the built URLs are plain words. */
  predicate PlainName(name: string) {
    forall c | c in name :: !Replaced(c) && c != ';' && !IsControl(c)
  }

  function Pair(p: Param): string {
    p.name + "=" + Escape(p.value)
  }

  function Pairs(ps: seq<Param>): seq<string> {
    seq(|ps|, i requires 0 <= i < |ps| => Pair(ps[i]))
  }

  /** name=value joined by '&', as in "cwd=..&q=..&top_k=..". */
  function BuildQuery(ps: seq<Param>): string
    requires ps != []
  {
    Join(Pairs(ps), '&')
  }

  /** One setting of Go's url.ParseQuery: skipped when empty, when it holds ';', or when it does not decode. */
  function ParsePair(s: string): Option<Param> {
    if s == "" || ';' in s then None
    else
      var i := IndexOf(s, '=');
      var name := Unescape(s[..i], true);
      var value := if i == |s| then Some("") else Unescape(s[i + 1..], true);
      if name.None? || value.None? then None else Some(Param(name.value, value.value))
  }

  function ParseAll(pieces: seq<string>): seq<Param> {
    if pieces == [] then []
    else
      var p := ParsePair(pieces[0]);
      (if p.Some? then [p.value] else []) + ParseAll(pieces[1..])
  }

  function ParseQuery(query: string): seq<Param> {
    ParseAll(Split(query, '&'))
  }

  /** The parameters whose value has no ';'. */
  function WithoutSemicolon(ps: seq<Param>): seq<Param> {
    if ps == [] then []
    else (if ';' in ps[0].value then [] else [ps[0]]) + WithoutSemicolon(ps[1..])
  }

  lemma {:induction false} PlainNameIsItself(name: string)
    requires PlainName(name)
    ensures Escape(name) == name
  {
    if name == "" {
    } else {
      assert name[0] in name;
      assert forall c | c in name[1..] :: c in name;
      PlainNameIsItself(name[1..]);
    }
  }

  lemma PairParses(p: Param)
    requires PlainName(p.name)
    ensures '&' !in Pair(p)
    ensures ParsePair(Pair(p)) == if ';' in p.value then None else Some(p)
  {
    PairSplits(p);
    PlainNameIsItself(p.name);
    RoundTrip(p.name, true);
    RoundTrip(p.value, true);
  }

  /** The first '=' of a pair ends its name, and ';' can only come from the value. */
  lemma PairSplits(p: Param)
    requires PlainName(p.name)
    ensures var s := Pair(p);
            && IndexOf(s, '=') == |p.name| < |s|
            && s[..|p.name|] == p.name && s[|p.name| + 1..] == Escape(p.value)
            && '&' !in s && (';' in s <==> ';' in p.value)
  {
    NoRawSeparator(p.value);
    assert Pair(p) == p.name + ['='] + Escape(p.value);
    IndexAfter(p.name, '=', Escape(p.value));
  }

  lemma ParseAllCons(first: string, rest: seq<string>)
    ensures ParseAll([first] + rest) ==
            (if ParsePair(first).Some? then [ParsePair(first).value] else []) + ParseAll(rest)
  {
    assert ([first] + rest)[1..] == rest;
  }

  lemma {:induction false} PairsParse(ps: seq<Param>)
    requires forall p | p in ps :: PlainName(p.name)
    ensures forall s | s in Pairs(ps) :: '&' !in s
    ensures ParseAll(Pairs(ps)) == WithoutSemicolon(ps)
  {
    if ps == [] {
    } else {
      assert ps[0] in ps;
      PairParses(ps[0]);
      PairsParse(ps[1..]);
      assert Pairs(ps) == [Pair(ps[0])] + Pairs(ps[1..]);
      ParseAllCons(Pair(ps[0]), Pairs(ps[1..]));
    }
  }

  /**
   Parsing a built query gives exactly the parameters whose value has no ';', in order, each
   with its original value.
   */
  lemma QueryRoundTrip(ps: seq<Param>)
    requires ps != [] && forall p | p in ps :: PlainName(p.name)
    ensures ParseQuery(BuildQuery(ps)) == WithoutSemicolon(ps)
  {
    PairsParse(ps);
    SplitJoin(Pairs(ps), '&');
  }

  lemma {:induction false} LosesNothingIff(ps: seq<Param>)
    ensures |WithoutSemicolon(ps)| <= |ps|
    ensures WithoutSemicolon(ps) == ps <==> forall i | 0 <= i < |ps| :: ';' !in ps[i].value
  {
    if ps == [] {
    } else {
      LosesNothingIff(ps[1..]);
      assert ps == [ps[0]] + ps[1..];
      assert (forall i | 0 <= i < |ps| :: ';' !in ps[i].value) <==>
             ';' !in ps[0].value && forall i | 0 <= i < |ps[1..]| :: ';' !in ps[1..][i].value by {
        assert forall i | 0 <= i < |ps[1..]| :: ps[1..][i] == ps[i + 1];
        assert forall i | 1 <= i < |ps| :: ps[i] == ps[1..][i - 1];
      }
    }
  }

  lemma PairKeepsControl(p: Param)
    requires PlainName(p.name)
    ensures HasControl(Pair(p)) <==> HasControl(p.value)
  {
    HasControlConcat(p.name + "=", Escape(p.value));
    HasControlConcat(p.name, "=");
    EscapeKeepsControl(p.value);
  }

  lemma {:induction false} JoinKeepsControl(parts: seq<string>, sep: char)
    requires parts != [] && !IsControl(sep)
    ensures HasControl(Join(parts, sep)) <==> exists i :: 0 <= i < |parts| && HasControl(parts[i])
  {
    if |parts| == 1 {
      assert forall i | 0 <= i < |parts| :: parts[i] == Join(parts, sep);
    } else {
      var rest := parts[1..];
      JoinKeepsControl(rest, sep);
      HasControlConcat(parts[0] + [sep], Join(rest, sep));
      HasControlConcat(parts[0], [sep]);
      if i :| 0 <= i < |parts| && HasControl(parts[i]) {
        assert i > 0 ==> rest[i - 1] == parts[i];
      }
      if i :| 0 <= i < |rest| && HasControl(rest[i]) {
        assert parts[i + 1] == rest[i];
      }
    }
  }

  lemma QueryKeepsControl(ps: seq<Param>)
    requires ps != [] && forall p | p in ps :: PlainName(p.name)
    ensures HasControl(BuildQuery(ps)) <==> exists i :: 0 <= i < |ps| && HasControl(ps[i].value)
  {
    JoinKeepsControl(Pairs(ps), '&');
    forall i | 0 <= i < |ps| ensures HasControl(Pairs(ps)[i]) <==> HasControl(ps[i].value) {
      PairKeepsControl(ps[i]);
    }
  }

  /** What the server makes of the query, if the client sends it at all. */
  function Received(ps: seq<Param>): Option<seq<Param>>
    requires ps != []
  {
    if HasControl(BuildQuery(ps)) then None else Some(ParseQuery(BuildQuery(ps)))
  }

  /**
   For every list of parameters: a control byte in any value keeps the request from being
   sent; otherwise the server sees exactly the parameters whose value has no ';'.
   */
  lemma WhatArrives(ps: seq<Param>)
    requires ps != [] && forall p | p in ps :: PlainName(p.name)
    ensures Received(ps) ==
            if exists i :: 0 <= i < |ps| && HasControl(ps[i].value) then None else Some(WithoutSemicolon(ps))
  {
    QueryKeepsControl(ps);
    QueryRoundTrip(ps);
  }

  /** All parameters arrive if and only if no value contains ';' or a control byte; neither is escaped. */
  lemma AllParametersComeBackIff(ps: seq<Param>)
    requires ps != [] && forall p | p in ps :: PlainName(p.name)
    ensures Received(ps) == Some(ps) <==>
            forall i | 0 <= i < |ps| :: ';' !in ps[i].value &&
              forall c | c in ps[i].value :: 0x20 <= c as int && c as int != 0x7F
  {
    WhatArrives(ps);
    LosesNothingIff(ps);
  }

  /** A line break inside a search text stops the whole request, its other parameters included. */
  lemma LineBreakStopsRequest(cwd: string, before: string, after: string)
    ensures Received([Param("cwd", cwd), Param("q", before + "\n" + after)]) == None
  {
    var ps := [Param("cwd", cwd), Param("q", before + "\n" + after)];
    assert '\n' in ps[1].value && HasControl(ps[1].value);
    WhatArrives(ps);
  }

  // ---- the document URL ---------------------------------------------------------------------------------

  /** "/api/v1/project-docs/" + slug + "?" + query. */
  function DocUrl(dir: string, slug: string, ps: seq<Param>): string
    requires ps != []
  {
    dir + Escape(slug) + "?" + BuildQuery(ps)
  }

  /**
   The path ends at the first '?', its last segment starts after the last '/' of dir and
   decodes to the slug. The client sends the URL exactly when neither slug nor values
   hold a control byte.
   */
  lemma DocUrlRoundTrip(dir: string, slug: string, ps: seq<Param>)
    requires '?' !in dir && dir != "" && dir[|dir| - 1] == '/' && !HasControl(dir)
    requires ps != [] && forall p | p in ps :: PlainName(p.name)
    ensures var url := DocUrl(dir, slug, ps);
            var q := IndexOf(url, '?');
            && q < |url| && |dir| <= q
            && url[..|dir|] == dir && '/' !in url[|dir|..q]
            && Unescape(url[|dir|..q], false) == Some(slug)
            && ParseQuery(url[q + 1..]) == WithoutSemicolon(ps)
            && (HasControl(url) <==> HasControl(slug) || exists i :: 0 <= i < |ps| && HasControl(ps[i].value))
  {
    var path := dir + Escape(slug);
    var url := DocUrl(dir, slug, ps);
    NoRawSeparator(slug);
    assert url == path + ['?'] + BuildQuery(ps);
    IndexAfter(path, '?', BuildQuery(ps));
    assert url[|dir|..|path|] == Escape(slug) && url[|path| + 1..] == BuildQuery(ps);
    RoundTrip(slug, false);
    QueryRoundTrip(ps);
    DocUrlControl(dir, slug, ps);
  }

  lemma DocUrlControl(dir: string, slug: string, ps: seq<Param>)
    requires !HasControl(dir) && ps != [] && forall p | p in ps :: PlainName(p.name)
    ensures HasControl(DocUrl(dir, slug, ps)) <==>
            HasControl(slug) || exists i :: 0 <= i < |ps| && HasControl(ps[i].value)
  {
    HasControlConcat(dir + Escape(slug) + "?", BuildQuery(ps));
    HasControlConcat(dir + Escape(slug), "?");
    HasControlConcat(dir, Escape(slug));
    EscapeKeepsControl(slug);
    QueryKeepsControl(ps);
  }
}
