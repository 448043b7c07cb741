/** Host rules: the rewrite of common regular expressions into exact-name and sub-domain rules,
    and the set of hosts a rule set matches. */
module HostRules {
  import opened Bytes
  import opened Text
  import opened SubDomainsTree

  // ----- Just enough regular expressions to give the recognised rules a meaning

  datatype Regex =
    | Bol
    | Eol
    | Lit(text: string)
    | Dots(min: nat)            // `.*` or `.+`: a dot does not match a line feed
    | Alt(l: Regex, r: Regex)
    | Cat(first: Regex, second: Regex)

  ghost predicate Matches(re: Regex, h: string, i: nat, j: nat)
    requires i <= j <= |h|
  {
    match re
    case Bol => i == j == 0
    case Eol => i == j == |h|
    case Lit(text) => h[i..j] == text
    case Dots(min) => j - i >= min && '\n' !in h[i..j]
    case Alt(l, r) => Matches(l, h, i, j) || Matches(r, h, i, j)
    case Cat(a, b) => exists k :: i <= k <= j && Matches(a, h, i, k) && Matches(b, h, k, j)
  }

  /** Unanchored search, as `is_match` does. */
  ghost predicate IsMatch(re: Regex, h: string) {
    exists i, j :: 0 <= i <= j <= |h| && Matches(re, h, i, j)
  }

  function MinLen(re: Regex): nat {
    match re
    case Bol => 0
    case Eol => 0
    case Lit(text) => |text|
    case Dots(min) => min
    case Alt(l, r) => if MinLen(l) < MinLen(r) then MinLen(l) else MinLen(r)
    case Cat(a, b) => MinLen(a) + MinLen(b)
  }

  lemma {:induction false} MatchIsLongEnough(re: Regex, h: string, i: nat, j: nat)
    requires i <= j <= |h| && Matches(re, h, i, j)
    ensures j - i >= MinLen(re)
  {
    match re {
      case Alt(l, r) =>
        if Matches(l, h, i, j) {
          MatchIsLongEnough(l, h, i, j);
        } else {
          MatchIsLongEnough(r, h, i, j);
        }
      case Cat(a, b) =>
        var k :| i <= k <= j && Matches(a, h, i, k) && Matches(b, h, k, j);
        MatchIsLongEnough(a, h, i, k);
        MatchIsLongEnough(b, h, k, j);
      case _ =>
    }
  }

  // ----- The rule texts that are recognised

  datatype Head =
    | Alternation(capturing: bool)  // (^|\.)  or  (?:^|\.)
    | Dot                           // \.
    | DotsDot(plus: bool)           // ^.+\.  or  ^.*\.
    | Anchor                        // ^

  /** `head`, then `name` with its dots escaped, then `$` or nothing. */
  datatype Shape = Shape(head: Head, name: string, dollar: bool)

  predicate IsWord(c: char) {
    '0' <= c <= '9' || 'A' <= c <= 'Z' || 'a' <= c <= 'z' || c == '_' || c == '-'
  }

  /** Non-empty labels separated by single dots, with at most one more dot at the end. */
  predicate IsName(s: string) {
    s != [] && forall i :: 0 <= i < |s| ==> NameChar(s, i)
  }

  predicate NameChar(s: string, i: nat)
    requires i < |s|
  {
    IsWord(s[i]) || (s[i] == '.' && i > 0 && IsWord(s[i - 1]))
  }

  function HeadText(h: Head): string {
    match h
    case Alternation(true) => "(^|\\.)"
    case Alternation(false) => "(?:^|\\.)"
    case Dot => "\\."
    case DotsDot(true) => "^.+\\."
    case DotsDot(false) => "^.*\\."
    case Anchor => "^"
  }

  function Escape(s: string): string {
    if s == [] then [] else (if s[0] == '.' then "\\." else [s[0]]) + Escape(s[1..])
  }

  function Unescape(s: string): Option<string> {
    if s == [] then Some([])
    else if IsWord(s[0]) then
      match Unescape(s[1..])
      case None => None
      case Some(t) => Some([s[0]] + t)
    else if "\\." <= s then
      match Unescape(s[2..])
      case None => None
      case Some(t) => Some(['.'] + t)
    else None
  }

  function Show(s: Shape): string {
    HeadText(s.head) + Escape(s.name) + if s.dollar then "$" else ""
  }

  function StripDollar(s: string): (string, bool) {
    if s != [] && s[|s| - 1] == '$' then (s[..|s| - 1], true) else (s, false)
  }

  function ParseRest(head: Head, rest: string): Option<Shape> {
    var (body, dollar) := StripDollar(rest);
    match Unescape(body)
    case Some(name) => if IsName(name) then Some(Shape(head, name, dollar)) else None
    case None => None
  }

  function HeadOf(rule: string): Option<Head> {
    if "(^|\\.)" <= rule then Some(Alternation(true))
    else if "(?:^|\\.)" <= rule then Some(Alternation(false))
    else if "\\." <= rule then Some(Dot)
    else if "^.+\\." <= rule then Some(DotsDot(true))
    else if "^.*\\." <= rule then Some(DotsDot(false))
    else if "^" <= rule then Some(Anchor)
    else None
  }

  function Recognise(rule: string): Option<Shape> {
    match HeadOf(rule)
    case None => None
    case Some(h) => if HeadText(h) <= rule then ParseRest(h, rule[|HeadText(h)|..]) else None
  }

  lemma {:induction false} UnescapeEscape(s: string)
    requires forall i :: 0 <= i < |s| ==> IsWord(s[i]) || s[i] == '.'
    ensures Unescape(Escape(s)) == Some(s)
  {
    if s != [] {
      UnescapeEscape(s[1..]);
      assert s == [s[0]] + s[1..];
      if s[0] == '.' {
        assert Escape(s)[0] == '\\' && Escape(s)[..2] == "\\." && Escape(s)[2..] == Escape(s[1..]);
      } else {
        assert Escape(s)[1..] == Escape(s[1..]);
      }
    }
  }

  lemma {:induction false} EscapeUnescape(s: string)
    requires Unescape(s).Some?
    ensures Escape(Unescape(s).value) == s
    ensures s != [] ==> s[|s| - 1] != '$'
  {
    if s != [] {
      if IsWord(s[0]) {
        var rest := Unescape(s[1..]).value;
        EscapeUnescape(s[1..]);
        EscapeCons(s[0], rest);
        assert s == [s[0]] + s[1..];
      } else {
        var rest := Unescape(s[2..]).value;
        EscapeUnescape(s[2..]);
        EscapeCons('.', rest);
        assert s == "\\." + s[2..];
      }
    }
  }

  lemma EscapeCons(c: char, rest: string)
    ensures Escape([c] + rest) == (if c == '.' then "\\." else [c]) + Escape(rest)
  {
    assert ([c] + rest)[1..] == rest;
  }

  lemma ParseShown(s: Shape)
    requires IsName(s.name)
    ensures ParseRest(s.head, Escape(s.name) + if s.dollar then "$" else "") == Some(s)
  {
    NameChars(s.name);
    UnescapeEscape(s.name);
    EscapeUnescape(Escape(s.name));
    if s.dollar {
      assert (Escape(s.name) + "$")[..|Escape(s.name)|] == Escape(s.name);
    } else {
      assert Escape(s.name) + "" == Escape(s.name);
    }
  }

  lemma NameChars(s: string)
    requires IsName(s)
    ensures forall i :: 0 <= i < |s| ==> IsWord(s[i]) || s[i] == '.'
  {
    forall i | 0 <= i < |s|
      ensures IsWord(s[i]) || s[i] == '.'
    {
      assert NameChar(s, i);
    }
  }

  lemma RecognisedIsShown(rule: string, s: Shape)
    requires Recognise(rule) == Some(s)
    ensures IsName(s.name) && rule == Show(s)
  {
    hide HeadText, HeadOf, IsName;
    var rest := rule[|HeadText(s.head)|..];
    assert rule == HeadText(s.head) + rest;
    var (body, dollar) := StripDollar(rest);
    EscapeUnescape(body);
    assert rest == body + if dollar then "$" else "";
  }

  /** The rewrite applies exactly to the texts of the recognised shape. */
  lemma RecogniseIffShown(rule: string, s: Shape)
    ensures Recognise(rule) == Some(s) <==> IsName(s.name) && rule == Show(s)
  {
    hide HeadText, HeadOf, IsName, ParseRest;
    if Recognise(rule) == Some(s) {
      RecognisedIsShown(rule, s);
    }
    if IsName(s.name) && rule == Show(s) {
      ShownHead(s);
      ParseShown(s);
      var rest := Escape(s.name) + if s.dollar then "$" else "";
      assert rule == HeadText(s.head) + rest;
      assert rule[|HeadText(s.head)|..] == rest;
    }
  }

  lemma ShownHead(s: Shape)
    requires IsName(s.name)
    ensures HeadOf(Show(s)) == Some(s.head)
  {
    var rule, n := Show(s), |HeadText(s.head)|;
    assert rule[..n] == HeadText(s.head);
    assert NameChar(s.name, 0);
    assert rule[n] == s.name[0];
    assert rule[0] == HeadText(s.head)[0];
    assert n > 1 ==> rule[1] == HeadText(s.head)[1];
    assert n > 2 ==> rule[2] == HeadText(s.head)[2];
  }

  // ----- What a recognised rule means, left as a regular expression and rewritten

  function Tail(name: string, dollar: bool): Regex {
    if dollar then Cat(Lit(name), Eol) else Lit(name)
  }

  /** The rule as the regular expression it spells; rules are lowercased before compiling. */
  function ToRegex(s: Shape): Regex {
    var tail := Tail(Lower(s.name), s.dollar);
    match s.head
    case Alternation(_) => Cat(Alt(Bol, Lit(".")), tail)
    case Dot => Cat(Lit("."), tail)
    case DotsDot(plus) => Cat(Bol, Cat(Dots(if plus then 1 else 0), Cat(Lit("."), tail)))
    case Anchor => Cat(Bol, tail)
  }

  /** The name the rewritten rule stores. */
  function Stored(s: Shape): string {
    Lower(TrimEnd(s.name, '.'))
  }

  /** The rule after the rewrite: an exact name, or a name and its sub-domains. `host` is
      already without trailing dots. */
  predicate RewrittenMatches(s: Shape, host: string) {
    if s.head.Anchor? then host == Stored(s)
    else RSplit(Stored(s), '.') <= RSplit(host, '.')
  }

  predicate Trimmed(host: string) {
    host == [] || host[|host| - 1] != '.'
  }

  ghost predicate SameHosts(s: Shape) {
    forall host :: Trimmed(host) ==> (RewrittenMatches(s, host) <==> IsMatch(ToRegex(s), host))
  }

  /** Anchored on both sides, and not naming the root with a trailing dot. */
  predicate Exact(s: Shape) {
    && (s.head.Alternation? || s.head.Anchor?)
    && s.dollar
    && s.name != [] && s.name[|s.name| - 1] != '.'
  }

  lemma MatchTailEol(name: string, h: string, i: nat, j: nat)
    requires i <= j <= |h|
    ensures Matches(Cat(Lit(name), Eol), h, i, j) <==> j == |h| && h[i..] == name
  {
    if j == |h| && h[i..] == name {
      assert h[i..j] == h[i..];
      assert Matches(Lit(name), h, i, j) && Matches(Eol, h, j, j);
    }
  }

  lemma SplitCat(a: Regex, b: Regex, h: string, i: nat, j: nat) returns (k: nat)
    requires i <= j <= |h| && Matches(Cat(a, b), h, i, j)
    ensures i <= k <= j && Matches(a, h, i, k) && Matches(b, h, k, j)
  {
    k :| i <= k <= j && Matches(a, h, i, k) && Matches(b, h, k, j);
  }

  lemma JoinCat(a: Regex, b: Regex, h: string, i: nat, k: nat, j: nat)
    requires i <= k <= j <= |h| && Matches(a, h, i, k) && Matches(b, h, k, j)
    ensures IsMatch(Cat(a, b), h)
  {
    assert Matches(Cat(a, b), h, i, j);
  }

  lemma AnchoredNameMatch(name: string, h: string)
    ensures IsMatch(Cat(Bol, Cat(Lit(name), Eol)), h) <==> h == name
  {
    var tail := Cat(Lit(name), Eol);
    assert h[0..] == h;
    if IsMatch(Cat(Bol, tail), h) {
      var i, j :| 0 <= i <= j <= |h| && Matches(Cat(Bol, tail), h, i, j);
      var k := SplitCat(Bol, tail, h, i, j);
      MatchTailEol(name, h, k, j);
    }
    if h == name {
      MatchTailEol(name, h, 0, |h|);
      JoinCat(Bol, tail, h, 0, 0, |h|);
    }
  }

  lemma AlternationMatch(name: string, h: string)
    ensures IsMatch(Cat(Alt(Bol, Lit(".")), Cat(Lit(name), Eol)), h)
       <==> h == name || EndsWith(h, "." + name)
  {
    var head, tail := Alt(Bol, Lit(".")), Cat(Lit(name), Eol);
    if IsMatch(Cat(head, tail), h) {
      var i, j :| 0 <= i <= j <= |h| && Matches(Cat(head, tail), h, i, j);
      var k := SplitCat(head, tail, h, i, j);
      MatchTailEol(name, h, k, j);
      if Matches(Bol, h, i, k) {
        assert h[0..] == h;
      } else {
        assert Matches(Lit("."), h, i, k);
        assert h[i..] == h[i..k] + h[k..];
      }
    }
    if h == name {
      assert h[0..] == h;
      MatchTailEol(name, h, 0, |h|);
      assert Matches(Bol, h, 0, 0);
      JoinCat(head, tail, h, 0, 0, |h|);
    } else if EndsWith(h, "." + name) {
      var k := |h| - |name|;
      assert h[k - 1..] == "." + name;
      assert h[k..] == h[k - 1..][1..] == name;
      assert h[k - 1..k] == h[k - 1..][..1] == ".";
      MatchTailEol(name, h, k, |h|);
      assert Matches(Lit("."), h, k - 1, k);
      JoinCat(head, tail, h, k - 1, k, |h|);
    }
  }

  lemma TrimEndNone(s: string, c: char)
    requires s != [] && s[|s| - 1] != c
    ensures TrimEnd(s, c) == s
  {
  }

  lemma ExactKeepsHosts(s: Shape)
    requires Exact(s)
    ensures SameHosts(s)
  {
    TrimEndNone(s.name, '.');
    forall host | Trimmed(host)
      ensures RewrittenMatches(s, host) <==> IsMatch(ToRegex(s), host)
    {
      if s.head.Anchor? {
        AnchoredNameMatch(Stored(s), host);
      } else {
        AlternationMatch(Stored(s), host);
        PiecesPrefixIffSuffix(Stored(s), host, '.');
      }
    }
  }

  lemma TooShortToMatch(re: Regex, h: string)
    requires |h| < MinLen(re)
    ensures !IsMatch(re, h)
  {
    forall i, j | 0 <= i <= j <= |h| && Matches(re, h, i, j)
      ensures false
    {
      MatchIsLongEnough(re, h, i, j);
    }
  }

  /** A rule that is not exact is read differently by its own stored name, or, lacking `$`,
      by that name with one more letter. */
  function Witness(s: Shape): string {
    if s.name != [] && (s.head.Dot? || s.head.DotsDot? || s.name[|s.name| - 1] == '.') then Stored(s)
    else Stored(s) + "x"
  }

  lemma LongerThanStored(s: Shape)
    requires IsName(s.name) && !Exact(s) && Witness(s) == Stored(s)
    ensures RewrittenMatches(s, Stored(s)) && !IsMatch(ToRegex(s), Stored(s))
  {
    var tail := Tail(Lower(s.name), s.dollar);
    assert MinLen(tail) == |s.name|;
    assert s.head.Dot? ==> MinLen(ToRegex(s)) == 1 + MinLen(tail);
    assert s.head.DotsDot? ==> MinLen(Cat(Lit("."), tail)) == 1 + MinLen(tail);
    assert |TrimEnd(s.name, '.')| < |s.name| || s.head.Dot? || s.head.DotsDot?;
    TooShortToMatch(ToRegex(s), Stored(s));
  }

  lemma UnanchoredMatchesMore(s: Shape)
    requires IsName(s.name) && !Exact(s) && Witness(s) != Stored(s)
    ensures !RewrittenMatches(s, Witness(s)) && IsMatch(ToRegex(s), Witness(s))
  {
    TrimEndNone(s.name, '.');
    UnanchoredMatch(s);
    if !s.head.Anchor? {
      assert NameChar(s.name, 0);
      PiecesPrefixIffSuffix(Stored(s), Witness(s), '.');
      assert Witness(s)[0] == Stored(s)[0] != '.';
    }
  }

  lemma UnanchoredMatch(s: Shape)
    requires s.head.Alternation? || s.head.Anchor?
    requires !s.dollar && Stored(s) == Lower(s.name)
    ensures IsMatch(ToRegex(s), Stored(s) + "x")
  {
    var name := Stored(s);
    var h := name + "x";
    assert h[0..|name|] == name;
    assert Matches(Bol, h, 0, 0) && Matches(Lit(name), h, 0, |name|);
    if s.head.Anchor? {
      JoinCat(Bol, Lit(name), h, 0, 0, |name|);
    } else {
      JoinCat(Alt(Bol, Lit(".")), Lit(name), h, 0, 0, |name|);
    }
  }

  /** Rewriting a recognised rule keeps the matched hosts exactly when the rule is anchored at
      the end and at a label boundary, and its name has no trailing dot. */
  lemma RewriteKeepsHostsIffExact(s: Shape)
    requires IsName(s.name)
    ensures SameHosts(s) <==> Exact(s)
  {
    if Exact(s) {
      ExactKeepsHosts(s);
    } else {
      assert Trimmed(Witness(s));
      if Witness(s) == Stored(s) {
        LongerThanStored(s);
      } else {
        UnanchoredMatchesMore(s);
      }
    }
  }

  /** `^a\.b`, with no `$`, spells a rule that matches `a.bx`; rewritten it does not. */
  lemma UnanchoredRuleIsNarrowed(s: Shape)
    requires s == Shape(Anchor, "a.b", false)
    ensures Recognise("^a\\.b") == Some(s)
    ensures IsMatch(ToRegex(s), "a.bx") && !RewrittenMatches(s, "a.bx")
  {
    assert s.name[0] == 'a' && s.name[1] == '.' && s.name[2] == 'b';
    assert s.name[1..] == ".b" && ".b"[1..] == "b" && "b"[1..] == [];
    assert Escape("b") == "b";
    assert Escape(".b") == "\\.b";
    assert Escape("a.b") == "a\\.b";
    assert Show(s) == "^a\\.b";
    RecogniseIffShown("^a\\.b", s);
    TrimEndNone("a.b", '.');
    assert Lower("a.b") == "a.b";
    assert Witness(s) == "a.bx";
    UnanchoredMatchesMore(s);
  }

  /** The rule `^c` is an exact name for digits, letters, hyphen and underscore, given here by
      their codes, and stays a regular expression for every other character. */
  lemma OneCharacterRules(c: char)
    ensures var n := c as int;
            Recognise(['^', c]).Some? <==>
            48 <= n <= 57 || 65 <= n <= 90 || 97 <= n <= 122 || n == 45 || n == 95
  {
    var rule := ['^', c];
    assert rule[0] == '^' && "(^|\\.)"[0] == '(' && "(?:^|\\.)"[0] == '(' && "\\."[0] == '\\';
    assert "^" == rule[..1];
    assert HeadOf(rule) == Some(Anchor);
    assert rule[1..] == [c] && HeadText(Anchor) == "^" && "^" <= rule;
    OneCharacterRest(c);
  }

  lemma OneCharacterRest(c: char)
    ensures ParseRest(Anchor, [c]).Some? <==> IsWord(c)
  {
    assert [c][1..] == [] && [c][..0] == [];
    assert Unescape([]) == Some([]);
    if IsWord(c) {
      assert Unescape([c]) == Some([c] + []);
      assert [c] + [] == [c] && NameChar([c], 0);
    }
  }

  // ----- Rule sets

  /** The host part of a rule set: exact names, sub-domain rules, and regular expressions. */
  datatype HostSpec = HostSpec(names: set<string>, paths: seq<Path>, regexes: seq<string>)

  /** `rx(pattern, host)` is the regular-expression engine. */
  type Engine = (string, string) -> bool

  predicate HostMatched(rx: Engine, v: HostSpec, host: string) {
    var h := TrimEnd(host, '.');
    || h in v.names
    || (exists k :: 0 <= k < |v.paths| && v.paths[k] <= RSplit(h, '.'))
    || (exists k :: 0 <= k < |v.regexes| && rx(v.regexes[k], h))
  }

  function AddedAsRegex(v: HostSpec, rule: string): HostSpec {
    v.(regexes := v.regexes + [Lower(rule)])
  }

  function Added(v: HostSpec, rule: string): HostSpec {
    match Recognise(rule)
    case None => AddedAsRegex(v, rule)
    case Some(s) =>
      if s.head.Anchor? then v.(names := v.names + {Stored(s)})
      else v.(paths := v.paths + [RSplit(Stored(s), '.')])
  }

  predicate RuleMatches(rx: Engine, rule: string, h: string) {
    match Recognise(rule)
    case None => rx(Lower(rule), h)
    case Some(s) => RewrittenMatches(s, h)
  }

  /** The engine reads the text of a recognised rule as the expression it spells. */
  ghost predicate EngineReads(rx: Engine) {
    forall s: Shape, h: string :: IsName(s.name) ==> (rx(Lower(Show(s)), h) <==> IsMatch(ToRegex(s), h))
  }

  lemma AddedMatches(rx: Engine, v: HostSpec, rule: string, host: string)
    ensures HostMatched(rx, Added(v, rule), host)
       <==> HostMatched(rx, v, host) || RuleMatches(rx, rule, TrimEnd(host, '.'))
  {
    hide Recognise, TrimEnd, RSplit;
    match Recognise(rule) {
      case None =>
        AddedAsRegexMatches(rx, v, rule, host);
      case Some(s) =>
        var paths, path := v.paths, RSplit(Stored(s), '.');
        assert forall k :: 0 <= k < |paths| ==> (paths + [path])[k] == paths[k];
        assert (paths + [path])[|paths|] == path;
    }
  }

  lemma AddedAsRegexMatches(rx: Engine, v: HostSpec, rule: string, host: string)
    ensures HostMatched(rx, AddedAsRegex(v, rule), host)
       <==> HostMatched(rx, v, host) || rx(Lower(rule), TrimEnd(host, '.'))
  {
    hide TrimEnd, RSplit;
    var regexes := v.regexes;
    assert forall k :: 0 <= k < |regexes| ==> (regexes + [Lower(rule)])[k] == regexes[k];
    assert (regexes + [Lower(rule)])[|regexes|] == Lower(rule);
  }

  ghost predicate RewriteInvisible(rx: Engine, rule: string) {
    forall v, host :: HostMatched(rx, Added(v, rule), host) <==> HostMatched(rx, AddedAsRegex(v, rule), host)
  }

  lemma TrimmedIsTrimEnd(h: string)
    requires Trimmed(h)
    ensures TrimEnd(h, '.') == h
  {
  }

  /** In no rule set and for no host can one tell that a rule was rewritten, exactly when the
      rule was not recognised, or was anchored as `Exact` says. */
  lemma RewriteInvisibleIff(rx: Engine, rule: string)
    requires EngineReads(rx)
    ensures RewriteInvisible(rx, rule) <==> (Recognise(rule).None? || Exact(Recognise(rule).value))
  {
    hide HostMatched, Recognise, Exact, ToRegex, RewrittenMatches;
    InvisibleIffSameRule(rx, rule);
    if Recognise(rule).Some? {
      var s := Recognise(rule).value;
      RecogniseIffShown(rule, s);
      RewriteKeepsHostsIffExact(s);
    }
  }

  lemma InvisibleIffSameRule(rx: Engine, rule: string)
    ensures RewriteInvisible(rx, rule)
       <==> forall h :: Trimmed(h) ==> (RuleMatches(rx, rule, h) <==> rx(Lower(rule), h))
  {
    hide HostMatched, Added, AddedAsRegex, RuleMatches, TrimEnd;
    if forall h :: Trimmed(h) ==> (RuleMatches(rx, rule, h) <==> rx(Lower(rule), h)) {
      forall v, host
        ensures HostMatched(rx, Added(v, rule), host) <==> HostMatched(rx, AddedAsRegex(v, rule), host)
      {
        AddedMatches(rx, v, rule, host);
        AddedAsRegexMatches(rx, v, rule, host);
        assert Trimmed(TrimEnd(host, '.'));
      }
    }
    if RewriteInvisible(rx, rule) {
      var empty := HostSpec({}, [], []);
      forall h | Trimmed(h)
        ensures RuleMatches(rx, rule, h) <==> rx(Lower(rule), h)
      {
        TrimmedIsTrimEnd(h);
        EmptyMatchesNothing(rx, empty, h);
        AddedMatches(rx, empty, rule, h);
        AddedAsRegexMatches(rx, empty, rule, h);
      }
    }
  }

  lemma EmptyMatchesNothing(rx: Engine, v: HostSpec, host: string)
    requires v == HostSpec({}, [], [])
    ensures !HostMatched(rx, v, host)
  {
  }

  /** The rules of one section of a rule file, while they are read. */
  class ParsingRules {
    var rulesSet: set<string>
    var rulesRegex: seq<string>
    const rulesTree: DomainTree

    ghost function View(): HostSpec
      reads this, rulesTree
    {
      HostSpec(rulesSet, rulesTree.rules, rulesRegex)
    }

    ghost predicate Valid()
      reads this, rulesTree
    {
      rulesTree.Valid()
    }

    constructor ()
      ensures Valid() && fresh(rulesTree) && View() == HostSpec({}, [], [])
    {
      rulesSet, rulesRegex := {}, [];
      rulesTree := new DomainTree();
    }

    method AddRegexRule(rule: string)
      requires Valid()
      modifies this, rulesTree
      ensures Valid() && View() == Added(old(View()), rule)
    {
      match Recognise(rule) {
        case Some(s) =>
          var name := TrimEnd(s.name, '.');
          if s.head.Anchor? {
            rulesSet := rulesSet + {Lower(name)};
          } else {
            RSplitLower(name, '.');
            rulesTree.Insert(name);
          }
        case None =>
          rulesRegex := rulesRegex + [Lower(rule)];
      }
    }

    method CheckHostMatched(rx: Engine, host: string) returns (r: bool)
      requires Valid()
      ensures r == HostMatched(rx, View(), host)
    {
      var h := TrimEnd(host, '.');
      if h in rulesSet {
        return true;
      }
      r := rulesTree.Contains(h);
      if !r {
        r := exists k :: 0 <= k < |rulesRegex| && rx(rulesRegex[k], h);
      }
    }
  }
}
