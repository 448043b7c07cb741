/** Splitting, joining and trimming of text, as used by the rule and password parsers. */
module Text {

  /** `s.rsplit(sep)`: the pieces of `s` between separators, the last piece first. */
  function RSplit(s: string, sep: char): (parts: seq<string>)
    ensures |parts| >= 1
  {
    if s == [] then [[]]
    else
      var last := |s| - 1;
      var rest := RSplit(s[..last], sep);
      if s[last] == sep then [[]] + rest else [rest[0] + [s[last]]] + rest[1..]
  }

  /** The inverse of `RSplit`. */
  function RJoin(parts: seq<string>, sep: char): string
    requires |parts| >= 1
  {
    if |parts| == 1 then parts[0] else RJoin(parts[1..], sep) + [sep] + parts[0]
  }

  /** `parts.join(sep)` */
  function Join(parts: seq<string>, sep: char): string
    requires |parts| >= 1
  {
    if |parts| == 1 then parts[0] else parts[0] + [sep] + Join(parts[1..], sep)
  }

  function Reverse<T>(s: seq<T>): (r: seq<T>)
    ensures |r| == |s|
    ensures forall i :: 0 <= i < |s| ==> r[i] == s[|s| - 1 - i]
  {
    seq(|s|, i requires 0 <= i < |s| => s[|s| - 1 - i])
  }

  lemma {:induction false} RJoinRSplit(s: string, sep: char)
    ensures RJoin(RSplit(s, sep), sep) == s
  {
    if s != [] {
      var last := |s| - 1;
      RJoinRSplit(s[..last], sep);
      var rest := RSplit(s[..last], sep);
      if s[last] == sep {
        assert ([[]] + rest)[1..] == rest;
      } else {
        var parts := [rest[0] + [s[last]]] + rest[1..];
        assert parts[1..] == rest[1..];
      }
    }
  }

  lemma {:induction false} RSplitParts(s: string, sep: char, k: nat)
    requires k < |RSplit(s, sep)|
    ensures sep !in RSplit(s, sep)[k]
  {
    if s != [] {
      var rest := RSplit(s[..|s| - 1], sep);
      if s[|s| - 1] == sep {
        if k > 0 {
          RSplitParts(s[..|s| - 1], sep, k - 1);
        }
      } else {
        RSplitParts(s[..|s| - 1], sep, k);
      }
    }
  }

  lemma {:induction false} RSplitPlain(s: string, sep: char)
    requires sep !in s
    ensures RSplit(s, sep) == [s]
  {
    if s != [] {
      RSplitPlain(s[..|s| - 1], sep);
      assert s == s[..|s| - 1] + [s[|s| - 1]];
    }
  }

  lemma {:induction false} RSplitSnoc(s: string, c: char, sep: char)
    ensures RSplit(s + [c], sep)
         == if c == sep then [[]] + RSplit(s, sep) else [RSplit(s, sep)[0] + [c]] + RSplit(s, sep)[1..]
  {
    assert (s + [c])[..|s|] == s;
  }

  lemma GrowFirst(head: seq<string>, tail: seq<string>, c: char)
    requires |head| >= 1
    ensures [(head + tail)[0] + [c]] + (head + tail)[1..] == [head[0] + [c]] + head[1..] + tail
    ensures [[]] + (head + tail) == [[]] + head + tail
  {
  }

  /** Splitting at a separator splits the list of pieces. */
  lemma {:induction false} RSplitConcat(a: string, b: string, sep: char)
    ensures RSplit(a + [sep] + b, sep) == RSplit(b, sep) + RSplit(a, sep)
  {
    hide RSplit;
    if b == [] {
      assert a + [sep] + b == a + [sep];
      RSplitSnoc(a, sep, sep);
      RSplitPlain([], sep);
    } else {
      var init, c := b[..|b| - 1], b[|b| - 1];
      assert b == init + [c];
      assert a + [sep] + b == a + [sep] + init + [c];
      RSplitConcat(a, init, sep);
      RSplitSnoc(a + [sep] + init, c, sep);
      RSplitSnoc(init, c, sep);
      GrowFirst(RSplit(init, sep), RSplit(a, sep), c);
    }
  }

  /** Splitting joined text: the piece at the seam is shared. */
  lemma {:induction false} RSplitAppend(a: string, b: string, sep: char)
    ensures var p, q := RSplit(a, sep), RSplit(b, sep);
            RSplit(a + b, sep) == q[..|q| - 1] + [p[0] + q[|q| - 1]] + p[1..]
  {
    hide RSplit;
    var p := RSplit(a, sep);
    if b == [] {
      RSplitPlain([], sep);
      assert a + b == a && p[0] + [] == p[0];
    } else {
      var init, c := b[..|b| - 1], b[|b| - 1];
      assert b == init + [c] && a + b == a + init + [c];
      RSplitAppend(a, init, sep);
      RSplitSnoc(a + init, c, sep);
      RSplitSnoc(init, c, sep);
      var q := RSplit(init, sep);
      if c != sep && |q| == 1 {
        assert p[0] + q[0] + [c] == p[0] + (q[0] + [c]);
      }
    }
  }

  lemma {:induction false} RSplitRJoin(parts: seq<string>, sep: char)
    requires |parts| >= 1
    requires forall i :: 0 <= i < |parts| ==> sep !in parts[i]
    ensures RSplit(RJoin(parts, sep), sep) == parts
  {
    if |parts| == 1 {
      RSplitPlain(parts[0], sep);
    } else {
      RSplitRJoin(parts[1..], sep);
      RSplitConcat(RJoin(parts[1..], sep), parts[0], sep);
      RSplitPlain(parts[0], sep);
    }
  }

  lemma {:induction false} RJoinConcat(a: seq<string>, b: seq<string>, sep: char)
    requires |a| >= 1 && |b| >= 1
    ensures RJoin(a + b, sep) == RJoin(b, sep) + [sep] + RJoin(a, sep)
  {
    if |a| == 1 {
      assert (a + b)[1..] == b;
    } else {
      RJoinConcat(a[1..], b, sep);
      assert (a + b)[1..] == a[1..] + b;
    }
  }

  lemma {:induction false} JoinIsRJoin(parts: seq<string>, sep: char)
    requires |parts| >= 1
    ensures Join(parts, sep) == RJoin(Reverse(parts), sep)
  {
    if |parts| > 1 {
      JoinIsRJoin(parts[1..], sep);
      assert Reverse(parts) == Reverse(parts[1..]) + [parts[0]];
      RJoinConcat(Reverse(parts[1..]), [parts[0]], sep);
    }
  }

  predicate EndsWith(s: string, suffix: string) {
    |suffix| <= |s| && s[|s| - |suffix|..] == suffix
  }

  /** The pieces of `d` are the last pieces of `h` exactly when `h` is `d`, or ends with a
      separator and `d`. */
  lemma PiecesPrefixIffSuffix(d: string, h: string, sep: char)
    ensures RSplit(d, sep) <= RSplit(h, sep) <==> h == d || EndsWith(h, [sep] + d)
  {
    hide RSplit;
    if RSplit(d, sep) <= RSplit(h, sep) {
      PrefixThenSuffix(d, h, sep);
    }
    if EndsWith(h, [sep] + d) {
      var front := h[..|h| - |d| - 1];
      assert h == front + [sep] + d;
      RSplitConcat(front, d, sep);
    }
  }

  lemma PrefixThenSuffix(d: string, h: string, sep: char)
    requires RSplit(d, sep) <= RSplit(h, sep)
    ensures h == d || EndsWith(h, [sep] + d)
  {
    hide RSplit, RJoin;
    var ds, hs := RSplit(d, sep), RSplit(h, sep);
    var rest := hs[|ds|..];
    assert hs == ds + rest;
    RJoinRSplit(d, sep);
    RJoinRSplit(h, sep);
    if rest != [] {
      RJoinConcat(ds, rest, sep);
      assert h == RJoin(rest, sep) + ([sep] + d);
    } else {
      assert hs == ds;
    }
  }

  // ----- Case and trimming

  function LowerChar(c: char): char {
    if 'A' <= c <= 'Z' then c - 'A' + 'a' else c
  }

  function Lower(s: string): (r: string)
    ensures |r| == |s|
  {
    seq(|s|, i requires 0 <= i < |s| => LowerChar(s[i]))
  }

  function LowerAll(parts: seq<string>): (r: seq<string>)
    ensures |r| == |parts|
  {
    seq(|parts|, i requires 0 <= i < |parts| => Lower(parts[i]))
  }

  /** Lowering the text and lowering the pieces agree when the separator is not a letter. */
  lemma {:induction false} RSplitLower(s: string, sep: char)
    requires !('A' <= sep <= 'Z') && !('a' <= sep <= 'z')
    ensures RSplit(Lower(s), sep) == LowerAll(RSplit(s, sep))
  {
    hide RSplit;
    if s == [] {
      RSplitPlain([], sep);
      assert Lower(s) == [];
      assert LowerAll([[]]) == [Lower([])];
    } else {
      hide Lower, LowerAll;
      var init, c := s[..|s| - 1], s[|s| - 1];
      assert s == init + [c];
      RSplitLower(init, sep);
      RSplitSnoc(init, c, sep);
      RSplitSnoc(Lower(init), LowerChar(c), sep);
      LowerSnoc(init, c);
      LowerGrowFirst(RSplit(init, sep), c);
    }
  }

  lemma LowerSnoc(s: string, c: char)
    ensures Lower(s + [c]) == Lower(s) + [LowerChar(c)]
  {
  }

  lemma LowerGrowFirst(parts: seq<string>, c: char)
    requires |parts| >= 1
    ensures LowerAll([[]] + parts) == [[]] + LowerAll(parts)
    ensures LowerAll([parts[0] + [c]] + parts[1..]) == [LowerAll(parts)[0] + [LowerChar(c)]] + LowerAll(parts)[1..]
  {
    assert Lower([]) == [];
    assert Lower(parts[0] + [c]) == Lower(parts[0]) + [LowerChar(c)];
  }

  /** `s.trim_end_matches(c)` */
  function TrimEnd(s: string, c: char): (r: string)
    ensures r <= s
    ensures r == [] || r[|r| - 1] != c
  {
    if s != [] && s[|s| - 1] == c then TrimEnd(s[..|s| - 1], c) else s
  }
}
