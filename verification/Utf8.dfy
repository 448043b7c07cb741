/** UTF-8 as the standard library decodes it: strictly, or with replacement characters. */
module Utf8 {
  import opened Bytes

  /** The length announced by a first byte; 0 for a byte that starts nothing. */
  function Announced(b: byte): nat {
    if b < 0x80 then 1
    else if 0xC2 <= b <= 0xDF then 2
    else if 0xE0 <= b <= 0xEF then 3
    else if 0xF0 <= b <= 0xF4 then 4
    else 0
  }

  predicate Continues(b: byte) {
    0x80 <= b <= 0xBF
  }

  /** The second bytes that a first byte admits: no overlong forms, surrogates or values past
      U+10FFFF. */
  predicate Seconds(first: byte, b: byte) {
    && Continues(b)
    && (first == 0xE0 ==> 0xA0 <= b)
    && (first == 0xED ==> b <= 0x9F)
    && (first == 0xF0 ==> 0x90 <= b)
    && (first == 0xF4 ==> b <= 0x8F)
  }

  /** The first unit of `s`: a whole character, or the longest prefix that cannot be one.
      `cut` says that the unit is broken only because the input ends. */
  datatype Unit = Whole(len: nat) | Broken(len: nat, cut: bool)

  predicate Fitting(s: seq<byte>, i: nat)
    requires 1 <= i < |s|
  {
    if i == 1 then Seconds(s[0], s[1]) else Continues(s[i])
  }

  /** How many of the bytes 1, 2, .. up to `need` continue the first one. */
  function FirstUnitFrom(s: seq<byte>, need: nat, i: nat): (u: Unit)
    requires 1 <= i <= need <= 4 && i <= |s|
    ensures i <= u.len <= |s| && u.len <= need
    ensures u.Whole? ==> u.len == need
    ensures u.Broken? && u.cut ==> u.len == |s| < need
    decreases need - i
  {
    if i == need then Whole(need)
    else if i == |s| then Broken(i, true)
    else if !Fitting(s, i) then Broken(i, false)
    else FirstUnitFrom(s, need, i + 1)
  }

  function FirstUnit(s: seq<byte>): (u: Unit)
    requires s != []
    ensures 1 <= u.len <= |s|
  {
    if Announced(s[0]) == 0 then Broken(1, false) else FirstUnitFrom(s, Announced(s[0]), 1)
  }

  predicate Valid(s: seq<byte>) {
    s != [] ==> FirstUnit(s).Whole? && Valid(s[FirstUnit(s).len..])
  }

  /** The scalar value of a whole unit. */
  function Scalar(s: seq<byte>): (v: nat)
    requires s != [] && FirstUnit(s).Whole?
    ensures v < 0xD800 || 0xE000 <= v < 0x11_0000
  {
    var n := Announced(s[0]);
    if n == 1 then s[0]
    else
      UnitBytes(s);
      var a: int, b: int := s[0], s[1];
      if n == 2 then (a - 0xC0) * 64 + (b - 0x80)
      else
        var c: int := s[2];
        if n == 3 then (a - 0xE0) * 4096 + (b - 0x80) * 64 + (c - 0x80)
        else (a - 0xF0) * 262144 + (b - 0x80) * 4096 + (c - 0x80) * 64 + (s[3] - 0x80)
  }

  lemma UnitBytes(s: seq<byte>)
    requires s != [] && FirstUnit(s).Whole?
    ensures Announced(s[0]) == FirstUnit(s).len <= |s|
    ensures FirstUnit(s).len >= 2 ==> Seconds(s[0], s[1])
    ensures FirstUnit(s).len >= 3 ==> Continues(s[2])
    ensures FirstUnit(s).len >= 4 ==> Continues(s[3])
  {
    var need := Announced(s[0]);
    if need >= 2 {
      assert FirstUnitFrom(s, need, 1) == FirstUnitFrom(s, need, 2);
      if need >= 3 {
        assert FirstUnitFrom(s, need, 2) == FirstUnitFrom(s, need, 3);
        if need >= 4 {
          assert FirstUnitFrom(s, need, 3) == FirstUnitFrom(s, need, 4);
        }
      }
    }
  }

  const REPLACEMENT: char := '\U{FFFD}'

  function UnitChar(s: seq<byte>): char
    requires s != []
  {
    if FirstUnit(s).Whole? then Scalar(s) as char else REPLACEMENT
  }

  /** `String::from_utf8_lossy` */
  function Lossy(s: seq<byte>): string {
    if s == [] then [] else [UnitChar(s)] + Lossy(s[FirstUnit(s).len..])
  }

  // ----- Decoding in pieces

  /** No unit of `s` is broken off by the end of `s`. */
  predicate Complete(s: seq<byte>) {
    s != [] ==>
      var u := FirstUnit(s);
      !(u.Broken? && u.cut) && Complete(s[u.len..])
  }

  lemma {:induction false} UnitFromStable(s: seq<byte>, t: seq<byte>, need: nat, i: nat)
    requires 1 <= i <= need <= 4 && i <= |s|
    requires var u := FirstUnitFrom(s, need, i); !(u.Broken? && u.cut)
    ensures FirstUnitFrom(s + t, need, i) == FirstUnitFrom(s, need, i)
    decreases need - i
  {
    if i < need && i < |s| && Fitting(s, i) {
      UnitFromStable(s, t, need, i + 1);
    }
  }

  lemma UnitStable(s: seq<byte>, t: seq<byte>)
    requires s != [] && !(FirstUnit(s).Broken? && FirstUnit(s).cut)
    ensures FirstUnit(s + t) == FirstUnit(s) && UnitChar(s + t) == UnitChar(s)
  {
    if Announced(s[0]) != 0 {
      UnitFromStable(s, t, Announced(s[0]), 1);
      if FirstUnit(s).Whole? {
        UnitBytes(s);
      }
    }
  }

  lemma {:induction false} LossyConcat(s: seq<byte>, t: seq<byte>)
    requires Complete(s)
    ensures Lossy(s + t) == Lossy(s) + Lossy(t)
  {
    if s == [] {
      assert s + t == t;
    } else {
      var n := FirstUnit(s).len;
      UnitStable(s, t);
      assert (s + t)[n..] == s[n..] + t;
      LossyConcat(s[n..], t);
    }
  }

  // ----- A unit cut off at the end

  predicate IsCut(s: seq<byte>) {
    s != [] && FirstUnit(s).Broken? && FirstUnit(s).cut
  }

  /** The unit that the end of `s` cuts off. */
  function CutTail(s: seq<byte>): (t: seq<byte>)
    requires !Complete(s)
    ensures IsCut(t)
  {
    if IsCut(s) then s else CutTail(s[FirstUnit(s).len..])
  }

  /** The text before it. */
  function CutHead(s: seq<byte>): string
    requires !Complete(s)
  {
    if IsCut(s) then [] else [UnitChar(s)] + CutHead(s[FirstUnit(s).len..])
  }

  lemma {:induction false} CutSplits(s: seq<byte>, t: seq<byte>)
    requires !Complete(s)
    ensures Lossy(s + t) == CutHead(s) + Lossy(CutTail(s) + t)
  {
    hide FirstUnit, UnitChar;
    if !IsCut(s) {
      var n := FirstUnit(s).len;
      UnitStable(s, t);
      assert (s + t)[n..] == s[n..] + t;
      CutSplits(s[n..], t);
    }
  }

  lemma CutDecodesToReplacement(s: seq<byte>)
    requires IsCut(s)
    ensures Lossy(s) == [REPLACEMENT]
  {
    assert Lossy(s[FirstUnit(s).len..]) == [];
  }

  function Replacements(n: nat): string {
    seq(n, _ => REPLACEMENT)
  }

  lemma StrayDecodes(s: seq<byte>)
    requires s != [] && Announced(s[0]) == 0
    ensures Lossy(s) == [REPLACEMENT] + Lossy(s[1..])
  {
  }

  lemma {:induction false} StraysDecode(s: seq<byte>, n: nat)
    requires n <= |s| && forall k :: 0 <= k < n ==> Announced(s[k]) == 0
    ensures Lossy(s) == Replacements(n) + Lossy(s[n..])
  {
    hide UnitChar, FirstUnitFrom, Lossy;
    if n == 0 {
      assert s[0..] == s;
    } else {
      StrayDecodes(s);
      StraysDecode(s[1..], n - 1);
      assert s[1..][n - 1..] == s[n..];
      assert Replacements(n) == [REPLACEMENT] + Replacements(n - 1);
    }
  }

  /** The first unit of a cut one with more bytes: the bytes it takes from those continue it. */
  lemma {:induction false} CutGrows(s: seq<byte>, t: seq<byte>, need: nat, i: nat)
    requires 1 <= i <= need <= 4 && i <= |s| && FirstUnitFrom(s, need, i) == Broken(|s|, true)
    ensures var u := FirstUnitFrom(s + t, need, i);
            u.len >= |s| && forall k :: |s| <= k < u.len ==> Continues((s + t)[k])
    decreases need - i
  {
    if i < |s| {
      CutGrows(s, t, need, i + 1);
    } else {
      TakenContinue(s + t, need, i);
    }
  }

  lemma {:induction false} TakenContinue(s: seq<byte>, need: nat, i: nat)
    requires 1 <= i <= need <= 4 && i <= |s|
    ensures forall k :: i <= k < FirstUnitFrom(s, need, i).len ==> Continues(s[k])
    decreases need - i
  {
    if i < need && i < |s| && Fitting(s, i) {
      TakenContinue(s, need, i + 1);
    }
  }

  lemma LossyStep(s: seq<byte>)
    requires s != []
    ensures Lossy(s) == [UnitChar(s)] + Lossy(s[FirstUnit(s).len..])
  {
  }

  /** A cut unit and what follows it. Decoded apart, every byte that would have continued the
      unit becomes a replacement character; decoded together, they make up one character, which
      is not an ASCII one. What comes after is decoded alike. */
  lemma CutDecodes(s: seq<byte>, t: seq<byte>) returns (n: nat)
    requires IsCut(s)
    ensures n <= |t| && FirstUnit(s + t).len == |s| + n
    ensures Lossy(t) == Replacements(n) + Lossy(t[n..])
    ensures Lossy(s + t) == [UnitChar(s + t)] + Lossy(t[n..])
    ensures UnitChar(s + t) >= '\U{80}'
  {
    hide UnitChar, FirstUnitFrom, Lossy;
    var need := Announced(s[0]);
    CutGrows(s, t, need, 1);
    n := FirstUnit(s + t).len - |s|;
    LossyStep(s + t);
    forall k | 0 <= k < n
      ensures Announced(t[k]) == 0
    {
      assert (s + t)[|s| + k] == t[k];
    }
    StraysDecode(t, n);
    assert (s + t)[|s| + n..] == t[n..];
    LongUnitIsForeign(s + t);
  }

  lemma LongUnitIsForeign(s: seq<byte>)
    requires s != [] && Announced(s[0]) >= 2
    ensures UnitChar(s) >= '\U{80}'
  {
    if FirstUnit(s).Whole? {
      UnitBytes(s);
    }
  }

  /** Bytes that complete a cut unit to a character whose last byte is 0xBF. */
  lemma {:induction false} CutCanBeCompleted(s: seq<byte>, need: nat, i: nat) returns (t: seq<byte>)
    requires s != [] && Announced(s[0]) == need && 1 <= i <= need && i <= |s|
    requires FirstUnitFrom(s, need, i) == Broken(|s|, true)
    ensures |t| > 0 && |s + t| == need && t[|t| - 1] == 0xBF
    ensures forall u :: FirstUnitFrom(s + t + u, need, i) == Whole(need)
    decreases need - i
  {
    if i < |s| {
      t := CutCanBeCompleted(s, need, i + 1);
    } else {
      var b: byte := if s[0] == 0xE0 || s[0] == 0xF0 then 0xA0 else 0x80;
      if i + 1 == need {
        t := [0xBF];
      } else if i + 2 == need {
        t := [b, 0xBF];
      } else {
        t := [b, 0x80, 0xBF];
      }
      forall u
        ensures FirstUnitFrom(s + t + u, need, i) == Whole(need)
      {
        CompletesWith(s, t, u, need);
      }
    }
  }

  lemma CompletesWith(s: seq<byte>, t: seq<byte>, u: seq<byte>, need: nat)
    requires s != [] && Announced(s[0]) == need == |s| + |t|
    requires forall k :: |s| <= k < need ==> Fitting(s + t, k)
    ensures FirstUnitFrom(s + t + u, need, |s|) == Whole(need)
    decreases |t|
  {
    var all := s + t + u;
    assert FirstUnitFrom(all, need, need) == Whole(need);
    assert forall k :: |s| <= k < need ==> Fitting(all, k) == Fitting(s + t, k);
    if |t| >= 1 {
      assert Fitting(s + t, need - 1);
      assert FirstUnitFrom(all, need, need - 1) == Whole(need);
    }
    if |t| >= 2 {
      assert Fitting(s + t, need - 2);
      assert FirstUnitFrom(all, need, need - 2) == Whole(need);
    }
    if |t| >= 3 {
      assert Fitting(s + t, need - 3);
      assert FirstUnitFrom(all, need, need - 3) == Whole(need);
    }
  }

  /** So a cut unit can be completed, whatever comes after, in a way that reads differently. */
  lemma CutCompletion(s: seq<byte>) returns (t: seq<byte>)
    requires IsCut(s)
    ensures t != []
    ensures forall u :: Lossy(t + u) == Replacements(|t|) + Lossy(u)
    ensures forall u :: Lossy(s + (t + u)) == [UnitChar(s + t)] + Lossy(u)
    ensures UnitChar(s + t) >= '\U{80}' && UnitChar(s + t) as int % 64 == 63
  {
    var need := Announced(s[0]);
    t := CutCanBeCompleted(s, need, 1);
    assert s + t + [] == s + t;
    assert FirstUnit(s + t) == Whole(need);
    LastBits(s + t);
    forall u
      ensures Lossy(t + u) == Replacements(|t|) + Lossy(u)
      ensures Lossy(s + (t + u)) == [UnitChar(s + t)] + Lossy(u)
    {
      assert s + (t + u) == s + t + u;
      assert FirstUnit(s + t + u) == Whole(need);
      var n := CutDecodes(s, t + u);
      assert (t + u)[|t|..] == u;
      UnitStable(s + t, u);
    }
    var n := CutDecodes(s, t);
  }

  lemma LastBits(s: seq<byte>)
    requires s != [] && FirstUnit(s) == Whole(|s|) && |s| >= 2 && s[|s| - 1] == 0xBF
    ensures Scalar(s) % 64 == 63
  {
    UnitBytes(s);
  }

  /** Decoding a chunk on its own is always harmless exactly when the chunk ends between
      characters. */
  lemma PiecewiseIffComplete(s: seq<byte>)
    ensures (forall t :: Lossy(s + t) == Lossy(s) + Lossy(t)) <==> Complete(s)
  {
    hide Lossy, Complete, CutHead, CutTail, UnitChar;
    if Complete(s) {
      forall t
        ensures Lossy(s + t) == Lossy(s) + Lossy(t)
      {
        LossyConcat(s, t);
      }
    } else {
      var tail := CutTail(s);
      var t := CutCompletion(tail);
      CutSplits(s, t);
      CutSplits(s, []);
      assert s + [] == s && tail + [] == tail && t + [] == t;
      CutDecodesToReplacement(tail);
      assert |Lossy(s + t)| < |Lossy(s) + Lossy(t)|;
    }
  }

  // ----- Text as bytes

  function EncodeScalar(v: nat): (s: seq<byte>)
    requires v < 0xD800 || 0xE000 <= v < 0x11_0000
    ensures s != []
  {
    if v < 0x80 then [v]
    else if v < 0x800 then [0xC0 + v / 64, 0x80 + v % 64]
    else if v < 0x1_0000 then [0xE0 + v / 4096, 0x80 + v / 64 % 64, 0x80 + v % 64]
    else [0xF0 + v / 262144, 0x80 + v / 4096 % 64, 0x80 + v / 64 % 64, 0x80 + v % 64]
  }

  /** Bytes that fit one another make up a unit. */
  lemma FittingBytesAreUnit(s: seq<byte>, n: nat)
    requires s != [] && Announced(s[0]) == n && 1 <= n <= |s|
    requires forall i :: 1 <= i < n ==> Fitting(s, i)
    ensures FirstUnit(s) == Whole(n)
  {
    assert n >= 2 ==> Fitting(s, 1) && FirstUnitFrom(s, n, 1) == FirstUnitFrom(s, n, 2);
    assert n >= 3 ==> Fitting(s, 2) && FirstUnitFrom(s, n, 2) == FirstUnitFrom(s, n, 3);
    assert n >= 4 ==> Fitting(s, 3) && FirstUnitFrom(s, n, 3) == FirstUnitFrom(s, n, 4);
  }

  lemma EncodedFits(v: nat)
    requires v < 0xD800 || 0xE000 <= v < 0x11_0000
    ensures var s := EncodeScalar(v);
            Announced(s[0]) == |s| && forall i :: 1 <= i < |s| ==> Fitting(s, i)
  {
    if v < 0x80 {
    } else if v < 0x800 {
      assert Fitting(EncodeScalar(v), 1);
    } else if v < 0x1_0000 {
      ThreeFit(v);
    } else {
      FourFit(v);
    }
  }

  lemma ThreeFit(v: nat)
    requires 0x800 <= v < 0xD800 || 0xE000 <= v < 0x1_0000
    ensures var s := EncodeScalar(v);
            |s| == 3 && Announced(s[0]) == 3 && Fitting(s, 1) && Fitting(s, 2)
  {
  }

  lemma FourFit(v: nat)
    requires 0x1_0000 <= v < 0x11_0000
    ensures var s := EncodeScalar(v);
            |s| == 4 && Announced(s[0]) == 4 && Fitting(s, 1) && Fitting(s, 2) && Fitting(s, 3)
  {
  }

  lemma EncodedUnit(v: nat, t: seq<byte>)
    requires v < 0xD800 || 0xE000 <= v < 0x11_0000
    ensures FirstUnit(EncodeScalar(v) + t) == Whole(|EncodeScalar(v)|)
  {
    var head := EncodeScalar(v);
    var s := head + t;
    EncodedFits(v);
    hide EncodeScalar;
    assert forall i :: 1 <= i < |head| ==> Fitting(s, i) == Fitting(head, i);
    FittingBytesAreUnit(s, |head|);
  }

  lemma EncodedValue(v: nat, t: seq<byte>)
    requires v < 0xD800 || 0xE000 <= v < 0x11_0000
    requires FirstUnit(EncodeScalar(v) + t) == Whole(|EncodeScalar(v)|)
    ensures Scalar(EncodeScalar(v) + t) == v
  {
    hide FirstUnit;
    EncodedFits(v);
    assert v / 64 / 64 == v / 4096 && v / 4096 / 64 == v / 262144;
  }

  function EncodeText(text: string): seq<byte> {
    if text == [] then [] else EncodeScalar(text[0] as int) + EncodeText(text[1..])
  }

  /** Encoded text is valid, is never cut, and decodes to itself. */
  lemma {:induction false} TextRoundTrip(text: string)
    ensures Lossy(EncodeText(text)) == text
    ensures Valid(EncodeText(text)) && Complete(EncodeText(text))
  {
    hide EncodeScalar, FirstUnit, Scalar;
    if text != [] {
      var head, tail := EncodeScalar(text[0] as int), EncodeText(text[1..]);
      TextRoundTrip(text[1..]);
      EncodedUnit(text[0] as int, tail);
      EncodedValue(text[0] as int, tail);
      assert (head + tail)[|head|..] == tail;
      assert (text[0] as int) as char == text[0];
      assert text == [text[0]] + text[1..];
    }
  }
}
