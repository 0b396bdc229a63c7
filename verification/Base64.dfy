/**
 * base64.RawURLEncoding: the URL-safe alphabet without padding (section 5 of
 * RFC 4648). The decoder is Go's: it skips carriage returns and line feeds and
 * does not look at the unused low bits of a short final group.
 */
module Base64 {
  import opened Bytes

  type Sextet = x: int | 0 <= x < 64

  function Symbol(v: Sextet): byte {
    if v < 26 then 65 + v
    else if v < 52 then 71 + v
    else if v < 62 then v - 4
    else if v == 62 then 45
    else 95
  }

  function SymbolValue(c: byte): Option<Sextet> {
    if 65 <= c <= 90 then Some(c - 65)
    else if 97 <= c <= 122 then Some(c - 71)
    else if 48 <= c <= 57 then Some(c + 4)
    else if c == 45 then Some(62)
    else if c == 95 then Some(63)
    else None
  }

  predicate InAlphabet(s: Bytes) {
    forall i :: 0 <= i < |s| ==> SymbolValue(s[i]).Some?
  }

  function Encode(b: Bytes): (s: Bytes)
    ensures InAlphabet(s)
    ensures s == [] <==> b == []
  {
    if b == [] then []
    else if |b| == 1 then [Symbol(b[0] / 4), Symbol(b[0] % 4 * 16)]
    else if |b| == 2 then [Symbol(b[0] / 4), Symbol(b[0] % 4 * 16 + b[1] / 16), Symbol(b[1] % 16 * 4)]
    else [Symbol(b[0] / 4), Symbol(b[0] % 4 * 16 + b[1] / 16), Symbol(b[1] % 16 * 4 + b[2] / 64), Symbol(b[2] % 64)]
         + Encode(b[3..])
  }

  const CR: byte := 13
  const LF: byte := 10

  function SkipLineBreaks(s: Bytes): (t: Bytes)
    ensures |t| <= |s|
  {
    if s == [] then []
    else (if s[0] == CR || s[0] == LF then [] else [s[0]]) + SkipLineBreaks(s[1..])
  }

  // The three bytes of four sextets.
  function Join(v0: Sextet, v1: Sextet, v2: Sextet, v3: Sextet): (b: Bytes)
    ensures |b| == 3
  {
    [v0 * 4 + v1 / 16, v1 % 16 * 16 + v2 / 4, v2 % 4 * 64 + v3]
  }

  function DecodeGroups(s: Bytes): Option<Bytes> {
    if s == [] then Some([])
    else if |s| == 1 then None
    else
      var v0 :- SymbolValue(s[0]);
      var v1 :- SymbolValue(s[1]);
      if |s| == 2 then Some(Join(v0, v1, 0, 0)[..1])
      else
        var v2 :- SymbolValue(s[2]);
        if |s| == 3 then Some(Join(v0, v1, v2, 0)[..2])
        else
          var v3 :- SymbolValue(s[3]);
          var rest :- DecodeGroups(s[4..]);
          Some(Join(v0, v1, v2, v3) + rest)
  }

  function Decode(s: Bytes): Option<Bytes> {
    DecodeGroups(SkipLineBreaks(s))
  }

  lemma {:induction false} NothingToSkip(s: Bytes)
    requires InAlphabet(s)
    ensures SkipLineBreaks(s) == s
  {
    if s != [] {
      NothingToSkip(s[1..]);
    }
  }

  lemma SymbolRoundTrip(v: Sextet)
    ensures SymbolValue(Symbol(v)) == Some(v)
  {
  }

  // Splitting three bytes into four sextets loses nothing.
  lemma Regroup(a: byte, b: byte, c: byte)
    ensures var v1, v2 := a % 4 * 16 + b / 16, b % 16 * 4 + c / 64;
            && 0 <= v1 < 64 && 0 <= v2 < 64
            && Join(a / 4, v1, v2, c % 64) == [a, b, c]
  {
    var v1, v2 := a % 4 * 16 + b / 16, b % 16 * 4 + c / 64;
    assert v1 / 16 == a % 4 && v1 % 16 == b / 16;
    assert v2 / 4 == b % 16 && v2 % 4 == c / 64;
  }

  lemma DecodeFullGroup(a: byte, b: byte, c: byte, s: Bytes)
    requires DecodeGroups(s).Some?
    ensures DecodeGroups([Symbol(a / 4), Symbol(a % 4 * 16 + b / 16), Symbol(b % 16 * 4 + c / 64), Symbol(c % 64)] + s)
            == Some([a, b, c] + DecodeGroups(s).value)
  {
    Regroup(a, b, c);
    var v0, v1, v2, v3 := a / 4, a % 4 * 16 + b / 16, b % 16 * 4 + c / 64, c % 64;
    DecodeSymbols(v0, v1, v2, v3, s);
  }

  lemma DecodeSymbols(v0: Sextet, v1: Sextet, v2: Sextet, v3: Sextet, s: Bytes)
    requires DecodeGroups(s).Some?
    ensures DecodeGroups([Symbol(v0), Symbol(v1), Symbol(v2), Symbol(v3)] + s)
            == Some(Join(v0, v1, v2, v3) + DecodeGroups(s).value)
  {
    SymbolRoundTrip(v0);
    SymbolRoundTrip(v1);
    SymbolRoundTrip(v2);
    SymbolRoundTrip(v3);
    var group := [Symbol(v0), Symbol(v1), Symbol(v2), Symbol(v3)];
    assert (group + s)[4..] == s;
    assert (group + s)[..4] == group;
  }

  lemma DecodeTwo(a: byte)
    ensures DecodeGroups(Encode([a])) == Some([a])
  {
    Regroup(a, 0, 0);
    var v0, v1 := a / 4, a % 4 * 16;
    SymbolRoundTrip(v0);
    SymbolRoundTrip(v1);
    assert Encode([a]) == [Symbol(v0), Symbol(v1)];
    assert Join(v0, v1, 0, 0)[..1] == [a];
  }

  lemma DecodeThree(a: byte, b: byte)
    ensures DecodeGroups(Encode([a, b])) == Some([a, b])
  {
    Regroup(a, b, 0);
    var v0, v1, v2 := a / 4, a % 4 * 16 + b / 16, b % 16 * 4;
    SymbolRoundTrip(v0);
    SymbolRoundTrip(v1);
    SymbolRoundTrip(v2);
    assert Encode([a, b]) == [Symbol(v0), Symbol(v1), Symbol(v2)];
    assert Join(v0, v1, v2, 0)[..2] == [a, b];
  }

  lemma {:induction false} GroupsRoundTrip(b: Bytes)
    ensures DecodeGroups(Encode(b)) == Some(b)
  {
    if |b| >= 3 {
      GroupsRoundTrip(b[3..]);
      DecodeFullGroup(b[0], b[1], b[2], Encode(b[3..]));
      assert [b[0], b[1], b[2]] + b[3..] == b;
    } else if |b| == 2 {
      DecodeThree(b[0], b[1]);
      assert b == [b[0], b[1]];
    } else if |b| == 1 {
      DecodeTwo(b[0]);
      assert b == [b[0]];
    }
  }

  // Every byte string, of any length modulo three, survives encoding.
  lemma RoundTrip(b: Bytes)
    ensures Decode(Encode(b)) == Some(b)
  {
    NothingToSkip(Encode(b));
    GroupsRoundTrip(b);
  }

  // The alphabet: capitals, small letters, digits, dash and underscore, in order.
  lemma AlphabetExactly(v: Sextet, c: byte)
    ensures SymbolValue(c) == Some(v) <==>
            || (v < 26 && c == 'A' as int + v)
            || (26 <= v < 52 && c == 'a' as int + (v - 26))
            || (52 <= v < 62 && c == '0' as int + (v - 52))
            || (v == 62 && c == '-' as int) || (v == 63 && c == '_' as int)
  {
  }

  // Which texts decode: line breaks apart, those in the alphabet whose last group
  // is not a single symbol.
  lemma DecodesExactly(s: Bytes)
    ensures Decode(s).Some? <==> InAlphabet(SkipLineBreaks(s)) && |SkipLineBreaks(s)| % 4 != 1
  {
    GroupsExactly(SkipLineBreaks(s));
  }

  predicate StartsWithGroup(s: Bytes) {
    && |s| >= 4
    && SymbolValue(s[0]).Some? && SymbolValue(s[1]).Some? && SymbolValue(s[2]).Some? && SymbolValue(s[3]).Some?
  }

  lemma AlphabetSplits(s: Bytes)
    requires |s| >= 4
    ensures InAlphabet(s) <==> StartsWithGroup(s) && InAlphabet(s[4..])
  {
    var t := s[4..];
    if StartsWithGroup(s) && InAlphabet(t) {
      forall i | 0 <= i < |s|
        ensures SymbolValue(s[i]).Some?
      {
        if i >= 4 {
          assert t[i - 4] == s[i];
        }
      }
    }
  }

  lemma GroupsSplit(s: Bytes)
    requires |s| >= 4
    ensures DecodeGroups(s).Some? <==> StartsWithGroup(s) && DecodeGroups(s[4..]).Some?
  {
  }

  lemma ShortGroup(s: Bytes)
    requires |s| < 4
    ensures DecodeGroups(s).Some? <==> InAlphabet(s) && |s| != 1
  {
  }

  lemma {:induction false} GroupsExactly(s: Bytes)
    ensures DecodeGroups(s).Some? <==> InAlphabet(s) && |s| % 4 != 1
    decreases |s|
  {
    if |s| < 4 {
      ShortGroup(s);
    } else {
      GroupsExactly(s[4..]);
      AlphabetSplits(s);
      GroupsSplit(s);
      assert |s| % 4 == |s[4..]| % 4;
    }
  }

  // Decoding is not injective: what a caller may not conclude from a decoded
  // text is that the text was Encode's. Line breaks can appear anywhere.
  lemma LineBreaksAreInvisible(s: Bytes, t: Bytes, lineBreak: byte)
    requires lineBreak == CR || lineBreak == LF
    ensures Decode(s + [lineBreak] + t) == Decode(s + t)
  {
    SkipDistributes(s + [lineBreak], t);
    SkipDistributes(s, [lineBreak]);
    SkipDistributes(s, t);
    assert SkipLineBreaks([lineBreak]) == [] + SkipLineBreaks([lineBreak][1..]) && [lineBreak][1..] == [];
    assert SkipLineBreaks(s) + [] == SkipLineBreaks(s);
  }

  lemma {:induction false} SkipDistributes(s: Bytes, t: Bytes)
    ensures SkipLineBreaks(s + t) == SkipLineBreaks(s) + SkipLineBreaks(t)
  {
    if s == [] {
      assert s + t == t;
    } else {
      assert (s + t)[1..] == s[1..] + t;
      SkipDistributes(s[1..], t);
    }
  }
}
