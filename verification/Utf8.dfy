/** NESESLIB/NesesString.cpp, IsValidUtf8: the UTF-8 shape validator. */
module Utf8 {
  type Bytes = seq<bv8>

  // ---------- what section 3 of RFC 3629 allows ----------

  predicate Continuation(b: bv8) {
    0x80 <= b <= 0xBF
  }

  /** A character: a lead byte that announces its length, and that many bytes in all, the rest continuation bytes. */
  predicate IsCharacter(c: Bytes) {
    match |c|
    case 1 => c[0] <= 0x7F
    case 2 => 0xC0 <= c[0] <= 0xDF && Continuation(c[1])
    case 3 => 0xE0 <= c[0] <= 0xEF && Continuation(c[1]) && Continuation(c[2])
    case 4 => 0xF0 <= c[0] <= 0xF7 && Continuation(c[1]) && Continuation(c[2]) && Continuation(c[3])
    case _ => false
  }

  function Flatten(cs: seq<Bytes>): Bytes {
    if cs == [] then [] else cs[0] + Flatten(cs[1..])
  }

  ghost predicate Spells(cs: seq<Bytes>, s: Bytes) {
    (forall c :: c in cs ==> IsCharacter(c)) && Flatten(cs) == s
  }

  /** A concatenation of characters. */
  ghost predicate IsText(s: Bytes) {
    exists cs :: Spells(cs, s)
  }

  lemma NoEmptyCharacter(cs: seq<Bytes>, s: Bytes)
    requires Spells(cs, s)
    ensures cs == [] <==> s == []
  {
    if cs == [] {
    } else {
      assert IsCharacter(cs[0]);
    }
  }

  /** A text begins with exactly one character: the lead byte fixes its length. */
  lemma CharacterIsPrefix(c: Bytes, rest: Bytes, d: Bytes, rest': Bytes)
    requires IsCharacter(c) && IsCharacter(d) && c + rest == d + rest'
    ensures c == d && rest == rest'
  {
    var s := c + rest;
    assert s[0] == c[0] && (d + rest')[0] == d[0];
    assert |c| == |d|;
    assert c == s[..|c|] && d == s[..|d|] && rest == s[|c|..] && rest' == s[|d|..];
  }

  lemma TextCons(c: Bytes, s: Bytes)
    requires IsCharacter(c)
    ensures IsText(c + s) <==> IsText(s)
  {
    if IsText(s) {
      var cs :| Spells(cs, s);
      assert ([c] + cs)[1..] == cs;
      assert Spells([c] + cs, c + s);
    }
    if IsText(c + s) {
      var cs :| Spells(cs, c + s);
      NoEmptyCharacter(cs, c + s);
      CharacterIsPrefix(c, s, cs[0], Flatten(cs[1..]));
      assert Spells(cs[1..], s);
    }
  }

  /** The number of bytes that a lead byte announces, 0 for a byte that cannot lead. */
  function LeadLength(b: bv8): nat {
    if b <= 0x7F then 1
    else if 0xC0 <= b <= 0xDF then 2
    else if 0xE0 <= b <= 0xEF then 3
    else if 0xF0 <= b <= 0xF7 then 4
    else 0
  }

  lemma TextHead(s: Bytes)
    requires s != []
    ensures var n := LeadLength(s[0]);
            IsText(s) <==> n > 0 && n <= |s| && IsCharacter(s[..n]) && IsText(s[n..])
  {
    var n := LeadLength(s[0]);
    if n > 0 && n <= |s| && IsCharacter(s[..n]) {
      assert s == s[..n] + s[n..];
      TextCons(s[..n], s[n..]);
    }
    if IsText(s) {
      var cs :| Spells(cs, s);
      NoEmptyCharacter(cs, s);
      var c, rest := cs[0], Flatten(cs[1..]);
      assert c in cs && IsCharacter(c);
      assert c + rest == s && (c + rest)[0] == c[0];
      assert s[..n] == c && s[n..] == rest;
      assert Spells(cs[1..], rest);
    }
  }

  // ---------- the validator ----------

  lemma MasksAreRanges(b: bv8)
    ensures b & 0xE0 == 0xC0 <==> 0xC0 <= b <= 0xDF
    ensures b & 0xF0 == 0xE0 <==> 0xE0 <= b <= 0xEF
    ensures b & 0xF8 == 0xF0 <==> 0xF0 <= b <= 0xF7
    ensures b & 0xC0 == 0x80 <==> Continuation(b)
  {
  }

  /** IsValidUtf8 accepts exactly the concatenations of characters. */
  method IsValidUtf8(str: Bytes) returns (ok: bool)
    ensures ok <==> IsText(str)
  {
    assert str[0..] == str;
    var i := 0;
    while i < |str|
      invariant 0 <= i <= |str|
      invariant IsText(str) <==> IsText(str[i..])
    {
      var c := str[i];
      MasksAreRanges(c);
      TextHead(str[i..]);
      if c <= 0x7F {
        assert str[i..][1..] == str[i + 1..];
        i := i + 1;
        continue;
      }
      var remaining;
      if c & 0xE0 == 0xC0 {
        remaining := 1;
      } else if c & 0xF0 == 0xE0 {
        remaining := 2;
      } else if c & 0xF8 == 0xF0 {
        remaining := 3;
      } else {
        return false;
      }
      if i + remaining >= |str| {
        return false;
      }
      ghost var character := str[i..][..remaining + 1];
      var j := 1;
      while j <= remaining
        invariant 1 <= j <= remaining + 1
        invariant forall k :: 1 <= k < j ==> Continuation(character[k])
      {
        MasksAreRanges(str[i + j]);
        assert str[i + j] == character[j];
        if str[i + j] & 0xC0 != 0x80 {
          return false;
        }
        j := j + 1;
      }
      assert str[i..][remaining + 1..] == str[i + remaining + 1..];
      i := i + remaining + 1;
    }
    assert str[i..] == [] && Spells([], []);
    ok := true;
  }
}
