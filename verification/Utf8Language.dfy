/** The byte strings that IsValidUtf8 accepts, as a language. */
module Utf8Language {
  import opened Utf8

  // ---------- it is self-synchronising ----------

  /** After an accepted prefix, the rest decides. */
  lemma {:induction false} AcceptedPrefix(a: Bytes, b: Bytes)
    requires IsText(a)
    ensures IsText(a + b) <==> IsText(b)
    decreases |a|
  {
    if a == [] {
      assert a + b == b;
    } else {
      TextHead(a);
      var n := LeadLength(a[0]);
      assert a + b == a[..n] + (a[n..] + b);
      TextCons(a[..n], a[n..] + b);
      AcceptedPrefix(a[n..], b);
    }
  }

  lemma CutLater(s: Bytes, n: nat, k: nat)
    requires n <= k <= |s|
    ensures s[n..][k - n..] == s[k..]
    ensures s[..k] == s[..n] + s[n..][..k - n]
  {
  }

  /** An accepted string falls into two accepted parts exactly at its end and before the bytes that are not
      continuation bytes. */
  lemma {:induction false} CutIff(s: Bytes, k: nat)
    requires IsText(s) && k <= |s|
    ensures IsText(s[..k]) && IsText(s[k..]) <==> k == |s| || !Continuation(s[k])
    decreases |s|
  {
    assert Spells([], []);
    if k == 0 {
      assert s[0..] == s && s[..0] == [];
      if s != [] { TextHead(s); }
    } else {
      TextHead(s);
      var n := LeadLength(s[0]);
      if k < n {
        assert s[k] == s[..n][k];
        assert s[k..][0] == s[k];
        TextHead(s[k..]);
      } else {
        CutIff(s[n..], k - n);
        CutLater(s, n, k);
        TextCons(s[..n], s[n..][..k - n]);
      }
    }
  }

  /** An accepted string has only one reading. */
  lemma {:induction false} OneReading(cs: seq<Bytes>, ds: seq<Bytes>, s: Bytes)
    requires Spells(cs, s) && Spells(ds, s)
    ensures cs == ds
  {
    NoEmptyCharacter(cs, s);
    NoEmptyCharacter(ds, s);
    if s == [] {
    } else {
      CharacterIsPrefix(cs[0], Flatten(cs[1..]), ds[0], Flatten(ds[1..]));
      OneReading(cs[1..], ds[1..], Flatten(cs[1..]));
      assert cs == [cs[0]] + cs[1..] && ds == [ds[0]] + ds[1..];
    }
  }

  // ---------- it is larger than UTF-8 ----------

  /** Section 4 of RFC 3629: the characters of well-formed UTF-8. */
  predicate WellFormed(c: Bytes) {
    match |c|
    case 1 => c[0] <= 0x7F
    case 2 => 0xC2 <= c[0] <= 0xDF && Continuation(c[1])
    case 3 =>
      && Continuation(c[2])
      && (|| (c[0] == 0xE0 && 0xA0 <= c[1] <= 0xBF)
          || (0xE1 <= c[0] <= 0xEC && Continuation(c[1]))
          || (c[0] == 0xED && 0x80 <= c[1] <= 0x9F)
          || (0xEE <= c[0] <= 0xEF && Continuation(c[1])))
    case 4 =>
      && Continuation(c[2]) && Continuation(c[3])
      && (|| (c[0] == 0xF0 && 0x90 <= c[1] <= 0xBF)
          || (0xF1 <= c[0] <= 0xF3 && Continuation(c[1]))
          || (c[0] == 0xF4 && 0x80 <= c[1] <= 0x8F))
    case _ => false
  }

  /** The number that the payload bits of a character spell, by the table in section 3 of RFC 3629. */
  function CodePoint(c: Bytes): bv32
    requires IsCharacter(c)
  {
    match |c|
    case 1 => c[0] as bv32
    case 2 => ((c[0] as bv32 & 0x1F) << 6) | (c[1] as bv32 & 0x3F)
    case 3 => ((c[0] as bv32 & 0x0F) << 12) | ((c[1] as bv32 & 0x3F) << 6) | (c[2] as bv32 & 0x3F)
    case _ =>
      ((c[0] as bv32 & 0x07) << 18) | ((c[1] as bv32 & 0x3F) << 12) | ((c[2] as bv32 & 0x3F) << 6)
      | (c[3] as bv32 & 0x3F)
  }

  /** Not overlong, not a surrogate, not beyond U+10FFFF: what the validator does not look at. */
  predicate Proper(c: Bytes)
    requires IsCharacter(c)
  {
    var v := CodePoint(c);
    match |c|
    case 1 => true
    case 2 => v >= 0x80
    case 3 => v >= 0x800 && !(0xD800 <= v <= 0xDFFF)
    case _ => 0x1_0000 <= v <= 0x10_FFFF
  }

  lemma WellFormedIsProperCharacter(c: Bytes)
    ensures WellFormed(c) <==> IsCharacter(c) && Proper(c)
  {
  }

  ghost predicate IsUtf8(s: Bytes) {
    exists cs :: (forall c :: c in cs ==> WellFormed(c)) && Flatten(cs) == s
  }

  /** Well-formed UTF-8 is what the validator accepts, less the strings with an overlong character, a surrogate or a
      number beyond U+10FFFF. */
  lemma AcceptedIsUtf8Iff(s: Bytes, cs: seq<Bytes>)
    requires Spells(cs, s)
    ensures IsText(s)
    ensures IsUtf8(s) <==> forall c :: c in cs ==> Proper(c)
  {
    forall c { WellFormedIsProperCharacter(c); }
    if IsUtf8(s) {
      var ds :| (forall c :: c in ds ==> WellFormed(c)) && Flatten(ds) == s;
      OneReading(cs, ds, s);
    }
  }

  lemma Utf8IsAccepted(s: Bytes)
    requires IsUtf8(s)
    ensures IsText(s)
  {
    forall c { WellFormedIsProperCharacter(c); }
    var cs :| (forall c :: c in cs ==> WellFormed(c)) && Flatten(cs) == s;
    assert Spells(cs, s);
  }

  /** The accepted characters by the bit patterns of the table in section 3 of RFC 3629: 0xxxxxxx, 110xxxxx, 1110xxxx
      and 11110xxx lead one to four bytes, and all others are 10xxxxxx. */
  lemma CharactersByBits(c: Bytes)
    ensures IsCharacter(c) <==>
              && 1 <= |c| <= 4
              && (|c| == 1 ==> c[0] & 0x80 == 0) && (|c| == 2 ==> c[0] & 0xE0 == 0xC0)
              && (|c| == 3 ==> c[0] & 0xF0 == 0xE0) && (|c| == 4 ==> c[0] & 0xF8 == 0xF0)
              && forall i :: 1 <= i < |c| ==> c[i] & 0xC0 == 0x80
  {
    if c == [] {
    } else {
      MasksAreRanges(c[0]);
      AsciiMask(c[0]);
      forall i | 1 <= i < |c| ensures c[i] & 0xC0 == 0x80 <==> Continuation(c[i]) {
        MasksAreRanges(c[i]);
      }
    }
  }

  lemma AsciiMask(b: bv8)
    ensures b & 0x80 == 0 <==> b <= 0x7F
  {
  }

  lemma ImproperIsAccepted(c: Bytes)
    requires IsCharacter(c) && !Proper(c)
    ensures IsText(c) && !IsUtf8(c)
  {
    assert Flatten([c]) == c;
    assert Spells([c], c);
    AcceptedIsUtf8Iff(c, [c]);
    assert c in [c];
  }

  /** Some accepted strings are not UTF-8: the overlong C0 80, the surrogate ED A0 80, and F7 BF BF BF beyond
      U+10FFFF. */
  lemma OverlongIsAccepted()
    ensures IsText([0xC0, 0x80]) && !IsUtf8([0xC0, 0x80])
    ensures IsText([0xED, 0xA0, 0x80]) && !IsUtf8([0xED, 0xA0, 0x80])
    ensures IsText([0xF7, 0xBF, 0xBF, 0xBF]) && !IsUtf8([0xF7, 0xBF, 0xBF, 0xBF])
  {
    ImproperIsAccepted([0xC0, 0x80]);
    ImproperIsAccepted([0xED, 0xA0, 0x80]);
    ImproperIsAccepted([0xF7, 0xBF, 0xBF, 0xBF]);
  }
}
