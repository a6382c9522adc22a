/** Base-32 text of a 32-bit hash, used to show identifiers. */
module Hexa32 {
  import opened ByteCodec

  const DIGITS: string := "0123456789abcdefghijklmnopqrstuv"

  function Digit(d: nat): char
    requires d < 32
  {
    DIGITS[d]
  }

  /** `as u32`. */
  function AsU32(v: i32): nat { if v < 0 then v + 0x1_0000_0000 else v }

  function DigitValue(c: char): Option<nat> {
    if '0' <= c <= '9' then Some((c as int) - ('0' as int))
    else if 'a' <= c <= 'v' then Some((c as int) - ('a' as int) + 10)
    else None
  }

  /** The value of a text in base 32: every character must be a digit, and there must be one. */
  function Parse32(text: string): Option<nat> {
    if text == [] then None
    else if |text| == 1 then DigitValue(text[0])
    else
      match (Parse32(text[..|text| - 1]), DigitValue(text[|text| - 1]))
      case (Some(high), Some(low)) => Some(high * 32 + low)
      case _ => None
  }

  function Text32(v: nat): (t: string)
    ensures t != []
  {
    if v < 32 then [Digit(v)] else Text32(v / 32) + [Digit(v % 32)]
  }

  lemma {:induction false} ReversedAppend<T>(s: seq<T>, x: T)
    ensures Reversed(s + [x]) == [x] + Reversed(s)
  {
    if s == [] {
      assert [x][1..] == [];
    } else {
      ReversedAppend(s[1..], x);
      assert (s + [x])[1..] == s[1..] + [x];
    }
  }

  lemma ZeroDigit()
    ensures [Digit(0)] == "0"
  {
  }

  /** `to_hexa32`: digits are pushed from the lowest up and then reversed. */
  method ToHexa32(value: i32) returns (text: string)
    ensures text == Text32(AsU32(value)) && NoLeadingZero(text)
    ensures Parse32(text) == Some(if value >= 0 then value else value + 0x1_0000_0000)
  {
    TextReadsBack(AsU32(value));
    hide Digit, Parse32, NoLeadingZero;
    var v := AsU32(value);
    if v == 0 {
      ZeroDigit();
      return "0";
    }
    var result: string := [];
    assert Text32(v) + Reversed(result) == Text32(v);
    while v > 0
      invariant (if v == 0 then Reversed(result) else Text32(v) + Reversed(result)) == Text32(AsU32(value))
    {
      ReversedAppend(result, Digit(v % 32));
      if v >= 32 {
        assert Text32(v) + Reversed(result) == Text32(v / 32) + ([Digit(v % 32)] + Reversed(result));
      }
      result := result + [Digit(v % 32)];
      v := v / 32;
    }
    text := Reversed(result);
  }

  lemma DigitReadsBack(d: nat)
    requires d < 32
    ensures DigitValue(Digit(d)) == Some(d) && (d > 0 ==> Digit(d) != '0')
  {
    if d < 10 {
      assert DIGITS[d] == "0123456789"[d];
    } else {
      assert DIGITS[d] == "abcdefghijklmnopqrstuv"[d - 10];
    }
  }

  lemma DigitIsUnique(c: char)
    requires DigitValue(c).Some?
    ensures DigitValue(c).value < 32 && Digit(DigitValue(c).value) == c && (c != '0' ==> DigitValue(c).value > 0)
  {
    DigitReadsBack(DigitValue(c).value);
  }

  /** The digits are 0 to 9 and then a to v, the highest first. */
  lemma DigitsAre()
    ensures Parse32("a9v") == Some(1024 * 10 + 32 * 9 + 31) && Parse32("0") == Some(0)
    ensures Parse32("w").None? && Parse32("A").None? && Parse32("").None?
  {
    assert "a9v"[..2] == "a9" && "a9"[..1] == "a";
    assert Parse32("a") == Some(10) && Parse32("a9") == Some(329);
  }

  predicate NoLeadingZero(text: string) { |text| > 1 ==> text[0] != '0' }

  /** The text of a hash is the one text without a leading zero that has its value: it reads back as
      the value, and no other such text does. */
  lemma {:induction false} TextIffValue(text: string, v: nat)
    ensures text == Text32(v) <==> Parse32(text) == Some(v) && NoLeadingZero(text)
  {
    TextReadsBack(v);
    if Parse32(text) == Some(v) && NoLeadingZero(text) {
      ValueGivesText(text);
    }
  }

  lemma {:induction false} TextReadsBack(v: nat)
    ensures Parse32(Text32(v)) == Some(v) && (v > 0 ==> Text32(v)[0] != '0') && NoLeadingZero(Text32(v))
  {
    hide Digit, DigitValue;
    DigitReadsBack(v % 32);
    if v >= 32 {
      TextReadsBack(v / 32);
      assert Text32(v)[..|Text32(v)| - 1] == Text32(v / 32);
    }
  }

  lemma {:induction false} ValueGivesText(text: string)
    requires Parse32(text).Some? && NoLeadingZero(text)
    ensures text == Text32(Parse32(text).value)
    ensures text[0] != '0' ==> Parse32(text).value > 0
  {
    hide Digit, DigitValue;
    DigitIsUnique(text[|text| - 1]);
    if |text| > 1 {
      ValueGivesText(text[..|text| - 1]);
      assert text == text[..|text| - 1] + [text[|text| - 1]];
    }
  }

  /** Different hashes have different texts. */
  lemma TextsDiffer(a: i32, b: i32)
    requires Text32(AsU32(a)) == Text32(AsU32(b))
    ensures a == b
  {
    TextReadsBack(AsU32(a));
    TextReadsBack(AsU32(b));
  }
}
