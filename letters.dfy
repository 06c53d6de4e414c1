/** Conversions between letters and alphabet symbols: input is upper case
    ('A' is 0), output is lower case (0 is 'a'). Characters are cast to `u8`
    the way Rust's `as u8` does, keeping the low eight bits. */
module Letters {
  import opened Modular

  const UpperBase: Byte := 65
  const LowerBase: Byte := 97

  /** Rust's `char as u8`: the low eight bits of the code point. */
  function CharCode(c: char): (r: Byte)
    ensures (c as int) < 256 ==> r == c as int
  {
    (c as int) % 256
  }

  /** `char_to_int`: the character's byte minus the base; the `u8`
      subtraction traps below the base, so callers stay above it. */
  function CharToInt(c: char, sub: Byte): (r: Byte)
    requires sub <= CharCode(c)
    ensures r + sub == CharCode(c)
  {
    CharCode(c) - sub
  }

  /** `int_to_char`: the character whose code is the symbol plus the base;
      the `u8` addition traps above 255. */
  function IntToChar(i: Byte, sub: Byte): (r: char)
    requires i + sub < 256
    ensures r as int == i + sub
  {
    (i + sub) as char
  }

  /** The two conversions undo each other. */
  lemma CharIntRoundTrip(i: Byte, sub: Byte, c: char)
    requires i + sub < 256
    requires (c as int) < 256 && sub <= c as int
    ensures CharToInt(IntToChar(i, sub), sub) == i
    ensures IntToChar(CharToInt(c, sub), sub) == c
  {
  }

  predicate IsUpper(c: char) { 'A' <= c <= 'Z' }
  predicate IsLower(c: char) { 'a' <= c <= 'z' }

  function ToIntUpper(c: char): (r: Byte)
    requires UpperBase <= CharCode(c)
    ensures IsUpper(c) ==> r < N
  {
    CharToInt(c, UpperBase)
  }

  function FromIntLower(i: Byte): (r: char)
    requires i + LowerBase < 256
    ensures i < N ==> IsLower(r)
  {
    IntToChar(i, LowerBase)
  }

  /** Every character can be fed to `to_int_upper` without underflow. */
  predicate UpperConvertible(s: string)
  {
    forall k :: 0 <= k < |s| ==> UpperBase <= CharCode(s[k])
  }

  /** `str_upper_to_int`: the symbol of every character, in order. */
  function StrUpperToInt(s: string): (v: seq<Byte>)
    requires UpperConvertible(s)
    ensures |v| == |s|
    ensures forall k :: 0 <= k < |s| ==> v[k] + UpperBase == CharCode(s[k])
  {
    seq(|s|, k requires 0 <= k < |s| => ToIntUpper(s[k]))
  }

  /** Every symbol can be fed to `from_int_lower` without overflow. */
  predicate LowerConvertible(v: seq<Byte>)
  {
    forall k :: 0 <= k < |v| ==> v[k] + LowerBase < 256
  }

  /** `int_to_str_lower`: the lower-case letter of every symbol, in order. */
  function IntToStrLower(v: seq<Byte>): (s: string)
    requires LowerConvertible(v)
    ensures |s| == |v|
    ensures forall k :: 0 <= k < |v| ==> s[k] as int == v[k] + LowerBase
  {
    seq(|v|, k requires 0 <= k < |v| => FromIntLower(v[k]))
  }

  predicate AllUpper(s: string) { forall k :: 0 <= k < |s| ==> IsUpper(s[k]) }

  /** An upper-case text becomes a sequence of symbols in [0, 26), and
      writing those back out gives the same text in lower case. */
  lemma {:induction false} UpperToLowerCase(s: string)
    requires AllUpper(s)
    ensures UpperConvertible(s)
    ensures AllSymbols(StrUpperToInt(s)) && LowerConvertible(StrUpperToInt(s))
    ensures |IntToStrLower(StrUpperToInt(s))| == |s|
    ensures forall k :: 0 <= k < |s| ==>
              IntToStrLower(StrUpperToInt(s))[k] as int == s[k] as int + 32
              && IsLower(IntToStrLower(StrUpperToInt(s))[k])
  {
    assert UpperConvertible(s);
    var v := StrUpperToInt(s);
    forall k | 0 <= k < |s| ensures 0 <= v[k] < N {
      assert v[k] + UpperBase == s[k] as int;
    }
  }

  /** Symbols of the alphabet are written out as lower-case letters. */
  lemma LowerText(v: seq<Byte>)
    requires AllSymbols(v)
    ensures LowerConvertible(v)
    ensures |IntToStrLower(v)| == |v|
    ensures forall k :: 0 <= k < |v| ==> IsLower(IntToStrLower(v)[k])
  {
  }
}
