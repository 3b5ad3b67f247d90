/**
 * Base16 (section 8 of RFC 4648) as Python's `bytes.fromhex` reads it: digits of either
 * case, two per byte, high nibble first; ASCII whitespace is skipped before each pair,
 * and anything else is an error (a `ValueError` in Python, `None` here).
 */
module Base16 {
  import opened Wrappers
  import opened Bits

  /** Python's `str.lower` on one character, restricted to ASCII letters. */
  function Lower(c: char): char
  {
    if 'A' <= c <= 'Z' then (c as int + 32) as char else c
  }

  /** Python's `str.lower` on a whole string. */
  function LowerString(s: string): string
  {
    seq(|s|, i requires 0 <= i < |s| => Lower(s[i]))
  }

  /** Lower-casing keeps the length, changes only upper-case letters and leaves none. */
  lemma LowerStringShape(s: string)
    ensures |LowerString(s)| == |s|
    ensures forall i :: 0 <= i < |s| ==>
      !('A' <= LowerString(s)[i] <= 'Z') && (LowerString(s)[i] == s[i] || 'A' <= s[i] <= 'Z')
  {
  }

  /** A digit of the base16 alphabet, in either case. */
  predicate IsHexDigit(c: char)
  {
    '0' <= c <= '9' || 'a' <= c <= 'f' || 'A' <= c <= 'F'
  }

  /** The characters `bytes.fromhex` skips: space, tab, line feed, vertical tab, form feed, carriage return. */
  predicate IsAsciiSpace(c: char)
  {
    c == ' ' || '\t' <= c <= '\r'
  }

  function DigitValue(c: char): (v: nat)
    requires IsHexDigit(c)
    ensures v < 16
  {
    if '0' <= c <= '9' then c as int - '0' as int
    else if 'a' <= c <= 'f' then c as int - 'a' as int + 10
    else c as int - 'A' as int + 10
  }

  /** The lower-case digit for a nibble. */
  function HexDigit(v: nat): (c: char)
    requires v < 16
    ensures IsHexDigit(c) && DigitValue(c) == v && Lower(c) == c
  {
    if v < 10 then ('0' as int + v) as char else ('a' as int + v - 10) as char
  }

  /** How many hex digits `s` holds. */
  function DigitCount(s: string): nat
  {
    if s == [] then 0 else (if IsHexDigit(s[0]) then 1 else 0) + DigitCount(s[1..])
  }

  /** `bytes.fromhex(s)`. */
  function FromHex(s: string): (r: Option<seq<byte>>)
  {
    if s == [] then Some([])
    else if IsAsciiSpace(s[0]) then FromHex(s[1..])
    else if |s| >= 2 && IsHexDigit(s[0]) && IsHexDigit(s[1]) then
      match FromHex(s[2..])
      case None => None
      case Some(rest) => Some([(16 * DigitValue(s[0]) + DigitValue(s[1])) as byte] + rest)
    else None
  }

  /**
   * What `bytes.fromhex` rejects: any character that is neither a hex digit nor ASCII
   * whitespace, and an odd number of digits; every byte it gives takes two digits.
   */
  lemma {:induction false} FromHexAccepts(s: string)
    ensures FromHex(s).Some? ==> forall i :: 0 <= i < |s| ==> IsHexDigit(s[i]) || IsAsciiSpace(s[i])
    ensures FromHex(s).Some? ==> 2 * |FromHex(s).value| == DigitCount(s)
  {
    if s != [] && FromHex(s).Some? {
      if IsAsciiSpace(s[0]) {
        FromHexAccepts(s[1..]);
        assert forall i :: 1 <= i < |s| ==> s[i] == s[1..][i - 1];
      } else {
        FromHexAccepts(s[2..]);
        assert forall i :: 2 <= i < |s| ==> s[i] == s[2..][i - 2];
        assert DigitCount(s) == 2 + DigitCount(s[2..]) by {
          assert s[1..][1..] == s[2..];
        }
      }
    }
  }

  /** `bytes.hex()`: two lower-case digits per byte. */
  function ToHex(data: seq<byte>): (s: string)
    ensures |s| == 2 * |data|
    ensures forall i :: 0 <= i < |s| ==> IsHexDigit(s[i]) && Lower(s[i]) == s[i]
  {
    if data == [] then []
    else [HexDigit(data[0] as nat / 16), HexDigit(data[0] as nat % 16)] + ToHex(data[1..])
  }

  /** A plain hex string: an even number of digits and nothing else. */
  predicate IsHexString(s: string)
  {
    |s| % 2 == 0 && forall i :: 0 <= i < |s| ==> IsHexDigit(s[i])
  }

  /** Decoding what `ToHex` produced gives back the bytes. */
  lemma {:induction false} FromHexToHex(data: seq<byte>)
    ensures FromHex(ToHex(data)) == Some(data)
  {
    if data != [] {
      var s := ToHex(data);
      var b := data[0] as nat;
      assert s[2..] == ToHex(data[1..]);
      assert !IsAsciiSpace(s[0]) && IsHexDigit(s[1]);
      assert DigitValue(s[0]) == b / 16 && DigitValue(s[1]) == b % 16;
      assert (16 * (b / 16) + b % 16) as byte == data[0];
      FromHexToHex(data[1..]);
      assert FromHex(s) == Some([data[0]] + data[1..]);
      assert [data[0]] + data[1..] == data;
    }
  }

  lemma LowerStringPair(s: string)
    requires |s| >= 2
    ensures LowerString(s) == [Lower(s[0]), Lower(s[1])] + LowerString(s[2..])
  {
  }

  /** A digit read and written back comes out lower-cased. */
  lemma HexDigitOfValue(c: char)
    requires IsHexDigit(c)
    ensures HexDigit(DigitValue(c)) == Lower(c)
  {
  }

  lemma PairValue(hi: nat, lo: nat)
    requires hi < 16 && lo < 16
    ensures (16 * hi + lo) / 16 == hi && (16 * hi + lo) % 16 == lo
  {
  }

  /**
   * A plain hex string decodes to half as many bytes, and re-encoding them gives the
   * string lower-cased.
   */
  lemma {:induction false} ToHexFromHex(s: string)
    requires IsHexString(s)
    ensures FromHex(s).Some? && |FromHex(s).value| == |s| / 2
    ensures ToHex(FromHex(s).value) == LowerString(s)
  {
    if s != [] {
      assert IsHexString(s[2..]);
      ToHexFromHex(s[2..]);
      var rest := FromHex(s[2..]).value;
      var hi, lo := DigitValue(s[0]), DigitValue(s[1]);
      var b := (16 * hi + lo) as byte;
      assert FromHex(s) == Some([b] + rest) by {
        assert !IsAsciiSpace(s[0]);
      }
      PairValue(hi, lo);
      HexDigitOfValue(s[0]);
      HexDigitOfValue(s[1]);
      assert ToHex([b] + rest) == [Lower(s[0]), Lower(s[1])] + ToHex(rest) by {
        assert ([b] + rest)[1..] == rest;
      }
      LowerStringPair(s);
    }
  }

  /** Digits that agree up to case decode to the same value. */
  lemma SameDigitValue(c: char, d: char)
    requires Lower(c) == Lower(d)
    ensures IsHexDigit(c) == IsHexDigit(d) && IsAsciiSpace(c) == IsAsciiSpace(d)
    ensures IsHexDigit(c) ==> DigitValue(c) == DigitValue(d)
  {
  }

  lemma LowerStringAgree(s: string, t: string, k: nat)
    requires LowerString(s) == LowerString(t) && k < |s|
    ensures |t| == |s| && Lower(s[k]) == Lower(t[k])
    ensures LowerString(s[k + 1..]) == LowerString(t[k + 1..])
  {
    assert |LowerString(s)| == |s| && |LowerString(t)| == |t|;
    assert LowerString(s)[k] == Lower(s[k]) && LowerString(t)[k] == Lower(t[k]);
    assert LowerString(s[k + 1..]) == LowerString(s)[k + 1..];
    assert LowerString(t[k + 1..]) == LowerString(t)[k + 1..];
  }

  /** `bytes.fromhex` ignores case: strings that agree once lower-cased decode alike. */
  lemma {:induction false} FromHexIgnoresCase(s: string, t: string)
    requires LowerString(s) == LowerString(t)
    ensures FromHex(s) == FromHex(t)
  {
    if s != [] {
      LowerStringAgree(s, t, 0);
      SameDigitValue(s[0], t[0]);
      FromHexIgnoresCase(s[1..], t[1..]);
      if |s| >= 2 {
        LowerStringAgree(s, t, 1);
        SameDigitValue(s[1], t[1]);
        FromHexIgnoresCase(s[2..], t[2..]);
      }
    }
  }
}
