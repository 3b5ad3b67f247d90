/**
 * Base32 (section 6 of RFC 4648), the encoding `base64.b32encode` produces: the input
 * bits are read five at a time, each group picks one of the 32 symbols `A`-`Z`, `2`-`7`,
 * the last group is completed with zero bits, and `=` pads the text to a multiple of
 * eight characters.
 */
module Base32 {
  import opened Wrappers
  import opened Bits

  /** A symbol of the base32 alphabet. */
  predicate InAlphabet(c: char)
  {
    'A' <= c <= 'Z' || '2' <= c <= '7'
  }

  /** The symbol for a five-bit value (the table of section 6 of RFC 4648). */
  function Symbol(v: nat): (c: char)
    requires v < 32
    ensures InAlphabet(c)
  {
    if v < 26 then ('A' as int + v) as char else ('2' as int + v - 26) as char
  }

  /** The value a symbol stands for. */
  function SymbolValue(c: char): (v: nat)
    requires InAlphabet(c)
    ensures v < 32 && Symbol(v) == c
  {
    if 'A' <= c <= 'Z' then c as int - 'A' as int else c as int - '2' as int + 26
  }

  /** Number of symbols that carry the bits of `n` bytes: the ceiling of 8n/5. */
  function SymbolCount(n: nat): nat
  {
    (8 * n + 4) / 5
  }

  /** Number of `=` that complete `n` bytes' symbols to a multiple of eight characters. */
  function PadCount(n: nat): nat
  {
    (8 - SymbolCount(n) % 8) % 8
  }

  /**
   * The amounts of padding a quantum can end with: none, or six, four, three or one `=`
   * after two, four, five or seven symbols.
   */
  predicate AllowedPadding(p: nat)
  {
    p == 0 || p == 1 || p == 3 || p == 4 || p == 6
  }

  /** The zero bits that complete `n` bytes to a whole number of symbols. */
  function FillBits(n: nat): (z: nat)
    ensures z < 5 && (8 * n + z) % 5 == 0
  {
    (5 - 8 * n % 5) % 5
  }

  /** One symbol per five bits. */
  function Symbols(bits: seq<bool>): (cs: string)
    requires |bits| % 5 == 0
    ensures |cs| == |bits| / 5
    ensures forall i :: 0 <= i < |cs| ==> InAlphabet(cs[i])
  {
    if bits == [] then []
    else
      Pow2Widths();
      [Symbol(BitsNat(bits[..5]))] + Symbols(bits[5..])
  }

  /** Five bits per symbol. */
  function SymbolBits(cs: string): (bits: seq<bool>)
    requires forall i :: 0 <= i < |cs| ==> InAlphabet(cs[i])
    ensures |bits| == 5 * |cs|
  {
    if cs == [] then [] else NatBits(SymbolValue(cs[0]), 5) + SymbolBits(cs[1..])
  }

  function Repeat(c: char, n: nat): (s: string)
    ensures |s| == n && forall i :: 0 <= i < n ==> s[i] == c
  {
    if n == 0 then [] else [c] + Repeat(c, n - 1)
  }

  /** `base64.b32encode(data)`, as text: alphabet symbols and `=` only. */
  function Encode(data: seq<byte>): (s: string)
    ensures forall i :: 0 <= i < |s| ==> InAlphabet(s[i]) || s[i] == '='
  {
    Symbols(BytesBits(data) + Zeros(FillBits(|data|))) + Repeat('=', PadCount(|data|))
  }

  /** The padding of `n` bytes is one of the five amounts section 6 of RFC 4648 allows. */
  lemma PadCountShape(n: nat)
    ensures SymbolCount(n) + PadCount(n) == 8 * ((n + 4) / 5)
    ensures AllowedPadding(PadCount(n))
    ensures 5 * SymbolCount(n) == 8 * n + FillBits(n)
    ensures n % 5 == 0 <==> PadCount(n) == 0
  {
    var q, r := n / 5, n % 5;
    // Per remainder r: 8n + 4 = 5 (8q + k) + e, 8n = 5 (8q + c) + m and n + 4 = 5 q' + f.
    if r == 0 {
      PadCountCase(n, q, r, 0, 4, 0, 0, q, 4);
    } else if r == 1 {
      PadCountCase(n, q, r, 2, 2, 1, 3, q + 1, 0);
    } else if r == 2 {
      PadCountCase(n, q, r, 4, 0, 3, 1, q + 1, 1);
    } else if r == 3 {
      PadCountCase(n, q, r, 5, 3, 4, 4, q + 1, 2);
    } else {
      PadCountCase(n, q, r, 7, 1, 6, 2, q + 1, 3);
    }
  }

  /** The shape of the padding for one remainder of `n` modulo five. */
  lemma PadCountCase(n: nat, q: nat, r: nat, k: nat, e: nat, c: nat, m: nat, q': nat, f: nat)
    requires n == 5 * q + r && r < 5
    requires 8 * n + 4 == 5 * (8 * q + k) + e && e < 5 && k < 8
    requires 8 * n == 5 * (8 * q + c) + m && m < 5
    requires n + 4 == 5 * q' + f && f < 5
    requires AllowedPadding((8 - k) % 8) && k + (8 - k) % 8 == 8 * (q' - q)
    requires 5 * k == 5 * c + m + (5 - m) % 5 && (r == 0 <==> k == 0)
    ensures SymbolCount(n) + PadCount(n) == 8 * ((n + 4) / 5)
    ensures AllowedPadding(PadCount(n))
    ensures 5 * SymbolCount(n) == 8 * n + FillBits(n)
    ensures n % 5 == 0 <==> PadCount(n) == 0
  {
    DivModFive(n, q, r);
    DivModFive(8 * n + 4, 8 * q + k, e);
    DivModEight(8 * q + k, q, k);
    DivModFive(8 * n, 8 * q + c, m);
    DivModFive(n + 4, q', f);
  }

  lemma DivModFive(a: int, q: int, m: int)
    requires a == 5 * q + m && 0 <= m < 5
    ensures a / 5 == q && a % 5 == m
  {
  }

  lemma DivModEight(a: int, q: int, m: int)
    requires a == 8 * q + m && 0 <= m < 8
    ensures a / 8 == q && a % 8 == m
  {
  }

  /**
   * The encoding of `n` bytes is `8 * ceil(n / 5)` characters: the symbols first, then the
   * `=` padding, never more than six of them.
   */
  lemma EncodeShape(data: seq<byte>)
    ensures |Encode(data)| == 8 * ((|data| + 4) / 5)
    ensures forall i :: 0 <= i < SymbolCount(|data|) ==> InAlphabet(Encode(data)[i])
    ensures forall i :: SymbolCount(|data|) <= i < |Encode(data)| ==> Encode(data)[i] == '='
    ensures AllowedPadding(PadCount(|data|))
  {
    PadCountShape(|data|);
  }

  /** Thirty-two bytes (a 256-bit key) encode to 52 symbols and four `=`. */
  lemma EncodeThirtyTwo(data: seq<byte>)
    requires |data| == 32
    ensures |Encode(data)| == 56
    ensures forall i :: 0 <= i < 52 ==> InAlphabet(Encode(data)[i])
    ensures Encode(data)[52..] == "===="
  {
    assert SymbolCount(32) == 52 && PadCount(32) == 4;
    EncodeShape(data);
  }

  /** How many `=` end the text. */
  function TrailingPads(s: string): (p: nat)
    ensures p <= |s|
    ensures forall i :: |s| - p <= i < |s| ==> s[i] == '='
    ensures p < |s| ==> s[|s| - 1 - p] != '='
  {
    if s != [] && s[|s| - 1] == '=' then 1 + TrailingPads(s[..|s| - 1]) else 0
  }

  /**
   * Base32 decoding (section 6 of RFC 4648): whole eight-character quanta, an allowed amount
   * of padding, alphabet symbols before it; the bits left over after the last whole byte are
   * dropped.
   */
  function Decode(s: string): (r: Option<seq<byte>>)
  {
    if |s| % 8 != 0 then None
    else
      var p := TrailingPads(s);
      var body := s[..|s| - p];
      if !AllowedPadding(p) || !(forall i :: 0 <= i < |body| ==> InAlphabet(body[i])) then None
      else
        Some(SymbolBytes(body))
  }

  /** Five bits turned into a symbol and back. */
  lemma SymbolOfGroup(group: seq<bool>)
    requires |group| == 5
    ensures BitsNat(group) < 32 && NatBits(SymbolValue(Symbol(BitsNat(group))), 5) == group
  {
    Pow2Widths();
    var v := BitsNat(group);
    assert SymbolValue(Symbol(v)) == v;
    NatBitsOfBitsNat(group);
  }

  lemma {:induction false} SymbolBitsOfSymbols(bits: seq<bool>)
    requires |bits| % 5 == 0
    ensures SymbolBits(Symbols(bits)) == bits
  {
    if bits != [] {
      var cs := Symbols(bits);
      assert cs[1..] == Symbols(bits[5..]);
      SymbolBitsOfSymbols(bits[5..]);
      SymbolOfGroup(bits[..5]);
      assert bits == bits[..5] + bits[5..];
    }
  }

  lemma {:induction false} TrailingPadsOfPadded(cs: string, p: nat)
    requires forall i :: 0 <= i < |cs| ==> InAlphabet(cs[i])
    ensures TrailingPads(cs + Repeat('=', p)) == p
  {
    var s := cs + Repeat('=', p);
    if p == 0 {
      assert s == cs;
    } else {
      assert s[..|s| - 1] == cs + Repeat('=', p - 1);
      TrailingPadsOfPadded(cs, p - 1);
    }
  }

  /** The bytes spelled by the whole octets among the symbols' bits. */
  function SymbolBytes(cs: string): (data: seq<byte>)
    requires forall i :: 0 <= i < |cs| ==> InAlphabet(cs[i])
  {
    BitsBytes(WholeOctets(SymbolBits(cs)))
  }

  /** The bits up to the last whole octet. */
  function WholeOctets(bits: seq<bool>): (octets: seq<bool>)
    ensures |octets| % 8 == 0
  {
    bits[..|bits| - |bits| % 8]
  }

  /** Fewer than eight bits after whole octets are dropped. */
  lemma WholeOctetsOfPadded(bits: seq<bool>, z: nat)
    requires |bits| % 8 == 0 && z < 8
    ensures WholeOctets(bits + Zeros(z)) == bits
  {
    assert (|bits| + z) % 8 == z;
  }

  /** Decoding symbols followed by an allowed amount of padding. */
  lemma DecodePadded(cs: string, p: nat)
    requires forall i :: 0 <= i < |cs| ==> InAlphabet(cs[i])
    requires (|cs| + p) % 8 == 0 && AllowedPadding(p)
    ensures Decode(cs + Repeat('=', p)) == Some(SymbolBytes(cs))
  {
    var s := cs + Repeat('=', p);
    assert |s| == |cs| + p;
    TrailingPadsOfPadded(cs, p);
    assert s[..|s| - p] == cs;
  }

  lemma ModEight(q: nat)
    ensures (8 * q) % 8 == 0
  {
  }

  lemma ModFive(q: nat)
    ensures (5 * q) % 5 == 0
  {
  }

  /** The symbols of some bytes followed by fewer than eight zero bits spell those bytes. */
  lemma SymbolBytesOfSymbols(data: seq<byte>, z: nat)
    requires z < 8 && (8 * |data| + z) % 5 == 0
    ensures SymbolBytes(Symbols(BytesBits(data) + Zeros(z))) == data
  {
    var bits := BytesBits(data);
    var padded := bits + Zeros(z);
    assert |padded| == 8 * |data| + z;
    SymbolBitsOfSymbols(padded);
    ModEight(|data|);
    WholeOctetsOfPadded(bits, z);
    BitsBytesOfBytesBits(data);
  }

  /** The encoding split into its symbols, which spell the bytes, and its padding. */
  lemma EncodeParts(data: seq<byte>) returns (cs: string, z: nat)
    ensures z < 8 && (8 * |data| + z) % 5 == 0
    ensures cs == Symbols(BytesBits(data) + Zeros(z))
    ensures (|cs| + PadCount(|data|)) % 8 == 0 && AllowedPadding(PadCount(|data|))
    ensures Encode(data) == cs + Repeat('=', PadCount(|data|))
  {
    var n := |data|;
    var k := SymbolCount(n);
    PadCountShape(n);
    z := FillBits(n);
    var padded := BytesBits(data) + Zeros(z);
    assert |padded| == 5 * k;
    ModFive(k);
    cs := Symbols(padded);
    assert Encode(data) == cs + Repeat('=', PadCount(n));
    assert |cs| + PadCount(n) == 8 * ((n + 4) / 5);
    ModEight((n + 4) / 5);
  }

  /** Decoding the encoding of any byte string gives it back. */
  lemma DecodeEncode(data: seq<byte>)
    ensures Decode(Encode(data)) == Some(data)
  {
    var cs, z := EncodeParts(data);
    DecodePadded(cs, PadCount(|data|));
    SymbolBytesOfSymbols(data, z);
  }
}
