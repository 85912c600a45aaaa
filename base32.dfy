/**
 * The base 32 encoding of section 6 of RFC 4648 (alphabet A-Z, 2-7) without
 * padding, as the `BASE32_NOPAD` encoding of the data-encoding crate applies
 * it: the input is a stream of bits, most significant bit of each byte first,
 * cut into 5-bit groups; the last group is filled with zero bits. Decoding
 * refuses a length no encoding produces, a character outside the alphabet and
 * non-zero filler bits.
 */
module Base32 {
  import opened Results
  import opened Wire

  function Pow2(w: nat): (r: nat)
    ensures r >= 1
  {
    if w == 0 then 1 else 2 * Pow2(w - 1)
  }

  /** The low `w` bits of `n`, most significant first. */
  function ToBits(n: nat, w: nat): (r: seq<bool>)
    ensures |r| == w
  {
    if w == 0 then [] else ToBits(n / 2, w - 1) + [n % 2 == 1]
  }

  /** The number a bit string spells, most significant bit first. */
  function FromBits(bits: seq<bool>): (r: nat)
    ensures r < Pow2(|bits|)
  {
    if bits == [] then 0
    else 2 * FromBits(bits[..|bits| - 1]) + (if bits[|bits| - 1] then 1 else 0)
  }

  lemma {:induction false} FromToBits(n: nat, w: nat)
    requires n < Pow2(w)
    ensures FromBits(ToBits(n, w)) == n
  {
    if w > 0 {
      FromToBits(n / 2, w - 1);
      assert ToBits(n, w)[..w - 1] == ToBits(n / 2, w - 1);
    }
  }

  lemma {:induction false} ToFromBits(bits: seq<bool>)
    ensures ToBits(FromBits(bits), |bits|) == bits
  {
    if bits != [] {
      var w := |bits|;
      ToFromBits(bits[..w - 1]);
      var f := FromBits(bits[..w - 1]);
      var b := if bits[w - 1] then 1 else 0;
      HalfOf(f, b);
      assert ToBits(2 * f + b, w) == ToBits(f, w - 1) + [bits[w - 1]];
      assert bits == bits[..w - 1] + [bits[w - 1]];
    }
  }

  lemma HalfOf(f: nat, b: nat)
    requires b < 2
    ensures (2 * f + b) / 2 == f && (2 * f + b) % 2 == b
  {
  }

  lemma LastOctet(m: nat, p: nat)
    requires p < 8
    ensures (8 * m + p) % 8 == p && 8 * m + p - (8 * m + p) % 8 == 8 * m
  {
  }

  /** The bit stream of a byte string. */
  function Bits(data: Bytes): (r: seq<bool>)
    ensures |r| == 8 * |data|
  {
    if data == [] then [] else ToBits(data[0] as nat, 8) + Bits(data[1..])
  }

  /** Whole bytes from a bit stream whose length is a multiple of eight. */
  function Pack(bits: seq<bool>): (r: Bytes)
    requires |bits| % 8 == 0
    ensures 8 * |r| == |bits|
  {
    if bits == [] then []
    else
      assert Pow2(8) == 0x100;
      [FromBits(bits[..8]) as byte] + Pack(bits[8..])
  }

  lemma {:induction false} PackBits(data: Bytes)
    ensures Pack(Bits(data)) == data
  {
    if data != [] {
      var bits := Bits(data);
      assert bits[..8] == ToBits(data[0] as nat, 8);
      assert bits[8..] == Bits(data[1..]);
      assert Pow2(8) == 0x100;
      FromToBits(data[0] as nat, 8);
      PackBits(data[1..]);
    }
  }

  lemma {:induction false} BitsPack(bits: seq<bool>)
    requires |bits| % 8 == 0
    ensures Bits(Pack(bits)) == bits
  {
    if bits != [] {
      assert Pow2(8) == 0x100;
      var b := FromBits(bits[..8]);
      ToFromBits(bits[..8]);
      BitsPack(bits[8..]);
      assert Pack(bits)[1..] == Pack(bits[8..]);
      assert bits == bits[..8] + bits[8..];
    }
  }

  /** The alphabet of section 6 of RFC 4648. */
  function Symbol(v: nat): (c: char)
    requires v < 32
  {
    if v < 26 then ('A' as int + v) as char else ('2' as int + v - 26) as char
  }

  predicate IsSymbol(c: char) {
    'A' <= c <= 'Z' || '2' <= c <= '7'
  }

  function SymbolValue(c: char): (r: Option<nat>)
    ensures r.Some? <==> IsSymbol(c)
    ensures r.Some? ==> r.value < 32 && Symbol(r.value) == c
  {
    if 'A' <= c <= 'Z' then Some(c as int - 'A' as int)
    else if '2' <= c <= '7' then Some(c as int - '2' as int + 26)
    else None
  }

  lemma SymbolRoundTrip(v: nat)
    requires v < 32
    ensures IsSymbol(Symbol(v)) && SymbolValue(Symbol(v)) == Some(v)
  {
  }

  /** One symbol per 5-bit group. */
  function Symbols(bits: seq<bool>): (r: string)
    requires |bits| % 5 == 0
    ensures 5 * |r| == |bits|
    ensures forall i :: 0 <= i < |r| ==> IsSymbol(r[i])
  {
    if bits == [] then ""
    else
      assert Pow2(5) == 32;
      SymbolRoundTrip(FromBits(bits[..5]));
      [Symbol(FromBits(bits[..5]))] + Symbols(bits[5..])
  }

  /** The 5-bit groups of a text, or nothing when a character is outside the alphabet. */
  function Groups(text: string): (r: Option<seq<bool>>)
    ensures r.Some? <==> forall i :: 0 <= i < |text| ==> IsSymbol(text[i])
    ensures r.Some? ==> |r.value| == 5 * |text|
  {
    if text == "" then Some([])
    else match SymbolValue(text[0])
      case None => None
      case Some(v) =>
        match Groups(text[1..])
        case None => None
        case Some(rest) => Some(ToBits(v, 5) + rest)
  }

  lemma {:induction false} GroupsSymbols(bits: seq<bool>)
    requires |bits| % 5 == 0
    ensures Groups(Symbols(bits)) == Some(bits)
  {
    if bits != [] {
      assert Pow2(5) == 32;
      var v := FromBits(bits[..5]);
      SymbolRoundTrip(v);
      ToFromBits(bits[..5]);
      GroupsSymbols(bits[5..]);
      assert Symbols(bits)[1..] == Symbols(bits[5..]);
      assert bits == bits[..5] + bits[5..];
    }
  }

  lemma {:induction false} SymbolsGroups(text: string)
    requires Groups(text).Some?
    ensures Symbols(Groups(text).value) == text
  {
    if text != "" {
      var v := SymbolValue(text[0]).value;
      var rest := Groups(text[1..]).value;
      var bits := Groups(text).value;
      assert bits == ToBits(v, 5) + rest;
      assert bits[..5] == ToBits(v, 5) && bits[5..] == rest;
      assert Pow2(5) == 32;
      FromToBits(v, 5);
      SymbolsGroups(text[1..]);
      assert text == [text[0]] + text[1..];
    }
  }

  /** Zero bits that complete the last 5-bit group. */
  function Filler(n: nat): nat {
    (5 - n % 5) % 5
  }

  lemma FillerCompletes(n: nat)
    ensures (n + Filler(n)) % 5 == 0
  {
    var q, r := n / 5, n % 5;
    assert n == 5 * q + r;
    if r != 0 {
      assert n + Filler(n) == 5 * (q + 1);
    }
  }

  function Encode(data: Bytes): (text: string)
    ensures forall i :: 0 <= i < |text| ==> IsSymbol(text[i])
    ensures 5 * |text| == 8 * |data| + Filler(8 * |data|)
  {
    var bits := Bits(data);
    var padded := bits + seq(Filler(|bits|), _ => false);
    FillerCompletes(|bits|);
    assert |padded| % 5 == 0;
    Symbols(padded)
  }

  datatype DecodeError = InvalidLength | InvalidSymbol | NonZeroTrailingBits

  function Decode(text: string): (r: Result<Bytes, DecodeError>)
    ensures (5 * |text|) % 8 >= 5 ==> r == Err(InvalidLength)
    ensures (5 * |text|) % 8 < 5 && (exists i :: 0 <= i < |text| && !IsSymbol(text[i])) ==> r == Err(InvalidSymbol)
    ensures r.Ok? ==> 8 * |r.value| == 5 * |text| - (5 * |text|) % 8
  {
    if (5 * |text|) % 8 >= 5 then Err(InvalidLength)
    else match Groups(text)
      case None => Err(InvalidSymbol)
      case Some(bits) =>
        var n := |bits| - |bits| % 8;
        if exists i :: n <= i < |bits| && bits[i] then Err(NonZeroTrailingBits)
        else Ok(Pack(bits[..n]))
  }

  /** The length arithmetic of a round trip: `p < 5` filler bits after `8 * m` data bits. */
  lemma PaddedLength(m: nat, p: nat, t: nat)
    requires p < 5 && 5 * t == 8 * m + p
    ensures (5 * t) % 8 == p && 5 * t - (5 * t) % 8 == 8 * m
  {
    LastOctet(m, p);
  }

  /** Decoding what was encoded gives back the original bytes. */
  lemma DecodeEncode(data: Bytes)
    ensures Decode(Encode(data)) == Ok(data)
  {
    var bits := Bits(data);
    var p := Filler(|bits|);
    var padded := bits + seq(p, _ => false);
    var text := Encode(data);
    assert text == Symbols(padded);
    GroupsSymbols(padded);
    PaddedLength(|data|, p, |text|);
    var n := |padded| - |padded| % 8;
    assert n == |bits|;
    assert padded[..n] == bits;
    assert !exists i :: n <= i < |padded| && padded[i];
    PackBits(data);
  }

  /** The filler of `5 * t - p` data bits is `p`, for `p < 5`. */
  lemma FillerOfTrimmed(t: nat, p: nat)
    requires p < 5 && p <= 5 * t
    ensures Filler(5 * t - p) == p
  {
    if p != 0 {
      assert 5 * t - p == 5 * (t - 1) + (5 - p);
    }
  }

  /** Dropping the bits past the last whole octet leaves whole octets. */
  lemma WholeOctets(m: nat)
    ensures 0 <= m - m % 8 <= m && (m - m % 8) % 8 == 0
  {
    assert m == 8 * (m / 8) + m % 8;
  }

  /** Bits whose tail past `n` is all zero are their first `n` bits followed by that many zero bits. */
  lemma ZeroTail(bits: seq<bool>, n: nat)
    requires n <= |bits| && !exists i :: n <= i < |bits| && bits[i]
    ensures bits[..n] + seq(|bits| - n, _ => false) == bits
  {
  }

  /** Text the decoder accepts is the encoding of what it decodes to: no other text decodes to the same bytes. */
  lemma EncodeDecode(text: string)
    requires Decode(text).Ok?
    ensures Encode(Decode(text).value) == text
  {
    var bits := Groups(text).value;
    var n := |bits| - |bits| % 8;
    WholeOctets(|bits|);
    var data := Pack(bits[..n]);
    assert Decode(text).value == data;
    BitsPack(bits[..n]);
    FillerOfTrimmed(|text|, |bits| % 8);
    ZeroTail(bits, n);
    assert Bits(data) + seq(Filler(|Bits(data)|), _ => false) == bits;
    SymbolsGroups(text);
  }

  /** The decoder accepts exactly the texts the encoder produces. */
  lemma DecodeAcceptsOnlyEncodings(text: string)
    ensures Decode(text).Ok? <==> exists data :: Encode(data) == text
  {
    if Decode(text).Ok? {
      EncodeDecode(text);
    }
    if exists data :: Encode(data) == text {
      var data :| Encode(data) == text;
      DecodeEncode(data);
    }
  }
}
