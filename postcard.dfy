/**
 * The part of the postcard wire format the records and tickets use: unsigned
 * integers and lengths as LEB128 varints of at most ten bytes, `bool` as one
 * byte 0 or 1, strings and byte buffers as a varint length followed by the
 * bytes, fixed arrays as their raw bytes. A decoder returns the value and the
 * bytes that follow it; `from_bytes` ignores whatever follows.
 */
module Postcard {
  import opened Results
  import opened Wire
  import opened Utf8

  /** Most bytes a varint for a 64-bit value may take. */
  const VARINT_MAX: nat := 10

  function Pow128(k: nat): (r: nat)
    ensures r >= 1
  {
    if k == 0 then 1 else 0x80 * Pow128(k - 1)
  }

  /** Seven bits per byte, least significant group first, high bit set on every byte but the last. */
  function Varint(n: nat): (r: Bytes)
    ensures |r| >= 1 && r[|r| - 1] < 0x80
    ensures forall i :: 0 <= i < |r| - 1 ==> r[i] >= 0x80
    decreases n
  {
    if n < 0x80 then [n as byte]
    else
      LowGroup(n);
      var rest := Varint(n / 0x80);
      var all := [(n % 0x80 + 0x80) as byte] + rest;
      assert forall i :: 1 <= i < |all| ==> all[i] == rest[i - 1];
      all
  }

  /** The low seven bits of `n` with the continuation bit set fit a byte, and the rest of `n` is smaller. */
  lemma LowGroup(n: nat)
    requires n >= 0x80
    ensures 0x80 <= n % 0x80 + 0x80 < 0x100 && n / 0x80 < n
  {
  }

  /**
   * Reads a LEB128 group: its value and how many bytes it took. The caller
   * refuses a group longer than it allows, which is the same outcome as
   * giving up after that many bytes.
   */
  function TakeLeb(s: Bytes): (r: Option<(nat, nat)>)
    ensures r.Some? ==> 1 <= r.value.1 <= |s|
    decreases |s|
  {
    if |s| == 0 then None
    else if s[0] < 0x80 then Some((s[0] as nat, 1))
    else match TakeLeb(s[1..])
      case None => None
      case Some((v, k)) => Some(((s[0] as nat - 0x80) + 0x80 * v, k + 1))
  }

  /** A varint for a `u64` (or a 64-bit `usize`): at most ten bytes and a value below 2^64. */
  function TakeVarint(s: Bytes): (r: Option<(u64, Bytes)>)
    ensures r.Some? ==> |r.value.1| < |s|
  {
    match TakeLeb(s)
    case None => None
    case Some((v, k)) =>
      if k <= VARINT_MAX && v < 0x1_0000_0000_0000_0000 then Some((v as u64, s[k..])) else None
  }

  lemma {:induction false} VarintLength(n: nat, k: nat)
    requires 1 <= k && n < Pow128(k)
    ensures |Varint(n)| <= k
    decreases n
  {
    if n >= 0x80 {
      assert k > 1;
      assert n / 0x80 < Pow128(k - 1) by {
        assert n < 0x80 * Pow128(k - 1);
      }
      VarintLength(n / 0x80, k - 1);
      assert Varint(n) == [(n % 0x80 + 0x80) as byte] + Varint(n / 0x80);
    }
  }

  lemma {:induction false} VarintLowerBound(n: nat, k: nat)
    requires Pow128(k) <= n
    ensures |Varint(n)| > k
    decreases n
  {
    if k > 0 {
      assert Pow128(k - 1) <= n / 0x80;
      VarintLowerBound(n / 0x80, k - 1);
      assert Varint(n) == [(n % 0x80 + 0x80) as byte] + Varint(n / 0x80);
    }
  }

  lemma VarintOfU64Fits(n: u64)
    ensures |Varint(n as nat)| <= VARINT_MAX
  {
    assert Pow128(10) == 0x40_0000_0000_0000_0000;
    VarintLength(n as nat, 10);
  }

  lemma {:induction false} TakeLebVarint(n: nat, rest: Bytes)
    ensures TakeLeb(Varint(n) + rest) == Some((n, |Varint(n)|))
    decreases n
  {
    var s := Varint(n) + rest;
    if n >= 0x80 {
      assert s[1..] == Varint(n / 0x80) + rest;
      TakeLebVarint(n / 0x80, rest);
    }
  }

  /** Reading back a written varint yields the value and exactly the bytes after it. */
  lemma VarintRoundTrip(n: u64, rest: Bytes)
    ensures TakeVarint(Varint(n as nat) + rest) == Some((n, rest))
  {
    VarintOfU64Fits(n);
    TakeLebVarint(n as nat, rest);
    assert (Varint(n as nat) + rest)[|Varint(n as nat)|..] == rest;
  }

  function EncBool(b: bool): Bytes {
    if b then [1] else [0]
  }

  /** Postcard refuses any byte other than 0 and 1 for a `bool`. */
  function TakeBool(s: Bytes): (r: Option<(bool, Bytes)>)
    ensures r.Some? <==> |s| > 0 && s[0] <= 1
    ensures r.Some? ==> r.value == (s[0] == 1, s[1..])
  {
    if |s| == 0 then None
    else if s[0] == 0 then Some((false, s[1..]))
    else if s[0] == 1 then Some((true, s[1..]))
    else None
  }

  lemma BoolRoundTrip(b: bool, rest: Bytes)
    ensures TakeBool(EncBool(b) + rest) == Some((b, rest))
  {
    assert (EncBool(b) + rest)[1..] == rest;
  }

  /** A byte buffer (`serialize_bytes`): length, then the bytes. */
  function EncBytes(b: Bytes): Bytes {
    Varint(|b|) + b
  }

  function TakeBytes(s: Bytes): (r: Option<(Bytes, Bytes)>)
    ensures r.Some? ==> |r.value.0| + |r.value.1| < |s|
    ensures r.Some? ==> r.value.0 + r.value.1 == s[|s| - |r.value.0| - |r.value.1|..]
  {
    match TakeVarint(s)
    case None => None
    case Some((n, rest)) =>
      if n as int <= |rest| then Some((rest[..n], rest[n..])) else None
  }

  lemma BytesRoundTrip(b: Bytes, rest: Bytes)
    requires |b| < 0x1_0000_0000_0000_0000
    ensures TakeBytes(EncBytes(b) + rest) == Some((b, rest))
  {
    assert EncBytes(b) + rest == Varint(|b| as u64 as nat) + (b + rest);
    VarintRoundTrip(|b| as u64, b + rest);
    assert (b + rest)[..|b|] == b;
    assert (b + rest)[|b|..] == rest;
  }

  function EncStr(s: Str): Bytes {
    EncBytes(s)
  }

  /** A `String`: a byte buffer that must be well-formed UTF-8. */
  function TakeStr(s: Bytes): (r: Option<(Str, Bytes)>)
    ensures r.Some? ==> |r.value.1| < |s|
  {
    match TakeBytes(s)
    case None => None
    case Some((b, rest)) => if IsUtf8(b) then Some((b, rest)) else None
  }

  lemma StrRoundTrip(x: Str, rest: Bytes)
    requires |x| < 0x1_0000_0000_0000_0000
    ensures TakeStr(EncStr(x) + rest) == Some((x, rest))
  {
    BytesRoundTrip(x, rest);
  }

  /** A fixed-size array such as `[u8; 32]`: its raw bytes, no length. */
  function TakeFixed(s: Bytes, n: nat): (r: Option<(Bytes, Bytes)>)
    ensures r.Some? <==> n <= |s|
    ensures r.Some? ==> |r.value.0| == n && r.value.0 + r.value.1 == s
  {
    if n <= |s| then Some((s[..n], s[n..])) else None
  }

  /**
   * `postcard::to_slice` into a zeroed buffer of `size` bytes: the encoding
   * followed by zero padding, or nothing when the encoding does not fit.
   */
  function ToSlice(enc: Bytes, size: nat): (r: Option<Bytes>)
    ensures r.Some? <==> |enc| <= size
    ensures r.Some? ==> |r.value| == size && r.value[..|enc|] == enc
    ensures r.Some? ==> forall i :: |enc| <= i < size ==> r.value[i] == 0
  {
    if |enc| <= size then Some(enc + Zeroes(size - |enc|)) else None
  }
}
