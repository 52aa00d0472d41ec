/** Lowercase base16 encoding (section 8 of RFC 4648), as Go's
    hex.EncodeToString produces it: two digits per byte, high nibble first,
    from the alphabet "0123456789abcdef". */
module Hex {
  import opened Bytes

  predicate IsLowerHexDigit(c: byte) {
    ('0' as byte <= c <= '9' as byte) || ('a' as byte <= c <= 'f' as byte)
  }

  /** The digit for a nibble: "0123456789abcdef"[n]. */
  function HexDigit(n: nat): (c: byte)
    requires n < 16
    ensures IsLowerHexDigit(c)
  {
    if n < 10 then ('0' as int + n) as byte else ('a' as int + n - 10) as byte
  }

  /** The nibble a lowercase digit stands for; None for every other byte. */
  function HexValue(c: byte): (r: Option<nat>)
    ensures r.Some? <==> IsLowerHexDigit(c)
    ensures r.Some? ==> r.value < 16 && HexDigit(r.value) == c
  {
    if '0' as byte <= c <= '9' as byte then Some(c as int - '0' as int)
    else if 'a' as byte <= c <= 'f' as byte then Some(c as int - 'a' as int + 10)
    else None
  }

  function HexEncode(s: seq<byte>): (r: seq<byte>)
    ensures |r| == 2 * |s|
    ensures forall i :: 0 <= i < |r| ==> IsLowerHexDigit(r[i])
  {
    if s == [] then []
    else [HexDigit(s[0] as int / 16), HexDigit(s[0] as int % 16)] + HexEncode(s[1..])
  }

  /** The inverse of HexEncode: accepts exactly the even-length strings of
      lowercase digits. */
  function HexDecode(s: seq<byte>): (r: Option<seq<byte>>)
    ensures r.Some? ==> 2 * |r.value| == |s|
    decreases |s|
  {
    if s == [] then Some([])
    else if |s| == 1 then None
    else
      match (HexValue(s[0]), HexValue(s[1]), HexDecode(s[2..]))
      case (Some(hi), Some(lo), Some(rest)) => Some([(hi * 16 + lo) as byte] + rest)
      case _ => None
  }

  lemma {:induction false} HexRoundTrip(s: seq<byte>)
    ensures HexDecode(HexEncode(s)) == Some(s)
  {
    if s != [] {
      var e := HexEncode(s);
      var hi, lo := s[0] as int / 16, s[0] as int % 16;
      assert e[2..] == HexEncode(s[1..]);
      HexRoundTrip(s[1..]);
      assert HexValue(e[0]) == Some(hi);
      assert HexValue(e[1]) == Some(lo);
      assert (hi * 16 + lo) as byte == s[0];
      assert [s[0]] + s[1..] == s;
    }
  }

  /** Two byte strings with the same encoding are equal. */
  lemma HexEncodeInjective(a: seq<byte>, b: seq<byte>)
    requires HexEncode(a) == HexEncode(b)
    ensures a == b
  {
    HexRoundTrip(a);
    HexRoundTrip(b);
  }
}
