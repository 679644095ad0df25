/** The object identifier db_save returns: the engine's 12-byte identifier
    written by the BSON library into a 25-byte buffer (luaejdb.c, db_save).
    The library's code is not part of this model; its digit mapping (two
    lower-case hexadecimal digits per byte, high nibble first, then a NUL)
    is assumed. */
module ObjectId {
  import opened LuaHost

  newtype byte = x: int | 0 <= x < 256

  /** An engine object identifier: exactly 12 bytes. */
  type Oid = s: seq<byte> | |s| == 12 witness [0, 0, 0, 0, 0, 0, 0, 0, 0, 0, 0, 0]

  /** A lower-case hexadecimal digit, as the BSON library writes them. */
  predicate IsHexDigit(c: char) {
    '0' <= c <= '9' || 'a' <= c <= 'f'
  }

  /** The digit for a value below 16. */
  function HexDigit(v: int): (c: char)
    requires 0 <= v < 16
    ensures IsHexDigit(c)
  {
    if v < 10 then ('0' as int + v) as char else ('a' as int + v - 10) as char
  }

  /** The value of a hexadecimal digit, inverse of HexDigit. */
  function DigitValue(c: char): (v: int)
    requires IsHexDigit(c)
    ensures 0 <= v < 16 && HexDigit(v) == c
  {
    if '0' <= c <= '9' then c as int - '0' as int else c as int - 'a' as int + 10
  }

  lemma DigitValueOfHexDigit(v: int)
    requires 0 <= v < 16
    ensures DigitValue(HexDigit(v)) == v
  {
  }

  /** The two digits of a byte value read back as that value. */
  lemma ByteDigits(v: int)
    requires 0 <= v < 256
    ensures DigitValue(HexDigit(v / 16)) * 16 + DigitValue(HexDigit(v % 16)) == v
  {
    DigitValueOfHexDigit(v / 16);
    DigitValueOfHexDigit(v % 16);
  }

  /** Two hexadecimal digits per byte, high nibble first. */
  function HexOf(bytes: seq<byte>): (s: seq<char>)
    ensures |s| == 2 * |bytes|
    ensures forall i :: 0 <= i < |s| ==> IsHexDigit(s[i])
  {
    if bytes == [] then []
    else [HexDigit(bytes[0] as int / 16), HexDigit(bytes[0] as int % 16)] + HexOf(bytes[1..])
  }

  /** Reads pairs of hexadecimal digits back into bytes. */
  function BytesOf(s: seq<char>): (bytes: seq<byte>)
    requires |s| % 2 == 0
    requires forall i :: 0 <= i < |s| ==> IsHexDigit(s[i])
    ensures |bytes| == |s| / 2
  {
    if s == [] then []
    else [(DigitValue(s[0]) * 16 + DigitValue(s[1])) as byte] + BytesOf(s[2..])
  }

  /** The text form loses nothing: reading it back gives the bytes. */
  lemma {:induction false} HexRoundTrip(bytes: seq<byte>)
    ensures BytesOf(HexOf(bytes)) == bytes
  {
    if bytes != [] {
      var s := HexOf(bytes);
      var v := bytes[0] as int;
      var hi, lo := v / 16, v % 16;
      var rest := HexOf(bytes[1..]);
      assert s == [HexDigit(hi), HexDigit(lo)] + rest;
      assert s[2..] == rest;
      ByteDigits(v);
      HexRoundTrip(bytes[1..]);
      assert BytesOf(s) == [v as byte] + BytesOf(rest);
      assert [bytes[0]] + bytes[1..] == bytes;
    }
  }

  /** Distinct identifiers have distinct text forms. */
  lemma HexInjective(a: seq<byte>, b: seq<byte>)
    requires HexOf(a) == HexOf(b)
    ensures a == b
  {
    HexRoundTrip(a);
    HexRoundTrip(b);
  }

  /** The 25-byte buffer bson_oid_to_string fills: 24 digits and a NUL. Read
      as a C string, as lua_pushstring does, it is exactly the 24 digits. */
  function OidBuffer(oid: Oid): (buf: seq<char>)
    ensures |buf| == 25 && buf[24] == '\0'
    ensures |CString(buf)| == 24
    ensures CString(buf) == HexOf(oid)
  {
    var digits := HexOf(oid);
    assert forall i :: 0 <= i < |digits| ==> digits[i] != '\0';
    CStringConcat(digits, ['\0']);
    digits + ['\0']
  }
}
