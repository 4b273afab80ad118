/** Strings as UTF-8 bytes, the form they have on the wire. */
module Utf8 {
  import opened Wrappers
  import opened Protocol

  function EncodeChar(c: char): (bytes: seq<byte>)
    ensures |bytes| >= 1
  {
    var n := c as int;
    if n < 0x80 then [n]
    else if n < 0x800 then [0xC0 + n / 0x40, 0x80 + n % 0x40]
    else if n < 0x1_0000 then [0xE0 + n / 0x1000, 0x80 + n / 0x40 % 0x40, 0x80 + n % 0x40]
    else [0xF0 + n / 0x4_0000, 0x80 + n / 0x1000 % 0x40, 0x80 + n / 0x40 % 0x40, 0x80 + n % 0x40]
  }

  function Encode(s: string): seq<byte> {
    if s == "" then [] else EncodeChar(s[0]) + Encode(s[1..])
  }

  predicate IsContinuation(b: byte) {
    0x80 <= b < 0xC0
  }

  // A code point that may be encoded in `length` bytes: in range, not a surrogate, not too small.
  function Scalar(n: nat, length: nat): Option<char> {
    var least := match length case 1 => 0 case 2 => 0x80 case 3 => 0x800 case _ => 0x1_0000;
    if n < least || 0xD800 <= n < 0xE000 || n >= 0x11_0000 then None else Some(n as char)
  }

  // Six more bits.
  function Joined(high: nat, b: byte): nat {
    if b < 0x80 then high * 0x40 else high * 0x40 + (b - 0x80)
  }

  // The first character and how many bytes it took.
  function DecodeChar(bytes: seq<byte>): Option<(char, nat)>
    requires bytes != []
  {
    var b := bytes[0];
    var length := if b < 0x80 then 1 else if b < 0xC0 then 0 else if b < 0xE0 then 2 else if b < 0xF0 then 3 else if b < 0xF8 then 4 else 0;
    if length == 0 || |bytes| < length || exists i :: 1 <= i < length && !IsContinuation(bytes[i]) then None
    else
      var n: nat :=
        if length == 1 then b
        else if length == 2 then Joined(b - 0xC0, bytes[1])
        else if length == 3 then Joined(Joined(b - 0xE0, bytes[1]), bytes[2])
        else Joined(Joined(Joined(b - 0xF0, bytes[1]), bytes[2]), bytes[3]);
      var c := Scalar(n, length);
      if c.Some? then Some((c.value, length)) else None
  }

  function Decode(bytes: seq<byte>): Option<string> {
    if bytes == [] then Some("")
    else
      var first := DecodeChar(bytes);
      if first.None? || first.value.1 == 0 || |bytes| < first.value.1 then None
      else
        var rest := Decode(bytes[first.value.1..]);
        if rest.None? then None else Some([first.value.0] + rest.value)
  }

  lemma CharRoundTrip(c: char, rest: seq<byte>)
    ensures DecodeChar(EncodeChar(c) + rest) == Some((c, |EncodeChar(c)|))
  {
    var n := c as int;
    if n < 0x800 {
      ShortRoundTrip(c, rest);
    } else if n < 0x1_0000 {
      ThreeRoundTrip(c, rest);
    } else {
      FourRoundTrip(c, rest);
    }
  }

  lemma ShortRoundTrip(c: char, rest: seq<byte>)
    requires c as int < 0x800
    ensures DecodeChar(EncodeChar(c) + rest) == Some((c, |EncodeChar(c)|))
  {
    var n := c as int;
    var bytes := EncodeChar(c) + rest;
    if n >= 0x80 {
      assert bytes[0] == 0xC0 + n / 0x40 && bytes[1] == 0x80 + n % 0x40;
    }
  }

  lemma ThreeRoundTrip(c: char, rest: seq<byte>)
    requires 0x800 <= c as int < 0x1_0000
    ensures DecodeChar(EncodeChar(c) + rest) == Some((c, |EncodeChar(c)|))
  {
    var n := c as int;
    var bytes := EncodeChar(c) + rest;
    assert bytes[0] == 0xE0 + n / 0x1000 && bytes[1] == 0x80 + n / 0x40 % 0x40 && bytes[2] == 0x80 + n % 0x40;
    assert Joined(n / 0x1000, bytes[1]) == n / 0x40;
    assert Joined(n / 0x40, bytes[2]) == n;
  }

  lemma FourRoundTrip(c: char, rest: seq<byte>)
    requires c as int >= 0x1_0000
    ensures DecodeChar(EncodeChar(c) + rest) == Some((c, |EncodeChar(c)|))
  {
    var n := c as int;
    var bytes := EncodeChar(c) + rest;
    assert bytes[0] == 0xF0 + n / 0x4_0000 && bytes[1] == 0x80 + n / 0x1000 % 0x40;
    assert bytes[2] == 0x80 + n / 0x40 % 0x40 && bytes[3] == 0x80 + n % 0x40;
    assert Joined(n / 0x4_0000, bytes[1]) == n / 0x1000;
    assert Joined(n / 0x1000, bytes[2]) == n / 0x40;
    assert Joined(n / 0x40, bytes[3]) == n;
  }

  lemma {:induction false} RoundTrip(s: string)
    ensures Decode(Encode(s)) == Some(s)
  {
    if s != "" {
      CharRoundTrip(s[0], Encode(s[1..]));
      RoundTrip(s[1..]);
      var bytes := EncodeChar(s[0]) + Encode(s[1..]);
      assert bytes[|EncodeChar(s[0])|..] == Encode(s[1..]);
      assert s == [s[0]] + s[1..];
    }
  }
}
