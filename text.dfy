/** C-string views of character buffers: a buffer's string ends at its first NUL. */
module CStrings {

  const NUL: char := '\0'

  /** strlen: the index of the first NUL, or the whole buffer when there is none. */
  function StrLen(s: string): (n: nat)
    ensures n <= |s|
    ensures forall k :: 0 <= k < n ==> s[k] != NUL
    ensures n < |s| ==> s[n] == NUL
  {
    if |s| == 0 || s[0] == NUL then 0 else 1 + StrLen(s[1..])
  }

  /** The string a C function sees when handed the buffer `s`. */
  function CStr(s: string): string
  {
    s[..StrLen(s)]
  }

  predicate HasPrefix(s: string, p: string)
  {
    |p| <= |s| && s[..|p|] == p
  }

  /** A buffer holding `t` followed by a NUL reads as exactly `t`. */
  lemma CStrOfTerminated(t: string, tail: string)
    requires NUL !in t
    ensures CStr(t + [NUL] + tail) == t
  {
    var s := t + [NUL] + tail;
    assert s[|t|] == NUL;
    assert forall k :: 0 <= k < |t| ==> s[k] == t[k] && t[k] in t;
    assert StrLen(s) == |t|;
    assert s[..|t|] == t;
  }

  /** A leading part of a C string holds no NUL and is its own C string. */
  lemma CStrPrefix(s: string, n: nat)
    requires n <= |CStr(s)|
    ensures NUL !in CStr(s)[..n] && CStr(CStr(s)[..n]) == CStr(s)[..n]
  {
    var t := CStr(s)[..n];
    assert forall k :: 0 <= k < |t| ==> t[k] == s[k];
    CStrOfUnterminated(t);
  }

  /** A buffer without NUL is its own C string. */
  lemma CStrOfUnterminated(t: string)
    requires NUL !in t
    ensures CStr(t) == t
  {
    assert forall k :: 0 <= k < |t| ==> t[k] in t;
  }
}

/** Octets and their rendering as upper-case hexadecimal text ("%02X"). */
module Octets {

  /** An unsigned char. */
  newtype byte = x: int | 0 <= x < 256

  /** The upper-case hex digit for a value below 16. */
  function HexDigit(v: int): (c: char)
    requires 0 <= v < 16
  {
    if v < 10 then ('0' as int + v) as char else ('A' as int + v - 10) as char
  }

  predicate IsHexDigit(c: char)
  {
    ('0' <= c <= '9') || ('A' <= c <= 'F')
  }

  function DigitValue(c: char): (v: int)
    requires IsHexDigit(c)
    ensures 0 <= v < 16 && HexDigit(v) == c
  {
    if c <= '9' then c as int - '0' as int else c as int - 'A' as int + 10
  }

  /** sprintf("%02X", b). */
  function Hex2(b: byte): string
  {
    [HexDigit(b as int / 16), HexDigit(b as int % 16)]
  }

  /** The concatenation of "%02X" over `bs`, as a loop of sprintf calls writes it. */
  function Hex(bs: seq<byte>): string
  {
    if bs == [] then [] else Hex(bs[..|bs| - 1]) + Hex2(bs[|bs| - 1])
  }

  predicate IsHex(s: string)
  {
    forall k :: 0 <= k < |s| ==> IsHexDigit(s[k])
  }

  /** Reads back text of hex digit pairs as octets. */
  function Unhex(s: string): (bs: seq<byte>)
    requires |s| % 2 == 0 && IsHex(s)
    ensures |bs| == |s| / 2
  {
    if s == [] then []
    else
      var n := |s|;
      Unhex(s[..n - 2]) + [(DigitValue(s[n - 2]) * 16 + DigitValue(s[n - 1])) as byte]
  }

  /** Hex text is twice as long as its octets and made of upper-case hex digits only. */
  lemma {:induction false} HexShape(bs: seq<byte>)
    ensures |Hex(bs)| == 2 * |bs|
    ensures IsHex(Hex(bs))
  {
    if bs != [] {
      HexShape(bs[..|bs| - 1]);
    }
  }

  lemma DigitRoundTrip(v: int)
    requires 0 <= v < 16
    ensures IsHexDigit(HexDigit(v)) && DigitValue(HexDigit(v)) == v
  {
  }

  /** Reading back one more rendered octet appends it. */
  lemma UnhexSnoc(x: string, b: byte)
    requires |x| % 2 == 0 && IsHex(x)
    ensures |x + Hex2(b)| % 2 == 0 && IsHex(x + Hex2(b))
    ensures Unhex(x + Hex2(b)) == Unhex(x) + [b]
  {
    var y := x + Hex2(b);
    var hi, lo := b as int / 16, b as int % 16;
    DigitRoundTrip(hi);
    DigitRoundTrip(lo);
    assert y[..|y| - 2] == x;
    assert y[|y| - 2] == HexDigit(hi) && y[|y| - 1] == HexDigit(lo);
    assert forall k :: 0 <= k < |y| ==> IsHexDigit(y[k]) by {
      forall k | 0 <= k < |y|
        ensures IsHexDigit(y[k])
      {
        if k < |x| {
          assert y[k] == x[k];
        }
      }
    }
    assert hi * 16 + lo == b as int;
  }

  /** Rendering then reading back gives the original octets. */
  lemma {:induction false} UnhexHex(bs: seq<byte>)
    ensures |Hex(bs)| % 2 == 0 && IsHex(Hex(bs))
    ensures Unhex(Hex(bs)) == bs
  {
    if bs != [] {
      var init := bs[..|bs| - 1];
      var b := bs[|bs| - 1];
      assert bs == init + [b];
      UnhexHex(init);
      var h := Hex(init);
      assert Hex(bs) == h + Hex2(b);
      UnhexSnoc(h, b);
    }
  }
}

module Options {
  datatype Option<+T> = None | Some(value: T)
}

module Numbers {
  /** The smaller of two integers, as the byte counts of read(2) and snprintf need. */
  function Min(a: int, b: int): (m: int)
    ensures m <= a && m <= b && (m == a || m == b)
  {
    if a <= b then a else b
  }
}
