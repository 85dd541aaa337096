/** Percent-encoding of byte strings, with the unreserved characters of section 2.3 and the escapes of
    section 2.1 of RFC 3986. */
module PercentCoding {
  import opened Wrappers

  const PERCENT: byte := 37

  predicate Unreserved(c: byte) {
    || 65 <= c <= 90 || 97 <= c <= 122 || 48 <= c <= 57
    || c == 45 || c == 95 || c == 46 || c == 126
  }

  predicate IsHexDigit(c: byte) {
    48 <= c <= 57 || 65 <= c <= 70 || 97 <= c <= 102
  }

  function HexValue(c: byte): (v: nat)
    requires IsHexDigit(c)
    ensures v < 16
  {
    if c <= 57 then c as int - 48 else if c <= 70 then c as int - 55 else c as int - 87
  }

  /** The digit `%02X` prints. */
  function HexDigit(v: nat): (c: byte)
    requires v < 16
    ensures IsHexDigit(c) && HexValue(c) == v
  {
    if v < 10 then (48 + v) as byte else (55 + v) as byte
  }

  // ----- encoding

  function EncodedByte(c: byte): seq<byte> {
    if Unreserved(c) then [c] else [PERCENT, HexDigit(c as int / 16), HexDigit(c as int % 16)]
  }

  function Encoded(s: seq<byte>): seq<byte> {
    if s == [] then [] else EncodedByte(s[0]) + Encoded(s[1..])
  }

  lemma {:induction false} EncodedSum(a: seq<byte>, b: seq<byte>)
    ensures Encoded(a + b) == Encoded(a) + Encoded(b)
  {
    if a == [] {
      assert a + b == b;
    } else {
      assert (a + b)[1..] == a[1..] + b;
      EncodedSum(a[1..], b);
    }
  }

  lemma EncodedStep(s: seq<byte>, i: nat)
    requires i < |s|
    ensures Encoded(s[..i + 1]) == Encoded(s[..i]) + EncodedByte(s[i])
  {
    assert s[..i + 1] == s[..i] + [s[i]];
    EncodedSum(s[..i], [s[i]]);
    assert Encoded([s[i]]) == EncodedByte(s[i]) + Encoded([s[i]][1..]);
  }

  /** `url_encode`; the output grows with what is written. */
  method UrlEncode(input: seq<byte>) returns (output: seq<byte>)
    requires 0 !in input
    ensures output == Encoded(input)
  {
    output := [];
    for i := 0 to |input|
      invariant output == Encoded(input[..i])
    {
      EncodedStep(input, i);
      var c := input[i];
      if Unreserved(c) {
        output := output + [c];
      } else {
        output := output + [PERCENT, HexDigit(c as int / 16), HexDigit(c as int % 16)];
      }
    }
    assert input[..|input|] == input;
  }

  // ----- decoding

  /** A percent sign with two hexadecimal digits behind it. */
  predicate Escape(s: seq<byte>, i: nat) {
    i + 2 < |s| && s[i] == PERCENT && IsHexDigit(s[i + 1]) && IsHexDigit(s[i + 2])
  }

  /** Any other percent sign is left out. */
  function Decoded(s: seq<byte>, i: nat): seq<byte>
    decreases |s| - i
  {
    if i >= |s| then []
    else if Escape(s, i) then [(HexValue(s[i + 1]) * 16 + HexValue(s[i + 2])) as byte] + Decoded(s, i + 3)
    else if s[i] == PERCENT then Decoded(s, i + 1)
    else [s[i]] + Decoded(s, i + 1)
  }

  /** A C string ends at its first NUL. */
  function UpToNul(s: seq<byte>): seq<byte> {
    if s == [] || s[0] == 0 then [] else [s[0]] + UpToNul(s[1..])
  }

  /** The input with its final NUL, which the passes may look at. */
  function Char(s: seq<byte>, i: nat): byte
    requires i <= |s|
  {
    if i < |s| then s[i] else 0
  }

  /** The first pass of `url_decode`. */
  method CountDecoded(input: seq<byte>) returns (cnt: nat)
    requires 0 !in input
    ensures cnt == |Decoded(input, 0)|
  {
    cnt := 0;
    var i := 0;
    while Char(input, i) != 0
      invariant i <= |input| && cnt + |Decoded(input, i)| == |Decoded(input, 0)|
      decreases |input| - i
    {
      if Char(input, i) == PERCENT {
        if IsHexDigit(Char(input, i + 1)) {
          if IsHexDigit(Char(input, i + 2)) {
            i := i + 2;
            cnt := cnt + 1;
          }
        }
      } else {
        cnt := cnt + 1;
      }
      i := i + 1;
    }
  }

  /** The second pass. It fills the counted size exactly: the final NUL goes behind the last byte. */
  method WriteDecoded(input: seq<byte>, output: array<byte>) returns (j: nat)
    requires 0 !in input && output.Length == |Decoded(input, 0)| + 1
    modifies output
    ensures j == output.Length - 1 && output[..j] == Decoded(input, 0) && output[j] == 0
  {
    j := 0;
    var i := 0;
    ghost var all := Decoded(input, 0);
    while Char(input, i) != 0
      invariant i <= |input| && j <= |all|
      invariant output[..j] == all[..j] && Decoded(input, i) == all[j..]
      decreases |input| - i
    {
      if Char(input, i) == PERCENT {
        if IsHexDigit(Char(input, i + 1)) {
          if IsHexDigit(Char(input, i + 2)) {
            output[j] := (HexValue(input[i + 1]) * 16 + HexValue(input[i + 2])) as byte;
            j := j + 1;
            i := i + 2;
          }
        }
      } else {
        output[j] := input[i];
        j := j + 1;
      }
      i := i + 1;
    }
    output[j] := 0;
  }

  /** `url_decode`. */
  method UrlDecode(input: seq<byte>) returns (r: seq<byte>)
    requires 0 !in input
    ensures r == UpToNul(Decoded(input, 0))
  {
    var cnt := CountDecoded(input);
    var output := new byte[cnt + 1](k => 0);
    var j := WriteDecoded(input, output);
    r := CString(output, Decoded(input, 0));
  }

  /** What a reader of the buffer sees. */
  method CString(b: array<byte>, ghost s: seq<byte>) returns (r: seq<byte>)
    requires b[..] == s + [0]
    ensures r == UpToNul(s)
  {
    var n := 0;
    while b[n] != 0
      invariant n <= |s| && b[..n] + UpToNul(s[n..]) == UpToNul(s)
      decreases |s| - n
    {
      assert b[n] == (s + [0])[n];
      assert s[n..][1..] == s[n + 1..];
      n := n + 1;
    }
    assert b[n] == (s + [0])[n];
    r := b[..n];
  }

  // ----- what is written and read

  /** The hexadecimal digits 0 to 9 and A to F, and with small letters. */
  const CAPITALS: seq<byte> := [48, 49, 50, 51, 52, 53, 54, 55, 56, 57, 65, 66, 67, 68, 69, 70]
  const SMALLS: seq<byte> := [48, 49, 50, 51, 52, 53, 54, 55, 56, 57, 97, 98, 99, 100, 101, 102]

  /** Letters, digits, and `-._~` are written as they are, every other byte as a percent sign (37) and two
      capital digits. */
  lemma EncodedLiterally(c: byte)
    ensures Encoded([c]) == if 48 <= c <= 57 || 65 <= c <= 90 || 97 <= c <= 122 || c in [45, 46, 95, 126] then [c]
                            else [37, CAPITALS[c / 16], CAPITALS[c % 16]]
  {
    assert Encoded([c]) == EncodedByte(c) + Encoded([c][1..]);
  }

  lemma DigitValue(c: byte, v: nat)
    requires v < 16 && (c == CAPITALS[v] || c == SMALLS[v])
    ensures IsHexDigit(c) && HexValue(c) == v
  {
  }

  /** An escape is read alike with capital and small digits; a percent sign without two digits is left out, every
      other byte stays. */
  lemma DecodedLiterally(h: byte, l: byte, a: nat, b: nat, rest: seq<byte>)
    requires a < 16 && b < 16 && (h == CAPITALS[a] || h == SMALLS[a]) && (l == CAPITALS[b] || l == SMALLS[b])
    ensures Decoded([37, h, l] + rest, 0) == [16 * a + b] + Decoded(rest, 0)
  {
    DigitValue(h, a);
    DigitValue(l, b);
    DecodedShift([37, h, l], rest, 0);
  }

  lemma OtherBytes(c: byte, rest: seq<byte>)
    ensures c != 37 ==> Decoded([c] + rest, 0) == [c] + Decoded(rest, 0)
    ensures c == 37 && (|rest| < 2 || !(rest[0] in CAPITALS + SMALLS && rest[1] in CAPITALS + SMALLS)) ==>
              Decoded([c] + rest, 0) == Decoded(rest, 0)
  {
    DecodedShift([c], rest, 0);
    if |rest| >= 2 && IsHexDigit(rest[0]) && IsHexDigit(rest[1]) {
      DigitIsThere(rest[0]);
      DigitIsThere(rest[1]);
    }
  }

  lemma DigitIsThere(c: byte)
    requires IsHexDigit(c)
    ensures c in CAPITALS + SMALLS
  {
    assert c == CAPITALS[HexValue(c)] || c == SMALLS[HexValue(c)];
  }

  // ----- round trips

  lemma EscapeShift(a: seq<byte>, s: seq<byte>, i: nat)
    ensures Escape(a + s, |a| + i) <==> Escape(s, i)
  {
  }

  lemma {:induction false} DecodedShift(a: seq<byte>, s: seq<byte>, i: nat)
    ensures Decoded(a + s, |a| + i) == Decoded(s, i)
    decreases |s| - i
  {
    if i < |s| {
      var t := a + s;
      assert t[|a| + i] == s[i];
      EscapeShift(a, s, i);
      if Escape(s, i) {
        assert t[|a| + i + 1] == s[i + 1] && t[|a| + i + 2] == s[i + 2];
        DecodedShift(a, s, i + 3);
      } else {
        DecodedShift(a, s, i + 1);
      }
    }
  }

  lemma DecodedByte(c: byte, rest: seq<byte>)
    ensures Decoded(EncodedByte(c) + rest, 0) == [c] + Decoded(rest, 0)
  {
    var s := EncodedByte(c) + rest;
    DecodedShift(EncodedByte(c), rest, 0);
    if !Unreserved(c) {
      assert s[0] == PERCENT && s[1] == HexDigit(c as int / 16) && s[2] == HexDigit(c as int % 16);
    }
  }

  /** Decoding undoes encoding, for every byte string. */
  lemma {:induction false} DecodeUndoesEncode(s: seq<byte>)
    ensures Decoded(Encoded(s), 0) == s
  {
    if s != [] {
      DecodeUndoesEncode(s[1..]);
      DecodedByte(s[0], Encoded(s[1..]));
      assert s == [s[0]] + s[1..];
    }
  }

  lemma {:induction false} UpToNulWhole(s: seq<byte>)
    ensures UpToNul(s) == s <==> 0 !in s
  {
    if s != [] {
      UpToNulWhole(s[1..]);
      assert s == [s[0]] + s[1..];
      assert s[0] == 0 ==> 0 in s;
    }
  }

  /** As C strings: for every string without a NUL, which is to say for every C string. */
  lemma RoundTrip(s: seq<byte>)
    ensures UpToNul(Decoded(Encoded(s), 0)) == s <==> 0 !in s
  {
    DecodeUndoesEncode(s);
    UpToNulWhole(s);
  }

  /** A string of unreserved characters and upper-case escapes of other bytes, from index `i` on. */
  predicate Canonical(s: seq<byte>, i: nat)
    decreases |s| - i
  {
    || i >= |s|
    || (Unreserved(s[i]) && Canonical(s, i + 1))
    || (Escape(s, i) && !LowerCase(s[i + 1]) && !LowerCase(s[i + 2])
        && !Unreserved((HexValue(s[i + 1]) * 16 + HexValue(s[i + 2])) as byte) && Canonical(s, i + 3))
  }

  predicate LowerCase(c: byte) {
    97 <= c <= 122
  }

  lemma {:induction false} CanonicalShift(a: seq<byte>, s: seq<byte>, i: nat)
    ensures Canonical(a + s, |a| + i) <==> Canonical(s, i)
    decreases |s| - i
  {
    if i < |s| {
      assert (a + s)[|a| + i] == s[i];
      EscapeShift(a, s, i);
      CanonicalShift(a, s, i + 1);
      CanonicalShift(a, s, i + 3);
    }
  }

  lemma CanonicalByte(c: byte, rest: seq<byte>)
    requires Canonical(rest, 0)
    ensures Canonical(EncodedByte(c) + rest, 0)
  {
    var s := EncodedByte(c) + rest;
    CanonicalShift(EncodedByte(c), rest, 0);
    if !Unreserved(c) {
      assert s[0] == PERCENT && s[1] == HexDigit(c as int / 16) && s[2] == HexDigit(c as int % 16);
      assert HexValue(s[1]) * 16 + HexValue(s[2]) == c as int;
    }
  }

  /** The encoder writes nothing but unreserved characters and upper-case escapes of other bytes. */
  lemma {:induction false} EncodedIsCanonical(s: seq<byte>)
    ensures Canonical(Encoded(s), 0)
  {
    if s != [] {
      EncodedIsCanonical(s[1..]);
      CanonicalByte(s[0], Encoded(s[1..]));
    }
  }

  lemma EncodedFirst(c: byte, rest: seq<byte>)
    ensures Encoded([c] + rest) == EncodedByte(c) + Encoded(rest)
  {
    assert ([c] + rest)[1..] == rest;
  }

  lemma PlainComesBack(s: seq<byte>, i: nat)
    requires i < |s| && Unreserved(s[i])
    ensures Encoded(Decoded(s, i)) == [s[i]] + Encoded(Decoded(s, i + 1))
  {
    EncodedFirst(s[i], Decoded(s, i + 1));
  }

  lemma EscapeComesBack(s: seq<byte>, i: nat)
    requires i < |s| && Canonical(s, i) && !Unreserved(s[i])
    ensures Escape(s, i) && Encoded(Decoded(s, i)) == [s[i], s[i + 1], s[i + 2]] + Encoded(Decoded(s, i + 3))
  {
    var c := (HexValue(s[i + 1]) * 16 + HexValue(s[i + 2])) as byte;
    assert EncodedByte(c) == [s[i], s[i + 1], s[i + 2]];
    EncodedFirst(c, Decoded(s, i + 3));
  }

  lemma {:induction false} CanonicalComesBack(s: seq<byte>, i: nat)
    requires i <= |s| && Canonical(s, i)
    ensures Encoded(Decoded(s, i)) == s[i..]
    decreases |s| - i
  {
    if i < |s| {
      if Unreserved(s[i]) {
        CanonicalComesBack(s, i + 1);
        PlainComesBack(s, i);
        assert s[i..] == [s[i]] + s[i + 1..];
      } else {
        CanonicalComesBack(s, i + 3);
        EscapeComesBack(s, i);
        assert s[i..] == [s[i], s[i + 1], s[i + 2]] + s[i + 3..];
      }
    }
  }

  /** Encoding undoes decoding exactly for the strings the encoder can write. */
  lemma EncodeUndoesDecodeIff(s: seq<byte>)
    ensures Encoded(Decoded(s, 0)) == s <==> Canonical(s, 0)
  {
    EncodedIsCanonical(Decoded(s, 0));
    if Canonical(s, 0) {
      CanonicalComesBack(s, 0);
    }
  }
}
