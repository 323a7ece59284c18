/**
  Standard base64 as defined in section 4 of RFC 4648: the 64-character
  alphabet `A-Z a-z 0-9 + /`, groups of four characters carrying three bytes,
  and `=` padding that may only close the final group.

  This is the model of `Convert.FromBase64String`, which the test helper
  `Base64UrlDecoder` calls after it has padded and translated its input.
  Bits left unused by a padded final group are discarded, as section 3.5 of
  RFC 4648 permits.  `Encode` is the encoder of the same section; it is the
  reference definition that `Decode` is proved to invert.
*/
module Base64 {
  import opened Wrappers

  newtype byte = x: int | 0 <= x < 256

  /** Every way `Convert.FromBase64String` can refuse its input (a `FormatException`). */
  datatype DecodeError =
    | BadLength     // the length is not a multiple of four
    | BadCharacter  // a character outside the alphabet, or misplaced padding

  predicate IsAlphabetChar(c: char) {
    ('A' <= c <= 'Z') || ('a' <= c <= 'z') || ('0' <= c <= '9') || c == '+' || c == '/'
  }

  /** The 6-bit value of an alphabet character (Table 1 of RFC 4648). */
  function ValueOf(c: char): (v: nat)
    requires IsAlphabetChar(c)
    ensures v < 64
  {
    if 'A' <= c <= 'Z' then c as int - 'A' as int
    else if 'a' <= c <= 'z' then c as int - 'a' as int + 26
    else if '0' <= c <= '9' then c as int - '0' as int + 52
    else if c == '+' then 62
    else 63
  }

  /** The alphabet character that encodes a 6-bit value: the inverse of `ValueOf`. */
  function CharOf(v: nat): (c: char)
    requires v < 64
    ensures IsAlphabetChar(c) && ValueOf(c) == v
  {
    if v < 26 then ('A' as int + v) as char
    else if v < 52 then ('a' as int + v - 26) as char
    else if v < 62 then ('0' as int + v - 52) as char
    else if v == 62 then '+'
    else '/'
  }

  /** Every alphabet character is the encoding of its value. */
  lemma CharOfValueOf(c: char)
    requires IsAlphabetChar(c)
    ensures CharOf(ValueOf(c)) == c
  {
  }

  /** Number of trailing `=` characters that may be padding: at most two. */
  function PadCount(s: string): (p: nat)
    ensures p <= 2 && p <= |s|
  {
    if |s| >= 2 && s[|s| - 1] == '=' && s[|s| - 2] == '=' then 2
    else if |s| >= 1 && s[|s| - 1] == '=' then 1
    else 0
  }

  /** Well-formed standard base64 text: whole groups, alphabet characters, and at most two `=` at the very end. */
  predicate IsBase64(s: string) {
    |s| % 4 == 0 && forall i :: 0 <= i < |s| - PadCount(s) ==> IsAlphabetChar(s[i])
  }

  // The three bytes carried by four 6-bit values, and the values carried by three bytes.

  function Byte0(v0: nat, v1: nat): byte
    requires v0 < 64 && v1 < 64
  {
    (v0 * 4 + v1 / 16) as byte
  }

  function Byte1(v1: nat, v2: nat): byte
    requires v1 < 64 && v2 < 64
  {
    ((v1 % 16) * 16 + v2 / 4) as byte
  }

  function Byte2(v2: nat, v3: nat): byte
    requires v2 < 64 && v3 < 64
  {
    ((v2 % 4) * 64 + v3) as byte
  }

  /** Decodes one group of four alphabet characters into three bytes. */
  function DecodeGroup(q: string): (r: Result<seq<byte>, DecodeError>)
    requires |q| == 4
    ensures r.Ok? <==> forall i :: 0 <= i < 4 ==> IsAlphabetChar(q[i])
    ensures r.Ok? ==> |r.value| == 3
  {
    if IsAlphabetChar(q[0]) && IsAlphabetChar(q[1]) && IsAlphabetChar(q[2]) && IsAlphabetChar(q[3]) then
      var v0, v1, v2, v3 := ValueOf(q[0]), ValueOf(q[1]), ValueOf(q[2]), ValueOf(q[3]);
      Ok([Byte0(v0, v1), Byte1(v1, v2), Byte2(v2, v3)])
    else
      Err(BadCharacter)
  }

  /** Decodes the final group, which may end in `==` (one byte) or `=` (two bytes). */
  function DecodeFinalGroup(q: string): (r: Result<seq<byte>, DecodeError>)
    requires |q| == 4
  {
    if q[2] == '=' && q[3] == '=' then
      if IsAlphabetChar(q[0]) && IsAlphabetChar(q[1]) then
        Ok([Byte0(ValueOf(q[0]), ValueOf(q[1]))])
      else Err(BadCharacter)
    else if q[3] == '=' then
      if IsAlphabetChar(q[0]) && IsAlphabetChar(q[1]) && IsAlphabetChar(q[2]) then
        var v0, v1, v2 := ValueOf(q[0]), ValueOf(q[1]), ValueOf(q[2]);
        Ok([Byte0(v0, v1), Byte1(v1, v2)])
      else Err(BadCharacter)
    else
      DecodeGroup(q)
  }

  function DecodeGroups(s: string): Result<seq<byte>, DecodeError>
    requires |s| % 4 == 0
    decreases |s|
  {
    if |s| == 0 then Ok([])
    else if |s| == 4 then DecodeFinalGroup(s)
    else
      match DecodeGroup(s[..4])
      case Err(e) => Err(e)
      case Ok(head) =>
        match DecodeGroups(s[4..])
        case Err(e) => Err(e)
        case Ok(tail) => Ok(head + tail)
  }

  /**
    `Convert.FromBase64String`, restricted to section 4 of RFC 4648: it accepts
    exactly the well-formed texts, and a text of `n` characters ending in `p`
    pads gives `3 * (n / 4) - p` bytes.
  */
  function Decode(s: string): (r: Result<seq<byte>, DecodeError>)
    ensures r.Ok? <==> IsBase64(s)
    ensures r.Ok? ==> |r.value| == 3 * (|s| / 4) - PadCount(s)
  {
    if |s| % 4 != 0 then Err(BadLength)
    else
      DecodeGroupsSpec(s);
      DecodeGroups(s)
  }

  /** Three bytes as four alphabet characters. */
  function EncodeGroup(x: byte, y: byte, z: byte): (q: string)
    ensures |q| == 4 && forall i :: 0 <= i < 4 ==> IsAlphabetChar(q[i])
  {
    [CharOf(x as nat / 4), CharOf((x as nat % 4) * 16 + y as nat / 16),
     CharOf((y as nat % 16) * 4 + z as nat / 64), CharOf(z as nat % 64)]
  }

  /** A final single byte as two alphabet characters and `==`. */
  function EncodeOne(x: byte): (q: string)
    ensures |q| == 4 && IsAlphabetChar(q[0]) && IsAlphabetChar(q[1]) && q[2] == '=' && q[3] == '='
  {
    [CharOf(x as nat / 4), CharOf((x as nat % 4) * 16), '=', '=']
  }

  /** Two final bytes as three alphabet characters and `=`. */
  function EncodeTwo(x: byte, y: byte): (q: string)
    ensures |q| == 4 && IsAlphabetChar(q[0]) && IsAlphabetChar(q[1]) && IsAlphabetChar(q[2]) && q[3] == '='
  {
    [CharOf(x as nat / 4), CharOf((x as nat % 4) * 16 + y as nat / 16), CharOf((y as nat % 16) * 4), '=']
  }

  /** The base64 encoding of section 4 of RFC 4648, with `=` padding. */
  function Encode(b: seq<byte>): string
    decreases |b|
  {
    if |b| == 0 then ""
    else if |b| == 1 then EncodeOne(b[0])
    else if |b| == 2 then EncodeTwo(b[0], b[1])
    else EncodeGroup(b[0], b[1], b[2]) + Encode(b[3..])
  }

  /** Group by group, decoding succeeds exactly on well-formed text, with three bytes per group less one per pad. */
  lemma {:induction false} DecodeGroupsSpec(s: string)
    requires |s| % 4 == 0
    ensures DecodeGroups(s).Ok? <==> IsBase64(s)
    ensures DecodeGroups(s).Ok? ==> |DecodeGroups(s).value| == 3 * (|s| / 4) - PadCount(s)
    decreases |s|
  {
    if |s| == 0 {
    } else if |s| == 4 {
      var q := s;
      if q[2] == '=' && q[3] == '=' {
        assert PadCount(q) == 2;
      } else if q[3] == '=' {
        assert PadCount(q) == 1;
      } else {
        assert PadCount(q) == 0;
      }
    } else {
      var t := s[4..];
      DecodeGroupsSpec(t);
      assert PadCount(t) == PadCount(s);
      assert forall i :: 4 <= i < |s| ==> s[i] == t[i - 4];
      if IsBase64(s) {
        assert forall i :: 0 <= i < |t| - PadCount(t) ==> IsAlphabetChar(t[i]) by {
          forall i | 0 <= i < |t| - PadCount(t) ensures IsAlphabetChar(t[i]) {
            assert s[i + 4] == t[i];
          }
        }
        assert forall i :: 0 <= i < 4 ==> IsAlphabetChar(s[..4][i]) by {
          forall i | 0 <= i < 4 ensures IsAlphabetChar(s[..4][i]) {
            assert s[..4][i] == s[i];
          }
        }
      }
      if DecodeGroups(s).Ok? {
        assert DecodeGroup(s[..4]).Ok?;
        assert forall i :: 0 <= i < 4 ==> IsAlphabetChar(s[i]) by {
          forall i | 0 <= i < 4 ensures IsAlphabetChar(s[i]) {
            assert s[..4][i] == s[i];
          }
        }
        assert IsBase64(s);
      }
    }
  }

  lemma LengthArithmetic(n: nat)
    requires n >= 3
    ensures 4 * ((n + 2) / 3) == 4 * ((n - 3 + 2) / 3) + 4
  {
    assert (n + 2) / 3 == (n - 3 + 2) / 3 + 1;
  }

  /** The encoding is `4 * ceil(n / 3)` characters long. */
  lemma {:induction false} EncodeLength(b: seq<byte>)
    ensures |Encode(b)| == 4 * ((|b| + 2) / 3)
    decreases |b|
  {
    if |b| > 2 {
      EncodeLength(b[3..]);
      LengthArithmetic(|b|);
    }
  }

  /** Dropping one group of three bytes keeps the remainder modulo 3. */
  lemma GroupArithmetic(n: nat)
    requires n >= 3
    ensures (n - 3) % 3 == n % 3
  {
    var q, r := n / 3, n % 3;
    assert n == 3 * q + r && 0 <= r < 3;
    assert n - 3 == 3 * (q - 1) + r;
  }

  lemma AddGroup(m: nat)
    requires m % 4 == 0
    ensures (m + 4) % 4 == 0
  {
  }

  /** `4 * ceil(n / 3)` characters are whole groups, holding `(4n + 2) / 3` sextets and `(3 - n % 3) % 3` pads. */
  lemma FrameArithmetic(n: nat)
    ensures var m, p := 4 * ((n + 2) / 3), (3 - n % 3) % 3;
      m % 4 == 0 && p <= m && m - p == (4 * n + 2) / 3
  {
    var q, r := n / 3, n % 3;
    assert n == 3 * q + r && 0 <= r < 3;
    if r == 0 {
      assert (n + 2) / 3 == q && (4 * n + 2) / 3 == 4 * q;
    } else if r == 1 {
      assert (n + 2) / 3 == q + 1 && (4 * n + 2) / 3 == 4 * q + 2;
    } else {
      assert (n + 2) / 3 == q + 1 && (4 * n + 2) / 3 == 4 * q + 3;
    }
  }

  lemma EncodeFrame(b: seq<byte>)
    ensures var e, p := Encode(b), (3 - |b| % 3) % 3;
      |e| % 4 == 0 && p <= |e| && |e| - p == (4 * |b| + 2) / 3
  {
    EncodeLength(b);
    FrameArithmetic(|b|);
  }

  /** Text made of alphabet characters followed by `p` pads. */
  predicate PaddedText(e: string, p: nat)
  {
    p <= |e|
    && (forall i :: 0 <= i < |e| - p ==> IsAlphabetChar(e[i]))
    && (forall i :: |e| - p <= i < |e| ==> e[i] == '=')
  }

  /** A group of four alphabet characters in front keeps the text padded the same way. */
  lemma PaddedTextPrepend(g: string, rest: string, p: nat)
    requires |g| == 4 && (forall i :: 0 <= i < 4 ==> IsAlphabetChar(g[i]))
    requires PaddedText(rest, p)
    ensures PaddedText(g + rest, p)
  {
    var e := g + rest;
    forall i | 4 <= i < |e| ensures e[i] == rest[i - 4] { }
  }

  lemma {:induction false} EncodeChars(b: seq<byte>)
    ensures PaddedText(Encode(b), (3 - |b| % 3) % 3)
    decreases |b|
  {
    if |b| > 2 {
      var g, rest := EncodeGroup(b[0], b[1], b[2]), Encode(b[3..]);
      assert Encode(b) == g + rest;
      EncodeChars(b[3..]);
      GroupArithmetic(|b|);
      PaddedTextPrepend(g, rest, (3 - |b| % 3) % 3);
    }
  }

  /** The encoding is whole groups: `(4n + 2) / 3` alphabet characters followed by `(3 - n % 3) % 3` pads. */
  lemma EncodeShape(b: seq<byte>)
    ensures var e, p := Encode(b), (3 - |b| % 3) % 3;
      && |e| % 4 == 0 && p <= |e|
      && |e| - p == (4 * |b| + 2) / 3
      && PadCount(e) == p
      && (forall i :: 0 <= i < |e| - p ==> IsAlphabetChar(e[i]))
      && (forall i :: |e| - p <= i < |e| ==> e[i] == '=')
  {
    var e, p := Encode(b), (3 - |b| % 3) % 3;
    EncodeFrame(b);
    EncodeChars(b);
    if |e| > 0 {
      assert |e| >= 4;
      assert IsAlphabetChar(e[|e| - p - 1]);
      if p == 2 {
        assert e[|e| - 1] == '=' && e[|e| - 2] == '=';
      } else if p == 1 {
        assert e[|e| - 1] == '=' && e[|e| - 2] != '=';
      } else {
        assert e[|e| - 1] != '=';
      }
    }
  }

  // The bit arithmetic of one group, one byte at a time.

  lemma Byte0RoundTrip(x: nat, y: nat)
    requires x < 256 && y < 256
    ensures Byte0(x / 4, (x % 4) * 16 + y / 16) as nat == x
  {
  }

  lemma Byte1RoundTrip(x: nat, y: nat, z: nat)
    requires x < 256 && y < 256 && z < 256
    ensures Byte1((x % 4) * 16 + y / 16, (y % 16) * 4 + z / 64) as nat == y
  {
  }

  lemma Byte2RoundTrip(y: nat, z: nat)
    requires y < 256 && z < 256
    ensures Byte2((y % 16) * 4 + z / 64, z % 64) as nat == z
  {
  }

  lemma DecodeEncodeOne(x: byte)
    ensures DecodeFinalGroup(EncodeOne(x)) == Ok([x])
  {
    var q := EncodeOne(x);
    var v0, v1 := x as nat / 4, (x as nat % 4) * 16;
    assert ValueOf(q[0]) == v0 && ValueOf(q[1]) == v1;
    Byte0RoundTrip(x as nat, 0);
    assert DecodeFinalGroup(q) == Ok([Byte0(v0, v1)]);
  }

  lemma DecodeEncodeTwo(x: byte, y: byte)
    ensures DecodeFinalGroup(EncodeTwo(x, y)) == Ok([x, y])
  {
    var q := EncodeTwo(x, y);
    var v0, v1, v2 := x as nat / 4, (x as nat % 4) * 16 + y as nat / 16, (y as nat % 16) * 4;
    assert ValueOf(q[0]) == v0 && ValueOf(q[1]) == v1 && ValueOf(q[2]) == v2;
    Byte0RoundTrip(x as nat, y as nat);
    Byte1RoundTrip(x as nat, y as nat, 0);
    assert DecodeFinalGroup(q) == Ok([Byte0(v0, v1), Byte1(v1, v2)]);
  }

  lemma DecodeEncodeGroup(x: byte, y: byte, z: byte)
    ensures DecodeGroup(EncodeGroup(x, y, z)) == Ok([x, y, z])
  {
    var q := EncodeGroup(x, y, z);
    var v0, v1 := x as nat / 4, (x as nat % 4) * 16 + y as nat / 16;
    var v2, v3 := (y as nat % 16) * 4 + z as nat / 64, z as nat % 64;
    assert ValueOf(q[0]) == v0 && ValueOf(q[1]) == v1 && ValueOf(q[2]) == v2 && ValueOf(q[3]) == v3;
    Byte0RoundTrip(x as nat, y as nat);
    Byte1RoundTrip(x as nat, y as nat, z as nat);
    Byte2RoundTrip(y as nat, z as nat);
    assert DecodeGroup(q) == Ok([Byte0(v0, v1), Byte1(v1, v2), Byte2(v2, v3)]);
  }

  /** Decoding inverts encoding on every byte sequence. */
  lemma {:induction false} DecodeEncode(b: seq<byte>)
    ensures Decode(Encode(b)) == Ok(b)
  {
    DecodeEncodeGroups(b);
  }

  lemma {:induction false} DecodeEncodeGroups(b: seq<byte>)
    ensures |Encode(b)| % 4 == 0 && DecodeGroups(Encode(b)) == Ok(b)
    decreases |b|
  {
    if |b| == 0 {
      assert Encode(b) == "";
    } else if |b| <= 3 {
      DecodeEncodeLast(b);
    } else {
      var g, rest := EncodeGroup(b[0], b[1], b[2]), Encode(b[3..]);
      assert Encode(b) == g + rest;
      DecodeEncodeGroups(b[3..]);
      EncodeLength(b[3..]);
      DecodeEncodeStep(b, g, rest);
    }
  }

  /** One more leading group of three bytes decodes in front of the rest. */
  lemma DecodeEncodeStep(b: seq<byte>, g: string, rest: string)
    requires |b| > 3 && g == EncodeGroup(b[0], b[1], b[2])
    requires |rest| == 4 * ((|b| - 3 + 2) / 3) && |rest| % 4 == 0
    requires DecodeGroups(rest) == Ok(b[3..])
    ensures |g + rest| % 4 == 0 && DecodeGroups(g + rest) == Ok(b)
  {
    AddGroup(|rest|);
    DecodeEncodeGroup(b[0], b[1], b[2]);
    DecodeGroupsPrepend(g, rest);
    SplitFirstThree(b);
  }

  lemma SplitFirstThree(b: seq<byte>)
    requires |b| >= 3
    ensures b == [b[0], b[1], b[2]] + b[3..]
  {
    assert b[..3] == [b[0], b[1], b[2]];
    assert b == b[..3] + b[3..];
  }

  /** The last one, two or three bytes make a single group that decodes back to them. */
  lemma DecodeEncodeLast(b: seq<byte>)
    requires 1 <= |b| <= 3
    ensures |Encode(b)| == 4 && DecodeGroups(Encode(b)) == Ok(b)
  {
    if |b| == 1 {
      assert Encode(b) == EncodeOne(b[0]);
      assert DecodeFinalGroup(EncodeOne(b[0])) == Ok(b) by {
        DecodeEncodeOne(b[0]);
        assert b == [b[0]];
      }
    } else if |b| == 2 {
      assert Encode(b) == EncodeTwo(b[0], b[1]);
      assert DecodeFinalGroup(EncodeTwo(b[0], b[1])) == Ok(b) by {
        DecodeEncodeTwo(b[0], b[1]);
        assert b == [b[0], b[1]];
      }
    } else {
      var g := EncodeGroup(b[0], b[1], b[2]);
      assert Encode(b) == g by {
        assert Encode(b) == g + Encode(b[3..]);
      }
      assert DecodeFinalGroup(g) == Ok(b) by {
        DecodeEncodeGroup(b[0], b[1], b[2]);
        assert b == [b[0], b[1], b[2]];
      }
    }
  }

  /** A complete leading group decodes in front of whatever the rest decodes to. */
  lemma DecodeGroupsPrepend(g: string, rest: string)
    requires |g| == 4 && |rest| % 4 == 0 && |rest| >= 4
    requires DecodeGroup(g).Ok? && DecodeGroups(rest).Ok?
    ensures DecodeGroups(g + rest) == Ok(DecodeGroup(g).value + DecodeGroups(rest).value)
  {
    var s := g + rest;
    assert s[..4] == g && s[4..] == rest;
  }
}
