/**
  The test helper `Base64UrlDecoder`: it turns the URL-safe, unpadded
  alphabet of section 5 of RFC 4648 into standard base64 by padding with `=`
  to a multiple of four characters, replacing `_` by `/` and `-` by `+`, and
  then hands the text to `Convert.FromBase64String` (modelled by
  `Base64.Decode`).  `Encode` is the unpadded base64url encoder of Appendix C
  of RFC 7515, the reference that `Decode` is proved to invert.
*/
module Base64Url {
  import opened Wrappers
  import Base64

  predicate IsUrlAlphabetChar(c: char) {
    ('A' <= c <= 'Z') || ('a' <= c <= 'z') || ('0' <= c <= '9') || c == '-' || c == '_'
  }

  /** Appends the last `4 - len % 4` characters of a run of four `=`, unless the length is already a multiple of four. */
  function Pad(s: string): (r: string)
    ensures |r| % 4 == 0
    ensures |r| == |s| + (4 - |s| % 4) % 4
    ensures r[..|s|] == s
    ensures forall i :: |s| <= i < |r| ==> r[i] == '='
    ensures |s| % 4 == 0 ==> r == s
  {
    if |s| % 4 == 0 then s else s + "===="[|s| % 4..]
  }

  /** `String.Replace` with one-character arguments: every `from` becomes `to`. */
  function Replace(s: string, from: char, to: char): (r: string)
    ensures |r| == |s|
    ensures forall i :: 0 <= i < |s| ==> r[i] == if s[i] == from then to else s[i]
    decreases |s|
  {
    if |s| == 0 then ""
    else [if s[0] == from then to else s[0]] + Replace(s[1..], from, to)
  }

  /** The two chained replacements of the helper: first `_` by `/`, then `-` by `+`. */
  function ToStandardAlphabet(s: string): (r: string)
    ensures |r| == |s|
    ensures forall i :: 0 <= i < |s| ==>
      r[i] == (if s[i] == '_' then '/' else if s[i] == '-' then '+' else s[i])
    ensures forall i :: 0 <= i < |r| ==> r[i] != '-' && r[i] != '_'
  {
    Replace(Replace(s, '_', '/'), '-', '+')
  }

  /**
    `Base64UrlDecoder`: pad, translate, then decode as standard base64.  It
    succeeds exactly when the padded, translated text is well-formed, never on
    an input of length `4k + 1`, and the byte count is three per group less one
    per pad.  `DecodeSucceedsIff`, `DecodeLength` and `DecodeEncode` state what
    this means for URL-safe input.
  */
  function Decode(s: string): (r: Result<seq<Base64.byte>, Base64.DecodeError>)
    ensures r.Ok? <==> Base64.IsBase64(ToStandardAlphabet(Pad(s)))
    ensures |s| % 4 == 1 ==> r.Err?
    ensures r.Ok? ==> |r.value| == 3 * (|Pad(s)| / 4) - Base64.PadCount(ToStandardAlphabet(Pad(s)))
  {
    if |s| % 4 == 1 then PadLengthOneModFourIsMalformed(s); Base64.Decode(ToStandardAlphabet(Pad(s)))
    else Base64.Decode(ToStandardAlphabet(Pad(s)))
  }

  /** `s.Split(sep)[0]`: everything before the first `sep`. */
  function TakeBefore(s: string, sep: char): (r: string)
    ensures r <= s
    ensures sep !in r
    ensures |r| < |s| ==> s[|r|] == sep
    decreases |s|
  {
    if |s| == 0 || s[0] == sep then "" else [s[0]] + TakeBefore(s[1..], sep)
  }

  /** The reverse translation used by the encoder: `+` to `-`, `/` to `_`. */
  function ToUrlAlphabet(s: string): (r: string)
    ensures |r| == |s|
    ensures forall i :: 0 <= i < |s| ==>
      r[i] == (if s[i] == '+' then '-' else if s[i] == '/' then '_' else s[i])
  {
    Replace(Replace(s, '+', '-'), '/', '_')
  }

  /** Unpadded base64url encoding (Appendix C of RFC 7515): drop the `=` padding, then `+` to `-` and `/` to `_`. */
  function Encode(b: seq<Base64.byte>): string {
    ToUrlAlphabet(TakeBefore(Base64.Encode(b), '='))
  }

  /** Padding is idempotent. */
  lemma PadIdempotent(s: string)
    ensures Pad(Pad(s)) == Pad(s)
  {
  }

  /** Translating a second time changes nothing. */
  lemma ToStandardAlphabetIdempotent(s: string)
    ensures ToStandardAlphabet(ToStandardAlphabet(s)) == ToStandardAlphabet(s)
  {
    var t := ToStandardAlphabet(s);
    var tt := ToStandardAlphabet(t);
    assert forall i :: 0 <= i < |t| ==> tt[i] == t[i];
  }

  /** The two replacements act on disjoint characters, so their order does not matter. */
  lemma ReplaceOrderIrrelevant(s: string)
    ensures Replace(Replace(s, '-', '+'), '_', '/') == ToStandardAlphabet(s)
  {
    var a := Replace(Replace(s, '-', '+'), '_', '/');
    var b := ToStandardAlphabet(s);
    assert forall i :: 0 <= i < |s| ==> a[i] == b[i];
  }

  /** `=` is left alone by the translation, so padding before or after it gives the same text. */
  lemma PadCommutesWithTranslation(s: string)
    ensures ToStandardAlphabet(Pad(s)) == Pad(ToStandardAlphabet(s))
  {
    var a := ToStandardAlphabet(Pad(s));
    var b := Pad(ToStandardAlphabet(s));
    assert |a| == |b|;
    forall i | 0 <= i < |a| ensures a[i] == b[i] {
      if i < |s| {
        assert Pad(s)[i] == Pad(s)[..|s|][i] == s[i];
        assert b[i] == b[..|s|][i] == ToStandardAlphabet(s)[i];
      }
    }
  }

  /** Text in the standard alphabet, once padded, is well-formed base64 unless its length is `4k + 1`. */
  lemma PadAlphabetText(u: string)
    requires forall i :: 0 <= i < |u| ==> Base64.IsAlphabetChar(u[i])
    ensures Base64.IsBase64(Pad(u)) <==> |u| % 4 != 1
    ensures |u| % 4 != 1 ==> Base64.PadCount(Pad(u)) == |Pad(u)| - |u|
  {
    var p := Pad(u);
    assert forall i :: 0 <= i < |u| ==> p[i] == u[i] by {
      forall i | 0 <= i < |u| ensures p[i] == u[i] {
        assert p[..|u|][i] == p[i];
      }
    }
    if |u| % 4 == 1 {
      assert p[|u|] == '=' && p[|u| + 1] == '=' && p[|u| + 2] == '=';
      assert Base64.PadCount(p) == 2;
      assert !Base64.IsAlphabetChar(p[|u|]) && |u| < |p| - Base64.PadCount(p);
      assert !Base64.IsBase64(p);
    } else {
      if |u| % 4 == 2 {
        assert p[|u| - 1] == u[|u| - 1] && p[|u|] == '=' && p[|u| + 1] == '=';
      } else if |u| % 4 == 3 {
        assert p[|u| - 1] == u[|u| - 1] && p[|u|] == '=';
      } else if |u| > 0 {
        assert p[|p| - 1] == u[|u| - 1];
      }
      assert Base64.PadCount(p) == |p| - |u|;
      assert Base64.IsBase64(p);
    }
  }

  /** URL-safe text becomes standard-alphabet text, and the two translations undo each other. */
  lemma TranslateUrlText(s: string)
    requires forall i :: 0 <= i < |s| ==> IsUrlAlphabetChar(s[i])
    ensures forall i :: 0 <= i < |s| ==> Base64.IsAlphabetChar(ToStandardAlphabet(s)[i])
    ensures ToUrlAlphabet(ToStandardAlphabet(s)) == s
  {
    var t := ToUrlAlphabet(ToStandardAlphabet(s));
    assert forall i :: 0 <= i < |s| ==> t[i] == s[i];
  }

  /** Standard-alphabet text becomes URL-safe text, and the two translations undo each other. */
  lemma TranslateStandardText(u: string)
    requires forall i :: 0 <= i < |u| ==> Base64.IsAlphabetChar(u[i])
    ensures forall i :: 0 <= i < |u| ==> IsUrlAlphabetChar(ToUrlAlphabet(u)[i])
    ensures ToStandardAlphabet(ToUrlAlphabet(u)) == u
  {
    var t := ToStandardAlphabet(ToUrlAlphabet(u));
    assert forall i :: 0 <= i < |u| ==> t[i] == u[i];
  }

  /** An input of length `4k + 1` is padded with `===`, which is not valid padding. */
  lemma PadLengthOneModFourIsMalformed(s: string)
    requires |s| % 4 == 1
    ensures !Base64.IsBase64(ToStandardAlphabet(Pad(s)))
  {
    var p := ToStandardAlphabet(Pad(s));
    assert p[|s|] == Pad(s)[|s|] == '=';
    assert p[|s| + 1] == Pad(s)[|s| + 1] == '=';
    assert p[|s| + 2] == Pad(s)[|s| + 2] == '=';
    assert Base64.PadCount(p) == 2;
    assert !Base64.IsAlphabetChar(p[|s|]);
  }

  /** On text in the URL-safe alphabet, decoding succeeds exactly when the length is not `4k + 1`. */
  lemma DecodeSucceedsIff(s: string)
    requires forall i :: 0 <= i < |s| ==> IsUrlAlphabetChar(s[i])
    ensures Decode(s).Ok? <==> |s| % 4 != 1
  {
    var u := ToStandardAlphabet(s);
    PadCommutesWithTranslation(s);
    TranslateUrlText(s);
    PadAlphabetText(u);
  }

  /** An unpadded input of `n` URL-safe characters decodes to `3 * (paddedLen / 4) - padCount` bytes, that is `3n / 4` rounded down. */
  lemma DecodeLength(s: string)
    requires forall i :: 0 <= i < |s| ==> IsUrlAlphabetChar(s[i])
    requires Decode(s).Ok?
    ensures |Decode(s).value| == 3 * (|Pad(s)| / 4) - (4 - |s| % 4) % 4
    ensures |Decode(s).value| == (3 * |s|) / 4
  {
    DecodeSucceedsIff(s);
    var u := ToStandardAlphabet(s);
    PadCommutesWithTranslation(s);
    TranslateUrlText(s);
    PadAlphabetText(u);
    var q, r := |s| / 4, |s| % 4;
    assert |s| == 4 * q + r;
    if r == 0 {
      assert |Pad(s)| == 4 * q;
    } else {
      assert |Pad(s)| == 4 * q + 4;
    }
  }

  /** Input already in padded standard base64 passes through the padding and the translation unchanged. */
  lemma DecodeAcceptsStandardBase64(s: string)
    requires Base64.IsBase64(s)
    ensures Decode(s) == Base64.Decode(s)
  {
    var t := ToStandardAlphabet(s);
    assert forall i :: 0 <= i < |s| ==> s[i] != '-' && s[i] != '_';
    assert t == s;
    assert Pad(s) == s;
    assert ToStandardAlphabet(Pad(s)) == s;
  }

  lemma {:induction false} TakeBeforePrefix(x: string, y: string, sep: char)
    requires sep !in x
    requires y == [] || y[0] == sep
    ensures TakeBefore(x + y, sep) == x
    decreases |x|
  {
    if |x| > 0 {
      assert (x + y)[1..] == x[1..] + y;
      TakeBeforePrefix(x[1..], y, sep);
      assert x == [x[0]] + x[1..];
    }
  }

  /** Appending the right number of `=` to `body` is what `Pad` does. */
  lemma PadRestores(body: string, pads: string)
    requires |pads| == (4 - |body| % 4) % 4
    requires forall i :: 0 <= i < |pads| ==> pads[i] == '='
    ensures Pad(body) == body + pads
  {
    var e := body + pads;
    forall i | 0 <= i < |e| ensures Pad(body)[i] == e[i] {
      if i < |body| {
        assert Pad(body)[i] == Pad(body)[..|body|][i] == body[i];
      }
    }
  }

  lemma PadArithmetic(n: nat, p: nat)
    requires n % 4 == 0 && p <= 2 && p <= n
    ensures (4 - (n - p) % 4) % 4 == p
  {
    var k := n / 4;
    assert n == 4 * k;
    if p == 1 {
      assert n - p == 4 * (k - 1) + 3;
    } else if p == 2 {
      assert n - p == 4 * (k - 1) + 2;
    }
  }

  /** Text whose first `=` starts its trailing pads is, before that `=`, the text without its pads. */
  lemma TakeBeforePads(e: string, p: nat)
    requires p <= |e|
    requires forall i :: 0 <= i < |e| - p ==> e[i] != '='
    requires forall i :: |e| - p <= i < |e| ==> e[i] == '='
    ensures TakeBefore(e, '=') == e[..|e| - p]
  {
    var body, pads := e[..|e| - p], e[|e| - p..];
    assert e == body + pads;
    assert '=' !in body by {
      forall i | 0 <= i < |body| ensures body[i] != '=' {
        assert body[i] == e[i];
      }
    }
    TakeBeforePrefix(body, pads, '=');
  }

  /** Whole groups whose last `p` characters are `=` are their first `|e| - p` characters, padded. */
  lemma PadRestoresPads(e: string, p: nat)
    requires |e| % 4 == 0 && p <= 2 && p <= |e|
    requires forall i :: |e| - p <= i < |e| ==> e[i] == '='
    ensures Pad(e[..|e| - p]) == e
  {
    var body, pads := e[..|e| - p], e[|e| - p..];
    assert e == body + pads;
    assert forall i :: 0 <= i < |pads| ==> pads[i] == '=' by {
      forall i | 0 <= i < |pads| ensures pads[i] == '=' {
        assert pads[i] == e[|e| - p + i];
      }
    }
    PadArithmetic(|e|, p);
    PadRestores(body, pads);
  }

  /** The standard encoding is its unpadded prefix, padded again. */
  lemma StandardEncodingSplit(b: seq<Base64.byte>)
    ensures var body := TakeBefore(Base64.Encode(b), '=');
      && |body| == (4 * |b| + 2) / 3
      && (forall i :: 0 <= i < |body| ==> Base64.IsAlphabetChar(body[i]))
      && Pad(body) == Base64.Encode(b)
  {
    var e := Base64.Encode(b);
    var p := (3 - |b| % 3) % 3;
    Base64.EncodeShape(b);
    TakeBeforePads(e, p);
    PadRestoresPads(e, p);
  }

  /** The unpadded base64url encoding is URL-safe text of the unpadded length `(4n + 2) / 3`. */
  lemma EncodeShape(b: seq<Base64.byte>)
    ensures |Encode(b)| == (4 * |b| + 2) / 3
    ensures forall i :: 0 <= i < |Encode(b)| ==> IsUrlAlphabetChar(Encode(b)[i])
  {
    StandardEncodingSplit(b);
    TranslateStandardText(TakeBefore(Base64.Encode(b), '='));
  }

  /** Decoding inverts the unpadded base64url encoding. */
  lemma DecodeEncode(b: seq<Base64.byte>)
    ensures Decode(Encode(b)) == Ok(b)
  {
    var body := TakeBefore(Base64.Encode(b), '=');
    StandardEncodingSplit(b);
    TranslateStandardText(body);
    PadCommutesWithTranslation(Encode(b));
    Base64.DecodeEncode(b);
  }
}
