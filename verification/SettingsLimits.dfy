/**
 UTF-16 validation and truncation of settings text. The scanning loop is measured against the
 encoding itself, as sections 2.1 and 2.2 of RFC 2781 define it: a code-unit sequence is
 valid exactly if it encodes some sequence of Unicode scalar values.
 */
module SettingsLimits {
  import opened Words

  type Units = seq<U16>

  predicate IsScalar(u: nat) {
    u < 0xD800 || 0xE000 <= u < 0x11_0000
  }

  type Scalar = u: nat | IsScalar(u)

  predicate IsHigh(w: U16) { 0xD800 <= w <= 0xDBFF }

  predicate IsLow(w: U16) { 0xDC00 <= w <= 0xDFFF }

  // ---- the encoding

  /** Section 2.1 of RFC 2781. */
  ghost function EncodeOne(u: Scalar): (w: Units)
    ensures 1 <= |w| <= 2
  {
    if u < 0x1_0000 then [u]
    else [HighOf(u), LowOf(u)]
  }

  ghost function HighOf(u: Scalar): (w: U16)
    requires u >= 0x1_0000
    ensures IsHigh(w)
  {
    var offset: int := u - 0x1_0000;
    assert IsScalar(u);
    0xD800 + offset / 0x400
  }

  ghost function LowOf(u: Scalar): (w: U16)
    requires u >= 0x1_0000
    ensures IsLow(w)
  {
    var offset: int := u - 0x1_0000;
    0xDC00 + offset % 0x400
  }

  /** The scalar value of a surrogate pair. */
  ghost function Joined(high: U16, low: U16): (u: Scalar)
    requires IsHigh(high) && IsLow(low)
    ensures u >= 0x1_0000 && HighOf(u) == high && LowOf(u) == low
  {
    var h: int, l: int := high, low;
    0x1_0000 + (h - 0xD800) * 0x400 + (l - 0xDC00)
  }

  lemma JoinedUndoesSplit(u: Scalar)
    requires u >= 0x1_0000
    ensures Joined(HighOf(u), LowOf(u)) == u
    ensures u == 0x1_0000 + (HighOf(u) as int - 0xD800) * 0x400 + (LowOf(u) as int - 0xDC00)
  {
    var offset: int := u - 0x1_0000;
    assert offset == offset / 0x400 * 0x400 + offset % 0x400;
  }

  ghost function Encode(text: seq<Scalar>): Units {
    if text == [] then [] else EncodeOne(text[0]) + Encode(text[1..])
  }

  /** Section 2.2 of RFC 2781: reads one scalar value after the other, and fails on the first unit
      that no encoding could have put there. */
  ghost function Decode(w: Units): Option<seq<Scalar>> {
    if w == [] then Some([])
    else if IsLow(w[0]) then None
    else if IsHigh(w[0]) then
      if |w| < 2 || !IsLow(w[1]) then None
      else
        var rest := Decode(w[2..]);
        if rest.None? then None
        else Some([Joined(w[0], w[1])] + rest.value)
    else
      var rest := Decode(w[1..]);
      if rest.None? then None else Some([w[0] as Scalar] + rest.value)
  }

  ghost predicate Encodes(text: seq<Scalar>, w: Units) {
    Encode(text) == w
  }

  lemma {:induction false} DecodeEncode(text: seq<Scalar>)
    ensures Decode(Encode(text)) == Some(text)
  {
    if text != [] {
      DecodeEncode(text[1..]);
      var u, tail := text[0], Encode(text[1..]);
      assert Encode(text) == EncodeOne(u) + tail;
      assert (EncodeOne(u) + tail)[|EncodeOne(u)|..] == tail;
      assert [u] + text[1..] == text;
      if u >= 0x1_0000 {
        JoinedUndoesSplit(u);
      } else {
        assert !IsHigh(u) && !IsLow(u);
      }
    }
  }

  lemma {:induction false} EncodeDecode(w: Units)
    requires Decode(w).Some?
    ensures Encode(Decode(w).value) == w
    decreases |w|
  {
    if w != [] {
      var text := Decode(w).value;
      if IsHigh(w[0]) {
        EncodeDecode(w[2..]);
        assert text[1..] == Decode(w[2..]).value;
        assert EncodeOne(text[0]) == [w[0], w[1]];
      } else {
        EncodeDecode(w[1..]);
        assert text[1..] == Decode(w[1..]).value;
      }
    }
  }

  /** Decoding succeeds exactly on encodings, and then it is the only text with that encoding. */
  lemma DecodesExactlyEncodings(w: Units, text: seq<Scalar>)
    ensures Decode(w) == Some(text) <==> Encodes(text, w)
  {
    DecodeEncode(text);
    if Decode(w).Some? {
      EncodeDecode(w);
    }
  }

  // ---- validation

  method IsValidUtf16(value: Units) returns (b: bool)
    ensures b <==> exists text :: Encodes(text, value)
  {
    var index := 0;
    assert value[0..] == value;
    while index < |value|
      invariant 0 <= index <= |value|
      invariant Decode(value).Some? <==> Decode(value[index..]).Some?
    {
      var character := value[index];
      if IsHigh(character) {
        if index + 1 >= |value| {
          DecodableIffEncoding(value);
          return false;
        }
        var low := value[index + 1];
        if low < 0xDC00 || low > 0xDFFF {
          DecodableIffEncoding(value);
          return false;
        }
        assert value[index..][2..] == value[index + 2..];
        index := index + 2;
        continue;
      } else if IsLow(character) {
        DecodableIffEncoding(value);
        return false;
      }
      assert value[index..][1..] == value[index + 1..];
      index := index + 1;
    }
    DecodableIffEncoding(value);
    return true;
  }

  lemma DecodableIffEncoding(w: Units)
    ensures Decode(w).Some? <==> exists text :: Encodes(text, w)
  {
    if Decode(w).Some? {
      DecodesExactlyEncodings(w, Decode(w).value);
    }
    forall text | Encodes(text, w) ensures Decode(w).Some? {
      DecodesExactlyEncodings(w, text);
    }
  }

  ghost predicate Valid(w: Units) { Decode(w).Some? }

  ghost predicate Bounded(w: Units, limit: nat) {
    |w| <= limit && 0 !in w && Valid(w)
  }

  method IsBoundedUtf16(value: Units, limit: nat) returns (b: bool)
    ensures b <==> Bounded(value, limit)
    ensures b <==> |value| <= limit && (forall i :: 0 <= i < |value| ==> value[i] != 0)
                   && exists text :: Encodes(text, value)
  {
    DecodableIffEncoding(value);
    b := |value| <= limit && 0 !in value;
    if b {
      b := IsValidUtf16(value);
    }
  }

  // ---- truncation

  /** A prefix of valid text is valid exactly when it does not end in a high surrogate. */
  lemma {:induction false} PrefixIsValidIff(w: Units, k: nat)
    requires Valid(w) && k <= |w|
    ensures Valid(w[..k]) <==> k == 0 || !IsHigh(w[k - 1])
    decreases |w|
  {
    if k > 0 {
      if IsHigh(w[0]) {
        if k > 1 {
          assert w[..k][2..] == w[2..][..k - 2];
          PrefixIsValidIff(w[2..], k - 2);
        }
      } else {
        assert w[..k][1..] == w[1..][..k - 1];
        PrefixIsValidIff(w[1..], k - 1);
      }
    }
  }

  function Least(a: nat, b: nat): nat {
    if a <= b then a else b
  }

  /** `r` is the longest valid prefix of `value` within the limit. */
  ghost predicate LongestValidPrefix(r: Units, value: Units, limit: nat) {
    && r <= value && |r| <= limit && Valid(r)
    && forall k :: |r| < k <= Least(|value|, limit) ==> !Valid(value[..k])
  }

  /** For every input the result is bounded. Valid text without a null unit is cut to its longest
      valid prefix within the limit, at most one unit short of it; any other text becomes empty. */
  method TruncateUtf16(value: Units, limit: nat) returns (r: Units)
    ensures Bounded(r, limit)
    ensures 0 in value || !Valid(value) ==> r == []
    ensures 0 !in value && Valid(value) ==>
              LongestValidPrefix(r, value, limit) && Least(|value|, limit) <= |r| + 1
  {
    DecodableIffEncoding(value);
    var valid := IsValidUtf16(value);
    if 0 in value || !valid {
      return [];
    }
    var length := Least(|value|, limit);
    if length != |value| && length != 0 {
      var last := value[length - 1];
      if IsHigh(last) {
        length := length - 1;
      }
    }
    r := value[..length];
    NoAdjacentHighs(value, length);
    if length < |value| {
      PrefixIsValidIff(value, length);
      PrefixIsValidIff(value, length + 1);
    } else {
      assert value[..length] == value;
    }
  }

  /** In valid text a high surrogate is followed by a low one, so two never meet. */
  lemma {:induction false} NoAdjacentHighs(w: Units, k: nat)
    requires Valid(w)
    ensures 0 < k < |w| && IsHigh(w[k]) ==> !IsHigh(w[k - 1])
    decreases |w|
  {
    if 0 < k < |w| {
      if IsHigh(w[0]) {
        if k >= 2 {
          assert w[k] == w[2..][k - 2];
          if k > 2 {
            NoAdjacentHighs(w[2..], k - 2);
            assert w[k - 1] == w[2..][k - 3];
          }
        }
      } else if k > 1 {
        NoAdjacentHighs(w[1..], k - 1);
      }
    }
  }

  /** The longest valid prefix is unique, so the contract determines the result. */
  lemma TruncationIsDetermined(r: Units, s: Units, value: Units, limit: nat)
    requires LongestValidPrefix(r, value, limit) && LongestValidPrefix(s, value, limit)
    ensures s == r
  {
    assert r == value[..|r|] && s == value[..|s|];
  }

  /** Truncating a result again at the same limit leaves it as it is. */
  lemma TruncationIsIdempotent(r: Units, s: Units, limit: nat)
    requires Bounded(r, limit) && LongestValidPrefix(s, r, limit)
    ensures s == r
  {
    assert r[..|r|] == r;
  }

  /** In terms of characters: truncation keeps as many whole leading scalar values as fit. */
  lemma TruncationKeepsWholeScalars(r: Units, value: Units, limit: nat)
    requires Valid(value) && LongestValidPrefix(r, value, limit)
    ensures var text, kept := Decode(value).value, Decode(r).value;
            && kept <= text
            && forall n :: |kept| < n <= |text| ==> |Encode(text[..n])| > limit
  {
    var text, kept := Decode(value).value, Decode(r).value;
    assert value[..|r|] == r;
    DecodePrefix(value, |r|);
    forall n | |kept| < n <= |text| ensures |Encode(text[..n])| > limit {
      EncodeDecode(value);
      EncodeSplits(text, n);
      var w := Encode(text[..n]);
      assert value[..|w|] == w;
      DecodeEncode(text[..n]);
      EncodeDecode(r);
      assert text[..n][..|kept|] == kept;
      EncodeLonger(text[..n], |kept|);
    }
  }

  lemma {:induction false} DecodePrefix(w: Units, k: nat)
    requires Valid(w) && k <= |w| && Valid(w[..k])
    ensures Decode(w[..k]).value <= Decode(w).value
    decreases |w|
  {
    if k > 0 {
      if IsHigh(w[0]) {
        assert w[..k][2..] == w[2..][..k - 2];
        DecodePrefix(w[2..], k - 2);
      } else {
        assert w[..k][1..] == w[1..][..k - 1];
        DecodePrefix(w[1..], k - 1);
      }
    }
  }

  lemma {:induction false} EncodeSplits(text: seq<Scalar>, n: nat)
    requires n <= |text|
    ensures Encode(text) == Encode(text[..n]) + Encode(text[n..])
  {
    if n == 0 {
      assert text[0..] == text;
    } else {
      EncodeSplits(text[1..], n - 1);
      assert text[..n][1..] == text[1..][..n - 1] && text[1..][n - 1..] == text[n..];
      Associates(EncodeOne(text[0]), Encode(text[1..][..n - 1]), Encode(text[n..]));
    }
  }

  /** A longer text has a longer encoding. */
  lemma EncodeLonger(text: seq<Scalar>, n: nat)
    requires n < |text|
    ensures |Encode(text[..n])| < |Encode(text)|
  {
    EncodeSplits(text, n);
  }
}
