/**
  Hardware-address normalisation: `normalize_mac` of find_device.py.

  Every character other than 0-9, a-f and A-F is dropped, the rest is
  lowercased, and exactly twelve remaining digits are grouped into six
  colon-separated pairs; any other count gives None.
*/
module Mac {
  import opened Wrappers
  import opened Strings

  /** The regular-expression class `[0-9a-fA-F]`. */
  predicate IsHexDigit(c: char)
  {
    '0' <= c <= '9' || 'a' <= c <= 'f' || 'A' <= c <= 'F'
  }

  /** A hex digit as it appears after `lower()`. */
  predicate IsLowerHexDigit(c: char)
  {
    '0' <= c <= '9' || 'a' <= c <= 'f'
  }

  /** `re.sub(r'[^0-9a-fA-F]', '', s)`: the hex digits of `s`, in order. */
  function HexOnly(s: string): (r: string)
    ensures |r| <= |s|
    ensures forall i | 0 <= i < |r| :: IsHexDigit(r[i])
  {
    if s == [] then []
    else (if IsHexDigit(s[0]) then [s[0]] else []) + HexOnly(s[1..])
  }

  /** `[h[i:i+2] for i in range(0, 12, 2)]`: the six digit pairs. */
  function Pairs(h: string): (p: seq<string>)
    requires |h| == 12
    ensures |p| == 6 && forall k | 0 <= k < 6 :: |p[k]| == 2
  {
    seq(6, k requires 0 <= k < 6 => h[2 * k..2 * k + 2])
  }

  /** The digits that `normalize_mac` works on: the lowercased hex-only content. */
  function Digits(mac: string): (r: string)
    ensures |r| <= |mac|
  {
    Lower(HexOnly(mac))
  }

  /** `normalize_mac(mac)`. */
  function NormalizeMac(mac: string): Option<string>
  {
    if mac == "" then None
    else
      var h := Digits(mac);
      if |h| != 12 then None else Some(Join(":", Pairs(h)))
  }

  /** The canonical form: six pairs of lowercase hex digits separated by colons. */
  predicate IsCanonicalMac(s: string)
  {
    |s| == 17 && forall i | 0 <= i < 17 :: if i % 3 == 2 then s[i] == ':' else IsLowerHexDigit(s[i])
  }

  // ---------------------------------------------------------------- lemmas

  /** Stripping non-hex characters distributes over concatenation. */
  lemma {:induction false} HexOnlyAppend(s: string, t: string)
    ensures HexOnly(s + t) == HexOnly(s) + HexOnly(t)
  {
    if s == [] {
      assert s + t == t;
    } else {
      assert (s + t)[1..] == s[1..] + t;
      HexOnlyAppend(s[1..], t);
    }
  }

  /** Stripping a string of hex digits leaves it unchanged. */
  lemma {:induction false} HexOnlyOfHex(s: string)
    requires forall i | 0 <= i < |s| :: IsHexDigit(s[i])
    ensures HexOnly(s) == s
  {
    if s != [] {
      HexOnlyOfHex(s[1..]);
    }
  }

  /** `lower()` leaves a string of lowercase hex digits unchanged. */
  lemma LowerOfLowerHex(s: string)
    requires forall i | 0 <= i < |s| :: IsLowerHexDigit(s[i])
    ensures Lower(s) == s
  {
  }

  /** Lowercasing hex digits gives lowercase hex digits. */
  lemma LowerHex(s: string)
    requires forall i | 0 <= i < |s| :: IsHexDigit(s[i])
    ensures |Lower(s)| == |s|
    ensures forall i | 0 <= i < |s| :: IsLowerHexDigit(Lower(s)[i])
  {
  }

  /**
    Joining two-character parts with a one-character separator puts part k at
    positions 3k and 3k+1 and the separator at 3k+2.
  */
  lemma {:induction false} JoinPairsLayout(sep: char, parts: seq<string>)
    requires |parts| >= 1
    requires forall k | 0 <= k < |parts| :: |parts[k]| == 2
    ensures |Join([sep], parts)| == 3 * |parts| - 1
    ensures forall k | 0 <= k < |parts| ::
      Join([sep], parts)[3 * k] == parts[k][0] && Join([sep], parts)[3 * k + 1] == parts[k][1]
    ensures forall k | 0 <= k < |parts| - 1 :: Join([sep], parts)[3 * k + 2] == sep
  {
    if |parts| > 1 {
      JoinPairsLayout(sep, parts[1..]);
      var j := Join([sep], parts);
      var rest := Join([sep], parts[1..]);
      assert j == parts[0] + [sep] + rest;
      forall k | 1 <= k < |parts|
        ensures j[3 * k] == parts[k][0] && j[3 * k + 1] == parts[k][1]
      {
        assert j[3 * k] == rest[3 * (k - 1)];
        assert j[3 * k + 1] == rest[3 * (k - 1) + 1];
      }
      forall k | 1 <= k < |parts| - 1
        ensures j[3 * k + 2] == sep
      {
        assert j[3 * k + 2] == rest[3 * (k - 1) + 2];
      }
    }
  }

  /** Dropping non-hex separators from joined hex parts gives their concatenation. */
  lemma {:induction false} HexOnlyOfJoin(sep: char, parts: seq<string>)
    requires !IsHexDigit(sep)
    requires forall k, i | 0 <= k < |parts| && 0 <= i < |parts[k]| :: IsHexDigit(parts[k][i])
    ensures HexOnly(Join([sep], parts)) == Join("", parts)
  {
    if |parts| == 1 {
      HexOnlyOfHex(parts[0]);
    } else if |parts| > 1 {
      assert Join("", parts) == parts[0] + Join("", parts[1..]);
      var rest := Join([sep], parts[1..]);
      HexOnlyAppend(parts[0] + [sep], rest);
      HexOnlyAppend(parts[0], [sep]);
      HexOnlyOfHex(parts[0]);
      assert HexOnly([sep]) == [] + HexOnly([]);
      HexOnlyOfJoin(sep, parts[1..]);
    }
  }

  /** Joining the six digit pairs with `''` gives the 12 digits back. */
  lemma PairsRejoin(h: string)
    requires |h| == 12
    ensures Join("", Pairs(h)) == h
  {
    var p := Pairs(h);
    assert Join("", p[5..]) == h[10..12];
    assert Join("", p[4..]) == h[8..10] + "" + h[10..12];
    assert Join("", p[3..]) == h[6..8] + "" + h[8..12];
    assert Join("", p[2..]) == h[4..6] + "" + h[6..12];
    assert Join("", p[1..]) == h[2..4] + "" + h[4..12];
    assert Join("", p) == h[0..2] + "" + h[2..12];
  }

  /**
    Where the digits go: the result of a successful normalisation is 17
    characters, pair k of the digits at positions 3k and 3k+1, colons between.
  */
  lemma GroupLayout(h: string)
    requires |h| == 12
    ensures |Join(":", Pairs(h))| == 17
    ensures forall k | 0 <= k < 6 :: Join(":", Pairs(h))[3 * k..3 * k + 2] == h[2 * k..2 * k + 2]
    ensures forall k | 0 <= k < 5 :: Join(":", Pairs(h))[3 * k + 2] == ':'
  {
    var p := Pairs(h);
    JoinPairsLayout(':', p);
    var j := Join(":", p);
    forall k | 0 <= k < 6
      ensures j[3 * k..3 * k + 2] == h[2 * k..2 * k + 2]
    {
      assert j[3 * k] == h[2 * k] && j[3 * k + 1] == h[2 * k + 1];
    }
  }

  /** `normalize_mac` gives None exactly when the input does not hold twelve hex digits (the empty input among them). */
  lemma NormalizeFails(mac: string)
    ensures NormalizeMac(mac).None? <==> |HexOnly(mac)| != 12
  {
  }

  /**
    A successful normalisation is canonical, and its digits, read pair by
    pair, are the lowercased hex-only content of the input.
  */
  lemma NormalizeResult(mac: string)
    requires NormalizeMac(mac).Some?
    ensures IsCanonicalMac(NormalizeMac(mac).value)
    ensures forall k | 0 <= k < 6 :: NormalizeMac(mac).value[3 * k..3 * k + 2] == Digits(mac)[2 * k..2 * k + 2]
  {
    var h := Digits(mac);
    var r := NormalizeMac(mac).value;
    LowerHex(HexOnly(mac));
    GroupLayout(h);
    forall i | 0 <= i < 17
      ensures if i % 3 == 2 then r[i] == ':' else IsLowerHexDigit(r[i])
    {
      var k := i / 3;
      if i % 3 != 2 {
        assert r[3 * k..3 * k + 2] == h[2 * k..2 * k + 2];
        assert r[i] == r[3 * k..3 * k + 2][i % 3];
      } else {
        assert i == 3 * k + 2 && k < 5;
      }
    }
  }

  /** A canonical address is left unchanged by normalisation. */
  lemma CanonicalIsFixed(s: string)
    requires IsCanonicalMac(s)
    ensures NormalizeMac(s) == Some(s)
  {
    var h := seq(12, i requires 0 <= i < 12 => s[i + i / 2]);
    var p := Pairs(h);
    GroupLayout(h);
    var j := Join(":", p);
    forall i | 0 <= i < 17
      ensures j[i] == s[i]
    {
      var k := i / 3;
      if i % 3 != 2 {
        var d := i % 3;
        assert i == 3 * k + d;
        assert j[3 * k..3 * k + 2] == h[2 * k..2 * k + 2];
        assert j[i] == j[3 * k..3 * k + 2][d];
        assert (2 * k + d) / 2 == k;
        assert h[2 * k + d] == s[i];
      } else {
        assert i == 3 * k + 2 && k < 5;
      }
    }
    assert j == s;
    forall k, i | 0 <= k < 6 && 0 <= i < |p[k]|
      ensures IsHexDigit(p[k][i])
    {
      assert p[k][i] == h[2 * k + i];
    }
    HexOnlyOfJoin(':', p);
    PairsRejoin(h);
    LowerOfLowerHex(h);
  }

  /** Normalising twice gives what normalising once gave. */
  lemma NormalizeIdempotent(mac: string)
    requires NormalizeMac(mac).Some?
    ensures NormalizeMac(NormalizeMac(mac).value) == NormalizeMac(mac)
  {
    NormalizeResult(mac);
    CanonicalIsFixed(NormalizeMac(mac).value);
  }

  /** An address normalises to itself exactly when it is in canonical form. */
  lemma FixedIffCanonical(s: string)
    ensures NormalizeMac(s) == Some(s) <==> IsCanonicalMac(s)
  {
    if IsCanonicalMac(s) {
      CanonicalIsFixed(s);
    } else if NormalizeMac(s) == Some(s) {
      NormalizeResult(s);
    }
  }

  /**
    Two inputs with twelve hex digits normalise to the same address exactly
    when their lowercased digits agree: case and separators do not matter.
  */
  lemma SameAddressIffSameDigits(a: string, b: string)
    requires NormalizeMac(a).Some? && NormalizeMac(b).Some?
    ensures NormalizeMac(a) == NormalizeMac(b) <==> Digits(a) == Digits(b)
  {
    if NormalizeMac(a) == NormalizeMac(b) {
      NormalizeResult(a);
      NormalizeResult(b);
      var da, db := Digits(a), Digits(b);
      forall i | 0 <= i < 12
        ensures da[i] == db[i]
      {
        var k := i / 2;
        assert da[2 * k..2 * k + 2] == db[2 * k..2 * k + 2];
        assert da[i] == da[2 * k..2 * k + 2][i % 2];
      }
    }
  }

  /** A character is a hex digit exactly when its lowercase form is a lowercase hex digit. */
  lemma HexUnderLower(c: char)
    ensures IsHexDigit(c) <==> IsLowerHexDigit(LowerChar(c))
  {
  }

  /** Inputs that differ only in letter case hold the same digits. */
  lemma {:induction false} DigitsIgnoreCase(a: string, b: string)
    requires |a| == |b|
    requires forall i | 0 <= i < |a| :: LowerChar(a[i]) == LowerChar(b[i])
    ensures Digits(a) == Digits(b)
  {
    if a != [] {
      HexUnderLower(a[0]);
      HexUnderLower(b[0]);
      DigitsIgnoreCase(a[1..], b[1..]);
      var ha := (if IsHexDigit(a[0]) then [a[0]] else []);
      var hb := (if IsHexDigit(b[0]) then [b[0]] else []);
      assert Lower(ha + HexOnly(a[1..])) == Lower(ha) + Lower(HexOnly(a[1..]));
      assert Lower(hb + HexOnly(b[1..])) == Lower(hb) + Lower(HexOnly(b[1..]));
    }
  }

  /** Inputs that differ only in letter case normalise identically. */
  lemma NormalizeIgnoresCase(a: string, b: string)
    requires |a| == |b|
    requires forall i | 0 <= i < |a| :: LowerChar(a[i]) == LowerChar(b[i])
    ensures NormalizeMac(a) == NormalizeMac(b)
  {
    DigitsIgnoreCase(a, b);
  }

  /**
    Six hex pairs normalise identically whatever non-hex separator joins them:
    `aa-bb-cc-dd-ee-ff`, `aa:bb:cc:dd:ee:ff` and `aa.bb.cc.dd.ee.ff` agree.
  */
  lemma NormalizeIgnoresSeparator(sep1: char, sep2: char, parts: seq<string>)
    requires !IsHexDigit(sep1) && !IsHexDigit(sep2)
    requires |parts| == 6
    requires forall k | 0 <= k < 6 :: |parts[k]| == 2 && IsHexDigit(parts[k][0]) && IsHexDigit(parts[k][1])
    ensures NormalizeMac(Join([sep1], parts)) == NormalizeMac(Join([sep2], parts))
  {
    forall k, i | 0 <= k < |parts| && 0 <= i < |parts[k]|
      ensures IsHexDigit(parts[k][i])
    {
    }
    HexOnlyOfJoin(sep1, parts);
    HexOnlyOfJoin(sep2, parts);
    JoinPairsLayout(sep1, parts);
    JoinPairsLayout(sep2, parts);
  }
}
