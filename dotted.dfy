/**
  The text form of an address. `calculate_network` builds each target as
  `f"{'.'.join(map(str, network[:3]))}.{i}"`, and `scan_network` sorts by
  the key `tuple(map(int, x.split('.')))`. The key recovers the octets from
  the text, so two targets have the same text exactly when they have the
  same octets, and ordering by the key is ordering by the octet tuple.
*/
module Dotted {
  import opened Strings

  predicate IsDigit(c: char)
  {
    '0' <= c <= '9'
  }

  predicate AllDigits(s: string)
  {
    forall i | 0 <= i < |s| :: IsDigit(s[i])
  }

  function DigitChar(d: nat): (c: char)
    requires d < 10
    ensures IsDigit(c)
  {
    ('0' as int + d) as char
  }

  /** Python's `str(n)` on a non-negative integer: its decimal digits. */
  function Decimal(n: nat): (s: string)
    ensures s != [] && AllDigits(s)
  {
    if n < 10 then [DigitChar(n)] else Decimal(n / 10) + [DigitChar(n % 10)]
  }

  /** Python's `int(s)` on a non-empty string of decimal digits (`int('')` raises). */
  function ParseDecimal(s: string): nat
    requires s != [] && AllDigits(s)
  {
    var d := s[|s| - 1] as int - '0' as int;
    if |s| == 1 then d else 10 * ParseDecimal(s[..|s| - 1]) + d
  }

  /** Python's `s.split(sep)`, with `cur` the piece read so far. */
  function SplitOnFrom(s: string, sep: char, cur: string): (r: seq<string>)
    ensures |r| >= 1
  {
    if s == [] then [cur]
    else if s[0] == sep then [cur] + SplitOnFrom(s[1..], sep, [])
    else SplitOnFrom(s[1..], sep, cur + [s[0]])
  }

  /** Python's `s.split(sep)`: the pieces between separators, empty ones included. */
  function SplitOn(s: string, sep: char): (r: seq<string>)
    ensures |r| >= 1
  {
    SplitOnFrom(s, sep, [])
  }

  /** The text of the target with octets `prefix` followed by `last` (lines 38-39). */
  function HostText(prefix: seq<nat>, last: nat): string
  {
    Join(".", seq(|prefix|, k requires 0 <= k < |prefix| => Decimal(prefix[k]))) + "." + Decimal(last)
  }

  /**
    `tuple(map(int, x.split('.')))` on the model's domain: every piece a
    non-empty string of ASCII digits. `int('')` raises; the other forms `int`
    accepts (a sign, surrounding whitespace, underscores, non-ASCII digits)
    never occur in a target's text.
  */
  function SortKey(s: string): seq<nat>
    requires forall k | 0 <= k < |SplitOn(s, '.')| :: SplitOn(s, '.')[k] != [] && AllDigits(SplitOn(s, '.')[k])
  {
    var pieces := SplitOn(s, '.');
    seq(|pieces|, k requires 0 <= k < |pieces| => ParseDecimal(pieces[k]))
  }

  // ---------------------------------------------------------------- lemmas

  /** `int(str(n)) == n`. */
  lemma {:induction false} DecimalRoundTrip(n: nat)
    ensures ParseDecimal(Decimal(n)) == n
  {
    if n >= 10 {
      DecimalRoundTrip(n / 10);
      var s := Decimal(n);
      assert s[..|s| - 1] == Decimal(n / 10);
    }
  }

  /** Reading characters other than the separator only extends the current piece. */
  lemma {:induction false} SplitThroughPiece(p: string, rest: string, sep: char, cur: string)
    requires forall i | 0 <= i < |p| :: p[i] != sep
    ensures SplitOnFrom(p + rest, sep, cur) == SplitOnFrom(rest, sep, cur + p)
  {
    if p == [] {
      assert p + rest == rest && cur + p == cur;
    } else {
      assert (p + rest)[0] == p[0] && (p + rest)[1..] == p[1..] + rest;
      assert cur + p == (cur + [p[0]]) + p[1..];
      SplitThroughPiece(p[1..], rest, sep, cur + [p[0]]);
    }
  }

  /** Splitting pieces joined by a separator they do not contain gives the pieces back. */
  lemma {:induction false} SplitOnJoinRoundTrip(pieces: seq<string>, sep: char)
    requires |pieces| >= 1
    requires forall k, i | 0 <= k < |pieces| && 0 <= i < |pieces[k]| :: pieces[k][i] != sep
    ensures SplitOn(Join([sep], pieces), sep) == pieces
  {
    if |pieces| == 1 {
      SplitThroughPiece(pieces[0], [], sep, []);
      assert pieces[0] + [] == pieces[0] && [] + pieces[0] == pieces[0];
    } else {
      var rest := Join([sep], pieces[1..]);
      SplitOnJoinRoundTrip(pieces[1..], sep);
      assert Join([sep], pieces) == pieces[0] + ([sep] + rest);
      SplitThroughPiece(pieces[0], [sep] + rest, sep, []);
      assert [] + pieces[0] == pieces[0];
      assert ([sep] + rest)[1..] == rest;
      assert pieces == [pieces[0]] + pieces[1..];
    }
  }

  /** Appending one more piece to a non-empty join. */
  lemma {:induction false} JoinSnoc(sep: string, pieces: seq<string>, last: string)
    requires |pieces| >= 1
    ensures Join(sep, pieces + [last]) == Join(sep, pieces) + sep + last
  {
    if |pieces| > 1 {
      assert (pieces + [last])[1..] == pieces[1..] + [last];
      JoinSnoc(sep, pieces[1..], last);
    }
  }

  /** The sort key of a target's text is its octet tuple. */
  lemma SortKeyOfHostText(prefix: seq<nat>, last: nat)
    requires |prefix| >= 1
    ensures var s := HostText(prefix, last);
      (forall k | 0 <= k < |SplitOn(s, '.')| :: SplitOn(s, '.')[k] != [] && AllDigits(SplitOn(s, '.')[k]))
      && SortKey(s) == prefix + [last]
  {
    var a := prefix + [last];
    var texts := seq(|a|, k requires 0 <= k < |a| => Decimal(a[k]));
    var front := seq(|prefix|, k requires 0 <= k < |prefix| => Decimal(prefix[k]));
    assert texts == front + [Decimal(last)];
    JoinSnoc(".", front, Decimal(last));
    assert HostText(prefix, last) == Join(['.'], texts);
    SplitOnJoinRoundTrip(texts, '.');
    forall k | 0 <= k < |a|
      ensures ParseDecimal(texts[k]) == a[k]
    {
      DecimalRoundTrip(a[k]);
    }
  }

  /** Different targets have different texts: the text identifies the octets. */
  lemma HostTextInjective(p: seq<nat>, i: nat, q: seq<nat>, j: nat)
    requires |p| >= 1 && |q| >= 1
    requires HostText(p, i) == HostText(q, j)
    ensures p == q && i == j
  {
    SortKeyOfHostText(p, i);
    SortKeyOfHostText(q, j);
    assert p == (p + [i])[..|p|] && q == (q + [j])[..|q|];
  }

  /** Two four-octet addresses with the same text are the same address. */
  lemma QuadTextInjective(a: seq<nat>, b: seq<nat>)
    requires |a| == 4 && |b| == 4
    requires HostText(a[..3], a[3]) == HostText(b[..3], b[3])
    ensures a == b
  {
    HostTextInjective(a[..3], a[3], b[..3], b[3]);
    assert a == a[..3] + [a[3]] && b == b[..3] + [b[3]];
  }

  /** The text of 10.0.0.5 as the scanner builds it. */
  lemma HostTextExample()
    ensures HostText([10, 0, 0], 5) == "10.0.0.5"
  {
    var front := seq(3, k requires 0 <= k < 3 => Decimal([10, 0, 0][k]));
    assert Decimal(10) == "10" && Decimal(0) == "0" && Decimal(5) == "5";
    assert front == ["10", "0", "0"];
    assert Join(".", ["0"]) == "0";
    assert Join(".", ["0", "0"]) == "0" + "." + "0";
    assert Join(".", front) == "10" + "." + "0.0";
  }
}
