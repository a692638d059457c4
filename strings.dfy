/** The few Python string built-ins the scanner uses: `split()`, `join` and `lower()`. */
module Strings {

  /** Python's `str.isspace()` on one character: the separators of `str.split()`. */
  predicate IsSpace(c: char)
  {
    || c == ' ' || '\t' <= c <= '\r' || '\U{1C}' <= c <= '\U{1F}'
    || c == '\U{85}' || c == '\U{A0}' || c == '\U{1680}' || '\U{2000}' <= c <= '\U{200A}'
    || c == '\U{2028}' || c == '\U{2029}' || c == '\U{202F}' || c == '\U{205F}' || c == '\U{3000}'
  }

  /** A field of `str.split()`: non-empty and free of whitespace. */
  predicate IsField(f: string)
  {
    f != [] && forall i | 0 <= i < |f| :: !IsSpace(f[i])
  }

  /** `str.split()` of `s`, with `cur` the part of a field already read. */
  function SplitFrom(s: string, cur: string): (r: seq<string>)
    requires forall i | 0 <= i < |cur| :: !IsSpace(cur[i])
    ensures forall k | 0 <= k < |r| :: IsField(r[k])
  {
    if s == [] then (if cur == [] then [] else [cur])
    else if IsSpace(s[0]) then (if cur == [] then [] else [cur]) + SplitFrom(s[1..], [])
    else SplitFrom(s[1..], cur + [s[0]])
  }

  /** Python's `line.split()`: the maximal runs of non-whitespace characters. */
  function Fields(line: string): (r: seq<string>)
    ensures forall k | 0 <= k < |r| :: IsField(r[k])
  {
    SplitFrom(line, [])
  }

  /** Python's `c.lower()` on an ASCII character. */
  function LowerChar(c: char): char
  {
    if 'A' <= c <= 'Z' then (c as int - 'A' as int + 'a' as int) as char else c
  }

  /** Python's `s.lower()` on an ASCII string. */
  function Lower(s: string): (r: string)
    ensures |r| == |s|
  {
    seq(|s|, i requires 0 <= i < |s| => LowerChar(s[i]))
  }

  /** Python's `sep.join(parts)`. */
  function Join(sep: string, parts: seq<string>): string
  {
    if |parts| == 0 then ""
    else if |parts| == 1 then parts[0]
    else parts[0] + sep + Join(sep, parts[1..])
  }

  // ---------------------------------------------------------------- lemmas

  /** Reading whitespace-free characters only extends the current field. */
  lemma {:induction false} SplitThroughField(f: string, rest: string, cur: string)
    requires forall i | 0 <= i < |cur| :: !IsSpace(cur[i])
    requires forall i | 0 <= i < |f| :: !IsSpace(f[i])
    ensures SplitFrom(f + rest, cur) == SplitFrom(rest, cur + f)
  {
    if f == [] {
      assert f + rest == rest && cur + f == cur;
    } else {
      assert (f + rest)[0] == f[0] && (f + rest)[1..] == f[1..] + rest;
      assert cur + f == (cur + [f[0]]) + f[1..];
      SplitThroughField(f[1..], rest, cur + [f[0]]);
    }
  }

  /** Splitting fields joined by single spaces gives the fields back. */
  lemma {:induction false} SplitJoinRoundTrip(fs: seq<string>)
    requires forall k | 0 <= k < |fs| :: IsField(fs[k])
    ensures Fields(Join(" ", fs)) == fs
  {
    if |fs| == 1 {
      SplitThroughField(fs[0], [], []);
      assert fs[0] + [] == fs[0] && [] + fs[0] == fs[0];
    } else if |fs| > 1 {
      var rest := Join(" ", fs[1..]);
      SplitJoinRoundTrip(fs[1..]);
      assert Join(" ", fs) == fs[0] + (" " + rest);
      SplitThroughField(fs[0], " " + rest, []);
      assert [] + fs[0] == fs[0];
      assert (" " + rest)[1..] == rest;
      assert fs == [fs[0]] + fs[1..];
    }
  }
}
