/**
 * String primitives of the JavaScript runtime that the palette and the join node rely on,
 * restricted to what those callers need: `split` on a one-character separator, `Array.join`,
 * ASCII case mapping (standing in for `toLowerCase` / `toUpperCase`), `includes`, `trim`
 * truthiness, and the decimal rendering of a non-negative index inside a template string.
 */
module Strings {
  import opened Wrappers

  // ---------------------------------------------------------------------------
  // Case mapping (ASCII only)
  // ---------------------------------------------------------------------------

  function LowerChar(c: char): char {
    if 'A' <= c <= 'Z' then (c as int + 32) as char else c
  }

  function UpperChar(c: char): char {
    if 'a' <= c <= 'z' then (c as int - 32) as char else c
  }

  /** `s.toLowerCase()`, restricted to ASCII letters. */
  function Lower(s: string): (r: string)
    ensures |r| == |s|
    ensures forall i :: 0 <= i < |s| ==> r[i] == LowerChar(s[i])
  {
    seq(|s|, i requires 0 <= i < |s| => LowerChar(s[i]))
  }

  /** `s.charAt(0).toUpperCase() + s.slice(1)`; the empty string stays empty. */
  function Capitalize(s: string): (r: string)
    ensures |r| == |s|
    ensures |s| > 0 ==> r[0] == UpperChar(s[0]) && r[1..] == s[1..]
  {
    if s == [] then [] else [UpperChar(s[0])] + s[1..]
  }

  /** Capitalising a label never changes how a case-insensitive search sees it. */
  lemma LowerCapitalize(s: string)
    ensures Lower(Capitalize(s)) == Lower(s)
  {
    if s != [] {
      assert Lower(Capitalize(s))[0] == Lower(s)[0];
      assert forall i :: 1 <= i < |s| ==> Capitalize(s)[i] == s[i];
    }
  }

  // ---------------------------------------------------------------------------
  // Substring search: `s.includes(sub)`
  // ---------------------------------------------------------------------------

  predicate IsPrefix(p: string, s: string) {
    |p| <= |s| && s[..|p|] == p
  }

  /** `sub` occurs in `s` starting at offset `i`. */
  predicate OccursAt(s: string, sub: string, i: int) {
    0 <= i <= |s| - |sub| && s[i..i + |sub|] == sub
  }

  /** `s.includes(sub)`: `sub` occurs in `s` at some offset. */
  function Contains(s: string, sub: string): (r: bool)
    ensures r <==> exists i :: OccursAt(s, sub, i)
  {
    if IsPrefix(sub, s) then
      assert OccursAt(s, sub, 0);
      true
    else if s == [] then
      false
    else
      var r := Contains(s[1..], sub);
      if r then
        var i :| OccursAt(s[1..], sub, i);
        assert OccursAt(s, sub, i + 1);
        r
      else
        assert forall i :: OccursAt(s, sub, i) ==> i > 0 && OccursAt(s[1..], sub, i - 1);
        r
  }

  // ---------------------------------------------------------------------------
  // `trim()` truthiness
  // ---------------------------------------------------------------------------

  /** The white-space characters that `trim` removes, restricted to ASCII. */
  predicate IsSpace(c: char) {
    c == ' ' || c == '\t' || c == '\n' || c == '\r' || c == '\U{B}' || c == '\U{C}'
  }

  predicate IsBlank(s: string) {
    forall i :: 0 <= i < |s| ==> IsSpace(s[i])
  }

  function TrimStart(s: string): (r: string)
    ensures |r| <= |s| && r == s[|s| - |r|..]
    ensures r == [] || !IsSpace(r[0])
    ensures forall i :: 0 <= i < |s| - |r| ==> IsSpace(s[i])
  {
    if s != [] && IsSpace(s[0]) then TrimStart(s[1..]) else s
  }

  function TrimEnd(s: string): (r: string)
    ensures |r| <= |s| && r == s[..|r|]
    ensures r == [] || !IsSpace(r[|r| - 1])
    ensures forall i :: |r| <= i < |s| ==> IsSpace(s[i])
  {
    if s != [] && IsSpace(s[|s| - 1]) then TrimEnd(s[..|s| - 1]) else s
  }

  /** `s.trim()`. */
  function Trim(s: string): string {
    TrimEnd(TrimStart(s))
  }

  /** `s.trim()` is the empty (falsy) string exactly when `s` holds only white space. */
  lemma TrimEmptyIffBlank(s: string)
    ensures Trim(s) == [] <==> IsBlank(s)
  {
    var t := TrimStart(s);
    var u := TrimEnd(t);
    var off := |s| - |t|;
    if u == [] {
      assert t == [];
    } else {
      assert u[0] == t[0] == s[off];
    }
  }

  // ---------------------------------------------------------------------------
  // `split` on a one-character separator, and its inverse
  // ---------------------------------------------------------------------------

  /** `s.split(d)`: the maximal `d`-free runs of `s`, in order; always at least one. */
  function Split(s: string, d: char): (parts: seq<string>)
    ensures |parts| >= 1
    ensures forall k :: 0 <= k < |parts| ==> d !in parts[k]
  {
    if s == [] then [""]
    else
      var rest := Split(s[1..], d);
      if s[0] == d then [""] + rest
      else [[s[0]] + rest[0]] + rest[1..]
  }

  /** `parts.join(d)` for a one-character separator. */
  function JoinOn(parts: seq<string>, d: char): string {
    if parts == [] then ""
    else if |parts| == 1 then parts[0]
    else parts[0] + [d] + JoinOn(parts[1..], d)
  }

  lemma {:induction false} JoinSplit(s: string, d: char)
    ensures JoinOn(Split(s, d), d) == s
  {
    if s != [] {
      JoinSplit(s[1..], d);
      var rest := Split(s[1..], d);
      if s[0] == d {
        assert Split(s, d) == [""] + rest;
        assert (([""] + rest)[1..]) == rest;
        assert s == [d] + s[1..];
      } else {
        var parts := Split(s, d);
        assert parts == [[s[0]] + rest[0]] + rest[1..];
        if |rest| == 1 {
          assert JoinOn(rest, d) == rest[0];
        } else {
          assert JoinOn(rest, d) == rest[0] + [d] + JoinOn(rest[1..], d);
          assert parts[1..] == rest[1..];
        }
      }
    }
  }

  lemma {:induction false} SplitJoin(parts: seq<string>, d: char)
    requires |parts| >= 1
    requires forall k :: 0 <= k < |parts| ==> d !in parts[k]
    ensures Split(JoinOn(parts, d), d) == parts
  {
    if |parts| == 1 {
      SplitFree(parts[0], d);
    } else {
      SplitJoin(parts[1..], d);
      var tail := JoinOn(parts[1..], d);
      SplitPrefix(parts[0], [d] + tail, d);
      assert JoinOn(parts, d) == parts[0] + ([d] + tail);
      assert Split([d] + tail, d) == [""] + parts[1..] by {
        assert ([d] + tail)[1..] == tail;
      }
      assert Split(JoinOn(parts, d), d) == [parts[0] + ""] + parts[1..];
      assert parts[0] + "" == parts[0];
      assert [parts[0]] + parts[1..] == parts;
    }
  }

  /** A separator-free string splits to itself. */
  lemma {:induction false} SplitFree(w: string, d: char)
    requires d !in w
    ensures Split(w, d) == [w]
  {
    if w != [] {
      SplitFree(w[1..], d);
      assert [w[0]] + w[1..] == w;
    }
  }

  /** Splitting `w + t` where `w` has no separator glues `w` onto the first part of `t`. */
  lemma {:induction false} SplitPrefix(w: string, t: string, d: char)
    requires d !in w
    ensures Split(w + t, d) == [w + Split(t, d)[0]] + Split(t, d)[1..]
  {
    if w != [] {
      SplitPrefix(w[1..], t, d);
      assert (w + t)[1..] == w[1..] + t;
      assert [w[0]] + (w[1..] + Split(t, d)[0]) == w + Split(t, d)[0];
    } else {
      assert w + t == t && w + Split(t, d)[0] == Split(t, d)[0];
      assert [Split(t, d)[0]] + Split(t, d)[1..] == Split(t, d);
    }
  }

  /** `Array.prototype.join(sep)` on strings. */
  function JoinWith(xs: seq<string>, sep: string): string {
    if xs == [] then ""
    else if |xs| == 1 then xs[0]
    else xs[0] + sep + JoinWith(xs[1..], sep)
  }

  // ---------------------------------------------------------------------------
  // Decimal rendering of a non-negative integer (`${n}`) and reading it back
  // ---------------------------------------------------------------------------

  predicate IsDigit(c: char) {
    '0' <= c <= '9'
  }

  predicate AllDigits(s: string) {
    forall i :: 0 <= i < |s| ==> IsDigit(s[i])
  }

  function DigitChar(n: nat): (c: char)
    requires n < 10
    ensures IsDigit(c)
  {
    ('0' as int + n) as char
  }

  function DigitValue(c: char): nat
    requires IsDigit(c)
  {
    c as int - '0' as int
  }

  /** The decimal text of `n`, without sign or leading zeros. */
  function Dec(n: nat): (s: string)
    ensures |s| >= 1 && AllDigits(s)
  {
    if n < 10 then [DigitChar(n)] else Dec(n / 10) + [DigitChar(n % 10)]
  }

  /** The number a string of digits denotes. */
  function DigitsValue(s: string): nat
    requires AllDigits(s)
  {
    if s == [] then 0 else DigitsValue(s[..|s| - 1]) * 10 + DigitValue(s[|s| - 1])
  }

  /** The length of the longest all-digit prefix of `s`. */
  function DigitRun(s: string): (k: nat)
    ensures k <= |s| && AllDigits(s[..k])
    ensures k < |s| ==> !IsDigit(s[k])
  {
    if s != [] && IsDigit(s[0]) then
      var k := DigitRun(s[1..]);
      assert s[..k + 1] == [s[0]] + s[1..][..k];
      k + 1
    else 0
  }

  /** Reads a leading decimal number off `s`; `None` when `s` does not start with a digit. */
  function ReadNat(s: string): Option<(nat, string)> {
    var k := DigitRun(s);
    if k == 0 then None else Some((DigitsValue(s[..k]), s[k..]))
  }

  lemma {:induction false} DecValue(n: nat)
    ensures DigitsValue(Dec(n)) == n
  {
    if n >= 10 {
      DecValue(n / 10);
      var s := Dec(n);
      assert s[..|s| - 1] == Dec(n / 10);
    }
  }

  lemma {:induction false} DigitRunOf(w: string, rest: string)
    requires AllDigits(w)
    requires rest == [] || !IsDigit(rest[0])
    ensures DigitRun(w + rest) == |w|
  {
    if w != [] {
      DigitRunOf(w[1..], rest);
      assert (w + rest)[1..] == w[1..] + rest;
    }
  }

  /** Reading back the decimal text of `n` yields `n` and leaves what followed it. */
  lemma ReadNatDec(n: nat, rest: string)
    requires rest == [] || !IsDigit(rest[0])
    ensures ReadNat(Dec(n) + rest) == Some((n, rest))
  {
    var s := Dec(n);
    DigitRunOf(s, rest);
    DecValue(n);
    assert (s + rest)[..|s|] == s;
    assert (s + rest)[|s|..] == rest;
  }
}
