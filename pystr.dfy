/**
 * The Python built-ins the core leans on, stated on `seq<char>`:
 * `str.isspace`, `str.strip`, `str.split(sep)`, `str(n)` for an integer and
 * `int(s)` for a string (base 10).
 */
module PyStr {
  import opened Wrappers

  // ---------------------------------------------------------------------------
  // Whitespace and strip()
  // ---------------------------------------------------------------------------

  /**
   * The characters Python's `str.isspace()` accepts, which `str.strip()`
   * removes. None of them is a digit, a sign, `_` or `,`.
   */
  predicate IsSpace(c: char)
    ensures IsSpace(c) ==> !IsDigit(c) && c != '-' && c != '+' && c != '_' && c != ','
  {
    var n := c as int;
    (9 <= n <= 13) || (28 <= n <= 32) || n == 0x85 || n == 0xA0 || n == 0x1680
    || (0x2000 <= n <= 0x200A) || n == 0x2028 || n == 0x2029 || n == 0x202F
    || n == 0x205F || n == 0x3000
  }

  /** Neither end of `s` is whitespace: what `strip()` leaves. */
  predicate IsStripped(s: string) {
    s == [] || (!IsSpace(s[0]) && !IsSpace(s[|s| - 1]))
  }

  /** `s.lstrip()`: the longest suffix of `s` that does not start with whitespace. */
  function LStrip(s: string): (r: string)
    ensures |r| <= |s| && r == s[|s| - |r|..]
    ensures r == [] || !IsSpace(r[0])
  {
    if |s| > 0 && IsSpace(s[0]) then LStrip(s[1..]) else s
  }

  /** `lstrip()` removes only whitespace. */
  lemma {:induction false} LStripRemovesSpace(s: string)
    ensures forall k :: 0 <= k < |s| - |LStrip(s)| ==> IsSpace(s[k])
  {
    if |s| > 0 && IsSpace(s[0]) {
      LStripRemovesSpace(s[1..]);
      assert forall k :: 1 <= k < |s| ==> s[k] == s[1..][k - 1];
    }
  }

  /** `s.rstrip()`: the longest prefix of `s` that does not end with whitespace. */
  function RStrip(s: string): (r: string)
    ensures |r| <= |s| && r == s[..|r|]
    ensures r == [] || !IsSpace(r[|r| - 1])
  {
    if |s| > 0 && IsSpace(s[|s| - 1]) then
      var r := RStrip(s[..|s| - 1]);
      assert s[..|s| - 1][..|r|] == s[..|r|];
      r
    else
      s
  }

  /** `rstrip()` removes only whitespace. */
  lemma {:induction false} RStripRemovesSpace(s: string)
    ensures forall k :: |RStrip(s)| <= k < |s| ==> IsSpace(s[k])
  {
    if |s| > 0 && IsSpace(s[|s| - 1]) {
      RStripRemovesSpace(s[..|s| - 1]);
    }
  }

  /** `s.strip()`: `s` with whitespace removed from both ends, and nothing else. */
  function Strip(s: string): (r: string)
    ensures IsStripped(r)
    ensures |r| <= |s|
  {
    var l := LStrip(s);
    var r := RStrip(l);
    assert r != [] ==> r[0] == l[0];
    r
  }

  /**
   * Whitespace cut from the front of `s` (leaving `l`), then from the back of
   * `l` (leaving `r`): `s` is whitespace, then `r`, then whitespace.
   */
  lemma SpacesAround(s: string, l: string, r: string)
    requires |l| <= |s| && l == s[|s| - |l|..]
    requires forall k :: 0 <= k < |s| - |l| ==> IsSpace(s[k])
    requires |r| <= |l| && r == l[..|r|]
    requires forall k :: |r| <= k < |l| ==> IsSpace(l[k])
    ensures var i := |s| - |l|;
      && i + |r| <= |s|
      && (forall k :: 0 <= k < |r| ==> r[k] == s[i + k])
      && (forall k :: i + |r| <= k < |s| ==> IsSpace(s[k]))
  {
    var i := |s| - |l|;
    forall k | 0 <= k < |r|
      ensures r[k] == s[i + k]
    {
      assert r[k] == l[k];
    }
    forall k | i + |r| <= k < |s|
      ensures IsSpace(s[k])
    {
      assert s[k] == l[k - i];
    }
  }

  /**
   * `strip()` removes whitespace and nothing else: `s` is spaces, then
   * `Strip(s)` read off from position `i`, then spaces.
   */
  lemma StripRemovesOnlySpace(s: string)
    ensures var i := |s| - |LStrip(s)|; var r := Strip(s);
      && i + |r| <= |s|
      && (forall k :: 0 <= k < |r| ==> r[k] == s[i + k])
      && (forall k :: 0 <= k < i ==> IsSpace(s[k]))
      && (forall k :: i + |r| <= k < |s| ==> IsSpace(s[k]))
  {
    var l := LStrip(s);
    var r := RStrip(l);
    assert Strip(s) == r;
    LStripRemovesSpace(s);
    RStripRemovesSpace(l);
    SpacesAround(s, l, r);
  }

  /** `strip()` introduces no character that was not there. */
  lemma StripAvoids(s: string, c: char)
    requires c !in s
    ensures c !in Strip(s)
  {
    StripRemovesOnlySpace(s);
  }

  /** Stripping a string whose ends are not whitespace returns it unchanged. */
  lemma StripStripped(s: string)
    requires IsStripped(s)
    ensures Strip(s) == s
  {
    assert LStrip(s) == s;
    assert RStrip(s) == s;
  }

  // ---------------------------------------------------------------------------
  // split(sep) and its inverse sep.join(...)
  // ---------------------------------------------------------------------------

  /** The position of the first `c` in `s`. */
  function IndexOf(s: string, c: char): (i: nat)
    requires c in s
    ensures i < |s| && s[i] == c && c !in s[..i]
  {
    if s[0] == c then 0 else
      var j := IndexOf(s[1..], c);
      assert s[..j + 1] == [s[0]] + s[1..][..j];
      j + 1
  }

  /** `s.split(sep)` for a single-character separator: never empty, pieces free of `sep`. */
  function Split(s: string, sep: char): (parts: seq<string>)
    ensures |parts| >= 1
    ensures forall i :: 0 <= i < |parts| ==> sep !in parts[i]
    decreases |s|
  {
    if sep !in s then [s]
    else
      var i := IndexOf(s, sep);
      [s[..i]] + Split(s[i + 1..], sep)
  }

  /** `sep.join(parts)`. */
  function Join(parts: seq<string>, sep: char): string {
    if |parts| == 0 then ""
    else if |parts| == 1 then parts[0]
    else parts[0] + [sep] + Join(parts[1..], sep)
  }

  /** Joining the pieces of a split gives back the original string. */
  lemma {:induction false} JoinSplit(s: string, sep: char)
    ensures Join(Split(s, sep), sep) == s
    decreases |s|
  {
    if sep in s {
      var i := IndexOf(s, sep);
      var rest := Split(s[i + 1..], sep);
      JoinSplit(s[i + 1..], sep);
      assert Split(s, sep) == [s[..i]] + rest;
      assert ([s[..i]] + rest)[1..] == rest;
      assert s == s[..i] + [sep] + s[i + 1..];
    }
  }

  /** Splitting a join of separator-free pieces gives back the pieces. */
  lemma {:induction false} SplitJoin(parts: seq<string>, sep: char)
    requires |parts| >= 1
    requires forall i :: 0 <= i < |parts| ==> sep !in parts[i]
    ensures Split(Join(parts, sep), sep) == parts
  {
    if |parts| > 1 {
      var p := parts[0];
      var tail := Join(parts[1..], sep);
      var s := p + [sep] + tail;
      assert sep in s by { assert s[|p|] == sep; }
      var i := IndexOf(s, sep);
      assert s[..|p|] == p;
      assert i == |p|;
      assert s[..i] == p;
      assert s[i + 1..] == tail;
      SplitJoin(parts[1..], sep);
      assert parts == [p] + parts[1..];
    }
  }

  // ---------------------------------------------------------------------------
  // str(n) and int(s)
  // ---------------------------------------------------------------------------

  predicate IsDigit(c: char) {
    '0' <= c <= '9'
  }

  function DigitChar(d: int): (c: char)
    requires 0 <= d < 10
    ensures IsDigit(c) && c as int - '0' as int == d
  {
    ('0' as int + d) as char
  }

  /** The decimal digits of `n`, most significant first, without leading zeros. */
  function NatToString(n: nat): (s: string)
    ensures |s| >= 1
    ensures forall i :: 0 <= i < |s| ==> IsDigit(s[i])
    ensures s[0] == '0' ==> n == 0
    decreases n
  {
    if n < 10 then [DigitChar(n)] else NatToString(n / 10) + [DigitChar(n % 10)]
  }

  /** Python's `str(n)` for an integer `n`: a `-` exactly for negatives, then digits. */
  function IntToString(n: int): (s: string)
    ensures |s| >= 1
    ensures s[0] == '-' <==> n < 0
    ensures forall i :: 0 <= i < |s| ==> IsDigit(s[i]) || (i == 0 && s[i] == '-')
  {
    if n < 0 then "-" + NatToString(-n) else NatToString(n)
  }

  /**
   * What base-10 `int()` accepts after the sign: digits, where each `_` sits
   * between two digits.
   */
  predicate WellFormedDigits(d: string) {
    && |d| >= 1
    && IsDigit(d[0])
    && forall i {:trigger d[i]} :: 0 <= i < |d| ==> IsDigit(d[i]) || (d[i] == '_' && i + 1 < |d| && IsDigit(d[i + 1]))
  }

  /** The value of a digit string, ignoring `_` separators. */
  function DigitsValue(d: string): nat {
    if d == [] then 0
    else if d[|d| - 1] == '_' then DigitsValue(d[..|d| - 1])
    else DigitsValue(d[..|d| - 1]) * 10 + (if IsDigit(d[|d| - 1]) then d[|d| - 1] as int - '0' as int else 0)
  }

  function ParseDigits(d: string): Option<nat> {
    if WellFormedDigits(d) then Some(DigitsValue(d)) else None
  }

  /**
   * The information separators U+001C..U+001F. `str.isspace()` accepts them,
   * but `int()` skips only the other whitespace characters, so a separator
   * anywhere in its argument makes it fail.
   */
  predicate IsSeparatorControl(c: char) {
    0x1C <= c as int <= 0x1F
  }

  /** The characters `int()` can accept at all: whitespace, signs, digits and `_`. */
  predicate IsIntLiteralChar(c: char) {
    IsSpace(c) || IsDigit(c) || c == '-' || c == '+' || c == '_'
  }

  /**
   * Python's `int(s)` in base 10: surrounding whitespace other than the
   * separators U+001C..U+001F is ignored, then one optional sign, then digits
   * with single `_` separators. `None` stands for the `ValueError` raised on
   * anything else. Rejecting a separator anywhere, then stripping all of
   * `str.isspace()`, is the same as stripping only the whitespace `int()`
   * skips: a separator left at an end, or inside, is never a digit.
   */
  function ParseInt(s: string): (r: Option<int>)
    ensures r.Some? ==> forall i :: 0 <= i < |s| ==> !IsSeparatorControl(s[i])
  {
    if exists i :: 0 <= i < |s| && IsSeparatorControl(s[i]) then None
    else
      var t := Strip(s);
      if |t| > 0 && (t[0] == '-' || t[0] == '+') then
        match ParseDigits(t[1..])
        case Some(m) => var v: int := if t[0] == '-' then -(m as int) else m; Some(v)
        case None => None
      else
        ParseDigits(t)
  }

  /** The text `int()` reads once whitespace is gone: one optional sign, then well-formed digits. */
  predicate IsSignedDigits(t: string) {
    if |t| > 0 && (t[0] == '-' || t[0] == '+') then WellFormedDigits(t[1..]) else WellFormedDigits(t)
  }

  /** A signed digit run holds only signs, digits and `_`, and at least one digit. */
  lemma SignedDigitsChars(t: string)
    requires IsSignedDigits(t)
    ensures forall k :: 0 <= k < |t| ==> IsDigit(t[k]) || t[k] == '-' || t[k] == '+' || t[k] == '_'
    ensures exists k :: 0 <= k < |t| && IsDigit(t[k])
  {
    if |t| > 0 && (t[0] == '-' || t[0] == '+') {
      var d := t[1..];
      assert WellFormedDigits(d);
      forall k | 1 <= k < |t|
        ensures IsDigit(t[k]) || t[k] == '_'
      {
        assert t[k] == d[k - 1];
        assert IsDigit(d[k - 1]) || d[k - 1] == '_';
      }
      assert IsDigit(t[1]);
    } else {
      assert WellFormedDigits(t);
      assert IsDigit(t[0]);
    }
  }

  /**
   * A string that is whitespace, then a run of signs, digits and `_` with at
   * least one digit, then whitespace, holds only characters `int()` can accept.
   */
  lemma LiteralCharsAround(s: string, lead: nat, t: string)
    requires lead + |t| <= |s|
    requires forall k :: 0 <= k < |t| ==> t[k] == s[lead + k]
    requires forall k :: 0 <= k < lead ==> IsSpace(s[k])
    requires forall k :: lead + |t| <= k < |s| ==> IsSpace(s[k])
    requires forall k :: 0 <= k < |t| ==> IsDigit(t[k]) || t[k] == '-' || t[k] == '+' || t[k] == '_'
    requires exists k :: 0 <= k < |t| && IsDigit(t[k])
    ensures forall i :: 0 <= i < |s| ==> IsIntLiteralChar(s[i])
    ensures exists i :: 0 <= i < |s| && IsDigit(s[i])
  {
    forall i | 0 <= i < |s|
      ensures IsIntLiteralChar(s[i])
    {
      if lead <= i < lead + |t| {
        assert s[i] == t[i - lead];
      }
    }
    var k :| 0 <= k < |t| && IsDigit(t[k]);
    assert s[lead + k] == t[k];
  }

  /**
   * When `Strip(s)` holds only signs, digits and `_`, and a digit, then `s`
   * holds only characters `int()` can accept, and a digit.
   */
  lemma StrippedLiteralChars(s: string)
    requires forall k :: 0 <= k < |Strip(s)| ==> IsDigit(Strip(s)[k]) || Strip(s)[k] == '-' || Strip(s)[k] == '+' || Strip(s)[k] == '_'
    requires exists k :: 0 <= k < |Strip(s)| && IsDigit(Strip(s)[k])
    ensures forall i :: 0 <= i < |s| ==> IsIntLiteralChar(s[i])
    ensures exists i :: 0 <= i < |s| && IsDigit(s[i])
  {
    StripRemovesOnlySpace(s);
    LiteralCharsAround(s, |s| - |LStrip(s)|, Strip(s));
  }

  /**
   * What `int()` accepts is made of whitespace, signs, digits and `_` only,
   * and holds at least one digit.
   */
  lemma ParseIntAcceptedChars(s: string)
    requires ParseInt(s).Some?
    ensures forall i :: 0 <= i < |s| ==> IsIntLiteralChar(s[i])
    ensures exists i :: 0 <= i < |s| && IsDigit(s[i])
  {
    assert IsSignedDigits(Strip(s));
    SignedDigitsChars(Strip(s));
    StrippedLiteralChars(s);
  }

  /** The decimal digits of `n` read back as `n`. */
  lemma {:induction false} NatDigitsRoundTrip(n: nat)
    ensures WellFormedDigits(NatToString(n)) && DigitsValue(NatToString(n)) == n
    decreases n
  {
    var s := NatToString(n);
    if n >= 10 {
      NatDigitsRoundTrip(n / 10);
      assert s[..|s| - 1] == NatToString(n / 10);
    }
  }

  /** `int(str(n)) == n`: the decimal form of an integer parses back to it. */
  lemma IntStringRoundTrip(n: int)
    ensures ParseInt(IntToString(n)) == Some(n)
  {
    var s := IntToString(n);
    var m: nat := if n < 0 then -n else n;
    NatDigitsRoundTrip(m);
    assert IsStripped(s);
    StripStripped(s);
    assert forall i :: 0 <= i < |s| ==> !IsSeparatorControl(s[i]);
    if n < 0 {
      assert s[1..] == NatToString(m);
    }
  }

  /** Distinct integers have distinct decimal forms. */
  lemma IntToStringInjective(a: int, b: int)
    requires IntToString(a) == IntToString(b)
    ensures a == b
  {
    IntStringRoundTrip(a);
    IntStringRoundTrip(b);
  }
}
