/** String helpers with Python's meaning: `str.strip`, `str.split`, `str.join`,
    `in` on strings, `str(n)` and `int(s)`. */
module Text {
  import opened Wrappers

  /** The characters Python's `str.isspace` (and so `strip` and `int`) treats as whitespace. */
  predicate IsSpace(c: char) {
    c == ' ' || c == '\t' || c == '\n' || c == '\r' || c == '\U{000B}' || c == '\U{000C}'
    || ('\U{001C}' <= c <= '\U{001F}') || c == '\U{0085}' || c == '\U{00A0}' || c == '\U{1680}'
    || ('\U{2000}' <= c <= '\U{200A}') || c == '\U{2028}' || c == '\U{2029}' || c == '\U{202F}'
    || c == '\U{205F}' || c == '\U{3000}'
  }

  /** The ASCII decimal digits; the other Unicode decimal digits that `int()`
      and `strptime` accept are not modelled. */
  predicate IsDigit(c: char) {
    '0' <= c <= '9'
  }

  function DigitValue(c: char): (d: nat)
    requires IsDigit(c)
    ensures d < 10
  {
    c as int - '0' as int
  }

  function DigitChar(d: nat): (c: char)
    requires d < 10
    ensures IsDigit(c) && DigitValue(c) == d
  {
    ('0' as int + d) as char
  }

  // ---------------------------------------------------------------- strip

  function StripLeft(s: string): (r: string)
    ensures |r| <= |s| && r == s[|s| - |r|..]
    ensures r == [] || !IsSpace(r[0])
    ensures forall i :: 0 <= i < |s| - |r| ==> IsSpace(s[i])
  {
    if s != [] && IsSpace(s[0]) then StripLeft(s[1..]) else s
  }

  function StripRight(s: string): (r: string)
    ensures |r| <= |s| && r == s[..|r|]
    ensures r == [] || !IsSpace(r[|r| - 1])
    ensures forall i :: |r| <= i < |s| ==> IsSpace(s[i])
  {
    if s != [] && IsSpace(s[|s| - 1]) then StripRight(s[..|s| - 1]) else s
  }

  /** `s.strip()`: drops leading and trailing whitespace. */
  function Strip(s: string): string {
    StripRight(StripLeft(s))
  }

  /** Where the text `strip` keeps begins. */
  function StripStart(s: string): nat {
    |s| - |StripLeft(s)|
  }

  /** What `strip` keeps is the slice of the input from `StripStart`, with no
      whitespace at either end, and everything it drops is whitespace. */
  lemma StripIsTrimmedSlice(s: string)
    ensures var r, i := Strip(s), StripStart(s);
      && i + |r| <= |s| && r == s[i..i + |r|]
      && (r == [] || (!IsSpace(r[0]) && !IsSpace(r[|r| - 1])))
      && (forall k :: 0 <= k < i ==> IsSpace(s[k]))
      && (forall k :: i + |r| <= k < |s| ==> IsSpace(s[k]))
  {
    var i := StripStart(s);
    StripLeftIsSuffix(s);
    assert Strip(s) == StripRight(s[i..]);
    StripRightOfSuffix(s, i);
  }

  /** What `StripLeft` keeps is the suffix from `StripStart`, and what it drops is whitespace. */
  lemma StripLeftIsSuffix(s: string)
    ensures StripStart(s) <= |s| && StripLeft(s) == s[StripStart(s)..]
    ensures s[StripStart(s)..] == [] || !IsSpace(s[StripStart(s)])
    ensures forall k :: 0 <= k < StripStart(s) ==> IsSpace(s[k])
  {
  }

  lemma SliceOfSuffix(s: string, i: nat, n: nat)
    requires i + n <= |s|
    ensures s[i..][..n] == s[i..i + n]
  {
  }

  /** `StripRight` of a suffix of `s` keeps a slice of `s` that has no whitespace at
      either end when the suffix does not start with whitespace, and what it drops
      is whitespace of `s`. */
  lemma StripRightOfSuffix(s: string, i: nat)
    requires i <= |s|
    requires s[i..] == [] || !IsSpace(s[i])
    ensures var r := StripRight(s[i..]);
      && i + |r| <= |s| && r == s[i..i + |r|]
      && (r == [] || (!IsSpace(r[0]) && !IsSpace(r[|r| - 1])))
    ensures forall k :: i + |StripRight(s[i..])| <= k < |s| ==> IsSpace(s[k])
  {
    var l := s[i..];
    var r := StripRight(l);
    assert r == l[..|r|];
    SliceOfSuffix(s, i, |r|);
    if r != [] {
      assert r[0] == l[0];
    }
    forall k | i + |r| <= k < |s|
      ensures IsSpace(s[k])
    {
      assert s[k] == l[k - i];
    }
  }

  /** Strings with no whitespace at either end are left alone. */
  lemma StripNoSpace(s: string)
    requires s == [] || (!IsSpace(s[0]) && !IsSpace(s[|s| - 1]))
    ensures Strip(s) == s
  {
  }

  /** Whitespace-only strings strip to the empty string. */
  lemma StripBlank(s: string)
    requires forall i :: 0 <= i < |s| ==> IsSpace(s[i])
    ensures Strip(s) == []
  {
  }

  // ---------------------------------------------------------------- split and join

  /** Index of the first occurrence of `c` in `s`, or `|s|` when there is none. */
  function IndexOf(s: string, c: char): (i: nat)
    ensures i <= |s|
    ensures i < |s| ==> s[i] == c
    ensures forall k :: 0 <= k < i ==> s[k] != c
  {
    if s == [] then 0
    else if s[0] == c then 0
    else 1 + IndexOf(s[1..], c)
  }

  /** `s.split(sep)` for a one-character separator: never empty, and
      `"".split(",") == [""]`. */
  function Split(s: string, sep: char): (parts: seq<string>)
    ensures |parts| >= 1
    ensures forall k :: 0 <= k < |parts| ==> sep !in parts[k]
    decreases |s|
  {
    var i := IndexOf(s, sep);
    if i == |s| then [s] else [s[..i]] + Split(s[i + 1..], sep)
  }

  /** `sep.join(parts)`. */
  function Join(parts: seq<string>, sep: string): string {
    if |parts| == 0 then ""
    else if |parts| == 1 then parts[0]
    else parts[0] + sep + Join(parts[1..], sep)
  }

  /** Splitting and joining on the same separator gives the string back. */
  lemma {:induction false} JoinSplit(s: string, sep: char)
    ensures Join(Split(s, sep), [sep]) == s
    decreases |s|
  {
    var i := IndexOf(s, sep);
    if i < |s| {
      var rest := s[i + 1..];
      JoinSplit(rest, sep);
      var tail := Split(rest, sep);
      assert Split(s, sep) == [s[..i]] + tail;
      assert (Split(s, sep))[1..] == tail;
      assert s == s[..i] + [sep] + rest;
    }
  }

  /** Joining pieces that do not contain the separator and splitting again gives the pieces back. */
  lemma {:induction false} SplitJoin(parts: seq<string>, sep: char)
    requires |parts| >= 1
    requires forall k :: 0 <= k < |parts| ==> sep !in parts[k]
    ensures Split(Join(parts, [sep]), sep) == parts
    decreases |parts|
  {
    if |parts| > 1 {
      var rest := Join(parts[1..], [sep]);
      var s := parts[0] + [sep] + rest;
      assert Join(parts, [sep]) == s;
      assert forall k :: 0 <= k < |parts[0]| ==> s[k] == parts[0][k];
      assert s[|parts[0]|] == sep;
      assert IndexOf(s, sep) == |parts[0]|;
      assert s[..|parts[0]|] == parts[0];
      assert s[|parts[0]| + 1..] == rest;
      SplitJoin(parts[1..], sep);
      assert parts == [parts[0]] + parts[1..];
    } else {
      assert IndexOf(parts[0], sep) == |parts[0]|;
    }
  }

  // ---------------------------------------------------------------- substrings

  predicate IsPrefix(p: string, s: string) {
    |p| <= |s| && s[..|p|] == p
  }

  /** Python's `p in s` on strings. */
  predicate IsSubstring(p: string, s: string)
    decreases |s|
  {
    IsPrefix(p, s) || (s != [] && IsSubstring(p, s[1..]))
  }

  /** `p` occurs in `s` starting at offset `i`. */
  predicate OccursAt(p: string, s: string, i: int) {
    0 <= i <= |s| - |p| && s[i..i + |p|] == p
  }

  /** `p in s` holds exactly when `p` occurs at some offset of `s`. */
  lemma {:induction false} SubstringAt(p: string, s: string)
    ensures IsSubstring(p, s) <==> exists i :: OccursAt(p, s, i)
    decreases |s|
  {
    if s != [] {
      SubstringAt(p, s[1..]);
      if exists i :: OccursAt(p, s, i) {
        var i :| OccursAt(p, s, i);
        if i > 0 {
          assert s[1..][i - 1..i - 1 + |p|] == p;
          assert OccursAt(p, s[1..], i - 1);
        }
      }
      if IsSubstring(p, s[1..]) {
        var j :| OccursAt(p, s[1..], j);
        assert s[j + 1..j + 1 + |p|] == p;
        assert OccursAt(p, s, j + 1);
      }
      if IsPrefix(p, s) {
        assert OccursAt(p, s, 0);
      }
    } else if p == [] {
      assert OccursAt(p, s, 0);
    }
  }

  /** A string occurs in every string that ends with it. */
  lemma SuffixIsSubstring(p: string, s: string)
    requires |p| <= |s| && s[|s| - |p|..] == p
    ensures IsSubstring(p, s)
  {
    SubstringAt(p, s);
    assert s[|s| - |p|..|s| - |p| + |p|] == p;
    assert OccursAt(p, s, |s| - |p|);
  }

  // ---------------------------------------------------------------- numbers

  /** `str(n)` for a natural number. */
  function NatToString(n: nat): (r: string)
    ensures |r| >= 1 && forall k :: 0 <= k < |r| ==> IsDigit(r[k])
  {
    if n < 10 then [DigitChar(n)] else NatToString(n / 10) + [DigitChar(n % 10)]
  }

  /** `str(i)` for any integer. */
  function IntToString(i: int): string {
    if i < 0 then "-" + NatToString(-i) else NatToString(i)
  }

  /** The value of a string of decimal digits, most significant first. */
  function DigitsValue(ds: string): nat
    requires forall k :: 0 <= k < |ds| ==> IsDigit(ds[k])
  {
    if ds == [] then 0 else DigitsValue(ds[..|ds| - 1]) * 10 + DigitValue(ds[|ds| - 1])
  }

  lemma {:induction false} NatToStringValue(n: nat)
    ensures DigitsValue(NatToString(n)) == n
  {
    if n >= 10 {
      NatToStringValue(n / 10);
      var r := NatToString(n);
      assert r[..|r| - 1] == NatToString(n / 10);
    }
  }

  /** The digit-and-underscore body Python's `int` accepts: digits, with single
      underscores allowed between two digits. */
  predicate IsDecimal(d: string) {
    && |d| >= 1 && IsDigit(d[0]) && IsDigit(d[|d| - 1])
    && (forall k :: 0 <= k < |d| ==> IsDigit(d[k]) || d[k] == '_')
    && (forall k :: 0 <= k < |d| - 1 ==> !DoubleUnderscoreAt(d, k))
  }

  predicate DoubleUnderscoreAt(d: string, k: nat)
    requires k + 1 < |d|
  {
    d[k] == '_' && d[k + 1] == '_'
  }

  function DropUnderscores(d: string): (r: string)
    requires forall k :: 0 <= k < |d| ==> IsDigit(d[k]) || d[k] == '_'
    ensures forall k :: 0 <= k < |r| ==> IsDigit(r[k])
    ensures (forall k :: 0 <= k < |d| ==> IsDigit(d[k])) ==> r == d
  {
    if d == [] then []
    else if d[0] == '_' then DropUnderscores(d[1..])
    else [d[0]] + DropUnderscores(d[1..])
  }

  /** Python's `int(s)` on a string: surrounding whitespace, an optional sign and a
      decimal body; anything else raises `ValueError`, modelled as `None`. */
  function ParseInt(s: string): Option<int> {
    ParseSigned(Strip(s))
  }

  /** `int` on text that has already been stripped. */
  function ParseSigned(t: string): Option<int> {
    if |t| >= 1 && (t[0] == '+' || t[0] == '-') then
      var body := t[1..];
      if IsDecimal(body) then
        var n: int := DigitsValue(DropUnderscores(body));
        Some(if t[0] == '-' then -n else n)
      else None
    else if IsDecimal(t) then Some(DigitsValue(DropUnderscores(t)))
    else None
  }

  /** No decimal digit is whitespace. */
  lemma DigitIsNoSpace(c: char)
    requires IsDigit(c)
    ensures !IsSpace(c)
  {
  }

  /** `int(str(n)) == n` for the digits alone. */
  lemma ParseDigitsOfNat(n: nat)
    ensures var d := NatToString(n); IsDecimal(d) && DropUnderscores(d) == d && DigitsValue(d) == n
  {
    NatToStringValue(n);
  }

  /** `int` of an unsigned decimal with no surrounding whitespace is its value. */
  lemma ParseUnsigned(t: string)
    requires IsDecimal(t) && Strip(t) == t
    ensures ParseInt(t) == Some(DigitsValue(DropUnderscores(t)))
  {
    assert !(t[0] == '+' || t[0] == '-');
  }

  lemma ParseNatToString(m: nat)
    ensures ParseInt(NatToString(m)) == Some(m)
  {
    var d := NatToString(m);
    ParseDigitsOfNat(m);
    DigitIsNoSpace(d[0]);
    DigitIsNoSpace(d[|d| - 1]);
    StripNoSpace(d);
    ParseUnsigned(d);
  }

  /** A minus sign in front of a decimal leaves nothing for `strip` to remove. */
  lemma MinusDecimalUnstripped(d: string)
    requires IsDecimal(d)
    ensures Strip("-" + d) == "-" + d
  {
    var s := "-" + d;
    DigitIsNoSpace(d[|d| - 1]);
    assert s[|s| - 1] == d[|d| - 1];
    StripNoSpace(s);
  }

  /** Text `strip` leaves alone goes straight to the signed parse. */
  lemma ParseUnstripped(s: string)
    requires Strip(s) == s
    ensures ParseInt(s) == ParseSigned(s)
  {
  }

  lemma ParseSignedMinus(t: string, d: string)
    requires IsDecimal(d) && |t| >= 1 && t[0] == '-' && t[1..] == d
    ensures ParseSigned(t) == Some(0 - DigitsValue(DropUnderscores(d)))
  {
  }

  /** `int` of `-` followed by a decimal is minus the decimal's value. */
  lemma ParseMinusDecimal(d: string)
    requires IsDecimal(d)
    ensures ParseInt("-" + d) == Some(0 - DigitsValue(DropUnderscores(d)))
  {
    var t := "-" + d;
    assert ParseInt(t) == ParseSigned(t) by {
      MinusDecimalUnstripped(d);
      ParseUnstripped(t);
    }
    assert t[1..] == d;
    ParseSignedMinus(t, d);
  }

  /** `int()` of `str(i)` for a negative `i`. */
  lemma ParseNegativeToString(i: int)
    requires i < 0
    ensures ParseInt(IntToString(i)) == Some(i)
  {
    var n: nat := -i;
    var d := NatToString(n);
    assert IntToString(i) == "-" + d;
    ParseDigitsOfNat(n);
    ParseMinusDecimal(d);
  }

  /** `int(str(i)) == i`. */
  lemma ParseIntToString(i: int)
    ensures ParseInt(IntToString(i)) == Some(i)
  {
    if i < 0 {
      ParseNegativeToString(i);
    } else {
      ParseNatToString(i);
    }
  }

  /** A string with a character that is no digit, sign, underscore or whitespace is no integer. */
  lemma ParseIntRejectsLetters(s: string, k: nat)
    requires k < |s| && !IsDigit(s[k]) && !IsSpace(s[k]) && s[k] != '_' && s[k] != '+' && s[k] != '-'
    ensures ParseInt(s) == None
  {
    StripIsTrimmedSlice(s);
    var t := Strip(s);
    var i := StripStart(s);
    assert i <= k < i + |t|;
    assert t[k - i] == s[k];
  }

  // ---------------------------------------------------------------- slicing

  /** Python's `s[:n]` for `n >= 0`. */
  function Take<T>(s: seq<T>, n: nat): (r: seq<T>)
    ensures |r| == if n < |s| then n else |s|
    ensures r == s[..|r|]
  {
    if n < |s| then s[..n] else s
  }

  /** Python's `s[n:]` for any integer `n`: a non-negative `n` drops the first
      `n` elements, a negative one keeps the last `-n`; either way the result
      is a suffix of `s`. */
  function PyDrop<T>(s: seq<T>, n: int): (r: seq<T>)
    ensures |r| == if n >= 0 then (if n < |s| then |s| - n else 0) else (if -n < |s| then -n else |s|)
    ensures r == s[|s| - |r|..]
  {
    if n >= 0 then (if n < |s| then s[n..] else [])
    else if -n < |s| then s[|s| + n..] else s
  }
}
