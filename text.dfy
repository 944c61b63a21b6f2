/**
 * String helpers shared by the configuration model: Python's `str.split`
 * with a non-empty separator and its inverse `join`, ASCII case mapping,
 * prefix tests, and the decimal integer syntax accepted by `int(...)`.
 */
module Text {

  import opened Wrappers

  /** `s.split(sep)` for a non-empty separator: leftmost, non-overlapping cuts. */
  function Split(s: string, sep: string): (parts: seq<string>)
    requires |sep| > 0
    ensures |parts| >= 1
    decreases |s|
  {
    if |s| < |sep| then [s]
    else if s[..|sep|] == sep then [""] + Split(s[|sep|..], sep)
    else
      var rest := Split(s[1..], sep);
      [[s[0]] + rest[0]] + rest[1..]
  }

  /** `sep.join(parts)`. */
  function Join(parts: seq<string>, sep: string): string
  {
    if |parts| == 0 then ""
    else if |parts| == 1 then parts[0]
    else parts[0] + sep + Join(parts[1..], sep)
  }

  /** Joining the pieces of a split with the same separator gives back the text. */
  lemma {:induction false} JoinSplit(s: string, sep: string)
    requires |sep| > 0
    ensures Join(Split(s, sep), sep) == s
    decreases |s|
  {
    if |s| < |sep| {
    } else if s[..|sep|] == sep {
      JoinSplit(s[|sep|..], sep);
      var rest := Split(s[|sep|..], sep);
      assert Split(s, sep) == [""] + rest;
      assert s == s[..|sep|] + s[|sep|..];
    } else {
      JoinSplit(s[1..], sep);
      var rest := Split(s[1..], sep);
      var parts := [[s[0]] + rest[0]] + rest[1..];
      assert Split(s, sep) == parts;
      if |rest| == 1 {
        assert Join(parts, sep) == [s[0]] + rest[0];
      } else {
        assert Join(rest, sep) == rest[0] + sep + Join(rest[1..], sep);
        assert parts[1..] == rest[1..];
        assert Join(parts, sep) == [s[0]] + rest[0] + sep + Join(rest[1..], sep);
      }
      assert s == [s[0]] + s[1..];
    }
  }

  /**
   * `a` is a piece for `sep`: no occurrence of `sep` in `a + sep` starts inside
   * `a`, so the first cut of `a + sep + ...` falls right after `a`.
   */
  predicate IsPiece(a: string, sep: string)
  {
    forall j :: 0 <= j < |a| ==> !StartsWith((a + sep)[j..], sep)
  }

  /** A text without the separator's first character is a piece. */
  lemma PieceOfChar(a: string, sep: string)
    requires |sep| > 0 && sep[0] !in a
    ensures IsPiece(a, sep)
  {
    forall j | 0 <= j < |a|
      ensures !StartsWith((a + sep)[j..], sep)
    {
      assert (a + sep)[j..][0] == a[j];
    }
  }

  /** Dropping the first character of a piece leaves a piece. */
  lemma PieceTail(a: string, sep: string)
    requires |a| > 0 && IsPiece(a, sep)
    ensures IsPiece(a[1..], sep)
  {
    forall j | 0 <= j < |a[1..]|
      ensures !StartsWith((a[1..] + sep)[j..], sep)
    {
      assert (a[1..] + sep)[j..] == (a + sep)[j + 1..];
    }
  }

  /** Splitting a join of pieces gives the pieces back. */
  lemma {:induction false} SplitJoinPieces(parts: seq<string>, sep: string)
    requires |sep| > 0 && |parts| >= 1
    requires forall i :: 0 <= i < |parts| ==> IsPiece(parts[i], sep)
    ensures Split(Join(parts, sep), sep) == parts
    decreases |parts|
  {
    if |parts| == 1 {
      SplitWhole(parts[0], sep);
    } else {
      assert Join(parts, sep) == parts[0] + sep + Join(parts[1..], sep);
      SplitLeading(parts[0], sep, Join(parts[1..], sep));
      SplitJoinPieces(parts[1..], sep);
      assert parts == [parts[0]] + parts[1..];
    }
  }

  /** Splitting a join of pieces that do not contain the separator's first character gives the pieces back. */
  lemma SplitJoin(parts: seq<string>, sep: string)
    requires |sep| > 0 && |parts| >= 1
    requires forall i :: 0 <= i < |parts| ==> sep[0] !in parts[i]
    ensures Split(Join(parts, sep), sep) == parts
  {
    forall i | 0 <= i < |parts|
      ensures IsPiece(parts[i], sep)
    {
      PieceOfChar(parts[i], sep);
    }
    SplitJoinPieces(parts, sep);
  }

  /** Text before the first separator is the first piece. */
  lemma {:induction false} SplitLeading(a: string, sep: string, b: string)
    requires |sep| > 0 && IsPiece(a, sep)
    ensures Split(a + sep + b, sep) == [a] + Split(b, sep)
    decreases |a|
  {
    var s := a + sep + b;
    if |a| == 0 {
      assert s == sep + b;
      assert s[..|sep|] == sep && s[|sep|..] == b;
    } else {
      assert (a + sep)[0..] == a + sep;
      assert s[..|sep|] == (a + sep)[..|sep|];
      PieceTail(a, sep);
      SplitLeading(a[1..], sep, b);
      assert s[1..] == a[1..] + sep + b;
      assert [a[0]] + a[1..] == a;
    }
  }

  /** A piece is split into itself alone. */
  lemma {:induction false} SplitWhole(s: string, sep: string)
    requires |sep| > 0 && IsPiece(s, sep)
    ensures Split(s, sep) == [s]
    decreases |s|
  {
    if |s| >= |sep| {
      assert (s + sep)[0..] == s + sep;
      assert s[..|sep|] == (s + sep)[..|sep|];
      PieceTail(s, sep);
      SplitWhole(s[1..], sep);
      assert [s[0]] + s[1..] == s;
    }
  }

  /** A text without the separator's first character is a single piece. */
  lemma SplitNoSeparator(s: string, sep: string)
    requires |sep| > 0 && sep[0] !in s
    ensures Split(s, sep) == [s]
  {
    PieceOfChar(s, sep);
    SplitWhole(s, sep);
  }

  predicate StartsWith(s: string, prefix: string)
  {
    |prefix| <= |s| && s[..|prefix|] == prefix
  }

  function LowerChar(c: char): char
  {
    if 'A' <= c <= 'Z' then (c as int + 32) as char else c
  }

  function UpperChar(c: char): char
  {
    if 'a' <= c <= 'z' then (c as int - 32) as char else c
  }

  /** `s.lower()` restricted to ASCII letters. */
  function Lower(s: string): (r: string)
    ensures |r| == |s|
    ensures forall i :: 0 <= i < |s| ==> r[i] == LowerChar(s[i])
  {
    seq(|s|, i requires 0 <= i < |s| => LowerChar(s[i]))
  }

  /** Lower-casing twice is lower-casing once. */
  lemma LowerIdempotent(s: string)
    ensures Lower(Lower(s)) == Lower(s)
  {
    assert forall i :: 0 <= i < |s| ==> Lower(Lower(s))[i] == Lower(s)[i];
  }

  /** Lower-casing a join is joining the lower-cased pieces with the lower-cased separator. */
  lemma {:induction false} LowerJoin(parts: seq<string>, sep: string)
    ensures Lower(Join(parts, sep)) == Join(seq(|parts|, i requires 0 <= i < |parts| => Lower(parts[i])), Lower(sep))
    decreases |parts|
  {
    var lowered := seq(|parts|, i requires 0 <= i < |parts| => Lower(parts[i]));
    if |parts| > 1 {
      LowerJoin(parts[1..], sep);
      assert lowered[1..] == seq(|parts[1..]|, i requires 0 <= i < |parts[1..]| => Lower(parts[1..][i]));
      assert Lower(parts[0] + sep + Join(parts[1..], sep)) == Lower(parts[0]) + Lower(sep) + Lower(Join(parts[1..], sep));
    }
  }

  /** Case mapping works character by character, so it distributes over concatenation. */
  lemma UpperConcat(a: string, b: string)
    ensures Upper(a + b) == Upper(a) + Upper(b)
  {
  }

  /** `s.upper()` restricted to ASCII letters. */
  function Upper(s: string): (r: string)
    ensures |r| == |s|
    ensures forall i :: 0 <= i < |s| ==> r[i] == UpperChar(s[i])
  {
    seq(|s|, i requires 0 <= i < |s| => UpperChar(s[i]))
  }

  predicate IsDigit(c: char) { '0' <= c <= '9' }

  predicate AllDigits(s: string)
  {
    forall i :: 0 <= i < |s| ==> IsDigit(s[i])
  }

  /** The value of a non-empty run of decimal digits. */
  function DigitsValue(s: string): (n: nat)
    requires AllDigits(s)
    decreases |s|
  {
    if |s| == 0 then 0
    else DigitsValue(s[..|s| - 1]) * 10 + (s[|s| - 1] as int - '0' as int)
  }

  /** The integer syntax: an optional `+` or `-` followed by at least one decimal digit. */
  predicate IsIntText(s: string)
  {
    var digits := if |s| > 0 && s[0] in "+-" then s[1..] else s;
    |digits| > 0 && AllDigits(digits)
  }

  /** `int(s)` on an optional sign followed by decimal digits; anything else is not an integer. */
  function ParseInt(s: string): (r: Option<int>)
    ensures r.Some? <==> IsIntText(s)
    ensures r.Some? && s[0] == '-' ==> r.value <= 0
    ensures r.Some? && s[0] != '-' ==> r.value >= 0
  {
    if |s| > 0 && (s[0] == '-' || s[0] == '+') then
      if |s| > 1 && AllDigits(s[1..]) then
        var m: int := DigitsValue(s[1..]);
        Some(if s[0] == '-' then -m else m)
      else None
    else if |s| > 0 && AllDigits(s) then Some(DigitsValue(s))
    else None
  }

  /** `str(n)` for a natural number. */
  function FormatNat(n: nat): (s: string)
    ensures |s| > 0 && AllDigits(s)
  {
    if n < 10 then [('0' as int + n) as char]
    else FormatNat(n / 10) + [('0' as int + n % 10) as char]
  }

  /** `str(n)` for an integer. */
  function FormatInt(n: int): string
  {
    if n < 0 then "-" + FormatNat(-n) else FormatNat(n)
  }

  lemma {:induction false} DigitsOfFormatNat(n: nat)
    ensures DigitsValue(FormatNat(n)) == n
  {
    if n >= 10 {
      DigitsOfFormatNat(n / 10);
      var s := FormatNat(n);
      assert s[..|s| - 1] == FormatNat(n / 10);
    }
  }

  /** `int(str(n)) == n`: the integer syntax reads back what it prints. */
  lemma ParseFormatInt(n: int)
    ensures ParseInt(FormatInt(n)) == Some(n)
  {
    if n < 0 {
      DigitsOfFormatNat(-n);
      var s := "-" + FormatNat(-n);
      assert s[0] == '-' && s[1..] == FormatNat(-n);
    } else {
      DigitsOfFormatNat(n);
      var s := FormatNat(n);
      assert IsDigit(s[0]);
    }
  }
}
