/** The C and Arduino string primitives the two core files lean on:
    NUL-terminated strings, strchr, strlen, atoi, String::indexOf and the
    decimal text of a byte. Bytes are modelled as characters. */
module CStrings {

  datatype Option<T> = None | Some(value: T)

  const NUL: char := '\0'

  /** A C string: a character sequence with no NUL inside it. */
  predicate IsCString(s: string) {
    NUL !in s
  }

  /** Index of the first `c` in `s`: what strchr's result points at. */
  ghost function IndexOfChar(s: string, c: char): (r: nat)
    requires c in s
    ensures r < |s| && s[r] == c && c !in s[..r]
  {
    FirstOccurrence(s, c);
    var r: nat :| r < |s| && s[r] == c && c !in s[..r];
    r
  }

  /** A character that occurs in `s` has a first occurrence. */
  lemma {:induction false} FirstOccurrence(s: string, c: char)
    requires c in s
    ensures exists r: nat :: r < |s| && s[r] == c && c !in s[..r]
  {
    if s[0] == c {
      assert s[..0] == [];
    } else {
      FirstOccurrence(s[1..], c);
      var r: nat :| r < |s| - 1 && s[1..][r] == c && c !in s[1..][..r];
      assert s[..r + 1] == [s[0]] + s[1..][..r];
      assert s[r + 1] == c;
    }
  }

  /** The first occurrence is the one with no occurrence before it. */
  lemma IndexOfCharAt(s: string, c: char, j: nat)
    requires j < |s| && s[j] == c && c !in s[..j]
    ensures IndexOfChar(s, c) == j
  {
    var r := IndexOfChar(s, c);
    assert forall k :: 0 <= k < j ==> s[k] in s[..j];
    assert forall k :: 0 <= k < r ==> s[k] in s[..r];
  }

  /** What a char pointer to `s` denotes: the characters before the first NUL. */
  ghost function CStr(s: seq<char>): (r: string)
    ensures r <= s
    ensures IsCString(r)
    ensures |r| == |s| || s[|r|] == NUL
  {
    if NUL in s then s[..IndexOfChar(s, NUL)] else s
  }

  /** A string already terminated by NUL reads back as itself, whatever follows the terminator. */
  lemma CStrTerminated(t: string, rest: seq<char>)
    requires IsCString(t)
    ensures CStr(t + [NUL] + rest) == t
  {
    var s := t + [NUL] + rest;
    assert s[..|t|] == t;
    IndexOfCharAt(s, NUL, |t|);
  }

  /** Appending a terminator, and anything after it, does not change what a
      char pointer to the start reads. */
  lemma CStrPadded(s: seq<char>, rest: seq<char>)
    ensures CStr(s + [NUL] + rest) == CStr(s)
  {
    var c := CStr(s);
    if |c| == |s| {
      assert s == c;
      CStrTerminated(c, rest);
    } else {
      assert s == c + [NUL] + s[|c| + 1..];
      assert s + [NUL] + rest == c + [NUL] + (s[|c| + 1..] + [NUL] + rest);
      CStrTerminated(c, s[|c| + 1..] + [NUL] + rest);
    }
  }

  /** Characters before position k+1 that are not NUL all belong to the C string. */
  lemma CStrCovers(s: seq<char>, k: nat)
    requires k < |s| && NUL !in s[..k + 1]
    ensures k < |CStr(s)|
  {
    assert forall i :: 0 <= i <= k ==> s[i] in s[..k + 1];
  }

  /** A C string with nothing after it reads back as itself. */
  lemma CStrWhole(t: string)
    requires IsCString(t)
    ensures CStr(t) == t
  {
  }

  /** The characters from p up to a NUL at e that has no NUL before it are what a pointer to p reads. */
  lemma CStrAt(d: seq<char>, p: nat, e: nat)
    requires p <= e < |d| && d[e] == NUL && NUL !in d[p..e]
    ensures NUL in d[p..] && CStr(d[p..]) == d[p..e]
  {
    assert d[p..] == d[p..e] + [NUL] + d[e + 1..];
    CStrTerminated(d[p..e], d[e + 1..]);
  }

  /** strchr(buf + from, c) for c != NUL: the position of the first `c` before the terminator, or NULL. */
  method StrChr(buf: seq<char>, from: nat, c: char) returns (r: Option<nat>)
    requires c != NUL
    requires from < |buf| && NUL in buf[from..]
    ensures r.None? <==> c !in CStr(buf[from..])
    ensures r.Some? ==> from <= r.value < |buf| && r.value == from + IndexOfChar(CStr(buf[from..]), c)
  {
    ghost var e :| from <= e < |buf| && buf[e] == NUL;
    var k := from;
    while buf[k] != NUL && buf[k] != c
      invariant from <= k <= e
      invariant NUL !in buf[from..k] && c !in buf[from..k]
      decreases e - k
    {
      assert buf[from..k + 1] == buf[from..k] + [buf[k]];
      k := k + 1;
    }
    if buf[k] == NUL {
      CStrAt(buf, from, k);
      r := None;
    } else {
      FoundInCStr(buf, from, k, c);
      r := Some(k);
    }
  }

  /** A `c` at k with neither NUL nor `c` between from and k is the first `c`
      of the C string at from. */
  lemma FoundInCStr(buf: seq<char>, from: nat, k: nat, c: char)
    requires from <= k < |buf| && buf[k] == c && c != NUL
    requires NUL !in buf[from..k] && c !in buf[from..k]
    ensures c in CStr(buf[from..]) && IndexOfChar(CStr(buf[from..]), c) == k - from
  {
    var t := CStr(buf[from..]);
    var i := k - from;
    assert buf[from..k + 1] == buf[from..k] + [c];
    CStrCovers(buf[from..], i);
    assert t[..i] == buf[from..k] by {
      assert t[..i] == buf[from..][..i];
    }
    assert t[i] == c;
    IndexOfCharAt(t, c, i);
  }

  /** strlen(buf + from). */
  method StrLen(buf: seq<char>, from: nat) returns (n: nat)
    requires from <= |buf| && NUL in buf[from..]
    ensures n == |CStr(buf[from..])|
    ensures from + n < |buf| && buf[from + n] == NUL && NUL !in buf[from..from + n]
  {
    ghost var e :| from <= e < |buf| && buf[e] == NUL;
    n := 0;
    while buf[from + n] != NUL
      invariant from + n <= e
      invariant NUL !in buf[from..from + n]
      decreases e - from - n
    {
      assert buf[from..from + n + 1] == buf[from..from + n] + [buf[from + n]];
      n := n + 1;
    }
    CStrAt(buf, from, from + n);
  }

  /** Characters isspace() accepts in the C locale. */
  predicate IsSpace(c: char) {
    c == ' ' || c == '\t' || c == '\n' || c == '\U{000B}' || c == '\U{000C}' || c == '\r'
  }

  predicate IsDigit(c: char) {
    '0' <= c <= '9'
  }

  /** The longest prefix of `s` made of decimal digits. */
  function LeadingDigits(s: string): (r: string)
    ensures r <= s
    ensures forall i :: 0 <= i < |r| ==> IsDigit(r[i])
    ensures |r| == |s| || !IsDigit(s[|r|])
  {
    if s == [] || !IsDigit(s[0]) then [] else [s[0]] + LeadingDigits(s[1..])
  }

  /** The value of a string of decimal digits, most significant first. */
  function DigitsValue(s: string): nat
    requires forall i :: 0 <= i < |s| ==> IsDigit(s[i])
  {
    if s == [] then 0
    else
      assert IsDigit(s[|s| - 1]);
      10 * DigitsValue(s[..|s| - 1]) + (s[|s| - 1] - '0') as nat
  }

  function SkipSpaces(s: string): string {
    if s != [] && IsSpace(s[0]) then SkipSpaces(s[1..]) else s
  }

  /** atoi: leading white space, an optional sign, then as many digits as follow.
      The value is unbounded here (int overflow in atoi is undefined behaviour). */
  function Atoi(s: string): (r: int)
    ensures r < 0 ==> SkipSpaces(s) != [] && SkipSpaces(s)[0] == '-'
  {
    var t := SkipSpaces(s);
    if t != [] && t[0] == '-' then -(DigitsValue(LeadingDigits(t[1..])) as int)
    else if t != [] && t[0] == '+' then DigitsValue(LeadingDigits(t[1..]))
    else DigitsValue(LeadingDigits(t))
  }

  function DigitChar(d: nat): char
    requires d < 10
  {
    '0' + d as char
  }

  /** Decimal text of a natural number, without leading zeros (what "%u" prints). */
  function Decimal(n: nat): (r: string)
    ensures 1 <= |r|
    ensures forall i :: 0 <= i < |r| ==> IsDigit(r[i])
    ensures n < 10 ==> |r| == 1
    ensures n < 100 ==> |r| <= 2
    ensures n < 1000 ==> |r| <= 3
  {
    if n < 10 then [DigitChar(n)] else Decimal(n / 10) + [DigitChar(n % 10)]
  }

  /** The digits of Decimal(n) have the value n. */
  lemma {:induction false} DigitsValueDecimal(n: nat)
    ensures DigitsValue(Decimal(n)) == n
  {
    if n >= 10 {
      DigitsValueDecimal(n / 10);
      var d := Decimal(n);
      assert d[..|d| - 1] == Decimal(n / 10);
    }
  }

  /** atoi reads back the decimal text of every natural number. */
  lemma AtoiDecimal(n: nat)
    ensures Atoi(Decimal(n)) == n
  {
    var d := Decimal(n);
    LeadingDigitsAllDigits(d);
    DigitsValueDecimal(n);
    assert !IsSpace(d[0]) && d[0] != '-' && d[0] != '+';
  }

  lemma {:induction false} LeadingDigitsAllDigits(s: string)
    requires forall i :: 0 <= i < |s| ==> IsDigit(s[i])
    ensures LeadingDigits(s) == s
  {
    if s != [] {
      LeadingDigitsAllDigits(s[1..]);
    }
  }

  predicate OccursAt(s: string, pat: string, k: int) {
    0 <= k && k + |pat| <= |s| && s[k..k + |pat|] == pat
  }

  /** Arduino String::indexOf(pat, from) on a string without NUL: the first
      position at or after `from` where `pat` occurs, or -1. */
  function IndexOf(s: string, pat: string, from: nat): (r: int)
    ensures r == -1 || (from <= r && OccursAt(s, pat, r))
    ensures r == -1 ==> forall k :: from <= k ==> !OccursAt(s, pat, k)
    ensures r != -1 ==> forall k :: from <= k < r ==> !OccursAt(s, pat, k)
    decreases |s| - from
  {
    if from + |pat| > |s| then -1
    else if s[from..from + |pat|] == pat then from
    else IndexOf(s, pat, from + 1)
  }
}
