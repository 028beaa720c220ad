/** Python string and path helpers used by the model, over `seq<char>`.
    Only ASCII letters are case-mapped; whitespace is every character for
    which Python's `str.isspace` holds (Unicode 15.0). */
module Strings {

  predicate IsDigit(c: char) {
    '0' <= c <= '9'
  }

  predicate IsDigits(s: string) {
    forall i | 0 <= i < |s| :: IsDigit(s[i])
  }

  function DigitChar(d: nat): (c: char)
    requires d < 10
    ensures IsDigit(c) && DigitValue(c) == d
  {
    (48 + d) as char
  }

  function DigitValue(c: char): nat
    requires IsDigit(c)
  {
    (c as int) - 48
  }

  /** A decimal numeral without leading zeros: `0`, or a non-zero digit
      followed by digits. */
  predicate IsCanonicalNumeral(s: string) {
    && 1 <= |s|
    && IsDigits(s)
    && (s[0] == '0' ==> |s| == 1)
  }

  /** Python's `str(n)` (and `'%d' % n`) for a non-negative integer. */
  function NatToString(n: nat): (s: string)
    ensures IsCanonicalNumeral(s)
    ensures s[0] == '0' ==> n == 0
  {
    if n < 10 then [DigitChar(n)] else NatToString(n / 10) + [DigitChar(n % 10)]
  }

  /** The value of a string of decimal digits. */
  function DigitsValue(s: string): nat
    requires IsDigits(s)
  {
    if |s| == 0 then 0 else 10 * DigitsValue(s[..|s| - 1]) + DigitValue(s[|s| - 1])
  }

  /** Reading back the numeral of `n` gives `n`. */
  lemma {:induction false} DigitsValueOfNatToString(n: nat)
    ensures DigitsValue(NatToString(n)) == n
  {
    if n >= 10 {
      var s := NatToString(n);
      assert s[..|s| - 1] == NatToString(n / 10);
      DigitsValueOfNatToString(n / 10);
    }
  }

  /** Distinct numbers have distinct numerals. */
  lemma NatToStringInjective(a: nat, b: nat)
    requires NatToString(a) == NatToString(b)
    ensures a == b
  {
    DigitsValueOfNatToString(a);
    DigitsValueOfNatToString(b);
  }

  lemma {:induction false} LeadingDigitPositive(s: string)
    requires 1 <= |s| && IsDigits(s) && s[0] != '0'
    ensures DigitsValue(s) >= 1
  {
    if |s| > 1 {
      LeadingDigitPositive(s[..|s| - 1]);
    }
  }

  /** A canonical numeral is the numeral of its own value. */
  lemma {:induction false} NatToStringOfCanonical(s: string)
    requires IsCanonicalNumeral(s)
    ensures NatToString(DigitsValue(s)) == s
  {
    if |s| > 1 {
      var p := s[..|s| - 1];
      var n := DigitsValue(s);
      LeadingDigitPositive(p);
      NatToStringOfCanonical(p);
      assert n / 10 == DigitsValue(p) && n % 10 == DigitValue(s[|s| - 1]);
      assert p + [s[|s| - 1]] == s;
    }
  }

  /** Python's `str(i)` for any integer. */
  function IntToString(i: int): string {
    if i < 0 then "-" + NatToString(-i) else NatToString(i)
  }

  predicate StartsWith(s: string, prefix: string) {
    prefix <= s
  }

  predicate EndsWith(s: string, suffix: string) {
    |suffix| <= |s| && s[|s| - |suffix|..] == suffix
  }

  /** Python's `s.rfind(c)`: the last position of `c`, or -1. */
  function LastIndexOf(s: string, c: char): (r: int)
    ensures -1 <= r < |s|
    ensures r >= 0 ==> s[r] == c
    ensures forall j | r < j < |s| :: s[j] != c
  {
    if |s| == 0 then -1
    else if s[|s| - 1] == c then |s| - 1
    else LastIndexOf(s[..|s| - 1], c)
  }

  /** Python's `s.find(c)`: the first position of `c`, or -1. */
  function IndexOf(s: string, c: char): (r: int)
    ensures -1 <= r < |s|
    ensures r >= 0 ==> s[r] == c
    ensures forall j | 0 <= j < |s| && (r < 0 || j < r) :: s[j] != c
  {
    if |s| == 0 then -1
    else if s[0] == c then 0
    else var k := IndexOf(s[1..], c); if k < 0 then -1 else k + 1
  }

  /** `k` is the last position of `c` in `s`. */
  lemma LastIndexOfAt(s: string, c: char, k: int)
    requires -1 <= k < |s| && (k >= 0 ==> s[k] == c)
    requires forall j | k < j < |s| :: s[j] != c
    ensures LastIndexOf(s, c) == k
  {
  }

  /** `k` is the first position of `c` in `s`. */
  lemma IndexOfAt(s: string, c: char, k: int)
    requires -1 <= k < |s| && (k >= 0 ==> s[k] == c)
    requires forall j | 0 <= j < |s| && (k < 0 || j < k) :: s[j] != c
    ensures IndexOf(s, c) == k
  {
  }

  /** `os.path.basename`: everything after the last '/'. */
  function Basename(p: string): (r: string)
    ensures '/' !in r
    ensures EndsWith(p, r)
  {
    p[LastIndexOf(p, '/') + 1..]
  }

  /** `s.rstrip(c)`: drops every trailing `c`. */
  function RStrip(s: string, c: char): (r: string)
    ensures r <= s
    ensures |r| == 0 || r[|r| - 1] != c
    ensures forall j | |r| <= j < |s| :: s[j] == c
  {
    if |s| == 0 || s[|s| - 1] != c then s else RStrip(s[..|s| - 1], c)
  }

  predicate AllChar(s: string, c: char) {
    forall i | 0 <= i < |s| :: s[i] == c
  }

  /** `os.path.dirname` (posixpath): the head up to the last '/', with
      trailing slashes removed unless the head is all slashes. */
  function Dirname(p: string): (r: string)
    ensures r <= p
  {
    var head := p[..LastIndexOf(p, '/') + 1];
    if |head| > 0 && !AllChar(head, '/') then RStrip(head, '/') else head
  }

  /** `os.path.join(a, b)` (posixpath): an absolute `b` replaces `a`. */
  function Join(a: string, b: string): (r: string)
    ensures EndsWith(r, b)
  {
    if StartsWith(b, "/") then b
    else if |a| == 0 || EndsWith(a, "/") then a + b
    else a + "/" + b
  }

  /** `os.path.splitext` (posixpath): the extension starts at the last '.'
      of the final path component, unless that component has only dots
      before it. */
  function SplitExt(p: string): (r: (string, string))
    ensures r.0 + r.1 == p
    ensures r.1 == [] || (r.1[0] == '.' && '/' !in r.1 && '.' !in r.1[1..])
  {
    var sep := LastIndexOf(p, '/');
    var dot := LastIndexOf(p, '.');
    if dot > sep && exists j | sep < j < dot :: p[j] != '.' then
      assert p[..dot] + p[dot..] == p;
      (p[..dot], p[dot..])
    else
      (p, [])
  }

  function LowerChar(c: char): char {
    if 'A' <= c <= 'Z' then ((c as int) + 32) as char else c
  }

  function UpperChar(c: char): char {
    if 'a' <= c <= 'z' then ((c as int) - 32) as char else c
  }

  /** `s.lower()` on ASCII letters. */
  function Lower(s: string): (r: string)
    ensures |r| == |s|
    ensures forall i | 0 <= i < |s| :: r[i] == LowerChar(s[i])
  {
    seq(|s|, i requires 0 <= i < |s| => LowerChar(s[i]))
  }

  /** `s.upper()` on ASCII letters. */
  function Upper(s: string): (r: string)
    ensures |r| == |s|
    ensures forall i | 0 <= i < |s| :: r[i] == UpperChar(s[i])
  {
    seq(|s|, i requires 0 <= i < |s| => UpperChar(s[i]))
  }

  /** The characters for which Python's `str.isspace` holds, which are
      those `str.strip()` removes: the ASCII controls tab to carriage return
      and the four separators, the space, next line, no-break space, and the
      Unicode space and line and paragraph separators. */
  predicate IsSpace(c: char) {
    || c == ' ' || '\t' <= c <= '\r' || '\U{1c}' <= c <= '\U{1f}'
    || c == '\U{85}' || c == '\U{a0}' || c == '\U{1680}' || '\U{2000}' <= c <= '\U{200a}'
    || c == '\U{2028}' || c == '\U{2029}' || c == '\U{202f}' || c == '\U{205f}' || c == '\U{3000}'
  }

  function StripLeft(s: string): (r: string)
    ensures EndsWith(s, r)
    ensures |r| == 0 || !IsSpace(r[0])
  {
    if |s| > 0 && IsSpace(s[0]) then StripLeft(s[1..]) else s
  }

  function StripRight(s: string): (r: string)
    ensures r <= s
    ensures |r| == 0 || !IsSpace(r[|r| - 1])
  {
    if |s| > 0 && IsSpace(s[|s| - 1]) then StripRight(s[..|s| - 1]) else s
  }

  /** `s.strip()`: no leading or trailing whitespace remains. */
  function Strip(s: string): (r: string)
    ensures |r| == 0 || (!IsSpace(r[0]) && !IsSpace(r[|r| - 1]))
  {
    StripRight(StripLeft(s))
  }

  /** Text made only of whitespace strips to nothing. */
  lemma {:induction false} StripAllSpace(s: string)
    requires forall i | 0 <= i < |s| :: IsSpace(s[i])
    ensures Strip(s) == ""
  {
    StripLeftAllSpace(s);
  }

  lemma {:induction false} StripLeftAllSpace(s: string)
    requires forall i | 0 <= i < |s| :: IsSpace(s[i])
    ensures StripLeft(s) == ""
  {
    if |s| > 0 {
      StripLeftAllSpace(s[1..]);
    }
  }

  /** `s.split(sep)`: the pieces between occurrences of `sep`. */
  function Split(s: string, sep: char): (parts: seq<string>)
    ensures |parts| >= 1
    ensures forall i | 0 <= i < |parts| :: sep !in parts[i]
    decreases |s|
  {
    var k := IndexOf(s, sep);
    if k < 0 then
      [s]
    else
      var head, rest := s[..k], Split(s[k + 1..], sep);
      assert forall j | 0 <= j < |head| :: head[j] == s[j];
      [head] + rest
  }

  /** `sep.join(parts)`. */
  function JoinWith(parts: seq<string>, sep: char): string {
    if |parts| == 0 then []
    else if |parts| == 1 then parts[0]
    else parts[0] + [sep] + JoinWith(parts[1..], sep)
  }

  /** The first `sep` of `a + [sep] + b` is the one after `a`, when `a` holds
      none. */
  lemma {:induction false} IndexOfAfter(a: string, b: string, sep: char)
    requires sep !in a
    ensures IndexOf(a + [sep] + b, sep) == |a|
  {
    if |a| > 0 {
      assert (a + [sep] + b)[1..] == a[1..] + [sep] + b;
      IndexOfAfter(a[1..], b, sep);
    }
  }

  /** Splitting a joined list gives the list back when no piece holds the
      separator. */
  lemma {:induction false} SplitJoin(parts: seq<string>, sep: char)
    requires |parts| >= 1
    requires forall i | 0 <= i < |parts| :: sep !in parts[i]
    ensures Split(JoinWith(parts, sep), sep) == parts
  {
    if |parts| > 1 {
      var rest := JoinWith(parts[1..], sep);
      var s := parts[0] + [sep] + rest;
      IndexOfAfter(parts[0], rest, sep);
      assert s[..|parts[0]|] == parts[0];
      assert s[|parts[0]| + 1..] == rest;
      SplitJoin(parts[1..], sep);
      assert Split(s, sep) == [parts[0]] + Split(rest, sep);
      assert [parts[0]] + parts[1..] == parts;
    } else {
      assert IndexOf(parts[0], sep) < 0;
    }
  }

  lemma SplitStep(s: string, sep: char)
    requires IndexOf(s, sep) >= 0
    ensures Split(s, sep) == [s[..IndexOf(s, sep)]] + Split(s[IndexOf(s, sep) + 1..], sep)
  {
  }

  lemma JoinCons(head: string, rest: seq<string>, sep: char)
    requires |rest| >= 1
    ensures JoinWith([head] + rest, sep) == head + [sep] + JoinWith(rest, sep)
  {
    assert ([head] + rest)[1..] == rest;
  }

  /** Joining the pieces of a split gives the string back. */
  lemma {:induction false} JoinSplit(s: string, sep: char)
    ensures JoinWith(Split(s, sep), sep) == s
    decreases |s|
  {
    var k := IndexOf(s, sep);
    if k >= 0 {
      var head, tail := s[..k], s[k + 1..];
      JoinSplit(tail, sep);
      SplitStep(s, sep);
      JoinPieces(s, head, tail, Split(tail, sep), sep);
    } else {
      assert Split(s, sep) == [s];
    }
  }

  /** Putting the head back in front of the joined tail rebuilds `s`. */
  lemma JoinPieces(s: string, head: string, tail: string, rest: seq<string>, sep: char)
    requires 0 <= |head| < |s| && head == s[..|head|] && s[|head|] == sep && tail == s[|head| + 1..]
    requires |rest| >= 1 && JoinWith(rest, sep) == tail
    ensures JoinWith([head] + rest, sep) == s
  {
    JoinCons(head, rest, sep);
    assert s == head + [sep] + tail;
  }
}
