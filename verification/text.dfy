/**
 * The Python string operations the modelled code uses, on `string`
 * (a sequence of Unicode scalar values): `strip()`, `split(sep)`, `split()`,
 * `startswith`/`endswith`/`in`, `replace(c, '')`, `lower()`, `int(...)` and
 * `'%d'`/`'%02d'` formatting.
 */
module Text {
  import opened Wrappers

  /** The characters for which Python's `str.isspace()` holds. */
  predicate IsSpace(c: char) {
    || ('\t' <= c <= '\r')
    || ('\U{1C}' <= c <= '\U{1F}')
    || c == ' ' || c == '\U{85}' || c == '\U{A0}' || c == '\U{1680}'
    || ('\U{2000}' <= c <= '\U{200A}')
    || c == '\U{2028}' || c == '\U{2029}' || c == '\U{202F}' || c == '\U{205F}' || c == '\U{3000}'
  }

  predicate AllSpace(s: string) {
    forall i :: 0 <= i < |s| ==> IsSpace(s[i])
  }

  /** No whitespace at either end. */
  predicate Trimmed(s: string) {
    |s| == 0 || (!IsSpace(s[0]) && !IsSpace(s[|s| - 1]))
  }

  // ---------------------------------------------------------------- strip

  function TrimStart(s: string): (r: string)
    ensures |r| <= |s|
    ensures |r| > 0 ==> !IsSpace(r[0])
  {
    if |s| > 0 && IsSpace(s[0]) then TrimStart(s[1..]) else s
  }

  function TrimEnd(s: string): (r: string)
    ensures |r| <= |s|
    ensures |r| > 0 ==> !IsSpace(r[|r| - 1])
  {
    if |s| > 0 && IsSpace(s[|s| - 1]) then TrimEnd(s[..|s| - 1]) else s
  }

  /** What `TrimStart` removes is whitespace, and all it removes. */
  lemma {:induction false} TrimStartSuffix(s: string)
    ensures TrimStart(s) == s[|s| - |TrimStart(s)|..]
    ensures AllSpace(s[..|s| - |TrimStart(s)|])
  {
    if |s| > 0 && IsSpace(s[0]) {
      TrimStartSuffix(s[1..]);
      assert s[|s| - |TrimStart(s)|..] == s[1..][|s[1..]| - |TrimStart(s[1..])|..];
      assert s[..|s| - |TrimStart(s)|] == [s[0]] + s[1..][..|s[1..]| - |TrimStart(s[1..])|];
    }
  }

  /** What `TrimEnd` removes is whitespace, and all it removes. */
  lemma {:induction false} TrimEndPrefix(s: string)
    ensures TrimEnd(s) == s[..|TrimEnd(s)|]
    ensures AllSpace(s[|TrimEnd(s)|..])
  {
    if |s| > 0 && IsSpace(s[|s| - 1]) {
      var u := s[..|s| - 1];
      TrimEndPrefix(u);
      assert u[..|TrimEnd(u)|] == s[..|TrimEnd(s)|];
      assert forall i :: |TrimEnd(s)| <= i < |u| ==> u[|TrimEnd(u)|..][i - |TrimEnd(u)|] == s[i];
    }
  }

  /** Python's `s.strip()`: whitespace removed from both ends. */
  function Strip(s: string): (r: string)
    ensures Trimmed(r)
    ensures |r| <= |s|
  {
    var t := TrimStart(s);
    TrimEndPrefix(t);
    TrimEnd(t)
  }

  /** `strip()` cuts `s` into whitespace, the result, and whitespace; with
      `StripPadded` this pins the result down completely. */
  lemma StripDecomposes(s: string) returns (pre: string, post: string)
    ensures s == pre + Strip(s) + post
    ensures AllSpace(pre) && AllSpace(post)
  {
    var t := TrimStart(s);
    pre := LeadingSpace(s);
    post := TrailingSpace(t);
    calc {
      s;
      pre + t;
      pre + (TrimEnd(t) + post);
      pre + Strip(s) + post;
    }
  }

  /** The whitespace `TrimStart` removes. */
  lemma LeadingSpace(s: string) returns (pre: string)
    ensures s == pre + TrimStart(s) && AllSpace(pre)
  {
    TrimStartSuffix(s);
    pre := s[..|s| - |TrimStart(s)|];
    assert s == pre + s[|s| - |TrimStart(s)|..];
  }

  /** The whitespace `TrimEnd` removes. */
  lemma TrailingSpace(t: string) returns (post: string)
    ensures t == TrimEnd(t) + post && AllSpace(post)
  {
    TrimEndPrefix(t);
    post := t[|TrimEnd(t)|..];
    assert t == t[..|TrimEnd(t)|] + post;
  }

  lemma {:induction false} TrimStartPadded(pre: string, t: string)
    requires AllSpace(pre) && (|t| == 0 || !IsSpace(t[0]))
    ensures TrimStart(pre + t) == t
  {
    if |pre| > 0 {
      assert (pre + t)[1..] == pre[1..] + t;
      TrimStartPadded(pre[1..], t);
    } else {
      assert pre + t == t;
    }
  }

  lemma {:induction false} TrimEndPadded(t: string, post: string)
    requires AllSpace(post) && (|t| == 0 || !IsSpace(t[|t| - 1]))
    ensures TrimEnd(t + post) == t
  {
    if |post| > 0 {
      assert (t + post)[..|t + post| - 1] == t + post[..|post| - 1];
      TrimEndPadded(t, post[..|post| - 1]);
    } else {
      assert t + post == t;
    }
  }

  /** Strip removes exactly the whitespace padding around a trimmed text. */
  lemma {:induction false} StripPadded(pre: string, t: string, post: string)
    requires AllSpace(pre) && AllSpace(post) && Trimmed(t)
    ensures Strip(pre + t + post) == t
  {
    assert pre + t + post == pre + (t + post);
    if |t| == 0 {
      assert t + post == post;
      assert AllSpace(pre + post);
      TrimStartPadded(pre + post, "");
      assert pre + post + "" == pre + post;
    } else {
      TrimStartPadded(pre, t + post);
      TrimEndPadded(t, post);
    }
  }

  // ---------------------------------------------------------------- prefixes and substrings

  predicate StartsWith(s: string, prefix: string) {
    |prefix| <= |s| && s[..|prefix|] == prefix
  }

  predicate EndsWith(s: string, suffix: string) {
    |suffix| <= |s| && s[|s| - |suffix|..] == suffix
  }

  /** Python's `sub in s`. */
  predicate Contains(s: string, sub: string)
    decreases |s|
  {
    StartsWith(s, sub) || (|s| > 0 && Contains(s[1..], sub))
  }

  /** `sub` occurs in `s` at position `i`. */
  predicate OccursAt(s: string, sub: string, i: nat) {
    i + |sub| <= |s| && s[i..i + |sub|] == sub
  }

  lemma {:induction false} ContainsWitness(s: string, sub: string) returns (i: nat)
    requires Contains(s, sub)
    ensures OccursAt(s, sub, i)
    decreases |s|
  {
    if StartsWith(s, sub) {
      i := 0;
    } else {
      var j := ContainsWitness(s[1..], sub);
      i := j + 1;
      assert s[1..][j..j + |sub|] == s[i..i + |sub|];
    }
  }

  lemma {:induction false} ContainsAt(s: string, sub: string, i: nat)
    requires OccursAt(s, sub, i)
    ensures Contains(s, sub)
    decreases i
  {
    if i > 0 {
      assert s[1..][i - 1..i - 1 + |sub|] == s[i..i + |sub|];
      ContainsAt(s[1..], sub, i - 1);
    }
  }

  /** `Contains` is the substring relation. */
  lemma ContainsIff(s: string, sub: string)
    ensures Contains(s, sub) <==> exists i: nat :: OccursAt(s, sub, i)
  {
    if Contains(s, sub) {
      var i := ContainsWitness(s, sub);
    }
    forall i: nat | OccursAt(s, sub, i)
      ensures Contains(s, sub)
    {
      ContainsAt(s, sub, i);
    }
  }

  /** A text ends with anything appended to it. */
  lemma EndsWithAppended(a: string, b: string)
    ensures EndsWith(a + b, b)
  {
    assert (a + b)[|a|..] == b;
  }

  /** A suffix one character longer than `b` ends `a + b` only if its first
      character is the last of `a`. */
  lemma EndsWithLonger(a: string, b: string, c: string)
    requires |c| == |b| + 1 && |a| > 0 && c[0] != a[|a| - 1]
    ensures !EndsWith(a + b, c)
  {
  }

  // ---------------------------------------------------------------- split(sep)

  /** The index of the first occurrence of `c` in `s`. */
  function IndexOf(s: string, c: char): (i: nat)
    requires c in s
    ensures i < |s| && s[i] == c && c !in s[..i]
  {
    if s[0] == c then 0 else IndexOf(s[1..], c) + 1
  }

  /** The inverse of `Split`: `sep.join(parts)`. */
  function Join(parts: seq<string>, sep: char): string
    requires |parts| > 0
  {
    if |parts| == 1 then parts[0] else parts[0] + [sep] + Join(parts[1..], sep)
  }

  /** Python's `s.split(sep)` for a one-character separator: the pieces
      between separators, the empty ones included; `sep.join` gives `s`
      back. */
  function Split(s: string, sep: char): (parts: seq<string>)
    ensures |parts| > 0
    ensures Join(parts, sep) == s
    decreases |s|
  {
    if sep !in s then [s]
    else
      var i := IndexOf(s, sep);
      var rest := Split(s[i + 1..], sep);
      assert s == s[..i] + [sep] + s[i + 1..];
      [s[..i]] + rest
  }

  lemma {:induction false} IndexOfFirst(a: string, c: char, b: string)
    requires c !in a
    ensures c in a + [c] + b && IndexOf(a + [c] + b, c) == |a|
  {
    var s := a + [c] + b;
    assert s[|a|] == c;
    if |a| > 0 {
      assert s[1..] == a[1..] + [c] + b;
      IndexOfFirst(a[1..], c, b);
    }
  }

  /** No piece of a split holds the separator. */
  lemma {:induction false} SplitPiecesFree(s: string, sep: char)
    ensures forall i :: 0 <= i < |Split(s, sep)| ==> sep !in Split(s, sep)[i]
    decreases |s|
  {
    if sep in s {
      SplitPiecesFree(s[IndexOf(s, sep) + 1..], sep);
    }
  }

  /** Splitting a join of separator-free pieces gives the pieces back. */
  lemma {:induction false} SplitJoin(parts: seq<string>, sep: char)
    requires |parts| > 0
    requires forall i :: 0 <= i < |parts| ==> sep !in parts[i]
    ensures Split(Join(parts, sep), sep) == parts
  {
    if |parts| == 1 {
    } else {
      var s := Join(parts, sep);
      var tail := Join(parts[1..], sep);
      assert s == parts[0] + [sep] + tail;
      IndexOfFirst(parts[0], sep, tail);
      var i := IndexOf(s, sep);
      assert s[..i] == parts[0];
      assert s[i + 1..] == tail;
      SplitJoin(parts[1..], sep);
      assert [parts[0]] + parts[1..] == parts;
    }
  }

  lemma {:induction false} JoinAppend(parts: seq<string>, last: string, sep: char)
    requires |parts| > 0
    ensures Join(parts + [last], sep) == Join(parts, sep) + [sep] + last
  {
    if |parts| > 1 {
      assert (parts + [last])[1..] == parts[1..] + [last];
      JoinAppend(parts[1..], last, sep);
    }
  }

  /** A split without a piece after the first is a text without the separator. */
  lemma SplitNoSeparator(s: string, sep: char)
    requires |Split(s, sep)| < 2
    ensures sep !in s
  {
  }

  /** A text with the separator splits into at least two pieces. */
  lemma SplitSeparator(s: string, sep: char)
    requires |Split(s, sep)| >= 2
    ensures sep in s
  {
  }

  /** A text without the separator is a single piece. */
  lemma SplitWhole(s: string, sep: char)
    requires sep !in s
    ensures Split(s, sep) == [s]
  {
  }

  /** The second piece of `a b rest`, split at spaces, when neither `a`
      nor `b` holds a space, is `b`. */
  lemma SecondSpaceField(a: string, b: string, rest: string)
    requires ' ' !in a && ' ' !in b
    ensures var parts := Split(a + " " + b + " " + rest, ' ');
            |parts| >= 2 && parts[1] == b
  {
    assert a + " " + b + " " + rest == a + [' '] + (b + [' '] + rest);
    SplitAfterFirst(a, ' ', b + [' '] + rest);
    SplitAfterFirst(b, ' ', rest);
  }

  /** Splitting at the first separator: the text before it is the first
      piece, and the rest splits on its own. */
  lemma SplitAfterFirst(a: string, sep: char, b: string)
    requires sep !in a
    ensures Split(a + [sep] + b, sep) == [a] + Split(b, sep)
  {
    IndexOfFirst(a, sep, b);
    var s := a + [sep] + b;
    assert s[..|a|] == a && s[|a| + 1..] == b;
  }

  /** A separator and a separator-free piece appended to `s` add exactly one
      piece to its split. */
  lemma SplitAppendPiece(s: string, sep: char, piece: string)
    requires sep !in piece
    ensures Split(s + [sep] + piece, sep) == Split(s, sep) + [piece]
  {
    var parts := Split(s, sep);
    JoinAppend(parts, piece, sep);
    SplitPiecesFree(s, sep);
    SplitJoin(parts + [piece], sep);
  }

  // ---------------------------------------------------------------- split()

  /** The length of the leading run of non-space characters. */
  function WordLength(s: string): (n: nat)
    ensures n <= |s|
    ensures forall i :: 0 <= i < n ==> !IsSpace(s[i])
    ensures n < |s| ==> IsSpace(s[n])
  {
    if |s| == 0 || IsSpace(s[0]) then 0 else WordLength(s[1..]) + 1
  }

  /** A non-empty run of non-whitespace characters. */
  predicate Word(w: string) {
    |w| > 0 && forall j :: 0 <= j < |w| ==> !IsSpace(w[j])
  }

  /** Python's `s.split()`: the maximal runs of non-whitespace characters, in
      order. */
  function Fields(s: string): (r: seq<string>)
    ensures forall i :: 0 <= i < |r| ==> Word(r[i])
    decreases |s|
  {
    var t := TrimStart(s);
    if |t| == 0 then []
    else
      var n := WordLength(t);
      [t[..n]] + Fields(t[n..])
  }

  /** A stripped line that starts with a word followed by a space has at
      least two fields, the first being that word. */
  lemma FieldsAfterWord(w: string, rest: string)
    requires Word(w) && |rest| > 0 && IsSpace(rest[0]) && !IsSpace(rest[|rest| - 1])
    ensures |Fields(w + rest)| >= 2 && Fields(w + rest)[0] == w
  {
    var s := w + rest;
    assert TrimStart(s) == s by {
      TrimStartPadded("", s);
      assert "" + s == s;
    }
    WordLengthExact(w, rest);
    assert s[..|w|] == w && s[|w|..] == rest;
    assert Fields(s) == [w] + Fields(rest);
    FieldsOfTextEndingInWord(rest);
  }

  lemma FieldsOfTextEndingInWord(s: string)
    requires |s| > 0 && !IsSpace(s[|s| - 1])
    ensures |Fields(s)| > 0
  {
    var t := TrimStart(s);
    TrimStartSuffix(s);
    assert !AllSpace(s[..|s|]) by {
      assert s[..|s|][|s| - 1] == s[|s| - 1];
    }
    assert |t| > 0;
  }

  lemma {:induction false} WordLengthExact(w: string, rest: string)
    requires Word(w) && |rest| > 0 && IsSpace(rest[0])
    ensures WordLength(w + rest) == |w|
  {
    if |w| > 1 {
      assert (w + rest)[1..] == w[1..] + rest;
      WordLengthExact(w[1..], rest);
    } else {
      assert (w + rest)[1..] == rest;
    }
  }

  // ---------------------------------------------------------------- replace(c, '')

  /** Python's `s.replace(c, '')`: every occurrence of `c` dropped, the other
      characters kept in order. */
  function RemoveAll(s: string, c: char): (r: string)
    ensures c !in r
    ensures |r| <= |s|
    ensures forall x :: x != c ==> (x in r <==> x in s)
  {
    if |s| == 0 then ""
    else if s[0] == c then RemoveAll(s[1..], c)
    else [s[0]] + RemoveAll(s[1..], c)
  }

  /** Removing a character that does not occur changes nothing. */
  lemma {:induction false} RemoveAbsent(s: string, c: char)
    requires c !in s
    ensures RemoveAll(s, c) == s
  {
    if |s| > 0 {
      RemoveAbsent(s[1..], c);
      assert [s[0]] + s[1..] == s;
    }
  }

  /** `replace(c, '')` distributes over concatenation. */
  lemma {:induction false} RemoveAllAppend(a: string, b: string, c: char)
    ensures RemoveAll(a + b, c) == RemoveAll(a, c) + RemoveAll(b, c)
  {
    if |a| > 0 {
      assert (a + b)[1..] == a[1..] + b;
      RemoveAllAppend(a[1..], b, c);
    } else {
      assert a + b == b;
    }
  }

  // ---------------------------------------------------------------- lower()

  function LowerChar(c: char): (r: char)
    ensures !('A' <= r <= 'Z')
  {
    if 'A' <= c <= 'Z' then (c as int + 32) as char else c
  }

  /** Python's `s.lower()` on ASCII letters; other characters are kept. */
  function Lower(s: string): (r: string)
    ensures |r| == |s|
    ensures forall i :: 0 <= i < |s| ==> r[i] == LowerChar(s[i])
  {
    if |s| == 0 then "" else [LowerChar(s[0])] + Lower(s[1..])
  }

  // ---------------------------------------------------------------- text-mode reads

  /** What reading a file in Python's text mode (`open(path)`, universal
      newlines) makes of its content: `\r\n` and a lone `\r` both become
      `\n`, everything else is kept. */
  function UniversalNewlines(s: string): (r: string)
    ensures '\r' !in r
    ensures |r| <= |s|
    ensures '\r' !in s ==> r == s
    decreases |s|
  {
    if |s| == 0 then ""
    else if s[0] == '\r' then "\n" + UniversalNewlines(if |s| > 1 && s[1] == '\n' then s[2..] else s[1..])
    else [s[0]] + UniversalNewlines(s[1..])
  }

  /** Text up to the first `\r` is read as it is. */
  lemma {:induction false} UniversalNewlinesKeepsPlain(a: string, b: string)
    requires '\r' !in a
    ensures UniversalNewlines(a + b) == a + UniversalNewlines(b)
  {
    if |a| > 0 {
      assert (a + b)[0] == a[0] && (a + b)[1..] == a[1..] + b;
      UniversalNewlinesKeepsPlain(a[1..], b);
      assert a == [a[0]] + a[1..];
    } else {
      assert a + b == b;
    }
  }

  /** A `\r\n` pair is read as one `\n`. */
  lemma CrLfReadsAsNewline(a: string, b: string)
    requires '\r' !in a
    ensures UniversalNewlines(a + "\r\n" + b) == a + "\n" + UniversalNewlines(b)
  {
    var tail := "\r\n" + b;
    assert a + "\r\n" + b == a + tail;
    UniversalNewlinesKeepsPlain(a, tail);
    assert tail[0] == '\r' && tail[1] == '\n' && tail[2..] == b;
    assert UniversalNewlines(tail) == "\n" + UniversalNewlines(b);
  }

  /** A `\r` not followed by `\n` is read as `\n`. */
  lemma LoneCrReadsAsNewline(a: string, b: string)
    requires '\r' !in a
    requires |b| == 0 || b[0] != '\n'
    ensures UniversalNewlines(a + "\r" + b) == a + "\n" + UniversalNewlines(b)
  {
    var tail := "\r" + b;
    calc {
      UniversalNewlines(a + "\r" + b);
      { assert a + "\r" + b == a + tail; }
      UniversalNewlines(a + tail);
      { UniversalNewlinesKeepsPlain(a, tail); }
      a + UniversalNewlines(tail);
      { LoneCrAtStart(b); }
      a + ("\n" + UniversalNewlines(b));
    }
  }

  lemma LoneCrAtStart(b: string)
    requires |b| == 0 || b[0] != '\n'
    ensures UniversalNewlines("\r" + b) == "\n" + UniversalNewlines(b)
  {
    var tail := "\r" + b;
    assert tail[1..] == b;
    if |b| > 0 {
      assert tail[1] == b[0];
    }
  }

  // ---------------------------------------------------------------- decimal numerals

  predicate IsDigit(c: char) {
    '0' <= c <= '9'
  }

  predicate AllDigits(s: string) {
    forall i :: 0 <= i < |s| ==> IsDigit(s[i])
  }

  function DigitChar(d: nat): (c: char)
    requires d < 10
    ensures IsDigit(c)
  {
    ('0' as int + d) as char
  }

  /** The value of a string of decimal digits; the empty string is 0. */
  function DigitsValue(s: string): nat
    requires AllDigits(s)
  {
    if |s| == 0 then 0 else DigitsValue(s[..|s| - 1]) * 10 + (s[|s| - 1] as int - '0' as int)
  }

  /** The shortest decimal numeral of `n`, as Python's `'%d' % n` prints it. */
  function NatToString(n: nat): (r: string)
    ensures |r| > 0 && AllDigits(r) && ':' !in r
    ensures DigitsValue(r) == n
    ensures |r| > 1 ==> r[0] != '0'
  {
    if n < 10 then [DigitChar(n)]
    else
      var r := NatToString(n / 10) + [DigitChar(n % 10)];
      assert r[..|r| - 1] == NatToString(n / 10);
      r
  }

  /** Python's `'%d' % n`. */
  function IntToString(n: int): (r: string)
    ensures |r| > 0
    ensures ':' !in r
    ensures n >= 0 <==> r[0] != '-'
  {
    if n < 0 then "-" + NatToString(-n) else NatToString(n)
  }

  /** A natural number prints without spaces. */
  lemma NatDigitsHaveNoSpace(n: nat)
    ensures ' ' !in IntToString(n)
  {
    assert IntToString(n) == NatToString(n);
    assert AllDigits(NatToString(n)) && !IsDigit(' ');
  }

  lemma NatToStringLength(n: nat)
    ensures n >= 10 ==> |NatToString(n)| >= 2
    ensures 10 <= n < 100 ==> |NatToString(n)| == 2
  {
  }

  /** Python's `'%02d' % n`: at least two digits, a leading zero added to a
      single-digit non-negative number; a negative number gets its sign in
      front (which already makes two characters). */
  function Pad2(n: int): (r: string)
    ensures |r| >= 2
    ensures n >= 0 ==> AllDigits(r) && DigitsValue(r) == n
    ensures 0 <= n < 100 ==> |r| == 2
    ensures ':' !in r
  {
    if 0 <= n < 10 then
      DigitsValueLeadingZero(NatToString(n));
      "0" + NatToString(n)
    else
      NatToStringLength(if n < 0 then -n else n);
      IntToString(n)
  }

  /** A leading zero does not change a numeral's value. */
  lemma {:induction false} DigitsValueLeadingZero(s: string)
    requires AllDigits(s)
    ensures AllDigits("0" + s) && DigitsValue("0" + s) == DigitsValue(s)
  {
    if |s| > 0 {
      var z := "0" + s;
      assert z[..|z| - 1] == "0" + s[..|s| - 1];
      DigitsValueLeadingZero(s[..|s| - 1]);
    }
  }

  /** `int` reads back what `'%02d'` prints. */
  lemma ParseIntOfPad2(n: int)
    ensures ParseInt(Pad2(n)) == Some(n)
  {
    if 0 <= n < 10 {
      assert Pad2(n) == [DigitChar(0), DigitChar(n)];
      assert DigitGroups(Pad2(n)[..1]) == Some(0);
    } else {
      ParseIntOfIntToString(n);
    }
  }

  /** Python's `int(s)` on a string without surrounding whitespace: an
      optional sign, then ASCII digits, single underscores allowed between
      digits. */
  function ParseInt(s: string): (r: Option<int>)
    ensures r.Some? ==> |s| > 0
  {
    if |s| > 0 && s[0] == '-' then
      match DigitGroups(s[1..])
      case Some(v) => Some(-(v as int))
      case None => None
    else if |s| > 0 && s[0] == '+' then
      match DigitGroups(s[1..])
      case Some(v) => Some(v)
      case None => None
    else
      match DigitGroups(s)
      case Some(v) => Some(v)
      case None => None
  }

  /** The value of digits grouped by single underscores (`"1_000"`), read from
      the right; None for anything else, including a leading, trailing or
      doubled underscore. */
  function DigitGroups(s: string): (r: Option<nat>)
    ensures r.Some? ==> |s| > 0
    decreases |s|
  {
    if |s| == 0 || !IsDigit(s[|s| - 1]) then None
    else
      var d := s[|s| - 1] as int - '0' as int;
      if |s| == 1 then Some(d)
      else if IsDigit(s[|s| - 2]) then
        match DigitGroups(s[..|s| - 1])
        case Some(v) => Some(v * 10 + d)
        case None => None
      else if s[|s| - 2] == '_' && |s| >= 3 then
        match DigitGroups(s[..|s| - 2])
        case Some(v) => Some(v * 10 + d)
        case None => None
      else None
  }

  /** Plain digits read as digit groups give their value. */
  lemma {:induction false} DigitGroupsOfDigits(s: string)
    requires |s| > 0 && AllDigits(s)
    ensures DigitGroups(s) == Some(DigitsValue(s))
  {
    if |s| > 1 {
      DigitGroupsOfDigits(s[..|s| - 1]);
    }
  }

  /** `int` reads back what `'%d'` prints. */
  lemma ParseIntOfIntToString(n: int)
    ensures ParseInt(IntToString(n)) == Some(n)
  {
    var digits := NatToString(if n < 0 then -n else n);
    DigitGroupsOfDigits(digits);
    if n < 0 {
      assert IntToString(n)[1..] == digits;
    }
  }
}
