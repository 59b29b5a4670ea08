/**
  The few Python string builtins the input parser relies on: `str.isspace`,
  `str.lower` (on ASCII letters), `str.strip()`, `str.split(sep)` with a
  one-character separator, and `int(s)` on decimal text. `int` skips white
  space around its number by a test of its own, narrower than `isspace`.
 */
module Text {
  import opened Wrappers

  /** The characters for which Python's `str.isspace()` holds. */
  const Whitespace: string := " \n\t\U{b}\U{c}\r\U{1c}\U{1d}\U{1e}\U{1f}\U{85}\U{a0}\U{1680}"
    + "\U{2000}\U{2001}\U{2002}\U{2003}\U{2004}\U{2005}\U{2006}\U{2007}\U{2008}\U{2009}\U{200a}"
    + "\U{2028}\U{2029}\U{202f}\U{205f}\U{3000}"

  /** `ch` occurs in `s`. */
  predicate Occurs(ch: char, s: string)
    decreases |s|
  {
    |s| > 0 && (s[0] == ch || Occurs(ch, s[1..]))
  }

  /** Python's `str.isspace()` for one character. */
  predicate IsSpace(ch: char) {
    Occurs(ch, Whitespace)
  }

  lemma {:induction false} OccursFrom(s: string, i: nat)
    requires i < |s|
    ensures Occurs(s[i], s)
    decreases i
  {
    if i > 0 {
      assert s[1..][i - 1] == s[i];
      OccursFrom(s[1..], i - 1);
    }
  }

  lemma {:induction false} OccursAt(ch: char, s: string)
    requires Occurs(ch, s)
    ensures exists i :: 0 <= i < |s| && s[i] == ch
    decreases |s|
  {
    if s[0] != ch {
      OccursAt(ch, s[1..]);
      var i :| 0 <= i < |s[1..]| && s[1..][i] == ch;
      assert s[i + 1] == ch;
    }
  }

  /**
    Blank and newline are white space, and white space lies outside the
    printable ASCII range, so no letter, digit or punctuation mark is one.
   */
  lemma SpacesArePlain()
    ensures IsSpace(' ') && IsSpace('\n')
    ensures forall ch :: IsSpace(ch) ==> ch <= ' ' || '\U{85}' <= ch
  {
    assert Whitespace[0] == ' ' && Whitespace[1] == '\n';
    assert Whitespace[1..][0] == '\n';
    forall ch | IsSpace(ch) ensures ch <= ' ' || '\U{85}' <= ch {
      OccursAt(ch, Whitespace);
      assert forall i :: 0 <= i < |Whitespace| ==> Whitespace[i] <= ' ' || '\U{85}' <= Whitespace[i];
    }
  }

  predicate AllSpace(s: string) {
    forall i :: 0 <= i < |s| ==> IsSpace(s[i])
  }

  /** `s` is empty or starts and ends with a non-space character. */
  predicate Trimmed(s: string) {
    s == [] || (!IsSpace(s[0]) && !IsSpace(s[|s| - 1]))
  }

  predicate IsUpper(ch: char) {
    'A' <= ch <= 'Z'
  }

  function LowerChar(ch: char): (r: char)
    ensures !IsUpper(r)
    ensures !IsUpper(ch) ==> r == ch
  {
    if IsUpper(ch) then (ch as int + 32) as char else ch
  }

  /** `s.lower()`, on ASCII letters. */
  function Lower(s: string): string {
    seq(|s|, i requires 0 <= i < |s| => LowerChar(s[i]))
  }

  /** Lowering works character by character, so it distributes over concatenation. */
  lemma LowerAppend(a: string, b: string)
    ensures Lower(a + b) == Lower(a) + Lower(b)
  {
  }

  /** Text without upper-case letters is its own lower case. */
  lemma LowerNoUpper(s: string)
    requires forall i :: 0 <= i < |s| ==> !IsUpper(s[i])
    ensures Lower(s) == s
  {
  }

  /** `s.lstrip()`. */
  function TrimLeft(s: string): string {
    if |s| > 0 && IsSpace(s[0]) then TrimLeft(s[1..]) else s
  }

  /** `s.rstrip()`. */
  function TrimRight(s: string): string {
    if |s| > 0 && IsSpace(s[|s| - 1]) then TrimRight(s[..|s| - 1]) else s
  }

  /** `s.strip()`. */
  function Strip(s: string): string {
    TrimRight(TrimLeft(s))
  }

  /** `lstrip()` removes the leading white space and nothing more. */
  lemma {:induction false} TrimLeftMeaning(s: string)
    ensures var r := TrimLeft(s);
      |r| <= |s| && r == s[|s| - |r|..] && AllSpace(s[..|s| - |r|]) && (r == [] || !IsSpace(r[0]))
    decreases |s|
  {
    if |s| > 0 && IsSpace(s[0]) {
      TrimLeftMeaning(s[1..]);
      var r := TrimLeft(s);
      assert s[..|s| - |r|] == [s[0]] + s[1..][..|s| - 1 - |r|];
    }
  }

  /** `rstrip()` removes the trailing white space and nothing more. */
  lemma {:induction false} TrimRightMeaning(s: string)
    ensures var r := TrimRight(s);
      |r| <= |s| && r == s[..|r|] && AllSpace(s[|r|..]) && (r == [] || !IsSpace(r[|r| - 1]))
    decreases |s|
  {
    if |s| > 0 && IsSpace(s[|s| - 1]) {
      TrimRightMeaning(s[..|s| - 1]);
      var r := TrimRight(s);
      assert s[|r|..] == s[..|s| - 1][|r|..] + [s[|s| - 1]];
    }
  }

  /** `strip()` gives the middle of `s`, trimmed, between white space on both sides. */
  lemma StripMeaning(s: string)
    ensures Trimmed(Strip(s))
    ensures exists a, b :: 0 <= a <= b <= |s| && Strip(s) == s[a..b] && AllSpace(s[..a]) && AllSpace(s[b..])
  {
    var l := TrimLeft(s);
    var r := TrimRight(l);
    TrimLeftMeaning(s);
    TrimRightMeaning(l);
    var a := |s| - |l|;
    assert r == s[a..a + |r|];
    assert s[a + |r|..] == l[|r|..];
  }

  lemma {:induction false} TrimLeftPadded(w: string, x: string)
    requires AllSpace(w) && (x == [] || !IsSpace(x[0]))
    ensures TrimLeft(w + x) == x
    decreases |w|
  {
    if |w| > 0 {
      assert (w + x)[1..] == w[1..] + x;
      TrimLeftPadded(w[1..], x);
    } else {
      assert w + x == x;
    }
  }

  lemma {:induction false} TrimRightPadded(x: string, w: string)
    requires AllSpace(w) && (x == [] || !IsSpace(x[|x| - 1]))
    ensures TrimRight(x + w) == x
    decreases |w|
  {
    if |w| > 0 {
      assert (x + w)[..|x + w| - 1] == x + w[..|w| - 1];
      TrimRightPadded(x, w[..|w| - 1]);
    } else {
      assert x + w == x;
    }
  }

  /**
    `strip()` takes off exactly the white space around trimmed text: this pins
    down its result independently of how it is computed.
   */
  lemma StripPadded(w1: string, m: string, w2: string)
    requires AllSpace(w1) && AllSpace(w2) && Trimmed(m)
    ensures Strip(w1 + m + w2) == m
  {
    if m == [] {
      assert w1 + m + w2 == (w1 + w2) + [];
      assert AllSpace(w1 + w2);
      TrimLeftPadded(w1 + w2, []);
    } else {
      assert w1 + m + w2 == w1 + (m + w2);
      TrimLeftPadded(w1, m + w2);
      TrimRightPadded(m, w2);
    }
  }

  /** The number of occurrences of `ch` in `s`. */
  function Count(ch: char, s: string): nat
    decreases |s|
  {
    if s == [] then 0 else (if s[0] == ch then 1 else 0) + Count(ch, s[1..])
  }

  lemma {:induction false} CountAppend(ch: char, a: string, b: string)
    ensures Count(ch, a + b) == Count(ch, a) + Count(ch, b)
    decreases |a|
  {
    if a != [] {
      assert (a + b)[1..] == a[1..] + b;
      CountAppend(ch, a[1..], b);
    } else {
      assert a + b == b;
    }
  }

  lemma {:induction false} CountAbsent(ch: char, s: string)
    requires ch !in s
    ensures Count(ch, s) == 0
    decreases |s|
  {
    if s != [] {
      assert s == [s[0]] + s[1..];
      CountAbsent(ch, s[1..]);
    }
  }

  lemma {:induction false} TrimLeftKeeps(s: string, ch: char)
    requires !IsSpace(ch)
    ensures Count(ch, TrimLeft(s)) == Count(ch, s)
    decreases |s|
  {
    if |s| > 0 && IsSpace(s[0]) {
      TrimLeftKeeps(s[1..], ch);
    }
  }

  lemma {:induction false} TrimRightKeeps(s: string, ch: char)
    requires !IsSpace(ch)
    ensures Count(ch, TrimRight(s)) == Count(ch, s)
    decreases |s|
  {
    if |s| > 0 && IsSpace(s[|s| - 1]) {
      var init := s[..|s| - 1];
      assert s == init + [s[|s| - 1]];
      CountAppend(ch, init, [s[|s| - 1]]);
      TrimRightKeeps(init, ch);
    }
  }

  /** `strip()` keeps every character that is printable ASCII. */
  lemma StripKeeps(s: string, ch: char)
    requires ' ' < ch < '\U{85}'
    ensures Count(ch, Strip(s)) == Count(ch, s)
  {
    SpacesArePlain();
    TrimLeftKeeps(s, ch);
    TrimRightKeeps(TrimLeft(s), ch);
  }

  /** `lower()` keeps every character that is not a letter. */
  lemma {:induction false} LowerKeeps(s: string, ch: char)
    requires !('A' <= ch <= 'Z') && !('a' <= ch <= 'z')
    ensures Count(ch, Lower(s)) == Count(ch, s)
    decreases |s|
  {
    if s != [] {
      var l := Lower(s);
      assert l[1..] == Lower(s[1..]);
      LowerKeeps(s[1..], ch);
      assert l[0] == ch <==> s[0] == ch;
    }
  }

  /** The position of the first `d` in `s`. */
  function Find(s: string, d: char): (i: nat)
    requires d in s
    ensures i < |s| && s[i] == d && d !in s[..i]
  {
    if s[0] == d then 0 else 1 + Find(s[1..], d)
  }

  /** The parts joined back together with `d` between them. */
  function Join(parts: seq<string>, d: char): string
    requires |parts| > 0
  {
    if |parts| == 1 then parts[0] else parts[0] + [d] + Join(parts[1..], d)
  }

  /** `s.split(d)`: the pieces between the occurrences of `d`. */
  function Split(s: string, d: char): seq<string>
    decreases |s|
  {
    if d !in s then [s]
    else
      var i := Find(s, d);
      [s[..i]] + Split(s[i + 1..], d)
  }

  /**
    `split` gives at least one piece, none containing `d`, which joined with `d`
    give back `s`; there is one piece exactly when `d` does not occur.
   */
  lemma {:induction false} SplitMeaning(s: string, d: char)
    ensures |Split(s, d)| > 0
    ensures forall j :: 0 <= j < |Split(s, d)| ==> d !in Split(s, d)[j]
    ensures Join(Split(s, d), d) == s
    ensures |Split(s, d)| == 1 <==> d !in s
    decreases |s|
  {
    if d in s {
      var i := Find(s, d);
      var rest := Split(s[i + 1..], d);
      SplitMeaning(s[i + 1..], d);
      assert s == s[..i] + [d] + s[i + 1..];
      assert ([s[..i]] + rest)[1..] == rest;
    }
  }

  /** Splitting undoes joining, for parts free of the separator. */
  lemma {:induction false} SplitJoin(parts: seq<string>, d: char)
    requires |parts| > 0 && forall j :: 0 <= j < |parts| ==> d !in parts[j]
    ensures Split(Join(parts, d), d) == parts
    decreases |parts|
  {
    if |parts| > 1 {
      var a, rest := parts[0], Join(parts[1..], d);
      var s := a + [d] + rest;
      assert parts == [a] + parts[1..];
      assert s[..|a|] == a;
      assert s[|a| + 1..] == rest;
      assert s[|a|] == d;
      FindAfter(a, d, rest);
      SplitJoin(parts[1..], d);
    }
  }

  /** `split` gives one part more than there are separators. */
  lemma {:induction false} SplitCount(s: string, d: char)
    ensures |Split(s, d)| == Count(d, s) + 1
    decreases |s|
  {
    if d !in s {
      CountAbsent(d, s);
    } else {
      var i := Find(s, d);
      var rest := s[i + 1..];
      assert s == s[..i] + ([d] + rest);
      assert ([d] + rest)[1..] == rest;
      SplitCount(rest, d);
      CountAppend(d, s[..i], [d] + rest);
      CountAbsent(d, s[..i]);
    }
  }

  /** Splitting at the only separator gives the two sides. */
  lemma SplitOnce(a: string, d: char, b: string)
    requires d !in a && d !in b
    ensures Split(a + [d] + b, d) == [a, b]
  {
    assert Join([a, b], d) == a + [d] + b by {
      assert [a, b][1..] == [b];
    }
    SplitJoin([a, b], d);
  }

  /** The first `d` of `a + [d] + b`, when `a` has none, is the one after `a`. */
  lemma {:induction false} FindAfter(a: string, d: char, b: string)
    requires d !in a
    ensures Find(a + [d] + b, d) == |a|
    decreases |a|
  {
    if a != [] {
      assert (a + [d] + b)[1..] == a[1..] + [d] + b;
      FindAfter(a[1..], d, b);
    }
  }

  predicate IsDigit(ch: char) {
    '0' <= ch <= '9'
  }

  predicate AllDigits(s: string) {
    forall i :: 0 <= i < |s| ==> IsDigit(s[i])
  }

  /** The value of a decimal digit string (leading zeros allowed, as `int()` allows them). */
  function DigitsValue(ds: string): nat
    requires AllDigits(ds)
  {
    if ds == [] then 0
    else DigitsValue(ds[..|ds| - 1]) * 10 + (ds[|ds| - 1] as int - '0' as int)
  }

  /** A stripped integer token: an optional sign and at least one decimal digit. */
  function ParseToken(t: string): Option<int> {
    if |t| > 0 && (t[0] == '+' || t[0] == '-') then
      var ds := t[1..];
      if |ds| > 0 && AllDigits(ds) then
        var v: int := DigitsValue(ds);
        Some(if t[0] == '-' then -v else v)
      else None
    else if |t| > 0 && AllDigits(t) then Some(DigitsValue(t))
    else None
  }

  /**
    The white space `int()` skips around its number: the ASCII blanks
    `\t\n\v\f\r` and space, and the non-ASCII `isspace()` characters. The
    four ASCII separators U+001C..U+001F are `isspace()` but are not skipped.
   */
  predicate IsIntSpace(ch: char) {
    IsSpace(ch) && !('\U{1c}' <= ch <= '\U{1f}')
  }

  predicate AllIntSpace(s: string) {
    forall i :: 0 <= i < |s| ==> IsIntSpace(s[i])
  }

  /** The leading white space `int()` skips. */
  function IntTrimLeft(s: string): string {
    if |s| > 0 && IsIntSpace(s[0]) then IntTrimLeft(s[1..]) else s
  }

  /** The trailing white space `int()` skips. */
  function IntTrimRight(s: string): string {
    if |s| > 0 && IsIntSpace(s[|s| - 1]) then IntTrimRight(s[..|s| - 1]) else s
  }

  /**
    `int(s)` for base 10: surrounding white space, an optional sign and at least
    one decimal digit; anything else is Python's ValueError, here `None`.
   */
  function ParseInt(s: string): Option<int> {
    ParseToken(IntTrimRight(IntTrimLeft(s)))
  }

  /** The leading white space `int()` skips is a prefix of `s`. */
  lemma {:induction false} IntTrimLeftSuffix(s: string)
    ensures |IntTrimLeft(s)| <= |s| && IntTrimLeft(s) == s[|s| - |IntTrimLeft(s)|..]
    decreases |s|
  {
    if |s| > 0 && IsIntSpace(s[0]) {
      IntTrimLeftSuffix(s[1..]);
    }
  }

  /** The trailing white space `int()` skips is a suffix of `s`. */
  lemma {:induction false} IntTrimRightPrefix(s: string)
    ensures |IntTrimRight(s)| <= |s| && IntTrimRight(s) == s[..|IntTrimRight(s)|]
    decreases |s|
  {
    if |s| > 0 && IsIntSpace(s[|s| - 1]) {
      IntTrimRightPrefix(s[..|s| - 1]);
    }
  }

  lemma {:induction false} IntTrimLeftPadded(w: string, x: string)
    requires AllIntSpace(w) && (x == [] || !IsIntSpace(x[0]))
    ensures IntTrimLeft(w + x) == x
    decreases |w|
  {
    if |w| > 0 {
      assert (w + x)[1..] == w[1..] + x;
      IntTrimLeftPadded(w[1..], x);
    } else {
      assert w + x == x;
    }
  }

  lemma {:induction false} IntTrimRightPadded(x: string, w: string)
    requires AllIntSpace(w) && (x == [] || !IsIntSpace(x[|x| - 1]))
    ensures IntTrimRight(x + w) == x
    decreases |w|
  {
    if |w| > 0 {
      assert (x + w)[..|x + w| - 1] == x + w[..|w| - 1];
      IntTrimRightPadded(x, w[..|w| - 1]);
    } else {
      assert x + w == x;
    }
  }

  /** `int()` accepts only text with a decimal digit in it. */
  lemma ParseIntNeedsDigit(s: string)
    requires ParseInt(s).Some?
    ensures exists i :: 0 <= i < |s| && IsDigit(s[i])
  {
    var l := IntTrimLeft(s);
    var t := IntTrimRight(l);
    IntTrimLeftSuffix(s);
    IntTrimRightPrefix(l);
    var a := |s| - |l|;
    assert t == s[a..a + |t|];
    if t[0] == '+' || t[0] == '-' {
      assert IsDigit(t[1]) && t[1] == s[a + 1];
    } else {
      assert IsDigit(t[0]) && t[0] == s[a];
    }
  }

  /** `int()` ignores the white space around a token. */
  lemma ParseIntPadded(w1: string, t: string, w2: string)
    requires AllIntSpace(w1) && AllIntSpace(w2) && Trimmed(t)
    ensures ParseInt(w1 + t + w2) == ParseToken(t)
  {
    if t == [] {
      assert w1 + t + w2 == (w1 + w2) + [];
      assert AllIntSpace(w1 + w2);
      IntTrimLeftPadded(w1 + w2, []);
    } else {
      assert w1 + t + w2 == w1 + (t + w2);
      IntTrimLeftPadded(w1, t + w2);
      IntTrimRightPadded(t, w2);
    }
  }

  /**
    `int()` does not skip the separator U+001C: `int("1\x1c")` is a
    ValueError, although `"1\x1c".strip()` is `"1"`.
   */
  lemma SeparatorNotSkipped()
    ensures Strip("1\U{1c}") == "1"
    ensures ParseInt("1\U{1c}") == None
  {
    var s := "1\U{1c}";
    SpacesArePlain();
    assert IsSpace('\U{1c}') by {
      assert Whitespace[6] == '\U{1c}';
      OccursFrom(Whitespace, 6);
    }
    assert s == "1" + "\U{1c}" + [];
    StripPadded([], "1", "\U{1c}");
    assert IntTrimLeft(s) == s;
    assert IntTrimRight(s) == s;
    assert !IsDigit(s[1]);
  }

  function DigitChar(d: nat): (ch: char)
    requires d < 10
    ensures IsDigit(ch) && ch as int - '0' as int == d
  {
    ('0' as int + d) as char
  }

  /** The decimal digits of n, without leading zeros. */
  function ShowNat(n: nat): (s: string)
    ensures |s| > 0 && AllDigits(s)
  {
    if n < 10 then [DigitChar(n)] else ShowNat(n / 10) + [DigitChar(n % 10)]
  }

  /** `str(n)`. */
  function ShowInt(n: int): (s: string)
  {
    if n < 0 then "-" + ShowNat(-n) else ShowNat(n)
  }

  lemma {:induction false} DigitsValueShowNat(n: nat)
    ensures DigitsValue(ShowNat(n)) == n
  {
    if n >= 10 {
      var s := ShowNat(n);
      assert s[..|s| - 1] == ShowNat(n / 10);
      DigitsValueShowNat(n / 10);
    }
  }

  lemma ParseTokenShowInt(n: int)
    ensures ParseToken(ShowInt(n)) == Some(n)
  {
    var t := ShowInt(n);
    if n < 0 {
      var ds := ShowNat(-n);
      assert t[0] == '-' && t[1..] == ds;
      DigitsValueShowNat(-n);
    } else {
      assert IsDigit(t[0]);
      DigitsValueShowNat(n);
    }
  }

  /** What `str` writes, `int` reads back: int(str(n)) == n. */
  lemma ParseIntShowInt(n: int)
    ensures ParseInt(ShowInt(n)) == Some(n)
  {
    var t := ShowInt(n);
    ShowIntChars(n);
    ParseIntPadded([], t, []);
    assert [] + t + [] == t;
    ParseTokenShowInt(n);
  }

  /** White space holds no printable ASCII character. */
  lemma SpacesAvoid(w: string, ch: char)
    requires AllSpace(w) && ' ' < ch < '\U{85}'
    ensures ch !in w
  {
    SpacesArePlain();
  }

  /** `str(n)` holds only digits and a minus sign. */
  lemma ShowIntAvoids(n: int, ch: char)
    requires ch != '-' && !IsDigit(ch)
    ensures ch !in ShowInt(n)
  {
    ShowIntChars(n);
  }

  /** `str(n)` has no white space, no letters and no separators. */
  lemma ShowIntChars(n: int)
    ensures Trimmed(ShowInt(n)) && |ShowInt(n)| > 0
    ensures forall i :: 0 <= i < |ShowInt(n)| ==> ShowInt(n)[i] == '-' || IsDigit(ShowInt(n)[i])
  {
    SpacesArePlain();
  }
}
