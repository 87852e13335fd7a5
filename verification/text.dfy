/** The Python string operations the lookup and the command line rely on:
    `str.strip()`, `str.replace`, `str.split(sep)`, `sep.join`, `str(int)`,
    `str.startswith` and the case-insensitive `.zip` suffix test. */
module Text {
  import opened Basics

  /** Python's `str.isspace` on one character: the characters `str.strip()` removes. */
  predicate IsSpace(c: char) {
    var n := c as int;
    (0x09 <= n <= 0x0D) || (0x1C <= n <= 0x20) || n == 0x85 || n == 0xA0 || n == 0x1680
    || (0x2000 <= n <= 0x200A) || n == 0x2028 || n == 0x2029 || n == 0x202F || n == 0x205F
    || n == 0x3000
  }

  predicate AllSpace(s: string) {
    forall i :: 0 <= i < |s| ==> IsSpace(s[i])
  }

  /** Neither end of `s` is whitespace. */
  predicate Stripped(s: string) {
    s == [] || (!IsSpace(s[0]) && !IsSpace(s[|s| - 1]))
  }

  function TrimLeft(s: string): (r: string)
    ensures |r| <= |s| && r == s[|s| - |r|..]
    ensures AllSpace(s[..|s| - |r|])
    ensures r == [] || !IsSpace(r[0])
    decreases |s|
  {
    if |s| > 0 && IsSpace(s[0]) then
      var r := TrimLeft(s[1..]);
      assert s[..|s| - |r|] == [s[0]] + s[1..][..|s| - 1 - |r|];
      r
    else s
  }

  function TrimRight(s: string): (r: string)
    ensures r <= s
    ensures AllSpace(s[|r|..])
    ensures r == [] || !IsSpace(r[|r| - 1])
    decreases |s|
  {
    if |s| > 0 && IsSpace(s[|s| - 1]) then
      var r := TrimRight(s[..|s| - 1]);
      assert s[|r|..] == s[..|s| - 1][|r|..] + [s[|s| - 1]];
      r
    else s
  }

  /** Python's `str.strip()` with no argument: whitespace removed from both ends. */
  function Strip(s: string): (r: string)
    ensures Stripped(r)
    ensures r == [] <==> AllSpace(s)
    ensures |r| <= |s|
  {
    TrimBothStripped(s);
    TrimBothEmpty(s);
    TrimRight(TrimLeft(s))
  }

  lemma TrimBothStripped(s: string)
    ensures Stripped(TrimRight(TrimLeft(s)))
  {
    var t := TrimLeft(s);
    var r := TrimRight(t);
    if r != [] {
      assert r[0] == t[0];
    }
  }

  lemma TrimBothEmpty(s: string)
    ensures TrimRight(TrimLeft(s)) == [] <==> AllSpace(s)
  {
    var t := TrimLeft(s);
    TrimLeftEmpty(s);
    TrimRightEmpty(t);
    if t != [] {
      assert !IsSpace(t[0]);
    }
  }

  lemma TrimLeftEmpty(s: string)
    ensures TrimLeft(s) == [] <==> AllSpace(s)
  {
    var t := TrimLeft(s);
    if t == [] {
      assert s[..|s|] == s;
    } else {
      assert t[0] == s[|s| - |t|];
    }
  }

  lemma TrimRightEmpty(s: string)
    ensures TrimRight(s) == [] <==> AllSpace(s)
  {
    var r := TrimRight(s);
    if r == [] {
      assert s[0..] == s;
    } else {
      assert r[|r| - 1] == s[|r| - 1];
    }
  }

  /** The whitespace `strip()` removes from the front of `s`. */
  function LeadingSpace(s: string): string {
    s[..|s| - |TrimLeft(s)|]
  }

  /** The whitespace `strip()` removes from the end of `s`. */
  function TrailingSpace(s: string): string {
    TrimLeft(s)[|Strip(s)|..]
  }

  /** `s` is its stripped self between the whitespace that `strip()` removes. */
  lemma StripPadding(s: string)
    ensures AllSpace(LeadingSpace(s)) && AllSpace(TrailingSpace(s))
    ensures s == LeadingSpace(s) + Strip(s) + TrailingSpace(s)
  {
    var t := TrimLeft(s);
    var r := TrimRight(t);
    assert Strip(s) == r;
    assert LeadingSpace(s) == s[..|s| - |t|];
    assert TrailingSpace(s) == t[|r|..];
    ThreeParts(s, |s| - |t|, t, r);
  }

  lemma ThreeParts(s: string, k: nat, t: string, r: string)
    requires k <= |s| && t == s[k..] && r <= t
    ensures s == s[..k] + r + t[|r|..]
  {
    assert s == s[..k] + s[k..];
    assert t == r + t[|r|..];
  }

  lemma {:induction false} TrimLeftSpacePrefix(w: string, s: string)
    requires AllSpace(w)
    ensures TrimLeft(w + s) == TrimLeft(s)
    decreases |w|
  {
    if w != [] {
      assert (w + s)[1..] == w[1..] + s;
      TrimLeftSpacePrefix(w[1..], s);
    } else {
      assert w + s == s;
    }
  }

  lemma {:induction false} TrimRightSpaceSuffix(s: string, w: string)
    requires AllSpace(w)
    ensures TrimRight(s + w) == TrimRight(s)
    decreases |w|
  {
    if w != [] {
      assert (s + w)[..|s + w| - 1] == s + w[..|w| - 1];
      TrimRightSpaceSuffix(s, w[..|w| - 1]);
    } else {
      assert s + w == s;
    }
  }

  /** Whitespace put in front of a string does not change what `strip()` returns. */
  lemma StripSpacePrefix(w: string, s: string)
    requires AllSpace(w)
    ensures Strip(w + s) == Strip(s)
  {
    TrimLeftSpacePrefix(w, s);
  }

  lemma {:induction false} TrimLeftKeepsSuffix(s: string, w: string)
    requires !AllSpace(s)
    ensures TrimLeft(s + w) == TrimLeft(s) + w
    decreases |s|
  {
    assert s != [];
    if IsSpace(s[0]) {
      assert (s + w)[1..] == s[1..] + w;
      assert !AllSpace(s[1..]) by {
        var i :| 0 <= i < |s| && !IsSpace(s[i]);
        assert s[1..][i - 1] == s[i];
      }
      TrimLeftKeepsSuffix(s[1..], w);
    }
  }

  /** Whitespace put after a string does not change what `strip()` returns. */
  lemma StripSpaceSuffix(s: string, w: string)
    requires AllSpace(w)
    ensures Strip(s + w) == Strip(s)
  {
    if AllSpace(s) {
      assert AllSpace(s + w) by {
        forall i | 0 <= i < |s + w| ensures IsSpace((s + w)[i]) {
          if i < |s| { assert (s + w)[i] == s[i]; } else { assert (s + w)[i] == w[i - |s|]; }
        }
      }
    } else {
      TrimLeftKeepsSuffix(s, w);
      TrimRightSpaceSuffix(TrimLeft(s), w);
    }
  }

  /** Python's `s.replace(old, new)` for single characters. */
  function ReplaceChar(s: string, from: char, to: char): string {
    seq(|s|, i requires 0 <= i < |s| => if s[i] == from then to else s[i])
  }

  lemma ReplaceCharAppend(a: string, b: string, from: char, to: char)
    ensures ReplaceChar(a + b, from, to) == ReplaceChar(a, from, to) + ReplaceChar(b, from, to)
  {
  }

  /** Replacing a character that does not occur changes nothing. */
  lemma ReplaceCharAbsent(s: string, from: char, to: char)
    requires from !in s
    ensures ReplaceChar(s, from, to) == s
  {
  }

  /** The number of occurrences of `c` in `s`. */
  function Count(s: string, c: char): nat
    decreases |s|
  {
    if |s| == 0 then 0 else (if s[0] == c then 1 else 0) + Count(s[1..], c)
  }

  lemma {:induction false} CountAppend(a: string, b: string, c: char)
    ensures Count(a + b, c) == Count(a, c) + Count(b, c)
    decreases |a|
  {
    if a == [] {
      assert a + b == b;
    } else {
      assert (a + b)[1..] == a[1..] + b;
      CountAppend(a[1..], b, c);
    }
  }

  /** `strip()` removes whitespace only, so it never adds an occurrence of a character. */
  lemma StripCount(s: string, c: char)
    ensures Count(Strip(s), c) <= Count(s, c)
  {
    StripPadding(s);
    CountAppend(LeadingSpace(s) + Strip(s), TrailingSpace(s), c);
    CountAppend(LeadingSpace(s), Strip(s), c);
  }

  lemma {:induction false} CountReplaced(s: string, from: char, to: char)
    requires from != to
    ensures Count(ReplaceChar(s, from, to), to) == Count(s, to) + Count(s, from)
    ensures from !in ReplaceChar(s, from, to)
    decreases |s|
  {
    if s != [] {
      assert ReplaceChar(s, from, to)[1..] == ReplaceChar(s[1..], from, to);
      CountReplaced(s[1..], from, to);
    }
  }

  /** Python's `s.split(sep)` for a one-character separator: the pieces between
      separators, empty pieces included, so there is always at least one. */
  function Split(s: string, sep: char): (parts: seq<string>)
    ensures |parts| == Count(s, sep) + 1
    ensures forall p :: p in parts ==> sep !in p
    decreases |s|
  {
    if |s| == 0 then [""]
    else
      var rest := Split(s[1..], sep);
      assert s == [s[0]] + s[1..];
      if s[0] == sep then [""] + rest
      else [[s[0]] + rest[0]] + rest[1..]
  }

  /** A character absent from `s` is in none of its pieces. */
  lemma {:induction false} SplitAvoids(s: string, sep: char, c: char)
    requires c !in s
    ensures forall p :: p in Split(s, sep) ==> c !in p
    decreases |s|
  {
    if s != [] {
      assert c !in s[1..];
      SplitAvoids(s[1..], sep, c);
    }
  }

  /** Python's `sep.join(parts)`. */
  function Join(parts: seq<string>, sep: string): string
    decreases |parts|
  {
    if |parts| == 0 then ""
    else if |parts| == 1 then parts[0]
    else parts[0] + sep + Join(parts[1..], sep)
  }

  /** Joining the pieces of a split with the same separator gives the string back. */
  lemma {:induction false} JoinSplit(s: string, sep: char)
    ensures Join(Split(s, sep), [sep]) == s
    decreases |s|
  {
    if s != [] {
      var rest := Split(s[1..], sep);
      JoinSplit(s[1..], sep);
      if s[0] != sep && |rest| > 1 {
        assert Split(s, sep)[1..] == rest[1..];
      }
    }
  }

  /** Splitting at a separator splits the pieces the same way. */
  lemma {:induction false} SplitAppend(a: string, b: string, sep: char)
    ensures Split(a + [sep] + b, sep) == Split(a, sep) + Split(b, sep)
    decreases |a|
  {
    if a == [] {
      assert a + [sep] + b == [sep] + b;
      assert ([sep] + b)[1..] == b;
    } else {
      assert (a + [sep] + b)[1..] == a[1..] + [sep] + b;
      SplitAppend(a[1..], b, sep);
    }
  }

  /** A string without the separator is one piece. */
  lemma SplitWithoutSeparator(s: string, sep: char)
    requires sep !in s
    ensures Split(s, sep) == [s]
  {
    NoOccurrenceCount(s, sep);
    JoinSplit(s, sep);
  }

  lemma {:induction false} NoOccurrenceCount(s: string, c: char)
    requires c !in s
    ensures Count(s, c) == 0
    decreases |s|
  {
    if s != [] {
      NoOccurrenceCount(s[1..], c);
    }
  }

  /** Text put in front of a string without the separator joins its first piece. */
  lemma {:induction false} SplitPrefixJoinsFirst(w: string, s: string, sep: char)
    requires sep !in w
    ensures |Split(s, sep)| >= 1
    ensures Split(w + s, sep) == [w + Split(s, sep)[0]] + Split(s, sep)[1..]
    decreases |w|
  {
    if w != [] {
      var c, u := w[0], w[1..];
      assert w + s == [c] + (u + s);
      SplitCons(c, u + s, sep);
      SplitPrefixJoinsFirst(u, s, sep);
      assert [c] + (u + Split(s, sep)[0]) == w + Split(s, sep)[0];
    } else {
      assert w + s == s;
      assert w + Split(s, sep)[0] == Split(s, sep)[0];
      assert [w + Split(s, sep)[0]] + Split(s, sep)[1..] == Split(s, sep);
    }
  }

  /** The pieces of `[c] + s`, given the pieces `p` of `s`: a separator starts
      a new empty piece, any other character joins the first piece. */
  function ConsPiece(c: char, sep: char, p: seq<string>): seq<string>
    requires |p| > 0
  {
    if c == sep then [""] + p else [[c] + p[0]] + p[1..]
  }

  /** The pieces `p` with `w` appended to the last one. */
  function AppendToLast(p: seq<string>, w: string): seq<string>
    requires |p| > 0
  {
    p[..|p| - 1] + [p[|p| - 1] + w]
  }

  lemma SplitCons(c: char, s: string, sep: char)
    ensures Split([c] + s, sep) == ConsPiece(c, sep, Split(s, sep))
  {
    assert ([c] + s)[1..] == s;
  }

  lemma ConsAppendToLast(c: char, sep: char, p: seq<string>, w: string)
    requires |p| > 0
    ensures ConsPiece(c, sep, AppendToLast(p, w)) == AppendToLast(ConsPiece(c, sep, p), w)
  {
    if c == sep {
      SeparatorAppendToLast(p, w);
    } else if |p| == 1 {
      assert [c] + (p[0] + w) == ([c] + p[0]) + w;
    } else {
      JoinedAppendToLast([c] + p[0], p, w);
    }
  }

  lemma SeparatorAppendToLast(p: seq<string>, w: string)
    requires |p| > 0
    ensures [""] + AppendToLast(p, w) == AppendToLast([""] + p, w)
  {
    var n := |p| - 1;
    assert ([""] + p)[..n + 1] == [""] + p[..n];
  }

  lemma JoinedAppendToLast(h: string, p: seq<string>, w: string)
    requires |p| > 1
    ensures [h] + AppendToLast(p, w)[1..] == AppendToLast([h] + p[1..], w)
  {
    var n := |p| - 1;
    var q := AppendToLast(p, w);
    var r := [h] + p[1..];
    assert q[1..] == p[1..n] + [p[n] + w];
    assert r[..n] == [h] + p[1..n];
    assert r[n] == p[n];
  }

  /** Text put after a string without the separator joins its last piece. */
  lemma {:induction false} SplitSuffixJoinsLast(s: string, w: string, sep: char)
    requires sep !in w
    ensures Split(s + w, sep) == AppendToLast(Split(s, sep), w)
    decreases |s|
  {
    if s == [] {
      assert s + w == w;
      SplitWithoutSeparator(w, sep);
    } else {
      var c, t := s[0], s[1..];
      assert s == [c] + t && s + w == [c] + (t + w);
      SplitCons(c, t, sep);
      SplitCons(c, t + w, sep);
      SplitSuffixJoinsLast(t, w, sep);
      ConsAppendToLast(c, sep, Split(t, sep), w);
    }
  }

  /** The list comprehension `[t for t in (p.strip() for p in parts) if t]`:
      every piece stripped, empty ones dropped, order kept. */
  function CleanList(parts: seq<string>): (r: seq<string>)
    ensures |r| <= |parts|
    ensures forall t :: t in r ==> t != [] && Stripped(t)
    decreases |parts|
  {
    if |parts| == 0 then []
    else CleanPiece(parts[0]) + CleanList(parts[1..])
  }

  /** One piece of the comprehension: its stripped self, or nothing when blank. */
  function CleanPiece(p: string): (r: seq<string>)
    ensures r == [] <==> AllSpace(p)
    ensures forall t :: t in r ==> t == Strip(p) && t != [] && Stripped(t)
  {
    var t := Strip(p);
    if t == [] then [] else [t]
  }

  /** A character no piece contains is in no cleaned title. */
  lemma {:induction false} CleanListAvoids(parts: seq<string>, c: char)
    requires forall p :: p in parts ==> c !in p
    ensures forall t :: t in CleanList(parts) ==> c !in t
    decreases |parts|
  {
    if parts != [] {
      assert parts[0] in parts;
      assert c !in multiset(parts[0]);
      CleanListAvoids(parts[1..], c);
    }
  }

  /** Cleaning is done piece by piece, so it distributes over concatenation. */
  lemma {:induction false} CleanListAppend(a: seq<string>, b: seq<string>)
    ensures CleanList(a + b) == CleanList(a) + CleanList(b)
    decreases |a|
  {
    if a == [] {
      assert a + b == b;
    } else {
      var p, rest := a[0], a[1..];
      assert a == [p] + rest && a + b == [p] + (rest + b);
      CleanListCons(p, rest);
      CleanListCons(p, rest + b);
      CleanListAppend(rest, b);
      AppendAssociative(CleanPiece(p), CleanList(rest), CleanList(b));
    }
  }

  lemma AppendAssociative<T>(x: seq<T>, y: seq<T>, z: seq<T>)
    ensures x + (y + z) == (x + y) + z
  {
  }

  lemma CleanListCons(p: string, rest: seq<string>)
    ensures CleanList([p] + rest) == CleanPiece(p) + CleanList(rest)
  {
    assert ([p] + rest)[0] == p && ([p] + rest)[1..] == rest;
  }

  /** Lists that differ only in a first piece stripping to the same title clean alike. */
  lemma {:induction false} CleanListFirst(a: seq<string>, b: seq<string>)
    requires |a| == |b| > 0 && Strip(a[0]) == Strip(b[0]) && a[1..] == b[1..]
    ensures CleanList(a) == CleanList(b)
  {
  }

  /** A character that is not whitespace does not occur in a run of whitespace. */
  lemma SpaceAvoids(w: string, c: char)
    requires AllSpace(w) && !IsSpace(c)
    ensures c !in w
  {
  }

  /** Lists that differ only in a last piece stripping to the same title clean alike. */
  lemma {:induction false} CleanListLast(a: seq<string>, b: seq<string>)
    requires |a| == |b| > 0 && a[..|a| - 1] == b[..|b| - 1]
    requires Strip(a[|a| - 1]) == Strip(b[|b| - 1])
    ensures CleanList(a) == CleanList(b)
  {
    var init := a[..|a| - 1];
    InitLast(a);
    InitLast(b);
    CleanListAppend(init, [a[|a| - 1]]);
    CleanListAppend(init, [b[|b| - 1]]);
    CleanListFirst([a[|a| - 1]], [b[|b| - 1]]);
  }

  /** A single piece cleans to its stripped self, or to nothing when blank. */
  lemma CleanListSingle(p: string)
    ensures CleanList([p]) == if AllSpace(p) then [] else [Strip(p)]
  {
    assert [p][1..] == [];
  }

  lemma InitLast(q: seq<string>)
    requires |q| > 0
    ensures q[..|q| - 1] + [q[|q| - 1]] == q
  {
  }

  /** Python's `s.startswith(prefix)`. */
  predicate StartsWith(s: string, prefix: string) {
    prefix <= s
  }

  /** ASCII lower-casing. `str.lower()` folds more letters, but no other
      character lower-cases to one of `.`, `z`, `i`, `p`, so both agree on the
      suffix test below. */
  function LowerAscii(c: char): char {
    if 'A' <= c <= 'Z' then (c as int + 32) as char else c
  }

  /** `url.lower().endswith(".zip")`. */
  predicate HasZipSuffix(url: string) {
    |url| >= 4
    && LowerAscii(url[|url| - 4]) == '.'
    && LowerAscii(url[|url| - 3]) == 'z'
    && LowerAscii(url[|url| - 2]) == 'i'
    && LowerAscii(url[|url| - 1]) == 'p'
  }

  predicate IsDigit(c: char) {
    '0' <= c <= '9'
  }

  predicate AllDigits(s: string) {
    forall i :: 0 <= i < |s| ==> IsDigit(s[i])
  }

  function DigitChar(d: nat): (c: char)
    requires d < 10
    ensures IsDigit(c) && c as int - '0' as int == d
  {
    ('0' as int + d) as char
  }

  /** Decimal digits of a natural number, most significant first, no leading zero. */
  function NatToString(n: nat): (r: string)
    ensures r != [] && AllDigits(r)
    ensures r[0] == '0' <==> n == 0
    decreases n
  {
    if n < 10 then [DigitChar(n)]
    else NatToString(n / 10) + [DigitChar(n % 10)]
  }

  /** A decimal numeral in the form `str` writes it: digits with no leading
      zero except in `0` itself. */
  predicate CanonicalNat(s: string) {
    s != [] && AllDigits(s) && (s[0] == '0' ==> |s| == 1)
  }

  /** A canonical numeral, or a minus sign before a canonical numeral other than `0`. */
  predicate CanonicalInt(s: string) {
    CanonicalNat(s) || (|s| > 1 && s[0] == '-' && s[1] != '0' && CanonicalNat(s[1..]))
  }

  /** Python's `str(n)` for an `int`: a minus sign before the digits of a negative number. */
  function IntToString(n: int): (r: string)
    ensures CanonicalInt(r)
    ensures r[0] == '-' <==> n < 0
  {
    if n < 0 then "-" + NatToString(-n) else NatToString(n)
  }

  function DigitsValue(s: string): nat
    requires AllDigits(s)
    decreases |s|
  {
    if |s| == 0 then 0
    else DigitsValue(s[..|s| - 1]) * 10 + (s[|s| - 1] as int - '0' as int)
  }

  /** Reading a decimal integer back, the inverse of `IntToString`. */
  function ParseInt(s: string): Option<int> {
    if |s| > 1 && s[0] == '-' && AllDigits(s[1..]) then Some(0 - DigitsValue(s[1..]) as int)
    else if |s| > 0 && AllDigits(s) then Some(DigitsValue(s))
    else None
  }

  lemma {:induction false} DigitsOfNat(n: nat)
    ensures DigitsValue(NatToString(n)) == n
    decreases n
  {
    if n >= 10 {
      var r := NatToString(n);
      DigitsOfNat(n / 10);
      assert r[..|r| - 1] == NatToString(n / 10);
    }
  }

  /** `str(n)` can be read back as `n`. */
  lemma ParseIntToString(n: int)
    ensures ParseInt(IntToString(n)) == Some(n)
  {
    if n < 0 {
      DigitsOfNat(-n);
      assert IntToString(n)[1..] == NatToString(-n);
    } else {
      DigitsOfNat(n);
    }
  }

  lemma {:induction false} LeadingDigitPositive(s: string)
    requires AllDigits(s) && s != [] && s[0] != '0'
    ensures DigitsValue(s) >= 1
    decreases |s|
  {
    if |s| > 1 {
      LeadingDigitPositive(s[..|s| - 1]);
    }
  }

  /** A canonical numeral is the digits of the number it denotes. */
  lemma {:induction false} CanonicalNatDigits(s: string)
    requires CanonicalNat(s)
    ensures s == NatToString(DigitsValue(s))
    decreases |s|
  {
    if |s| > 1 {
      var p := s[..|s| - 1];
      LeadingDigitPositive(p);
      CanonicalNatDigits(p);
      assert s == p + [s[|s| - 1]];
    }
  }

  /** `str(n)` is the only canonical numeral that reads back as `n`: every
      canonical numeral is `str` of its value. */
  lemma CanonicalIntUnique(s: string)
    requires CanonicalInt(s)
    ensures ParseInt(s).Some? && s == IntToString(ParseInt(s).value)
  {
    if CanonicalNat(s) {
      CanonicalNatDigits(s);
    } else {
      var t := s[1..];
      LeadingDigitPositive(t);
      CanonicalNatDigits(t);
      assert s == "-" + t;
    }
  }
}
