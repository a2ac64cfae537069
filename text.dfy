/** String primitives with the meaning Python gives them on `str` values:
    substring search (`in`), `startswith`, `replace`, `strip`, `lower`
    and `split`, plus decimal digit strings. Characters are Unicode scalar
    values, as in Python 3. */
module Text {

  datatype Option<+T> = None | Some(value: T)

  // ---------------------------------------------------------------------
  // Substring search

  /** `s.startswith(prefix)` */
  predicate StartsWith(s: string, prefix: string)
  {
    |prefix| <= |s| && s[..|prefix|] == prefix
  }

  /** `pat in s`; the empty pattern occurs in every string. */
  predicate Contains(s: string, pat: string)
    decreases |s|
  {
    StartsWith(s, pat) || (|s| > 0 && Contains(s[1..], pat))
  }

  /** `pat` occurs in `s` starting at index `i`. */
  predicate OccursAt(s: string, pat: string, i: int)
  {
    0 <= i && i + |pat| <= |s| && s[i..i + |pat|] == pat
  }

  /** The recursive search agrees with the positional definition. */
  lemma {:induction false} ContainsIffOccurs(s: string, pat: string)
    ensures Contains(s, pat) <==> exists i :: OccursAt(s, pat, i)
    decreases |s|
  {
    if StartsWith(s, pat) {
      assert OccursAt(s, pat, 0);
    } else if |s| > 0 {
      ContainsIffOccurs(s[1..], pat);
      if Contains(s[1..], pat) {
        var i :| OccursAt(s[1..], pat, i);
        assert s[i + 1..i + 1 + |pat|] == s[1..][i..i + |pat|];
        assert OccursAt(s, pat, i + 1);
      }
      if i :| OccursAt(s, pat, i) {
        assert i != 0;
        assert s[1..][i - 1..i - 1 + |pat|] == s[i..i + |pat|];
        assert OccursAt(s[1..], pat, i - 1);
      }
    }
  }
  /** Every text contains itself. */
  lemma ContainsItself(s: string)
    ensures Contains(s, s)
  {
    assert s[0..|s|] == s;
    assert OccursAt(s, s, 0);
    ContainsIffOccurs(s, s);
  }


  /** Concatenation is associative. */
  lemma SeqAssoc<T>(x: seq<T>, y: seq<T>, z: seq<T>)
    ensures (x + y) + z == x + (y + z)
  {
  }

  /** A pattern containing a character that `s` lacks does not occur in `s`. */
  lemma MissingCharNotContained(s: string, pat: string, c: char)
    requires c in pat && c !in s
    ensures !Contains(s, pat)
  {
    ContainsIffOccurs(s, pat);
    var k :| 0 <= k < |pat| && pat[k] == c;
    forall i | 0 <= i && i + |pat| <= |s|
      ensures !OccursAt(s, pat, i)
    {
      assert s[i..i + |pat|][k] == s[i + k] != c;
    }
  }

  /** An occurrence inside a part is an occurrence inside the whole. */
  lemma ContainsInfix(a: string, b: string, c: string, pat: string)
    requires Contains(b, pat)
    ensures Contains(a + b + c, pat)
  {
    ContainsIffOccurs(b, pat);
    var i :| OccursAt(b, pat, i);
    var s := a + b + c;
    assert s[|a| + i..|a| + i + |pat|] == b[i..i + |pat|];
    assert OccursAt(s, pat, |a| + i);
    ContainsIffOccurs(s, pat);
  }

  /** Where a pattern occurs, so does each of its prefixes. */
  lemma ContainsPrefix(s: string, pat: string, q: string)
    requires Contains(s, pat) && |q| <= |pat| && pat[..|q|] == q
    ensures Contains(s, q)
  {
    ContainsIffOccurs(s, pat);
    var p :| OccursAt(s, pat, p);
    assert s[p..p + |q|] == s[p..p + |pat|][..|q|];
    assert OccursAt(s, q, p);
    ContainsIffOccurs(s, q);
  }

  // ---------------------------------------------------------------------
  // str.replace

  /** `s.replace(pat, rep)`: left to right, non-overlapping occurrences. */
  function ReplaceAll(s: string, pat: string, rep: string): (r: string)
    requires pat != []
    ensures rep == pat ==> r == s
    decreases |s|
  {
    if |s| < |pat| then s
    else if s[..|pat|] == pat then
      assert s == s[..|pat|] + s[|pat|..];
      rep + ReplaceAll(s[|pat|..], pat, rep)
    else
      assert s == [s[0]] + s[1..];
      [s[0]] + ReplaceAll(s[1..], pat, rep)
  }

  /** Replacing a pattern that does not occur changes nothing. */
  lemma {:induction false} ReplaceAbsent(s: string, pat: string, rep: string)
    requires pat != [] && !Contains(s, pat)
    ensures ReplaceAll(s, pat, rep) == s
    decreases |s|
  {
    if |s| >= |pat| {
      assert !StartsWith(s, pat);
      ReplaceAbsent(s[1..], pat, rep);
      assert [s[0]] + s[1..] == s;
    }
  }

  /** A one-character replacement acts on each character independently. */
  lemma {:induction false} ReplaceCharAt(s: string, c: char, d: string)
    ensures |ReplaceAll(s, [c], d)| == |s| + (|d| - 1) * CountChar(s, c)
    ensures |d| == 1 ==> forall i :: 0 <= i < |s| ==>
              ReplaceAll(s, [c], d)[i] == (if s[i] == c then d[0] else s[i])
    decreases |s|
  {
    if s != [] {
      ReplaceCharAt(s[1..], c, d);
      assert s[..1] == [s[0]];
    }
  }

  /** Number of occurrences of character `c` in `s`. */
  function CountChar(s: string, c: char): nat
  {
    if s == [] then 0 else (if s[0] == c then 1 else 0) + CountChar(s[1..], c)
  }

  /** How a one-character replacement changes the count of a character. */
  lemma {:induction false} ReplaceCharCount(s: string, c: char, d: string, x: char)
    requires c !in d
    ensures CountChar(ReplaceAll(s, [c], d), x) ==
            (if x == c then 0 else CountChar(s, x)) + CountChar(s, c) * CountChar(d, x)
    decreases |s|
  {
    if s != [] {
      ReplaceCharCount(s[1..], c, d, x);
      assert s[..1] == [s[0]];
      var rest := ReplaceAll(s[1..], [c], d);
      var a, n := CountChar(s[1..], c), CountChar(d, x);
      if s[0] == c {
        assert ReplaceAll(s, [c], d) == d + rest;
        CountCharAppend(d, rest, x);
        assert CountChar(s, c) == 1 + a;
        MulSucc(a, n);
      } else {
        assert ReplaceAll(s, [c], d) == [s[0]] + rest;
        CountCharAppend([s[0]], rest, x);
        assert CountChar(s, c) == a;
      }
    }
  }

  lemma MulSucc(a: nat, n: nat)
    ensures (1 + a) * n == n + a * n
  {
  }

  lemma {:induction false} CountCharAppend(a: string, b: string, x: char)
    ensures CountChar(a + b, x) == CountChar(a, x) + CountChar(b, x)
    decreases |a|
  {
    if a != [] {
      assert (a + b)[1..] == a[1..] + b;
      CountCharAppend(a[1..], b, x);
    } else {
      assert a + b == b;
    }
  }

  /** A one-character replacement distributes over concatenation. */
  lemma {:induction false} ReplaceCharAppend(a: string, b: string, c: char, d: string)
    ensures ReplaceAll(a + b, [c], d) == ReplaceAll(a, [c], d) + ReplaceAll(b, [c], d)
    decreases |a|
  {
    if a == [] {
      assert a + b == b;
    } else {
      assert (a + b)[1..] == a[1..] + b;
      assert (a + b)[..1] == a[..1] == [a[0]];
      ReplaceCharAppend(a[1..], b, c, d);
    }
  }

  // ---------------------------------------------------------------------
  // str.strip

  /** `c.isspace()` for the whitespace code points Python recognises. */
  predicate IsSpace(c: char)
    ensures IsSpace(c) ==> !('0' <= c <= '9' || 'a' <= c <= 'z' || 'A' <= c <= 'Z' || c == '_' || c == '-' || c == '.' || c == ',')
  {
    c == ' ' || ('\t' <= c <= '\r') || ('\U{1C}' <= c <= '\U{1F}') || c == '\U{85}' ||
    c == '\U{A0}' || c == '\U{1680}' || ('\U{2000}' <= c <= '\U{200A}') ||
    c == '\U{2028}' || c == '\U{2029}' || c == '\U{202F}' || c == '\U{205F}' || c == '\U{3000}'
  }

  /** The characters `s.strip(chars)` removes: whitespace when `chars` is
      None, otherwise exactly the given character. */
  predicate Strippable(c: char, chars: Option<char>)
  {
    match chars
    case None => IsSpace(c)
    case Some(d) => c == d
  }

  /** Index of the first character at or after `i` that is kept. */
  function KeptFrom(s: string, chars: Option<char>, i: nat): (k: nat)
    requires i <= |s|
    ensures i <= k <= |s|
    ensures k < |s| ==> !Strippable(s[k], chars)
    ensures forall m :: i <= m < k ==> Strippable(s[m], chars)
    decreases |s| - i
  {
    if i < |s| && Strippable(s[i], chars) then KeptFrom(s, chars, i + 1) else i
  }

  /** End of the kept part within `s[lo..j]`. */
  function KeptUntil(s: string, chars: Option<char>, lo: nat, j: nat): (k: nat)
    requires lo <= j <= |s|
    ensures lo <= k <= j
    ensures k > lo ==> !Strippable(s[k - 1], chars)
    ensures forall m :: k <= m < j ==> Strippable(s[m], chars)
    decreases j
  {
    if j > lo && Strippable(s[j - 1], chars) then KeptUntil(s, chars, lo, j - 1) else j
  }

  /** `s.strip()` (chars None) or `s.strip(c)` (chars Some(c)): the result
      is a slice of `s` that neither starts nor ends with a stripped
      character, and everything cut off is a stripped character. */
  function StripBy(s: string, chars: Option<char>): (r: string)
    ensures r == [] || (!Strippable(r[0], chars) && !Strippable(r[|r| - 1], chars))
    ensures |r| <= |s|
  {
    var i := KeptFrom(s, chars, 0);
    s[i..KeptUntil(s, chars, i, |s|)]
  }

  /** `s.strip()` */
  function Strip(s: string): (r: string)
    ensures r == [] || (!IsSpace(r[0]) && !IsSpace(r[|r| - 1]))
  {
    StripBy(s, None)
  }

  /** `s.strip(c)` */
  function StripChar(s: string, c: char): (r: string)
    ensures r == [] || (r[0] != c && r[|r| - 1] != c)
  {
    StripBy(s, Some(c))
  }

  /** Stripping a string that neither starts nor ends with a stripped
      character changes nothing. */
  lemma StripUntrimmed(s: string, chars: Option<char>)
    requires s == [] || (!Strippable(s[0], chars) && !Strippable(s[|s| - 1], chars))
    ensures StripBy(s, chars) == s
  {
  }

  /** Non-blank characters at `p` and `q` lie inside the stripped part. */
  lemma StripBounds(s: string, p: nat, q: nat)
    requires p <= q < |s| && !IsSpace(s[p]) && !IsSpace(s[q])
    ensures var i := KeptFrom(s, None, 0);
            i <= p && q < KeptUntil(s, None, i, |s|)
  {
  }

  /** An occurrence inside `s[i..j]` is an occurrence of that slice. */
  lemma OccursInSlice(s: string, pat: string, i: nat, j: nat, p: nat)
    requires i <= p && p + |pat| <= j <= |s| && OccursAt(s, pat, p)
    ensures OccursAt(s[i..j], pat, p - i)
  {
    var t := s[i..j];
    var u, v := t[p - i..p - i + |pat|], s[p..p + |pat|];
    forall k | 0 <= k < |u|
      ensures u[k] == v[k]
    {
      assert u[k] == t[p - i + k] == s[p + k];
    }
    assert u == v;
  }

  /** Stripping whitespace keeps every occurrence of a pattern that neither
      starts nor ends with whitespace. */
  lemma StripKeepsInfix(s: string, pat: string)
    requires pat != [] && !IsSpace(pat[0]) && !IsSpace(pat[|pat| - 1])
    requires Contains(s, pat)
    ensures Contains(Strip(s), pat)
  {
    ContainsIffOccurs(s, pat);
    var p :| OccursAt(s, pat, p);
    var occurrence := s[p..p + |pat|];
    assert occurrence[0] == s[p] && occurrence[|pat| - 1] == s[p + |pat| - 1];
    StripBounds(s, p, p + |pat| - 1);
    var i := KeptFrom(s, None, 0);
    var j := KeptUntil(s, None, i, |s|);
    var r := Strip(s);
    assert r == s[i..j];
    OccursInSlice(s, pat, i, j, p);
    ContainsIffOccurs(r, pat);
  }

  // ---------------------------------------------------------------------
  // str.lower

  /** An ASCII capital letter. */
  predicate IsAsciiUpper(c: char)
  {
    'A' <= c <= 'Z'
  }

  /** `c.lower()` for ASCII, Latin-1 and the Turkish capitals; Python lowers
      'İ' (U+0130) to two code points, 'i' followed by U+0307. */
  function LowerChar(c: char): (r: string)
    ensures |r| >= 1
    ensures forall k :: 0 <= k < |r| ==> !IsAsciiUpper(r[k])
    ensures ('a' <= c <= 'z' || '0' <= c <= '9' || c == '_' || c == '-') ==> r == [c]
  {
    if IsAsciiUpper(c) || ('\U{C0}' <= c <= '\U{DE}' && c != '\U{D7}') then [(c as int + 32) as char]
    else if c == '\U{11E}' then ['\U{11F}']   // Ğ to ğ
    else if c == '\U{15E}' then ['\U{15F}']   // Ş to ş
    else if c == '\U{130}' then ['i', '\U{307}']   // İ to i and a combining dot above
    else [c]
  }

  /** `s.lower()` */
  function Lower(s: string): (r: string)
    ensures |r| >= |s|
    ensures forall k :: 0 <= k < |r| ==> !IsAsciiUpper(r[k])
  {
    if s == [] then [] else LowerChar(s[0]) + Lower(s[1..])
  }

  /** Lowering commutes with concatenation. */
  lemma {:induction false} LowerAppend(a: string, b: string)
    ensures Lower(a + b) == Lower(a) + Lower(b)
    decreases |a|
  {
    if a == [] {
      assert a + b == b;
    } else {
      assert (a + b)[1..] == a[1..] + b;
      LowerAppend(a[1..], b);
    }
  }

  /** Lowering never turns a non-blank first or last character into a blank. */
  lemma LowerKeepsEnds(s: string)
    requires s != [] && !IsSpace(s[0]) && !IsSpace(s[|s| - 1])
    ensures var r := Lower(s); r != [] && !IsSpace(r[0]) && !IsSpace(r[|r| - 1])
  {
    var n := |s|;
    assert s[..n - 1] + [s[n - 1]] == s;
    LowerAppend(s[..n - 1], [s[n - 1]]);
    assert Lower([s[n - 1]]) == LowerChar(s[n - 1]);
  }

  /** On ASCII text, lowering maps each character on its own. */
  lemma {:induction false} LowerAscii(s: string)
    requires forall k :: 0 <= k < |s| ==> s[k] < '\U{80}'
    ensures |Lower(s)| == |s|
    ensures forall k :: 0 <= k < |s| ==>
              Lower(s)[k] == (if IsAsciiUpper(s[k]) then (s[k] as int + 32) as char else s[k])
    decreases |s|
  {
    if s != [] {
      LowerAscii(s[1..]);
    }
  }

  // ---------------------------------------------------------------------
  // str.split

  /** `s.split(sep)` for a one-character separator: always at least one part. */
  function Split(s: string, sep: char): (parts: seq<string>)
    ensures |parts| >= 1
  {
    if s == [] then [[]]
    else
      var rest := Split(s[1..], sep);
      if s[0] == sep then [[]] + rest else [[s[0]] + rest[0]] + rest[1..]
  }

  /** Each separator adds a part. */
  lemma {:induction false} SplitCount(s: string, sep: char)
    ensures |Split(s, sep)| == CountChar(s, sep) + 1
  {
    if s != [] {
      SplitCount(s[1..], sep);
    }
  }

  /** A string without the separator splits into itself. */
  lemma {:induction false} SplitWithoutSep(s: string, sep: char)
    requires sep !in s
    ensures Split(s, sep) == [s]
  {
    if s != [] {
      SplitWithoutSep(s[1..], sep);
      assert [s[0]] + s[1..] == s;
    }
  }

  /** Splitting at the first separator. */
  lemma {:induction false} SplitAtFirst(a: string, b: string, sep: char)
    requires sep !in a
    ensures Split(a + [sep] + b, sep) == [a] + Split(b, sep)
  {
    if a == [] {
      assert a + [sep] + b == [sep] + b;
      assert ([sep] + b)[1..] == b;
    } else {
      assert (a + [sep] + b)[1..] == a[1..] + [sep] + b;
      SplitAtFirst(a[1..], b, sep);
      assert [a[0]] + a[1..] == a;
    }
  }

  // ---------------------------------------------------------------------
  // Decimal digit strings

  predicate IsDigit(c: char)
  {
    '0' <= c <= '9'
  }

  predicate AllDigits(s: string)
  {
    forall i :: 0 <= i < |s| ==> IsDigit(s[i])
  }

  function Pow10(n: nat): (r: nat)
    ensures r >= 1
  {
    if n == 0 then 1 else 10 * Pow10(n - 1)
  }

  /** The value of a string of decimal digits (0 for the empty string). */
  function DigitsValue(s: string): nat
    requires AllDigits(s)
  {
    if s == [] then 0 else DigitsValue(s[..|s| - 1]) * 10 + (s[|s| - 1] as int - '0' as int)
  }

  lemma {:induction false} DigitsValueAppend(a: string, b: string)
    requires AllDigits(a) && AllDigits(b)
    ensures AllDigits(a + b)
    ensures DigitsValue(a + b) == DigitsValue(a) * Pow10(|b|) + DigitsValue(b)
    decreases |b|
  {
    if b == [] {
      assert a + b == a;
    } else {
      var b' := b[..|b| - 1];
      assert (a + b)[..|a + b| - 1] == a + b';
      assert (a + b)[|a + b| - 1] == b[|b| - 1];
      DigitsValueAppend(a, b');
      var d := b[|b| - 1] as int - '0' as int;
      assert DigitsValue(a + b) == DigitsValue(a + b') * 10 + d;
      assert DigitsValue(b) == DigitsValue(b') * 10 + d;
      assert Pow10(|b|) == 10 * Pow10(|b'|);
      ShiftDigit(DigitsValue(a), Pow10(|b'|), DigitsValue(b'));
    }
  }

  lemma ShiftDigit(v: nat, p: nat, w: nat)
    ensures (v * p + w) * 10 == v * (10 * p) + w * 10
  {
  }

  /** A digit string never denotes a number with more digits than it has. */
  lemma {:induction false} DigitsValueBound(s: string)
    requires AllDigits(s)
    ensures DigitsValue(s) < Pow10(|s|)
  {
    if s != [] {
      DigitsValueBound(s[..|s| - 1]);
    }
  }

  function DigitChar(d: nat): (c: char)
    requires d < 10
    ensures IsDigit(c) && c as int - '0' as int == d
  {
    ('0' as int + d) as char
  }

  /** The shortest decimal representation of `n`. */
  function NatToDigits(n: nat): (s: string)
    ensures s != [] && AllDigits(s) && DigitsValue(s) == n
    decreases n
  {
    if n < 10 then [DigitChar(n)]
    else
      var s := NatToDigits(n / 10) + [DigitChar(n % 10)];
      assert s[..|s| - 1] == NatToDigits(n / 10);
      s
  }

  /** `n` written with exactly `width` digits, padded with leading zeros. */
  function PadDigits(n: nat, width: nat): (s: string)
    requires n < Pow10(width)
    ensures |s| == width && AllDigits(s) && DigitsValue(s) == n
  {
    if width == 0 then []
    else
      var s := PadDigits(n / 10, width - 1) + [DigitChar(n % 10)];
      assert s[..|s| - 1] == PadDigits(n / 10, width - 1);
      s
  }
}
