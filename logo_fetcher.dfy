/** The bank-logo downloader (logo_fetcher.py): cleans a bank's web domain,
    turns the bank's name into a safe file name, asks the logo services in a
    fixed order, names the saved file after the image type it received, and
    picks the banks out of a spreadsheet. The HTTP client and URL parsing
    are parameters of the model: each is a function the caller supplies. */
module LogoFetcher {
  import opened Text

  // ---------------------------------------------------------------------
  // clean_domain

  /** `clean_domain`: None for a missing or empty domain and for the bare
      scheme "http:"; otherwise every "www." is deleted (case-sensitively),
      the rest is stripped and lowercased, and an empty result is None. */
  function CleanDomain(domain: Option<string>): (r: Option<string>)
    ensures r.None? <==> domain == None || domain == Some("") || domain == Some("http:") ||
                         Strip(ReplaceAll(domain.value, "www.", "")) == []
    ensures r.Some? ==> r.value != [] && !IsSpace(r.value[0]) && !IsSpace(r.value[|r.value| - 1])
    ensures r.Some? ==> forall k :: 0 <= k < |r.value| ==> !IsAsciiUpper(r.value[k])
  {
    match domain
    case None => None
    case Some(d) =>
      if d == "" || d == "http:" then None
      else
        var trimmed := Strip(ReplaceAll(d, "www.", ""));
        if trimmed == [] then None
        else
          LowerKeepsEnds(trimmed);
          Some(Lower(trimmed))
  }

  /** Text made of ASCII characters, no capitals, with non-blank ends. */
  predicate PlainLowercase(s: string)
  {
    s != [] && !IsSpace(s[0]) && !IsSpace(s[|s| - 1]) &&
    forall k :: 0 <= k < |s| ==> s[k] < '\U{80}' && !IsAsciiUpper(s[k])
  }

  /** A leading "www." is dropped from an otherwise clean domain. */
  lemma CleanDomainDropsWww(rest: string)
    requires PlainLowercase(rest) && !Contains(rest, "www.")
    ensures CleanDomain(Some("www." + rest)) == Some(rest)
  {
    var d := "www." + rest;
    assert d[..4] == "www." && d[4..] == rest;
    assert d != "" && d != "http:" by { assert d[0] == 'w'; }
    ReplaceAbsent(rest, "www.", "");
    assert ReplaceAll(d, "www.", "") == "" + ReplaceAll(rest, "www.", "");
    assert ReplaceAll(d, "www.", "") == rest;
    StripUntrimmed(rest, None);
    LowerAscii(rest);
    assert Lower(rest) == rest;
    CleanDomainSteps(d, rest);
  }

  /** The value of `clean_domain` once its steps are known. */
  lemma CleanDomainSteps(d: string, trimmed: string)
    requires d != "" && d != "http:" && Strip(ReplaceAll(d, "www.", "")) == trimmed && trimmed != []
    ensures CleanDomain(Some(d)) == Some(Lower(trimmed))
  {
  }

  /** "www." is only deleted in lowercase: "WWW." in front of a clean domain
      is kept and merely lowercased. */
  lemma CleanDomainIsCaseSensitive(rest: string)
    requires PlainLowercase(rest) && !Contains(rest, "www.")
    ensures CleanDomain(Some("WWW." + rest)) == Some("www." + rest)
  {
    var upper := "WWW.";
    var d := upper + rest;
    assert d[0] == 'W' && d[|d| - 1] == rest[|rest| - 1];
    NoWwwBehind(upper, rest);
    CleanDomainOnlyLowers(d);
    LowerAppend(upper, rest);
    UpperWwwLowers(upper);
    LowerAscii(rest);
    assert Lower(rest) == rest;
  }

  /** A domain without "www." and without surrounding blanks is only
      lowercased. */
  lemma CleanDomainOnlyLowers(d: string)
    requires d != [] && d != "http:" && !Contains(d, "www.")
    requires !IsSpace(d[0]) && !IsSpace(d[|d| - 1])
    ensures CleanDomain(Some(d)) == Some(Lower(d))
  {
    ReplaceAbsent(d, "www.", "");
    StripUntrimmed(d, None);
  }

  /** A prefix without 'w' cannot start an occurrence of "www.". */
  lemma {:induction false} NoWwwBehind(p: string, rest: string)
    requires forall k :: 0 <= k < |p| ==> p[k] != 'w'
    requires !Contains(rest, "www.")
    ensures !Contains(p + rest, "www.")
    decreases |p|
  {
    if p == [] {
      assert p + rest == rest;
    } else {
      var s := p + rest;
      assert s[0] == p[0] != 'w';
      assert !StartsWith(s, "www.");
      assert s[1..] == p[1..] + rest;
      NoWwwBehind(p[1..], rest);
    }
  }

  lemma UpperWwwLowers(upper: string)
    requires upper == "WWW."
    ensures Lower(upper) == "www."
  {
    LowerAscii(upper);
  }

  // ---------------------------------------------------------------------
  // sanitize_filename

  /** The Turkish letters `sanitize_filename` replaces, in the dict's order. */
  const Replacements: seq<(char, char)> := [
    ('\U{131}', 'i'), ('\U{130}', 'i'),   // ı İ
    ('\U{15F}', 's'), ('\U{15E}', 's'),   // ş Ş
    ('\U{11F}', 'g'), ('\U{11E}', 'g'),   // ğ Ğ
    ('\U{FC}', 'u'), ('\U{DC}', 'u'),     // ü Ü
    ('\U{F6}', 'o'), ('\U{D6}', 'o'),     // ö Ö
    ('\U{E7}', 'c'), ('\U{C7}', 'c')]     // ç Ç

  /** Where character `c` ends up after `name.replace(from, to)` for each
      pair of `table` in turn. */
  function ApplyTable(c: char, table: seq<(char, char)>): char
  {
    if table == [] then c
    else
      var before := ApplyTable(c, table[..|table| - 1]);
      var (from, to) := table[|table| - 1];
      if before == from then to else before
  }

  /** The ASCII base letter of a Turkish letter; other characters are kept. */
  function AsciiBase(c: char): char
  {
    if c == '\U{131}' || c == '\U{130}' then 'i'
    else if c == '\U{15F}' || c == '\U{15E}' then 's'
    else if c == '\U{11F}' || c == '\U{11E}' then 'g'
    else if c == '\U{FC}' || c == '\U{DC}' then 'u'
    else if c == '\U{F6}' || c == '\U{D6}' then 'o'
    else if c == '\U{E7}' || c == '\U{C7}' then 'c'
    else c
  }

  /** One more pair of the table acts on what the earlier pairs left. */
  lemma ApplyTableStep(c: char, table: seq<(char, char)>, i: nat)
    requires i < |table|
    ensures ApplyTable(c, table[..i + 1]) ==
            var before := ApplyTable(c, table[..i]);
            if before == table[i].0 then table[i].1 else before
  {
    assert table[..i + 1][..i] == table[..i];
  }

  /** The twelve replacements in sequence never feed one another: together
      they send each letter to its ASCII base letter. */
  lemma ReplacementsGiveAsciiBase(c: char)
    ensures ApplyTable(c, Replacements) == AsciiBase(c)
  {
    var t := Replacements;
    assert t[..0] == [];
    ApplyTableStep(c, t, 0);
    ApplyTableStep(c, t, 1);
    ApplyTableStep(c, t, 2);
    ApplyTableStep(c, t, 3);
    ApplyTableStep(c, t, 4);
    ApplyTableStep(c, t, 5);
    ApplyTableStep(c, t, 6);
    ApplyTableStep(c, t, 7);
    ApplyTableStep(c, t, 8);
    ApplyTableStep(c, t, 9);
    ApplyTableStep(c, t, 10);
    ApplyTableStep(c, t, 11);
    assert t[..12] == t;
  }

  /** Every character replaced by its ASCII base letter. */
  function FoldTurkish(s: string): (r: string)
    ensures |r| == |s| && forall k :: 0 <= k < |s| ==> r[k] == AsciiBase(s[k])
  {
    if s == [] then [] else [AsciiBase(s[0])] + FoldTurkish(s[1..])
  }

  /** The characters of the class `[a-zA-Z0-9\-_]`. */
  predicate WordChar(c: char)
  {
    'a' <= c <= 'z' || 'A' <= c <= 'Z' || '0' <= c <= '9' || c == '-' || c == '_'
  }

  /** `re.sub(r'[^a-zA-Z0-9\-_]', '_', s)` */
  function MaskNonWord(s: string): (r: string)
    ensures |r| == |s|
    ensures forall k :: 0 <= k < |s| ==> r[k] == if WordChar(s[k]) then s[k] else '_'
  {
    if s == [] then [] else [if WordChar(s[0]) then s[0] else '_'] + MaskNonWord(s[1..])
  }

  /** No two underscores stand side by side. */
  predicate NoDoubleUnderscore(s: string)
  {
    forall k :: 0 < k < |s| ==> !(s[k - 1] == '_' && s[k] == '_')
  }

  /** The characters of `s` other than '_', in order. */
  function NonUnderscores(s: string): string
  {
    if s == [] then [] else (if s[0] == '_' then [] else [s[0]]) + NonUnderscores(s[1..])
  }

  lemma NonUnderscoresCons(c: char, t: string)
    ensures NonUnderscores([c] + t) == (if c == '_' then [] else [c]) + NonUnderscores(t)
  {
    assert ([c] + t)[1..] == t;
  }

  /** `re.sub(r'_+', '_', s)`: each run of underscores becomes one. An
      underscore followed by another is dropped. */
  function CollapseUnderscores(s: string): (r: string)
    ensures |r| <= |s|
    ensures s != [] ==> r != [] && r[0] == s[0]
    ensures forall k :: 0 <= k < |r| ==> r[k] in s
    ensures NoDoubleUnderscore(r)
    ensures NonUnderscores(r) == NonUnderscores(s)
    decreases |s|
  {
    if |s| < 2 then s
    else if s[0] == '_' && s[1] == '_' then
      assert s == [s[0]] + s[1..];
      NonUnderscoresCons(s[0], s[1..]);
      CollapseUnderscores(s[1..])
    else
      assert s == [s[0]] + s[1..];
      NonUnderscoresCons(s[0], s[1..]);
      NonUnderscoresCons(s[0], CollapseUnderscores(s[1..]));
      [s[0]] + CollapseUnderscores(s[1..])
  }

  /** A run of underscores, however long, collapses like a single one. */
  lemma {:induction false} CollapseRun(a: string, u: string, b: string)
    requires u != [] && forall k :: 0 <= k < |u| ==> u[k] == '_'
    ensures CollapseUnderscores(a + u + b) == CollapseUnderscores(a + "_" + b)
    decreases |a|, |u|
  {
    var s, t := a + u + b, a + "_" + b;
    if a == [] {
      assert s == u + b && t == "_" + b;
      if |u| > 1 {
        assert s[0] == '_' && s[1] == '_';
        assert s[1..] == [] + u[1..] + b;
        CollapseRun([], u[1..], b);
      }
    } else {
      assert s[0] == t[0] == a[0];
      assert s[1] == t[1] by {
        if |a| == 1 { assert s[1] == u[0]; } else { assert s[1] == a[1]; }
      }
      assert s[1..] == a[1..] + u + b && t[1..] == a[1..] + "_" + b;
      CollapseRun(a[1..], u, b);
    }
  }

  /** `sanitize_filename`, stage by stage. */
  function Sanitize(name: string): (r: string)
    ensures |r| <= |name|
  {
    var masked := MaskNonWord(FoldTurkish(name));
    var collapsed := CollapseUnderscores(masked);
    CollapsedWordChars(masked);
    StripUnderscoresKeepsWords(collapsed);
    LowerWordChars(StripChar(collapsed, '_'));
    Lower(StripChar(collapsed, '_'))
  }

  /** The characters a sanitized file name may hold: `[a-z0-9_-]`. */
  predicate SafeChar(c: char)
  {
    'a' <= c <= 'z' || '0' <= c <= '9' || c == '-' || c == '_'
  }

  /** A file name `sanitize_filename` may return. */
  predicate SafeName(s: string)
  {
    (forall k :: 0 <= k < |s| ==> SafeChar(s[k])) &&
    NoDoubleUnderscore(s) &&
    (s == [] || (s[0] != '_' && s[|s| - 1] != '_'))
  }

  /** `sanitize_filename`: replaces the Turkish letters one pair of the table
      at a time, then masks, collapses, strips and lowercases. */
  method SanitizeFilename(name: string) returns (safe: string)
    ensures safe == Sanitize(name)
    ensures SafeName(safe)
  {
    var s := name;
    for i := 0 to |Replacements|
      invariant |s| == |name|
      invariant forall k :: 0 <= k < |s| ==> s[k] == ApplyTable(name[k], Replacements[..i])
    {
      var (from, to) := Replacements[i];
      ReplaceCharAt(s, from, [to]);
      assert Replacements[..i + 1][..i] == Replacements[..i];
      s := ReplaceAll(s, [from], [to]);
    }
    forall k | 0 <= k < |s|
      ensures s[k] == FoldTurkish(name)[k]
    {
      assert Replacements[..|Replacements|] == Replacements;
      ReplacementsGiveAsciiBase(name[k]);
    }
    assert s == FoldTurkish(name);
    s := MaskNonWord(s);
    s := CollapseUnderscores(s);
    s := StripChar(s, '_');
    safe := Lower(s);
    SanitizedIsSafe(name);
  }

  /** Underscores and the other word characters keep their places when
      a string of word characters is lowercased. */
  lemma LowerWordChars(s: string)
    requires forall k :: 0 <= k < |s| ==> WordChar(s[k])
    ensures |Lower(s)| == |s|
    ensures forall k :: 0 <= k < |s| ==> SafeChar(Lower(s)[k]) && (Lower(s)[k] == '_' <==> s[k] == '_')
  {
    LowerAscii(s);
  }

  /** Stripping underscores from word characters without "__" leaves a
      slice with the same two properties and no underscore at either end. */
  lemma StripUnderscoresKeepsWords(s: string)
    requires forall k :: 0 <= k < |s| ==> WordChar(s[k])
    requires NoDoubleUnderscore(s)
    ensures var r := StripChar(s, '_');
            (forall k :: 0 <= k < |r| ==> WordChar(r[k])) && NoDoubleUnderscore(r) &&
            (r == [] || (r[0] != '_' && r[|r| - 1] != '_'))
  {
    var i := KeptFrom(s, Some('_'), 0);
    var j := KeptUntil(s, Some('_'), i, |s|);
    var r := StripChar(s, '_');
    assert r == s[i..j];
    forall k | 0 <= k < |r|
      ensures WordChar(r[k])
    {
      assert r[k] == s[i + k];
    }
    forall k | 0 < k < |r|
      ensures !(r[k - 1] == '_' && r[k] == '_')
    {
      assert r[k - 1] == s[i + k - 1] && r[k] == s[i + k];
    }
  }

  /** Every result of `sanitize_filename` is a safe name: only `[a-z0-9_-]`,
      no "__", and no underscore at either end. */
  lemma SanitizedIsSafe(name: string)
    ensures SafeName(Sanitize(name))
  {
    var masked := MaskNonWord(FoldTurkish(name));
    var collapsed := CollapseUnderscores(masked);
    CollapsedWordChars(masked);
    StripUnderscoresKeepsWords(collapsed);
    LowerKeepsSafe(StripChar(collapsed, '_'));
  }

  /** Collapsing a masked name leaves only word characters. */
  lemma CollapsedWordChars(masked: string)
    requires forall k :: 0 <= k < |masked| ==> WordChar(masked[k])
    ensures forall k :: 0 <= k < |CollapseUnderscores(masked)| ==> WordChar(CollapseUnderscores(masked)[k])
  {
    var collapsed := CollapseUnderscores(masked);
    forall k | 0 <= k < |collapsed|
      ensures WordChar(collapsed[k])
    {
      var j :| 0 <= j < |masked| && masked[j] == collapsed[k];
    }
  }

  /** Lowercasing word characters without "__" or an underscore at either
      end gives a safe name. */
  lemma LowerKeepsSafe(r: string)
    requires forall k :: 0 <= k < |r| ==> WordChar(r[k])
    requires NoDoubleUnderscore(r) && (r == [] || (r[0] != '_' && r[|r| - 1] != '_'))
    ensures SafeName(Lower(r))
  {
    LowerWordChars(r);
  }

  /** A safe character is a word character and not a Turkish letter. */
  lemma SafeCharIsKept(c: char)
    requires SafeChar(c)
    ensures AsciiBase(c) == c && WordChar(c)
  {
  }

  /** A safe name has no Turkish letter and no character to mask. */
  lemma SafeNameIsWordly(s: string)
    requires forall k :: 0 <= k < |s| ==> SafeChar(s[k])
    ensures FoldTurkish(s) == s
    ensures MaskNonWord(s) == s
  {
    var folded, masked := FoldTurkish(s), MaskNonWord(s);
    forall k | 0 <= k < |s|
      ensures folded[k] == s[k] && masked[k] == s[k]
    {
      SafeCharIsKept(s[k]);
    }
  }

  /** A safe name has no capital letter to lower. */
  lemma SafeNameIsLower(s: string)
    requires forall k :: 0 <= k < |s| ==> SafeChar(s[k])
    ensures Lower(s) == s
  {
    assert forall k :: 0 <= k < |s| ==> s[k] < '\U{80}' && !IsAsciiUpper(s[k]);
    LowerAscii(s);
    var lower := Lower(s);
    forall k | 0 <= k < |s|
      ensures lower[k] == s[k]
    {
    }
  }

  /** A safe name passes through `sanitize_filename` unchanged. */
  lemma SafeNameIsFixed(s: string)
    requires SafeName(s)
    ensures Sanitize(s) == s
  {
    SafeNameIsWordly(s);
    CollapseKeepsSingles(s);
    StripUntrimmed(s, Some('_'));
    SafeNameIsLower(s);
  }

  /** Without "__" there is nothing to collapse. */
  lemma {:induction false} CollapseKeepsSingles(s: string)
    requires NoDoubleUnderscore(s)
    ensures CollapseUnderscores(s) == s
    decreases |s|
  {
    if |s| >= 2 {
      assert NoDoubleUnderscore(s[1..]) by {
        forall k | 0 < k < |s[1..]|
          ensures !(s[1..][k - 1] == '_' && s[1..][k] == '_')
        {
          assert s[1..][k - 1] == s[k] && s[1..][k] == s[k + 1];
        }
      }
      CollapseKeepsSingles(s[1..]);
      assert [s[0]] + s[1..] == s;
    }
  }

  /** `sanitize_filename` is idempotent. */
  lemma SanitizeIdempotent(name: string)
    ensures Sanitize(Sanitize(name)) == Sanitize(name)
  {
    SanitizedIsSafe(name);
    SafeNameIsFixed(Sanitize(name));
  }

  // ---------------------------------------------------------------------
  // Choosing the file extension

  newtype byte = x: int | 0 <= x < 256

  /** The five extensions a saved logo can get. */
  datatype Extension = Png | Jpg | Svg | Webp | Ico

  function ExtensionName(e: Extension): string
  {
    match e
    case Png => "png"
    case Jpg => "jpg"
    case Svg => "svg"
    case Webp => "webp"
    case Ico => "ico"
  }

  /** The PNG signature `\x89PNG`, the JPEG start `\xff\xd8\xff` and `<svg`. */
  const PngMagic: seq<byte> := [0x89, 0x50, 0x4E, 0x47]
  const JpegMagic: seq<byte> := [0xFF, 0xD8, 0xFF]
  const SvgTag: seq<byte> := [0x3C, 0x73, 0x76, 0x67]

  /** `body.startswith(prefix)` on bytes. */
  predicate BytesStartWith(body: seq<byte>, prefix: seq<byte>)
  {
    |prefix| <= |body| && body[..|prefix|] == prefix
  }

  /** `pat` occurs in `body` at index `i`. */
  predicate BytesAt(body: seq<byte>, pat: seq<byte>, i: int)
  {
    0 <= i <= |body| - |pat| && body[i..i + |pat|] == pat
  }

  /** `pat in body` on bytes. */
  predicate BytesContain(body: seq<byte>, pat: seq<byte>)
  {
    exists i :: 0 <= i <= |body| - |pat| && BytesAt(body, pat, i)
  }

  /** `body[:100]` */
  function Head(body: seq<byte>): (h: seq<byte>)
    ensures h == body[..if |body| < 100 then |body| else 100]
  {
    if |body| < 100 then body else body[..100]
  }

  /** A body cannot start with both the PNG signature and the JPEG start:
      their first bytes are 0x89 and 0xFF. */
  lemma MagicsExclusive(body: seq<byte>)
    ensures !(BytesStartWith(body, PngMagic) && BytesStartWith(body, JpegMagic))
  {
    if BytesStartWith(body, PngMagic) {
      assert body[..3][0] == body[..4][0] == 0x89;
    }
  }

  /** The extension guessed from the body alone when the Content-Type header
      names no image type: PNG signature, JPEG start, an `<svg` tag among the
      first 100 bytes, and PNG by default. */
  function SniffExtension(body: seq<byte>): (e: Extension)
    ensures e == Jpg <==> BytesStartWith(body, JpegMagic)
    ensures e == Svg <==> !BytesStartWith(body, PngMagic) && !BytesStartWith(body, JpegMagic) &&
                          BytesContain(Head(body), SvgTag)
    ensures e == Png <==> BytesStartWith(body, PngMagic) ||
                          (!BytesStartWith(body, JpegMagic) && !BytesContain(Head(body), SvgTag))
    ensures e != Webp && e != Ico
  {
    MagicsExclusive(body);
    if BytesStartWith(body, PngMagic) then Png
    else if BytesStartWith(body, JpegMagic) then Jpg
    else if BytesContain(Head(body), SvgTag) then Svg
    else Png
  }

  /** The extension `fetch_logo` gives a logo, from the lowercased
      Content-Type header first and from the body only when the header
      names none of png, jpeg/jpg, svg, webp, ico/icon. The cases below are
      tried in this order and between them decide every header. */
  function ChooseExtension(contentType: string, body: seq<byte>): (e: Extension)
    ensures Contains(contentType, "png") ==> e == Png
    ensures (!Contains(contentType, "png") &&
             (Contains(contentType, "jpeg") || Contains(contentType, "jpg"))) ==> e == Jpg
    ensures (!Contains(contentType, "png") && !Contains(contentType, "jpeg") && !Contains(contentType, "jpg") &&
             Contains(contentType, "svg")) ==> e == Svg
    ensures (!Contains(contentType, "png") && !Contains(contentType, "jpeg") && !Contains(contentType, "jpg") &&
             !Contains(contentType, "svg") && Contains(contentType, "webp")) ==> e == Webp
    ensures (!Contains(contentType, "png") && !Contains(contentType, "jpeg") && !Contains(contentType, "jpg") &&
             !Contains(contentType, "svg") && !Contains(contentType, "webp") && Contains(contentType, "ico")) ==> e == Ico
    ensures NamesNoImageType(contentType) ==> e == SniffExtension(body)
  {
    IconMentionsIco(contentType);
    if Contains(contentType, "png") then Png
    else if Contains(contentType, "jpeg") || Contains(contentType, "jpg") then Jpg
    else if Contains(contentType, "svg") then Svg
    else if Contains(contentType, "webp") then Webp
    else if Contains(contentType, "ico") || Contains(contentType, "icon") then Ico
    else SniffExtension(body)
  }

  /** The header names none of the image types the classifier looks for. */
  predicate NamesNoImageType(contentType: string)
  {
    !Contains(contentType, "png") && !Contains(contentType, "jpeg") && !Contains(contentType, "jpg") &&
    !Contains(contentType, "svg") && !Contains(contentType, "webp") && !Contains(contentType, "ico")
  }

  /** The test for "icon" never decides anything: "icon" contains "ico". */
  lemma IconMentionsIco(contentType: string)
    ensures Contains(contentType, "icon") ==> Contains(contentType, "ico")
  {
    if Contains(contentType, "icon") {
      ContainsPrefix(contentType, "icon", "ico");
    }
  }

  /** An .ico file is chosen only when the header says "ico"; a .webp file
      only when it says "webp"; a .jpg file only for a jpeg/jpg header or a
      body with the JPEG start; an .svg file only for an svg header or an
      `<svg` tag near the start of the body. */
  lemma ExtensionSources(contentType: string, body: seq<byte>)
    ensures ChooseExtension(contentType, body) == Ico ==> Contains(contentType, "ico")
    ensures ChooseExtension(contentType, body) == Webp ==> Contains(contentType, "webp")
    ensures ChooseExtension(contentType, body) == Jpg ==>
              Contains(contentType, "jpeg") || Contains(contentType, "jpg") || BytesStartWith(body, JpegMagic)
    ensures ChooseExtension(contentType, body) == Svg ==>
              Contains(contentType, "svg") || BytesContain(Head(body), SvgTag)
  {
    IconMentionsIco(contentType);
  }

  /** The header wins over the body: a PNG signature under an SVG header
      still gives ".svg" when the header does not also say png or jpeg. */
  lemma HeaderOverridesBody(contentType: string, body: seq<byte>)
    requires Contains(contentType, "svg") && BytesStartWith(body, PngMagic)
    requires !Contains(contentType, "png") && !Contains(contentType, "jpeg") && !Contains(contentType, "jpg")
    ensures ChooseExtension(contentType, body) == Svg
    ensures SniffExtension(body) == Png
  {
  }

  /** A body with the JPEG start is a .jpg when the header names nothing. */
  lemma JpegBodyGivesJpg(contentType: string, body: seq<byte>)
    requires NamesNoImageType(contentType)
    requires |body| >= 3 && body[0] == 0xFF && body[1] == 0xD8 && body[2] == 0xFF
    ensures ChooseExtension(contentType, body) == Jpg
  {
    assert body[..3] == JpegMagic;
  }

  /** An SVG document that opens with its `<svg` tag is an .svg when the
      header names nothing. */
  lemma SvgStartGivesSvg(contentType: string, body: seq<byte>)
    requires NamesNoImageType(contentType)
    requires |body| >= 4 && body[..4] == SvgTag
    ensures ChooseExtension(contentType, body) == Svg
  {
    assert body[0] == body[..4][0] == 0x3C;
    assert !BytesStartWith(body, PngMagic) by { assert body[..4][0] != PngMagic[0]; }
    assert !BytesStartWith(body, JpegMagic) by { assert body[..3][0] == body[0]; }
    assert Head(body)[..4] == SvgTag;
    assert BytesAt(Head(body), SvgTag, 0);
  }

  /** The common image types get their own extensions. */
  lemma PngType(contentType: string, body: seq<byte>)
    requires contentType == "image/png"
    ensures ChooseExtension(contentType, body) == Png
  {
    assert OccursAt(contentType, "png", 6);
    ContainsIffOccurs(contentType, "png");
  }

  lemma JpegType(contentType: string, body: seq<byte>)
    requires contentType == "image/jpeg"
    ensures ChooseExtension(contentType, body) == Jpg
  {
    MissingCharNotContained(contentType, "png", 'n');
    assert OccursAt(contentType, "jpeg", 6);
    ContainsIffOccurs(contentType, "jpeg");
  }

  lemma SvgType(contentType: string, body: seq<byte>)
    requires contentType == "image/svg+xml"
    ensures ChooseExtension(contentType, body) == Svg
  {
    SvgHeaderWords(contentType);
  }

  /** "image/svg+xml" says svg and neither png nor jpeg/jpg. */
  lemma SvgHeaderWords(contentType: string)
    requires contentType == "image/svg+xml"
    ensures !Contains(contentType, "png") && !Contains(contentType, "jpeg") && !Contains(contentType, "jpg")
    ensures Contains(contentType, "svg")
  {
    assert !Contains(contentType, "png") by { MissingCharNotContained(contentType, "png", 'p'); }
    assert !Contains(contentType, "jpeg") by { MissingCharNotContained(contentType, "jpeg", 'j'); }
    assert !Contains(contentType, "jpg") by { MissingCharNotContained(contentType, "jpg", 'j'); }
    assert OccursAt(contentType, "svg", 6);
    ContainsIffOccurs(contentType, "svg");
  }

  lemma WebpType(contentType: string, body: seq<byte>)
    requires contentType == "image/webp"
    ensures ChooseExtension(contentType, body) == Webp
  {
    WebpHeaderWords(contentType);
  }

  /** "image/webp" says webp and none of png, jpeg/jpg, svg. */
  lemma WebpHeaderWords(contentType: string)
    requires contentType == "image/webp"
    ensures !Contains(contentType, "png") && !Contains(contentType, "jpeg") && !Contains(contentType, "jpg")
    ensures !Contains(contentType, "svg") && Contains(contentType, "webp")
  {
    assert !Contains(contentType, "png") by { MissingCharNotContained(contentType, "png", 'n'); }
    assert !Contains(contentType, "jpeg") by { MissingCharNotContained(contentType, "jpeg", 'j'); }
    assert !Contains(contentType, "jpg") by { MissingCharNotContained(contentType, "jpg", 'j'); }
    assert !Contains(contentType, "svg") by { MissingCharNotContained(contentType, "svg", 'v'); }
    assert OccursAt(contentType, "webp", 6);
    ContainsIffOccurs(contentType, "webp");
  }

  lemma IconType(contentType: string, body: seq<byte>)
    requires contentType == "image/x-icon"
    ensures ChooseExtension(contentType, body) == Ico
  {
    IconHeaderWords(contentType);
  }

  /** "image/x-icon" says ico and none of png, jpeg/jpg, svg, webp. */
  lemma IconHeaderWords(contentType: string)
    requires contentType == "image/x-icon"
    ensures !Contains(contentType, "png") && !Contains(contentType, "jpeg") && !Contains(contentType, "jpg")
    ensures !Contains(contentType, "svg") && !Contains(contentType, "webp") && Contains(contentType, "ico")
  {
    assert !Contains(contentType, "png") by { MissingCharNotContained(contentType, "png", 'p'); }
    assert !Contains(contentType, "jpeg") by { MissingCharNotContained(contentType, "jpeg", 'j'); }
    assert !Contains(contentType, "jpg") by { MissingCharNotContained(contentType, "jpg", 'j'); }
    assert !Contains(contentType, "svg") by { MissingCharNotContained(contentType, "svg", 'v'); }
    assert !Contains(contentType, "webp") by { MissingCharNotContained(contentType, "webp", 'w'); }
    assert OccursAt(contentType, "ico", 8);
    ContainsIffOccurs(contentType, "ico");
  }

  /** A server that says "text/html" gets its logo named by the body. */
  lemma HtmlHeaderSniffsBody(contentType: string, body: seq<byte>)
    requires contentType == "text/html"
    ensures ChooseExtension(contentType, body) == SniffExtension(body)
  {
    HtmlNamesNoImageType(contentType);
  }

  /** "text/html" names no image type. */
  lemma HtmlNamesNoImageType(contentType: string)
    requires contentType == "text/html"
    ensures NamesNoImageType(contentType)
  {
    assert !Contains(contentType, "png") by { MissingCharNotContained(contentType, "png", 'p'); }
    assert !Contains(contentType, "jpeg") by { MissingCharNotContained(contentType, "jpeg", 'j'); }
    assert !Contains(contentType, "jpg") by { MissingCharNotContained(contentType, "jpg", 'j'); }
    assert !Contains(contentType, "svg") by { MissingCharNotContained(contentType, "svg", 's'); }
    assert !Contains(contentType, "webp") by { MissingCharNotContained(contentType, "webp", 'w'); }
    assert !Contains(contentType, "ico") by { MissingCharNotContained(contentType, "ico", 'i'); }
  }

  // ---------------------------------------------------------------------
  // The requests of fetch_logo

  /** A logo service: the URL around the domain and the timeout in seconds. */
  datatype LogoSource = LogoSource(name: string, prefix: string, suffix: string, timeout: nat)

  /** `LOGO_SOURCES`, in the order they are tried. */
  const LogoSources: seq<LogoSource> := [
    LogoSource("Clearbit", "https://logo.clearbit.com/", "", 10),
    LogoSource("Google Favicon", "https://www.google.com/s2/favicons?domain=", "&sz=256", 10),
    LogoSource("Direct Favicon", "https://", "/favicon.ico", 5)]

  /** `url_template.format(domain=domain)` */
  function SourceUrl(source: LogoSource, domain: string): string
  {
    source.prefix + domain + source.suffix
  }

  /** One GET request: URL and timeout. */
  datatype Request = Request(url: string, timeout: nat)

  /** What a GET gives: an exception (timeout, connection or other error) or
      a response with its status, Content-Type header and body. */
  datatype Reply = Raised | Response(status: int, contentType: Option<string>, body: seq<byte>)

  /** The HTTP client, as the replies it would give. */
  type Http = Request -> Reply

  /** A reply worth saving: status 200 and more than 100 bytes. */
  predicate Accepted(reply: Reply)
  {
    reply.Response? && reply.status == 200 && |reply.body| > 100
  }

  /** `s.endswith(suffix)` */
  predicate EndsWith(s: string, suffix: string)
  {
    |suffix| <= |s| && s[|s| - |suffix|..] == suffix
  }

  /** The domains `fetch_logo` tries: the cleaned domain, then, for a
      ".com.tr" domain, the same with every ".com.tr" made ".com". */
  function DomainsToTry(domain: string): (ds: seq<string>)
    ensures 1 <= |ds| <= 2 && ds[0] == domain
    ensures |ds| == 2 <==> EndsWith(domain, ".com.tr")
    ensures |ds| == 2 ==> ds[1] == ReplaceAll(domain, ".com.tr", ".com")
  {
    [domain] + if EndsWith(domain, ".com.tr") then [ReplaceAll(domain, ".com.tr", ".com")] else []
  }

  /** Replacing ".com.tr" in a dotless name followed by ".com.tr". */
  lemma {:induction false} ReplaceTurkishSuffix(name: string)
    requires '.' !in name
    ensures ReplaceAll(name + ".com.tr", ".com.tr", ".com") == name + ".com"
    decreases |name|
  {
    var d := name + ".com.tr";
    if name == [] {
      assert d[..7] == ".com.tr" && d[7..] == [];
    } else {
      assert d[..7] != ".com.tr" by { assert d[..7][0] == name[0] != '.'; }
      assert d[1..] == name[1..] + ".com.tr";
      ReplaceTurkishSuffix(name[1..]);
      assert [name[0]] + name[1..] + ".com" == name + ".com";
    }
  }

  /** "isbank.com.tr" is also tried as "isbank.com". */
  lemma TurkishDomainFallsBackToCom(name: string)
    requires '.' !in name
    ensures DomainsToTry(name + ".com.tr") == [name + ".com.tr", name + ".com"]
  {
    var d := name + ".com.tr";
    assert d[|d| - 7..] == ".com.tr";
    ReplaceTurkishSuffix(name);
  }

  /** The three requests for one domain, in the order of `LOGO_SOURCES`. */
  function RequestsFor(domain: string): (rs: seq<Request>)
    ensures |rs| == |LogoSources|
    ensures forall s :: 0 <= s < |LogoSources| ==>
              rs[s] == Request(SourceUrl(LogoSources[s], domain), LogoSources[s].timeout)
  {
    [Request(SourceUrl(LogoSources[0], domain), LogoSources[0].timeout),
     Request(SourceUrl(LogoSources[1], domain), LogoSources[1].timeout),
     Request(SourceUrl(LogoSources[2], domain), LogoSources[2].timeout)]
  }

  /** Every request `fetch_logo` may make, in order: domain by domain, and
      for each domain the services in order. */
  function Attempts(domains: seq<string>): (rs: seq<Request>)
    ensures |rs| == 3 * |domains|
  {
    if domains == [] then []
    else Attempts(domains[..|domains| - 1]) + RequestsFor(domains[|domains| - 1])
  }

  /** Request `3 * d + s` asks service `s` about domain `d`. */
  lemma {:induction false} AttemptAt(domains: seq<string>, d: nat, s: nat)
    requires d < |domains| && s < 3
    ensures Attempts(domains)[3 * d + s] == RequestsFor(domains[d])[s]
    ensures Attempts(domains)[3 * d + s] == Request(SourceUrl(LogoSources[s], domains[d]), LogoSources[s].timeout)
    decreases |domains|
  {
    var earlier := domains[..|domains| - 1];
    if d < |domains| - 1 {
      AttemptAt(earlier, d, s);
      assert earlier[d] == domains[d];
    }
  }

  /** The position of the first accepted reply at or after `from`. */
  function FirstAccepted(rs: seq<Request>, http: Http, from: nat): (r: Option<nat>)
    requires from <= |rs|
    ensures r.Some? ==> from <= r.value < |rs| && Accepted(http(rs[r.value]))
    ensures r.Some? ==> forall j :: from <= j < r.value ==> !Accepted(http(rs[j]))
    ensures r.None? ==> forall j :: from <= j < |rs| ==> !Accepted(http(rs[j]))
    decreases |rs| - from
  {
    if from == |rs| then None
    else if Accepted(http(rs[from])) then Some(from)
    else FirstAccepted(rs, http, from + 1)
  }

  /** `response.headers.get('Content-Type', '')` */
  function HeaderText(header: Option<string>): string
  {
    match header
    case None => ""
    case Some(h) => h
  }

  /** `output_dir / f"{safe_name}.{ext}"` for an accepted reply. */
  function LogoPath(outputDir: string, safeName: string, reply: Reply): (p: string)
    requires reply.Response?
    ensures StartsWith(p, outputDir + "/" + safeName + ".")
  {
    var ext := ChooseExtension(Lower(HeaderText(reply.contentType)), reply.body);
    outputDir + "/" + safeName + "." + ExtensionName(ext)
  }

  /** The path the first accepted request of `rs` is saved under, if any. */
  function SaveFirstAccepted(rs: seq<Request>, safeName: string, outputDir: string, http: Http): (p: Option<string>)
    ensures p.Some? <==> FirstAccepted(rs, http, 0).Some?
    ensures p.Some? ==> StartsWith(p.value, outputDir + "/" + safeName + ".")
  {
    match FirstAccepted(rs, http, 0)
    case None => None
    case Some(i) => Some(LogoPath(outputDir, safeName, http(rs[i])))
  }

  /** Where `fetch_logo` saves the logo: nowhere when the domain cleans to
      None or no request is accepted; otherwise at the path named after the
      first accepted reply. */
  function SavedLogo(domain: Option<string>, bankName: string, outputDir: string, http: Http): (p: Option<string>)
    ensures CleanDomain(domain).None? ==> p.None?
    ensures p.Some? ==> StartsWith(p.value, outputDir + "/" + Sanitize(bankName) + ".")
  {
    match CleanDomain(domain)
    case None => None
    case Some(d) => SaveFirstAccepted(Attempts(DomainsToTry(d)), Sanitize(bankName), outputDir, http)
  }

  /** The inner loop of `fetch_logo`: the services in turn for one domain,
      stopping at the first accepted reply. */
  method TryServices(domain: string, safeName: string, outputDir: string, http: Http)
    returns (saved: Option<string>)
    ensures saved == SaveFirstAccepted(RequestsFor(domain), safeName, outputDir, http)
  {
    ghost var rs := RequestsFor(domain);
    for s := 0 to |LogoSources|
      invariant AllRejected(rs, http, s)
    {
      var source := LogoSources[s];
      var reply := http(Request(SourceUrl(source, domain), source.timeout));
      assert reply == http(rs[s]);
      if reply.Response? && reply.status == 200 && |reply.body| > 100 {
        var contentType := Lower(HeaderText(reply.contentType));
        var ext := ChooseExtension(contentType, reply.body);
        saved := Some(outputDir + "/" + safeName + "." + ExtensionName(ext));
        assert saved == Some(LogoPath(outputDir, safeName, http(rs[s])));
        FirstAcceptedAt(rs, safeName, outputDir, http, s);
        return;
      }
      OneMoreRejected(rs, http, s);
    }
    NoneAccepted(rs, safeName, outputDir, http);
    return None;
  }

  /** The outer loop of `fetch_logo`: each domain in turn, stopping at the
      first domain for which some service gives an accepted reply. */
  method TryDomains(domains: seq<string>, safeName: string, outputDir: string, http: Http)
    returns (saved: Option<string>)
    ensures saved == SaveFirstAccepted(Attempts(domains), safeName, outputDir, http)
  {
    for d := 0 to |domains|
      invariant FirstAccepted(Attempts(domains[..d]), http, 0).None?
    {
      saved := TryServices(domains[d], safeName, outputDir, http);
      if saved.Some? {
        NextDomainAccepted(domains, d, safeName, outputDir, http);
        return;
      }
      NextDomainRejected(domains, d, safeName, outputDir, http);
    }
    assert domains[..|domains|] == domains;
    return None;
  }

  /** The requests of a run of domains are those of its parts, in order. */
  lemma {:induction false} AttemptsAppend(a: seq<string>, b: seq<string>)
    ensures Attempts(a + b) == Attempts(a) + Attempts(b)
    decreases |b|
  {
    if b == [] {
      assert a + b == a;
    } else {
      var ab := a + b;
      var init := b[..|b| - 1];
      assert ab[..|ab| - 1] == a + init && ab[|ab| - 1] == b[|b| - 1];
      AttemptsAppend(a, init);
      var last := RequestsFor(b[|b| - 1]);
      calc {
        Attempts(ab);
        Attempts(a + init) + last;
        (Attempts(a) + Attempts(init)) + last;
        { SeqAssoc(Attempts(a), Attempts(init), last); }
        Attempts(a) + (Attempts(init) + last);
        Attempts(a) + Attempts(b);
      }
    }
  }

  /** Once the domains before `d` are all rejected, a service of domain `d`
      that accepts decides the outcome of the whole run. */
  lemma NextDomainAccepted(domains: seq<string>, d: nat, safeName: string, outputDir: string, http: Http)
    requires d < |domains| && FirstAccepted(Attempts(domains[..d]), http, 0).None?
    requires SaveFirstAccepted(RequestsFor(domains[d]), safeName, outputDir, http).Some?
    ensures SaveFirstAccepted(Attempts(domains), safeName, outputDir, http) ==
            SaveFirstAccepted(RequestsFor(domains[d]), safeName, outputDir, http)
  {
    var a, b, c := Attempts(domains[..d]), RequestsFor(domains[d]), Attempts(domains[d + 1..]);
    AttemptsAround(domains, d);
    FirstAfterRejected(a, b, c, safeName, outputDir, http);
  }

  /** Once the domains before `d` are all rejected, and so are the services
      of domain `d`, the domains up to and including `d` are all rejected. */
  lemma NextDomainRejected(domains: seq<string>, d: nat, safeName: string, outputDir: string, http: Http)
    requires d < |domains| && FirstAccepted(Attempts(domains[..d]), http, 0).None?
    requires SaveFirstAccepted(RequestsFor(domains[d]), safeName, outputDir, http).None?
    ensures FirstAccepted(Attempts(domains[..d + 1]), http, 0).None?
  {
    var a, b, c := Attempts(domains[..d]), RequestsFor(domains[d]), Attempts(domains[d + 1..]);
    AttemptsAround(domains, d);
    FirstAfterRejected(a, b, c, safeName, outputDir, http);
  }

  /** Cutting a sequence after its element at `d`. */
  lemma SplitAfter<T>(s: seq<T>, d: nat)
    requires d < |s|
    ensures s[..d + 1][..d] == s[..d]
    ensures s == s[..d + 1] + s[d + 1..]
  {
  }

  /** The requests before, for and after domain `d`. */

  lemma AttemptsAround(domains: seq<string>, d: nat)
    requires d < |domains|
    ensures Attempts(domains[..d + 1]) == Attempts(domains[..d]) + RequestsFor(domains[d])
    ensures Attempts(domains) == Attempts(domains[..d]) + RequestsFor(domains[d]) + Attempts(domains[d + 1..])
  {
    var upTo := domains[..d + 1];
    SplitAfter(domains, d);
    AttemptsAppend(upTo, domains[d + 1..]);
  }

  /** Requests after a rejected run: the first accepted one of `b` is the
      first accepted one of `a + b + c`. */
  lemma FirstAfterRejected(a: seq<Request>, b: seq<Request>, c: seq<Request>,
                            safeName: string, outputDir: string, http: Http)
    requires FirstAccepted(a, http, 0).None?
    ensures FirstAccepted(b, http, 0).Some? ==>
              FirstAccepted(a + b + c, http, 0) == Some(|a| + FirstAccepted(b, http, 0).value) &&
              SaveFirstAccepted(a + b + c, safeName, outputDir, http) ==
              SaveFirstAccepted(b, safeName, outputDir, http)
    ensures FirstAccepted(b, http, 0).None? ==> FirstAccepted(a + b, http, 0).None?
  {
    var ab := a + b;
    var all := ab + c;
    if FirstAccepted(b, http, 0).Some? {
      var i := FirstAccepted(b, http, 0).value;
      assert all[|a| + i] == b[i];
      forall j | 0 <= j < |a| + i
        ensures !Accepted(http(all[j]))
      {
        if j < |a| {
          assert all[j] == a[j];
        } else {
          assert all[j] == b[j - |a|];
        }
      }
      FirstAcceptedIs(all, http, |a| + i);
    } else {
      forall j | 0 <= j < |ab|
        ensures !Accepted(http(ab[j]))
      {
        if j < |a| {
          assert ab[j] == a[j];
        } else {
          assert ab[j] == b[j - |a|];
        }
      }
      NoneAcceptedAt(ab, http);
    }
  }

  /** No request before position `n` is accepted. */
  ghost predicate AllRejected(rs: seq<Request>, http: Http, n: nat)
  {
    forall j :: 0 <= j < n && j < |rs| ==> !Accepted(http(rs[j]))
  }

  lemma OneMoreRejected(rs: seq<Request>, http: Http, n: nat)
    requires AllRejected(rs, http, n) && n < |rs| && !Accepted(http(rs[n]))
    ensures AllRejected(rs, http, n + 1)
  {
  }

  lemma NoneAcceptedAt(rs: seq<Request>, http: Http)
    requires AllRejected(rs, http, |rs|)
    ensures FirstAccepted(rs, http, 0).None?
  {
  }

  /** Nothing is saved when every request is rejected. */
  lemma NoneAccepted(rs: seq<Request>, safeName: string, outputDir: string, http: Http)
    requires AllRejected(rs, http, |rs|)
    ensures SaveFirstAccepted(rs, safeName, outputDir, http) == None
  {
    NoneAcceptedAt(rs, http);
  }

  /** The first accepted request is the one all earlier ones fail before. */
  lemma FirstAcceptedIs(rs: seq<Request>, http: Http, i: nat)
    requires i < |rs| && Accepted(http(rs[i]))
    requires AllRejected(rs, http, i)
    ensures FirstAccepted(rs, http, 0) == Some(i)
  {
    assert FirstAccepted(rs, http, 0).Some?;
  }

  /** ... and its reply names the file. */
  lemma FirstAcceptedAt(rs: seq<Request>, safeName: string, outputDir: string, http: Http, i: nat)
    requires i < |rs| && Accepted(http(rs[i]))
    requires AllRejected(rs, http, i)
    ensures SaveFirstAccepted(rs, safeName, outputDir, http) == Some(LogoPath(outputDir, safeName, http(rs[i])))
  {
    FirstAcceptedIs(rs, http, i);
  }

  /** `fetch_logo`: cleans the domain, names the file, lists the domains to
      try and saves the first accepted reply. */
  method FetchLogo(domain: Option<string>, bankName: string, outputDir: string, http: Http)
    returns (saved: Option<string>)
    ensures saved == SavedLogo(domain, bankName, outputDir, http)
  {
    var cleaned := CleanDomain(domain);
    if cleaned.None? {
      return None;
    }
    var safeName := SanitizeFilename(bankName);
    var domains := [cleaned.value];
    if EndsWith(cleaned.value, ".com.tr") {
      domains := domains + [ReplaceAll(cleaned.value, ".com.tr", ".com")];
    }
    assert domains == DomainsToTry(cleaned.value);
    saved := TryDomains(domains, safeName, outputDir, http);
  }

  /** A logo is saved exactly when some request is accepted, and then under
      the name the first accepted reply gives it. */
  lemma {:induction false} FirstAcceptedReplyWins(rs: seq<Request>, safeName: string, outputDir: string, http: Http, i: nat)
    requires i < |rs| && Accepted(http(rs[i]))
    ensures SaveFirstAccepted(rs, safeName, outputDir, http).Some?
    ensures (forall j :: 0 <= j < i ==> !Accepted(http(rs[j]))) ==>
              SaveFirstAccepted(rs, safeName, outputDir, http) == Some(LogoPath(outputDir, safeName, http(rs[i])))
  {
    var first := FirstAccepted(rs, http, 0);
    assert first.Some?;
  }

  /** No request is made for a domain that cleans to None. */
  lemma NoDomainNoLogo(domain: Option<string>, bankName: string, outputDir: string, http: Http)
    requires domain == None || domain == Some("") || domain == Some("http:")
    ensures SavedLogo(domain, bankName, outputDir, http) == None
  {
  }

  /** The services are asked in the order Clearbit, Google Favicon, Direct
      Favicon, all for the cleaned domain before any for the fallback. */
  lemma AttemptOrder(domain: string)
    ensures var rs := Attempts(DomainsToTry(domain));
            rs[0].url == "https://logo.clearbit.com/" + domain && rs[0].timeout == 10 &&
            rs[1].url == "https://www.google.com/s2/favicons?domain=" + domain + "&sz=256" && rs[1].timeout == 10 &&
            rs[2].url == "https://" + domain + "/favicon.ico" && rs[2].timeout == 5 &&
            (|rs| == 6 ==> rs[3].url == "https://logo.clearbit.com/" + ReplaceAll(domain, ".com.tr", ".com"))
  {
    var domains := DomainsToTry(domain);
    AttemptAt(domains, 0, 0);
    AttemptAt(domains, 0, 1);
    AttemptAt(domains, 0, 2);
    ServiceUrls(domain);
    if |Attempts(domains)| == 6 {
      AttemptAt(domains, 1, 0);
      ServiceUrls(ReplaceAll(domain, ".com.tr", ".com"));
    }
  }

  /** The three requests for one domain, written out. */
  lemma ServiceUrls(domain: string)
    ensures var rs := RequestsFor(domain);
            rs[0].url == "https://logo.clearbit.com/" + domain && rs[0].timeout == 10 &&
            rs[1].url == "https://www.google.com/s2/favicons?domain=" + domain + "&sz=256" && rs[1].timeout == 10 &&
            rs[2].url == "https://" + domain + "/favicon.ico" && rs[2].timeout == 5
  {
    var clearbit := "https://logo.clearbit.com/" + domain;
    assert clearbit + "" == clearbit;
  }

  // ---------------------------------------------------------------------
  // read_banks_from_excel

  /** The two cells of a spreadsheet row the reader uses: the bank's name
      (first column) and its web address (seventh column). */
  datatype SheetRow = SheetRow(name: Option<string>, web: Option<string>)

  /** A bank of the list: name and web address, stripped, and the domain. */
  datatype Bank = Bank(name: string, web: string, domain: string)

  /** `urlparse(url).netloc`, None when urlparse raises. */
  type NetLoc = string -> Option<string>

  /** A cell Python finds true: present and non-empty. */
  predicate Filled(cell: Option<string>)
  {
    cell.Some? && cell.value != ""
  }

  /** `urlparse(web).netloc or urlparse('http://' + web.strip()).netloc` */
  function DomainOf(web: string, netloc: NetLoc): (d: Option<string>)
    ensures netloc(web).None? ==> d.None?
    ensures netloc(web).Some? && netloc(web).value != "" ==> d == netloc(web)
    ensures d.Some? && d != netloc(web) ==> d == netloc("http://" + Strip(web))
  {
    match netloc(web)
    case None => None
    case Some(d) => if d != "" then Some(d) else netloc("http://" + Strip(web))
  }

  /** The bank a row yields, with every test of the reader as written. */
  function BankOf(row: SheetRow, netloc: NetLoc): (b: Option<Bank>)
    ensures b.Some? ==> Filled(row.name) && Filled(row.web) && Listable(b.value)
  {
    if !Filled(row.name) || !Filled(row.web) then None
    else
      var name, web := row.name.value, row.web.value;
      if StartsWith(Strip(name), " ") then None
      else if !Contains(Lower(name), "bank") && !Contains(Lower(name), "banka") then None
      else if !Filled(row.web) || Strip(web) == "http://" then None
      else
        match DomainOf(web, netloc)
        case None => None
        case Some(domain) =>
          if domain != "" && domain != "http:" then Some(Bank(Strip(name), Strip(web), domain)) else None
  }

  /** The row filter without its dead tests: a row yields a bank exactly when
      name and address are filled, the lowercased name contains "bank", the
      stripped address is not "http://", and a usable domain comes out. The
      `strip().startswith(' ')` test and the "banka" test never decide. */
  lemma RowFilter(row: SheetRow, netloc: NetLoc)
    ensures BankOf(row, netloc).Some? <==>
              Filled(row.name) && Filled(row.web) && Contains(Lower(row.name.value), "bank") &&
              Strip(row.web.value) != "http://" &&
              DomainOf(row.web.value, netloc).Some? &&
              DomainOf(row.web.value, netloc).value != "" && DomainOf(row.web.value, netloc).value != "http:"
    ensures BankOf(row, netloc).Some? ==>
              BankOf(row, netloc).value == Bank(Strip(row.name.value), Strip(row.web.value), DomainOf(row.web.value, netloc).value)
  {
    if Filled(row.name) && Filled(row.web) {
      var name := row.name.value;
      assert !StartsWith(Strip(name), " ") by {
        var t := Strip(name);
        if t != [] {
          assert !IsSpace(t[0]);
        }
      }
      var lower := Lower(name);
      if Contains(lower, "banka") {
        ContainsPrefix(lower, "banka", "bank");
      }
    }
  }

  /** The banks of the rows in order, as `read_banks_from_excel` lists them. */
  function BanksOf(rows: seq<SheetRow>, netloc: NetLoc): (banks: seq<Bank>)
    ensures forall b :: b in banks ==> exists j :: 0 <= j < |rows| && BankOf(rows[j], netloc) == Some(b)
  {
    if rows == [] then []
    else
      var init := rows[..|rows| - 1];
      var earlier := BanksOf(init, netloc);
      assert forall j :: 0 <= j < |init| ==> init[j] == rows[j];
      match BankOf(rows[|rows| - 1], netloc)
      case None => earlier
      case Some(b) => earlier + [b]
  }

  /** A bank on the list has a usable domain and a stripped address other
      than "http://". */
  predicate Listable(b: Bank)
  {
    b.domain != "" && b.domain != "http:" && b.web != "http://" &&
    (b.web == [] || (!IsSpace(b.web[0]) && !IsSpace(b.web[|b.web| - 1])))
  }

  /** Every bank the reader lists is listable, and there is at most one per row. */
  lemma {:induction false} BanksAreListable(rows: seq<SheetRow>, netloc: NetLoc)
    ensures |BanksOf(rows, netloc)| <= |rows|
    ensures forall i :: 0 <= i < |BanksOf(rows, netloc)| ==> Listable(BanksOf(rows, netloc)[i])
  {
    if rows != [] {
      BanksAreListable(rows[..|rows| - 1], netloc);
      RowFilter(rows[|rows| - 1], netloc);
    }
  }

  /** `read_banks_from_excel`: walks the rows and appends each bank. */
  method ReadBanks(rows: seq<SheetRow>, netloc: NetLoc) returns (banks: seq<Bank>)
    ensures banks == BanksOf(rows, netloc)
  {
    banks := [];
    for r := 0 to |rows|
      invariant banks == BanksOf(rows[..r], netloc)
    {
      assert rows[..r + 1][..r] == rows[..r];
      var row := rows[r];
      if !Filled(row.name) || !Filled(row.web) {
        continue;
      }
      var name, web := row.name.value, row.web.value;
      if StartsWith(Strip(name), " ") {
        continue;
      }
      var lower := Lower(name);
      if !Contains(lower, "bank") && !Contains(lower, "banka") {
        continue;
      }
      if !Filled(row.web) || Strip(web) == "http://" {
        continue;
      }
      var domain := DomainOf(web, netloc);
      if domain.Some? && domain.value != "" && domain.value != "http:" {
        banks := banks + [Bank(Strip(name), Strip(web), domain.value)];
      }
    }
    assert rows[..|rows|] == rows;
  }

  // ---------------------------------------------------------------------
  // fetch_all_logos

  /** What one `fetch_logo` call gives for a bank's domain and name: the
      path of the saved logo, or None. */
  type Fetcher = (string, string) -> Option<string>

  /** The full `fetch_logo` with its output directory and HTTP client fixed. */
  function FullFetcher(outputDir: string, http: Http): Fetcher
  {
    (domain, name) => SavedLogo(Some(domain), name, outputDir, http)
  }

  /** The names of the banks whose logo could not be saved, in list order. */
  function FailedNames(banks: seq<Bank>, fetch: Fetcher): seq<string>
  {
    if banks == [] then []
    else
      var b := banks[|banks| - 1];
      FailedNames(banks[..|banks| - 1], fetch) + if fetch(b.domain, b.name).None? then [b.name] else []
  }

  /** The number of banks whose logo was saved. */
  function SavedCount(banks: seq<Bank>, fetch: Fetcher): nat
  {
    if banks == [] then 0
    else
      var b := banks[|banks| - 1];
      SavedCount(banks[..|banks| - 1], fetch) + if fetch(b.domain, b.name).Some? then 1 else 0
  }

  /** Each bank is either saved or failed, never both. */
  lemma {:induction false} SavedOrFailed(banks: seq<Bank>, fetch: Fetcher)
    ensures SavedCount(banks, fetch) + |FailedNames(banks, fetch)| == |banks|
  {
    if banks != [] {
      SavedOrFailed(banks[..|banks| - 1], fetch);
    }
  }

  /** A failed name is the name of a listed bank whose logo was not saved. */
  lemma {:induction false} FailedAreListed(banks: seq<Bank>, fetch: Fetcher)
    ensures forall n :: n in FailedNames(banks, fetch) ==>
              exists i :: 0 <= i < |banks| && banks[i].name == n && fetch(banks[i].domain, banks[i].name) == None
  {
    if banks != [] {
      var earlier := banks[..|banks| - 1];
      FailedAreListed(earlier, fetch);
      forall n | n in FailedNames(banks, fetch)
        ensures exists i :: 0 <= i < |banks| && banks[i].name == n && fetch(banks[i].domain, banks[i].name) == None
      {
        if n in FailedNames(earlier, fetch) {
          var i :| 0 <= i < |earlier| && earlier[i].name == n && fetch(earlier[i].domain, earlier[i].name) == None;
          assert banks[i] == earlier[i];
        } else {
          assert banks[|banks| - 1].name == n;
        }
      }
    }
  }

  /** The loop of `fetch_all_logos`: one `fetch_logo` per bank, counting
      the saved ones and collecting the names of the failed ones. */
  method FetchEach(banks: seq<Bank>, outputDir: string, http: Http)
    returns (successCount: nat, failed: seq<string>)
    ensures successCount == SavedCount(banks, FullFetcher(outputDir, http))
    ensures failed == FailedNames(banks, FullFetcher(outputDir, http))
  {
    successCount, failed := 0, [];
    for i := 0 to |banks|
      invariant Tallied(banks[..i], successCount, failed, FullFetcher(outputDir, http))
    {
      var bank := banks[i];
      var logo := FetchLogo(Some(bank.domain), bank.name, outputDir, http);
      OneMoreBank(banks, i, successCount, failed, logo, FullFetcher(outputDir, http));
      if logo.Some? {
        successCount := successCount + 1;
      } else {
        failed := failed + [bank.name];
      }
    }
    assert banks[..|banks|] == banks;
  }

  /** `successCount` and `failed` are the tallies of `banks`. */
  ghost predicate Tallied(banks: seq<Bank>, successCount: nat, failed: seq<string>, fetch: Fetcher)
  {
    successCount == SavedCount(banks, fetch) && failed == FailedNames(banks, fetch)
  }

  /** Counting one more bank adds its own outcome. */
  lemma OneMoreBank(banks: seq<Bank>, i: nat, successCount: nat, failed: seq<string>,
                    logo: Option<string>, fetch: Fetcher)
    requires i < |banks| && Tallied(banks[..i], successCount, failed, fetch)
    requires logo == fetch(banks[i].domain, banks[i].name)
    ensures Tallied(banks[..i + 1], successCount + (if logo.Some? then 1 else 0),
                    failed + (if logo.None? then [banks[i].name] else []), fetch)
  {
    var upTo := banks[..i + 1];
    assert upTo[..i] == banks[..i] && upTo[i] == banks[i];
  }

  /** `fetch_all_logos`: reads the banks, fetches each one's logo, and
      returns the number saved, the number of banks and the failed names. */
  method FetchAllLogos(rows: seq<SheetRow>, netloc: NetLoc, outputDir: string, http: Http)
    returns (successCount: nat, total: nat, failed: seq<string>)
    ensures total == |BanksOf(rows, netloc)|
    ensures successCount == SavedCount(BanksOf(rows, netloc), FullFetcher(outputDir, http))
    ensures failed == FailedNames(BanksOf(rows, netloc), FullFetcher(outputDir, http))
    ensures successCount + |failed| == total
  {
    var banks := ReadBanks(rows, netloc);
    if banks == [] {
      return 0, 0, [];
    }
    successCount, failed := FetchEach(banks, outputDir, http);
    SavedOrFailed(banks, FullFetcher(outputDir, http));
    total := |banks|;
  }
}
