/**
 * Symbol normalisation: surrounding whitespace is stripped, letters are upper-cased and the
 * quote asset "USDT" is appended unless the symbol already ends with it.
 *
 * Whitespace and case follow the language's string methods on the ASCII range.
 */
module Symbols {
  const Quote: string := "USDT"

  /** Tab, line feed, vertical tab, form feed, carriage return, the separators 28-31 and space. */
  predicate IsSpace(c: char) {
    9 <= c as int <= 13 || 28 <= c as int <= 32
  }

  predicate AllSpace(s: string) {
    forall k :: 0 <= k < |s| ==> IsSpace(s[k])
  }

  /** Upper case of one character: ASCII lower-case letters map to upper case, all else is kept. */
  function UpperChar(c: char): (u: char)
    ensures 'a' <= c <= 'z' ==> 'A' <= u <= 'Z' && u as int == c as int - 32
    ensures !('a' <= c <= 'z') ==> u == c
  {
    if 'a' <= c <= 'z' then (c as int - 32) as char else c
  }

  /** Upper case of a string, character by character. */
  function Upper(s: string): (u: string)
    ensures |u| == |s|
  {
    seq(|s|, k requires 0 <= k < |s| => UpperChar(s[k]))
  }

  /** Drops leading whitespace: what is left does not start with whitespace. */
  function StripLeft(s: string): (r: string)
    ensures |r| <= |s|
    ensures r == [] || !IsSpace(r[0])
  {
    if s != [] && IsSpace(s[0]) then StripLeft(s[1..]) else s
  }

  /** Drops trailing whitespace: what is left does not end with whitespace. */
  function StripRight(s: string): (r: string)
    ensures |r| <= |s|
    ensures r == [] || !IsSpace(r[|r| - 1])
  {
    if s != [] && IsSpace(s[|s| - 1]) then StripRight(s[..|s| - 1]) else s
  }

  /** Drops whitespace at both ends. */
  function Strip(s: string): (r: string)
    ensures |r| <= |s|
    ensures r == [] || (!IsSpace(r[0]) && !IsSpace(r[|r| - 1]))
  {
    var l := StripLeft(s);
    StripRightSpec(l);
    StripRight(l)
  }

  predicate EndsWith(s: string, suffix: string) {
    |suffix| <= |s| && s[|s| - |suffix|..] == suffix
  }

  /** Strips and upper-cases a symbol and appends the quote asset unless it is already there. */
  function NormalizeSymbol(raw: string): (n: string)
    ensures EndsWith(n, Quote)
    ensures |Upper(Strip(raw))| <= |n| <= |Upper(Strip(raw))| + |Quote|
    ensures n[..|Upper(Strip(raw))|] == Upper(Strip(raw))
  {
    var s := Upper(Strip(raw));
    if EndsWith(s, Quote) then s
    else
      assert (s + Quote)[|s|..] == Quote;
      s + Quote
  }

  // ---------------------------------------------------------------------------------------
  // Properties

  /** Stripping keeps the part of `s` between an all-whitespace prefix and suffix, with no whitespace at its ends. */
  lemma StripSpec(s: string)
    ensures StripsTo(s, Strip(s))
  {
    var l := StripLeft(s);
    StripLeftSpec(s);
    StripRightSpec(l);
    StripSlices(s, l, StripRight(l), |s| - |l|);
  }

  /** The left strip is a suffix after an all-whitespace prefix and starts with no whitespace. */
  lemma {:induction false} StripLeftSpec(s: string)
    ensures var r := StripLeft(s);
      |r| <= |s| && r == s[|s| - |r|..] && AllSpace(s[..|s| - |r|]) && (r == [] || !IsSpace(r[0]))
  {
    if s != [] && IsSpace(s[0]) {
      StripLeftSpec(s[1..]);
      var r := StripLeft(s);
      assert s[|s| - |r|..] == s[1..][|s| - 1 - |r|..];
      assert s[..|s| - |r|] == [s[0]] + s[1..][..|s| - 1 - |r|];
    }
  }

  /** The right strip is a prefix before an all-whitespace suffix and ends with no whitespace. */
  lemma {:induction false} StripRightSpec(s: string)
    ensures var r := StripRight(s);
      |r| <= |s| && r == s[..|r|] && AllSpace(s[|r|..]) && (r == [] || !IsSpace(r[|r| - 1]))
  {
    if s != [] && IsSpace(s[|s| - 1]) {
      StripRightSpec(s[..|s| - 1]);
      var r := StripRight(s);
      assert s[..|s| - 1][..|r|] == s[..|r|];
      assert s[|r|..] == s[..|s| - 1][|r|..] + [s[|s| - 1]];
    }
  }

  /** `t` is `s` without whitespace at either end. */
  predicate StripsTo(s: string, t: string) {
    (t == [] || (!IsSpace(t[0]) && !IsSpace(t[|t| - 1]))) &&
    exists i :: 0 <= i <= |s| - |t| && t == s[i..i + |t|] && AllSpace(s[..i]) && AllSpace(s[i + |t|..])
  }

  /** The slicing argument of `StripSpec`, over a left strip `l` and its right strip `t`. */
  lemma StripSlices(s: string, l: string, t: string, i: nat)
    requires i <= |s| && l == s[i..] && AllSpace(s[..i]) && (l == [] || !IsSpace(l[0]))
    requires |t| <= |l| && t == l[..|t|] && AllSpace(l[|t|..]) && (t == [] || !IsSpace(t[|t| - 1]))
    ensures StripsTo(s, t)
  {
    assert s[i + |t|..] == l[|t|..];
    if t != [] {
      assert t[0] == l[0];
    }
    assert t == s[i..i + |t|];
  }

  /** A stripped, upper-cased symbol that already ends with the quote asset is returned unchanged. */
  lemma NormalizeNoDoubleSuffix(raw: string)
    requires EndsWith(Upper(Strip(raw)), Quote)
    ensures NormalizeSymbol(raw) == Upper(Strip(raw))
  {
  }

  /** Otherwise the quote asset is appended once: the result is four characters longer. */
  lemma NormalizeAppendsSuffix(raw: string)
    requires !EndsWith(Upper(Strip(raw)), Quote)
    ensures NormalizeSymbol(raw) == Upper(Strip(raw)) + Quote
    ensures |NormalizeSymbol(raw)| == |Upper(Strip(raw))| + 4
  {
  }

  /** Example: "vet" gives "VETUSDT". */
  lemma NormalizeExampleLower()
    ensures NormalizeSymbol("vet") == "VETUSDT"
  {
    assert Strip("vet") == "vet" by {
      StripUnpadded("vet");
    }
    assert Upper("vet") == "VET" by {
      assert UpperChar('v') == 'V' && UpperChar('e') == 'E' && UpperChar('t') == 'T';
    }
    assert !EndsWith("VET", Quote);
  }

  /** Example: " vet" followed by a line feed gives "VETUSDT". */
  lemma NormalizeExamplePadded()
    ensures NormalizeSymbol(" vet\n") == "VETUSDT"
  {
    assert " vet\n"[1..] == "vet\n";
    assert "vet\n"[..3] == "vet";
    assert StripLeft("vet\n") == "vet\n";
    assert StripLeft(" vet\n") == "vet\n";
    assert StripRight("vet\n") == "vet";
    NormalizeExampleLower();
  }

  /** Example: "VETUSDT" is kept as it is. */
  lemma NormalizeExampleSuffixed()
    ensures NormalizeSymbol("VETUSDT") == "VETUSDT"
  {
    var v := "VETUSDT";
    assert Strip(v) == v by {
      StripUnpadded(v);
    }
    assert Upper(v) == v by {
      UpperUnchanged(v);
    }
    assert EndsWith(v, Quote) by {
      assert v[|v| - |Quote|..] == Quote;
    }
  }

  /** A string without lower-case ASCII letters is its own upper case. */
  lemma UpperUnchanged(s: string)
    requires forall k :: 0 <= k < |s| ==> !('a' <= s[k] <= 'z')
    ensures Upper(s) == s
  {
  }

  /** The quote asset is already upper case. */
  lemma UpperQuote()
    ensures Upper(Quote) == Quote
  {
    assert Quote == ['U', 'S', 'D', 'T'];
    UpperUnchanged(Quote);
  }

  lemma UpperIdempotent(s: string)
    ensures Upper(Upper(s)) == Upper(s)
  {
  }

  lemma UpperAppend(a: string, b: string)
    ensures Upper(a + b) == Upper(a) + Upper(b)
  {
  }

  /** Upper-casing never turns whitespace into non-whitespace or back. */
  lemma UpperCharSpace(c: char)
    ensures IsSpace(UpperChar(c)) == IsSpace(c)
  {
  }

  lemma UpperDropFirst(s: string)
    requires s != []
    ensures Upper(s)[0] == UpperChar(s[0]) && Upper(s)[1..] == Upper(s[1..])
  {
  }

  lemma UpperDropLast(s: string)
    requires s != []
    ensures Upper(s)[|s| - 1] == UpperChar(s[|s| - 1]) && Upper(s)[..|s| - 1] == Upper(s[..|s| - 1])
  {
  }

  lemma {:induction false} StripLeftUpper(s: string)
    ensures StripLeft(Upper(s)) == Upper(StripLeft(s))
  {
    if s != [] {
      UpperDropFirst(s);
      UpperCharSpace(s[0]);
      if IsSpace(s[0]) {
        StripLeftUpper(s[1..]);
      }
    }
  }

  lemma {:induction false} StripRightUpper(s: string)
    ensures StripRight(Upper(s)) == Upper(StripRight(s))
  {
    if s != [] {
      UpperDropLast(s);
      UpperCharSpace(s[|s| - 1]);
      if IsSpace(s[|s| - 1]) {
        StripRightUpper(s[..|s| - 1]);
      }
    }
  }

  /** Stripping and upper-casing commute. */
  lemma StripUpper(s: string)
    ensures Strip(Upper(s)) == Upper(Strip(s))
  {
    StripLeftUpper(s);
    StripRightUpper(StripLeft(s));
  }

  /** A string with no whitespace at either end is its own strip. */
  lemma StripUnpadded(s: string)
    requires s != [] && !IsSpace(s[0]) && !IsSpace(s[|s| - 1])
    ensures Strip(s) == s
  {
  }

  /** A normalised symbol is upper case, has no whitespace at either end and ends with the quote asset. */
  lemma NormalizedShape(raw: string)
    ensures var n := NormalizeSymbol(raw);
      n != [] && !IsSpace(n[0]) && !IsSpace(n[|n| - 1]) && Upper(n) == n && EndsWith(n, Quote)
  {
    NormalizedFirst(raw);
    NormalizedLast(raw);
    NormalizedUpper(raw);
  }

  lemma NormalizedFirst(raw: string)
    ensures |NormalizeSymbol(raw)| >= 4 && !IsSpace(NormalizeSymbol(raw)[0])
  {
    var t := Strip(raw);
    var n := NormalizeSymbol(raw);
    if t != [] {
      UpperCharSpace(t[0]);
      assert n[0] == Upper(t)[0] == UpperChar(t[0]);
    } else {
      assert n == Quote;
    }
  }

  lemma NormalizedLast(raw: string)
    ensures |NormalizeSymbol(raw)| >= 4 && !IsSpace(NormalizeSymbol(raw)[|NormalizeSymbol(raw)| - 1])
  {
    var t := Strip(raw);
    var n := NormalizeSymbol(raw);
    if EndsWith(Upper(t), Quote) {
      UpperCharSpace(t[|t| - 1]);
      assert n[|n| - 1] == Upper(t)[|t| - 1] == UpperChar(t[|t| - 1]);
    } else {
      assert n[|n| - 1] == Quote[3];
    }
  }

  lemma NormalizedUpper(raw: string)
    ensures Upper(NormalizeSymbol(raw)) == NormalizeSymbol(raw)
  {
    var t := Strip(raw);
    UpperIdempotent(t);
    if !EndsWith(Upper(t), Quote) {
      UpperAppend(Upper(t), Quote);
      UpperQuote();
    }
  }

  /** Normalising a normalised symbol changes nothing. */
  lemma NormalizeIdempotent(raw: string)
    ensures NormalizeSymbol(NormalizeSymbol(raw)) == NormalizeSymbol(raw)
  {
    var n := NormalizeSymbol(raw);
    NormalizedShape(raw);
    StripUnpadded(n);
  }

  lemma {:induction false} StripLeftAfterSpace(p: string, s: string)
    requires AllSpace(p)
    ensures StripLeft(p + s) == StripLeft(s)
  {
    if p != [] {
      assert (p + s)[1..] == p[1..] + s;
      StripLeftAfterSpace(p[1..], s);
    } else {
      assert p + s == s;
    }
  }

  lemma {:induction false} StripRightBeforeSpace(s: string, p: string)
    requires AllSpace(p)
    ensures StripRight(s + p) == StripRight(s)
  {
    if p != [] {
      assert (s + p)[..|s + p| - 1] == s + p[..|p| - 1];
      StripRightBeforeSpace(s, p[..|p| - 1]);
    } else {
      assert s + p == s;
    }
  }

  lemma {:induction false} StripLeftAppend(s: string, p: string)
    ensures StripLeft(s + p) == if StripLeft(s) == [] then StripLeft(p) else StripLeft(s) + p
  {
    if s == [] {
      assert s + p == p;
    } else if IsSpace(s[0]) {
      assert (s + p)[1..] == s[1..] + p;
      StripLeftAppend(s[1..], p);
    }
  }

  /** Whitespace around a symbol does not change its strip. */
  lemma StripPadded(pre: string, s: string, post: string)
    requires AllSpace(pre) && AllSpace(post)
    ensures Strip(pre + s + post) == Strip(s)
  {
    assert pre + s + post == pre + (s + post);
    StripLeftSpec(post);
    StripLeftAfterSpace(pre, s + post);
    StripLeftAppend(s, post);
    if StripLeft(s) != [] {
      StripRightBeforeSpace(StripLeft(s), post);
    }
  }

  /** Symbols that differ only in the case of their letters normalise to the same symbol. */
  lemma NormalizeCaseInsensitive(a: string, b: string)
    requires Upper(a) == Upper(b)
    ensures NormalizeSymbol(a) == NormalizeSymbol(b)
  {
    StripUpper(a);
    StripUpper(b);
  }

  /** Whitespace around a symbol does not change its normalisation. */
  lemma NormalizeWhitespaceInsensitive(pre: string, s: string, post: string)
    requires AllSpace(pre) && AllSpace(post)
    ensures NormalizeSymbol(pre + s + post) == NormalizeSymbol(s)
  {
    StripPadded(pre, s, post);
  }
}
