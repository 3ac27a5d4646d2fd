/** The string-level filters of the keyword and common-phrase cards: the
    common-phrase filter applied to every short sent message, and the
    normaliser applied to every token before it is counted.  Python's
    Unicode `\w` and `\d` classes are read as ASCII letters, digits and `_`
    plus the CJK Unified Ideographs block. */
module KeywordText {
  import opened Text
  import opened Stopwords

  const MinPhraseLength: nat := 2
  const MaxPhraseLength: nat := 20
  const MaxTokenLength: nat := 32

  /** The zero-width space, the byte-order mark and the C0 control
      characters other than tab, line feed and carriage return: the noise
      the phrase filter deletes before stripping. */
  predicate IsNoise(c: char) {
    || c == '\U{200b}' || c == '\U{feff}'
    || ('\U{0}' <= c <= '\U{8}') || c == '\U{b}' || c == '\U{c}'
    || ('\U{e}' <= c <= '\U{1f}')
  }

  predicate NoiseFree(s: string) {
    forall i :: 0 <= i < |s| ==> !IsNoise(s[i])
  }

  /** `s` with every noise character removed, the others kept in order. */
  function DropNoise(s: string): (r: string)
    ensures NoiseFree(r)
    ensures |r| <= |s|
    ensures NoiseFree(s) ==> r == s
  {
    if |s| == 0 then []
    else if IsNoise(s[0]) then DropNoise(s[1..])
    else [s[0]] + DropNoise(s[1..])
  }

  /** A slice of a noise-free string is noise-free; in particular its strip. */
  lemma StripKeepsNoiseFree(s: string)
    requires NoiseFree(s)
    ensures NoiseFree(Strip(s))
  {
    TrimShape(s, IsSpace);
  }

  /** The conditions a cleaned message must meet to count as a phrase. */
  predicate PhraseShaped(s: string) {
    && MinPhraseLength <= |s| <= MaxPhraseLength
    && !Contains(s, "http")
    && !Contains(s, "<")
    && !StartsWith(s, "[")
    && !StartsWith(s, "<?xml")
  }

  /** The common-phrase filter: the cleaned message when it qualifies as a
      phrase, otherwise "". */
  function PhraseOrEmpty(text: string): (r: string)
    ensures r == "" || r == Strip(DropNoise(text))
    ensures r != "" <==> PhraseShaped(Strip(DropNoise(text)))
    ensures r != "" ==> IsStripped(r) && NoiseFree(r)
  {
    if text == "" then ""
    else
      var s := Strip(DropNoise(text));
      StripIsStripped(DropNoise(text));
      StripKeepsNoiseFree(DropNoise(text));
      if s == "" then ""
      else if |s| < MinPhraseLength || |s| > MaxPhraseLength then ""
      else if Contains(s, "http") then ""
      else if Contains(s, "<") then ""
      else if StartsWith(s, "[") || StartsWith(s, "<?xml") then ""
      else s
  }

  /** A kept phrase passes the filter unchanged, so filtering twice is
      filtering once. */
  lemma PhraseIdempotent(text: string)
    ensures PhraseOrEmpty(PhraseOrEmpty(text)) == PhraseOrEmpty(text)
  {
    var r := PhraseOrEmpty(text);
    if r != "" {
      StrippedIsFixed(r);
      assert DropNoise(r) == r;
    }
  }

  /** A message whose cleaned form is phrase-shaped yields that form. */
  lemma PhraseOfCleaned(text: string, s: string)
    requires Strip(DropNoise(text)) == s && PhraseShaped(s)
    ensures PhraseOrEmpty(text) == s
  {
  }

  lemma PhraseKeepsChatWord()
    ensures PhraseOrEmpty("在吗") == "在吗"
  {
    assert DropNoise("在吗") == "在吗";
    StrippedIsFixed("在吗");
    MissingHeadNotContained("在吗", "http");
    MissingHeadNotContained("在吗", "<");
    assert PhraseShaped("在吗");
    PhraseOfCleaned("在吗", "在吗");
  }

  lemma {:induction false} DropNoiseAppend(a: string, b: string)
    ensures DropNoise(a + b) == DropNoise(a) + DropNoise(b)
  {
    if |a| > 0 {
      DropNoiseAppend(a[1..], b);
      var ab := a + b;
      assert ab[0] == a[0] && ab[1..] == a[1..] + b;
      if IsNoise(a[0]) {
        assert DropNoise(ab) == DropNoise(a[1..] + b);
      } else {
        assert DropNoise(ab) == [a[0]] + DropNoise(a[1..] + b);
      }
    } else {
      assert a + b == b;
    }
  }

  /** Removing a noise character leaves the cleaned text unchanged. */
  lemma DropNoiseSkips(a: string, z: char, b: string)
    requires IsNoise(z)
    ensures DropNoise(a + [z] + b) == DropNoise(a + b)
  {
    var da := DropNoise(a);
    assert DropNoise(a + [z]) == da by {
      DropNoiseAppend(a, [z]);
      assert [z][1..] == [];
      assert DropNoise([z]) == [];
      assert da + [] == da;
    }
    DropNoiseAppend(a + [z], b);
    DropNoiseAppend(a, b);
  }

  /** The phrase depends on the message only through its cleaned text. */
  lemma PhraseOfSameCleaned(t1: string, t2: string)
    requires DropNoise(t1) == DropNoise(t2)
    ensures PhraseOrEmpty(t1) == PhraseOrEmpty(t2)
  {
    if t1 == "" || t2 == "" {
      assert Strip(DropNoise(t1)) == "" by {
        assert DropNoise(t1) == "" by {
          if t1 != "" {
            assert DropNoise(t1) == DropNoise("");
          }
        }
      }
    }
  }

  /** Inserting a zero-width, byte-order-mark or control character
      anywhere in a message does not change its phrase. */
  lemma PhraseIgnoresNoise(a: string, z: char, b: string)
    requires IsNoise(z)
    ensures PhraseOrEmpty(a + [z] + b) == PhraseOrEmpty(a + b)
  {
    DropNoiseSkips(a, z, b);
    PhraseOfSameCleaned(a + [z] + b, a + b);
  }

  lemma PhraseRejectsShortAndBracketed()
    ensures PhraseOrEmpty("a") == ""
    ensures PhraseOrEmpty("[捂脸]") == ""
  {
    assert DropNoise("a") == "a";
    assert DropNoise("[捂脸]") == "[捂脸]";
    StrippedIsFixed("[捂脸]");
  }

  // ---------------------------------------------------------------------
  // Token normaliser

  /** `\w` or a CJK ideograph. */
  predicate IsWordChar(c: char) {
    IsAsciiLetter(c) || IsAsciiDigit(c) || c == '_' || IsCjk(c)
  }

  predicate NotWordChar(c: char) {
    !IsWordChar(c)
  }

  lemma WordCharNotSpace(c: char)
    requires IsWordChar(c)
    ensures !IsSpace(c)
  {
  }

  predicate IsHexLetterOrDigit(c: char) {
    IsAsciiDigit(c) || ('a' <= c <= 'f') || ('A' <= c <= 'F')
  }

  /** Thirty-two hex characters starting at `i`. */
  predicate HexRunAt(s: string, i: int)
    requires 0 <= i && i + 32 <= |s|
  {
    forall k :: i <= k < i + 32 ==> IsHexLetterOrDigit(s[k])
  }

  /** A search hit of the case-insensitive `\b[0-9a-f]{32}\b`: an MD5-like
      run of 32 hex characters with no word character on either side. */
  predicate HasMd5Run(s: string) {
    exists i :: 0 <= i && i + 32 <= |s| && HexRunAt(s, i)
      && (i == 0 || NotWordChar(s[i - 1]))
      && (i + 32 == |s| || NotWordChar(s[i + 32]))
  }

  predicate AllDigits(s: string) {
    forall i :: 0 <= i < |s| ==> IsAsciiDigit(s[i])
  }

  predicate IsDateSep(c: char) {
    c == '-' || c == '/'
  }

  /** `\d{4}[-/]\d{m}[-/]\d{1,2}` for a month part of `m` digits. */
  predicate DateWith(s: string, m: nat) {
    && 7 + m <= |s| <= 8 + m
    && AllDigits(s[..4]) && IsDateSep(s[4])
    && AllDigits(s[5..5 + m]) && IsDateSep(s[5 + m])
    && AllDigits(s[6 + m..])
  }

  /** `\d{1,2}:\d{2}`. */
  predicate ClockTime(s: string) {
    && 4 <= |s| <= 5
    && AllDigits(s[..|s| - 3]) && s[|s| - 3] == ':' && AllDigits(s[|s| - 2..])
  }

  /** `\d{m}月\d{1,2}日` for a month part of `m` digits. */
  predicate MonthDayWith(s: string, m: nat) {
    && m + 3 <= |s| <= m + 4
    && AllDigits(s[..m]) && s[m] == '月'
    && AllDigits(s[m + 1..|s| - 1]) && s[|s| - 1] == '日'
  }

  /** A full match of the date-like pattern: a date, a clock time or a
      Chinese month-day. */
  predicate IsDateish(s: string) {
    || DateWith(s, 1) || DateWith(s, 2)
    || ClockTime(s)
    || MonthDayWith(s, 1) || MonthDayWith(s, 2)
  }

  lemma DateishHasDigit(s: string)
    requires IsDateish(s)
    ensures HasDigit(s)
  {
    assert IsAsciiDigit(s[0]);
  }

  function DigitCount(s: string): (n: nat)
    ensures n <= |s|
    ensures n > 0 <==> HasDigit(s)
  {
    if |s| == 0 then 0
    else
      var rest := DigitCount(s[1..]);
      assert HasDigit(s[1..]) ==> HasDigit(s) by {
        if HasDigit(s[1..]) {
          var i :| 0 <= i < |s[1..]| && IsAsciiDigit(s[1..][i]);
          assert IsAsciiDigit(s[i + 1]);
        }
      }
      (if IsAsciiDigit(s[0]) then 1 else 0) + rest
  }

  predicate IsIdChar(c: char) {
    IsAsciiLetter(c) || IsAsciiDigit(c) || c == '_' || c == '-'
  }

  /** An 18-or-more character id of `[A-Za-z0-9_-]` with at least six digits. */
  predicate IsLongId(s: string) {
    && |s| >= 18
    && (forall i :: 0 <= i < |s| ==> IsIdChar(s[i]))
    && DigitCount(s) >= 6
  }

  /** `^[A-Za-z]{3,16}$`. */
  predicate IsEnglishWord(s: string) {
    && 3 <= |s| <= 16
    && forall i :: 0 <= i < |s| ==> IsAsciiLetter(s[i])
  }

  /** A kept Chinese token: 2 to 8 characters, at least one ideograph, no
      digit, not a stopword. */
  predicate IsCjkToken(r: string) {
    2 <= |r| <= 8 && HasCjk(r) && !HasDigit(r) && !IsStopwordZh(r)
  }

  /** A kept English token: 3 to 16 lower-case ASCII letters, not a stopword. */
  predicate IsEnglishToken(r: string) {
    && 3 <= |r| <= 16
    && (forall i :: 0 <= i < |r| ==> 'a' <= r[i] <= 'z')
    && !IsStopwordEn(r)
  }

  /** The token with leading and trailing non-word characters removed. */
  function TrimPunctuation(s: string): string {
    Strip(Trim(s, NotWordChar))
  }

  lemma LowerOfEnglishWord(s: string)
    requires IsEnglishWord(s)
    ensures 3 <= |Lower(s)| <= 16
    ensures forall i :: 0 <= i < |Lower(s)| ==> 'a' <= Lower(s)[i] <= 'z'
  {
  }

  /** The checks after punctuation trimming, on a trimmed token `s`. */
  function KeepToken(s: string): (r: string)
    ensures r == "" || IsCjkToken(r) || IsEnglishToken(r)
    ensures r != "" && HasCjk(s) ==> r == s
    ensures r != "" && !HasCjk(s) ==> IsEnglishWord(s) && r == Lower(s) && Trimmed(r, NotWordChar)
  {
    if s == "" then ""
    else if HasMd5Run(s) || IsDateish(s) || IsLongId(s) || HasDigit(s) then ""
    else if HasCjk(s) then
      if 2 <= |s| <= 8 && !IsStopwordZh(s) then s else ""
    else if IsEnglishWord(s) then
      LowerOfEnglishWord(s);
      if IsStopwordEn(Lower(s)) then "" else Lower(s)
    else ""
  }

  /** The token normaliser: "" for anything that is not a countable
      keyword, otherwise the trimmed Chinese token or the lower-cased
      English word. */
  function NormalizeToken(tok: string): (r: string)
    ensures r == "" || IsCjkToken(r) || IsEnglishToken(r)
    ensures r != "" ==> Trimmed(r, NotWordChar)
  {
    var s0 := Strip(tok);
    if s0 == "" || |s0| > MaxTokenLength then ""
    else
      var s := TrimPunctuation(s0);
      var r := KeepToken(s);
      TrimmedStripFixed(s0);
      r
  }

  /** Trimming punctuation leaves word characters at both ends, which the
      final strip keeps. */
  lemma TrimmedStripFixed(s: string)
    ensures Trimmed(TrimPunctuation(s), NotWordChar)
  {
    var t := Trim(s, NotWordChar);
    TrimShape(s, NotWordChar);
    if |t| > 0 {
      WordCharNotSpace(t[0]);
      WordCharNotSpace(t[|t| - 1]);
    }
    StrippedIsFixed(t);
  }

  /** A kept token passes the post-trimming checks unchanged. */
  lemma KeepTokenFixes(r: string)
    requires IsCjkToken(r) || IsEnglishToken(r)
    ensures KeepToken(r) == r
  {
    if IsDateish(r) {
      DateishHasDigit(r);
    }
    if !IsCjkToken(r) {
      assert !HasCjk(r);
      assert IsEnglishWord(r);
      assert Lower(r) == r;
    }
  }

  /** A token with word characters at both ends has no punctuation to trim. */
  lemma TrimPunctuationFixes(r: string)
    requires Trimmed(r, NotWordChar)
    ensures TrimPunctuation(r) == r
  {
    TrimOfTrimmed(r, NotWordChar);
    if |r| > 0 {
      WordCharNotSpace(r[0]);
      WordCharNotSpace(r[|r| - 1]);
    }
    StrippedIsFixed(r);
  }

  /** A normalised token normalises to itself. */
  lemma NormalizeIdempotent(tok: string)
    ensures NormalizeToken(NormalizeToken(tok)) == NormalizeToken(tok)
  {
    var r := NormalizeToken(tok);
    if r != "" {
      assert |r| <= MaxTokenLength;
      NormalizeOfTrimmed(r);
      KeepTokenFixes(r);
    }
  }

  /** A token already free of surrounding spaces and punctuation goes
      straight to the post-trimming checks. */
  lemma NormalizeOfTrimmed(tok: string)
    requires 0 < |tok| <= MaxTokenLength && Trimmed(tok, NotWordChar)
    ensures NormalizeToken(tok) == KeepToken(tok)
  {
    WordCharNotSpace(tok[0]);
    WordCharNotSpace(tok[|tok| - 1]);
    StrippedIsFixed(tok);
    TrimPunctuationFixes(tok);
    assert Strip(tok) == tok;
    assert TrimPunctuation(Strip(tok)) == tok;
    assert !(Strip(tok) == "" || |Strip(tok)| > MaxTokenLength);
  }

  /** A letters-only word has no digit, no ideograph, and is too short
      for the id and hash filters. */
  lemma EnglishWordPasses(s: string)
    requires IsEnglishWord(s)
    ensures !HasCjk(s) && !HasDigit(s) && !IsDateish(s) && !IsLongId(s) && !HasMd5Run(s)
  {
    if IsDateish(s) {
      DateishHasDigit(s);
    }
  }

  /** Every English word that is not a stopword is counted lower-cased. */
  lemma NormalizeLowersEnglish(tok: string)
    requires IsEnglishWord(tok) && !IsStopwordEn(Lower(tok))
    ensures NormalizeToken(tok) == Lower(tok)
  {
    EnglishWordPasses(tok);
    assert KeepToken(tok) == Lower(tok);
    assert Trimmed(tok, NotWordChar) by {
      assert IsWordChar(tok[0]) && IsWordChar(tok[|tok| - 1]);
    }
    NormalizeOfTrimmed(tok);
  }

  /** A Chinese token of 2 to 8 characters, with no digit, no punctuation
      at either end and not a stopword, is counted as is. */
  lemma NormalizeKeepsCjk(tok: string)
    requires IsCjkToken(tok) && Trimmed(tok, NotWordChar)
    ensures NormalizeToken(tok) == tok
  {
    if IsDateish(tok) {
      DateishHasDigit(tok);
    }
    assert KeepToken(tok) == tok;
    NormalizeOfTrimmed(tok);
  }

  lemma NormalizeDropsStopword()
    ensures NormalizeToken("哈哈") == ""
  {
    assert KeepToken("哈哈") == "";
    NormalizeOfTrimmed("哈哈");
  }

  lemma NormalizeDropsDigits()
    ensures NormalizeToken("2024") == ""
  {
    assert KeepToken("2024") == "" by {
      assert HasDigit("2024") by { assert IsAsciiDigit("2024"[0]); }
    }
    NormalizeOfTrimmed("2024");
  }
}
