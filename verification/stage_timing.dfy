/** The `Server-Timing` injector used by the SNS media endpoints: it names
    the stage that served a response (source, cache hit type, encryption
    flag) as `Server-Timing` metrics and opens them to cross-origin
    readers with `Timing-Allow-Origin`.  Headers are a map from name to
    value. */
module StageTiming {
  import opened Text

  type Headers = map<string, string>

  const TimingAllowOrigin: string := "Timing-Allow-Origin"
  const ServerTiming: string := "Server-Timing"
  const MaxTokenLength: nat := 64

  function Get(h: Headers, name: string): string {
    if name in h then h[name] else ""
  }

  // ---------------------------------------------------------------------
  // Metric names

  /** `[0-9A-Za-z_.-]`. */
  predicate IsSafe(c: char) {
    IsAsciiLetter(c) || IsAsciiDigit(c) || c == '_' || c == '.' || c == '-'
  }

  /** A safe character other than the filler `_`. */
  predicate IsTokenChar(c: char) {
    IsSafe(c) && c != '_'
  }

  predicate IsUnderscore(c: char) {
    c == '_'
  }

  predicate IsUnsafe(c: char) {
    !IsSafe(c)
  }

  predicate AllSafe(s: string) {
    forall i :: 0 <= i < |s| ==> IsSafe(s[i])
  }

  predicate HasTokenChar(s: string) {
    exists i :: 0 <= i < |s| && IsTokenChar(s[i])
  }

  lemma HasTokenCharCons(c: char, s: string)
    ensures HasTokenChar([c] + s) <==> IsTokenChar(c) || HasTokenChar(s)
  {
    if IsTokenChar(c) {
      assert ([c] + s)[0] == c;
    }
    if HasTokenChar(s) {
      var i :| 0 <= i < |s| && IsTokenChar(s[i]);
      assert ([c] + s)[i + 1] == s[i];
    }
    if HasTokenChar([c] + s) && !IsTokenChar(c) {
      var i :| 0 <= i < |[c] + s| && IsTokenChar(([c] + s)[i]);
      assert s[i - 1] == ([c] + s)[i];
    }
  }

  /** Every space becomes `_`. */
  function SpacesToUnderscores(s: string): (r: string)
    ensures |r| == |s|
    ensures forall i :: 0 <= i < |s| ==> r[i] == if s[i] == ' ' then '_' else s[i]
  {
    if |s| == 0 then [] else [if s[0] == ' ' then '_' else s[0]] + SpacesToUnderscores(s[1..])
  }

  /** Every run of unsafe characters becomes one `_`. */
  function Sanitize(s: string): (r: string)
    ensures AllSafe(r)
    ensures |r| <= |s|
    ensures AllSafe(s) ==> r == s
    ensures HasTokenChar(r) <==> HasTokenChar(s)
    decreases |s|
  {
    if |s| == 0 then []
    else if IsSafe(s[0]) then
      var rest := Sanitize(s[1..]);
      HasTokenCharCons(s[0], rest);
      HasTokenCharCons(s[0], s[1..]);
      assert s == [s[0]] + s[1..];
      [s[0]] + rest
    else
      var tail := TrimLeft(s[1..], IsUnsafe);
      var rest := Sanitize(tail);
      HasTokenCharCons('_', rest);
      HasTokenCharCons(s[0], s[1..]);
      assert s == [s[0]] + s[1..];
      SkippedHasNoToken(s[1..], tail);
      "_" + rest
  }

  /** Skipping a run of unsafe characters skips no token character. */
  lemma SkippedHasNoToken(s: string, tail: string)
    requires tail == TrimLeft(s, IsUnsafe)
    ensures HasTokenChar(s) <==> HasTokenChar(tail)
  {
    var n := |s| - |tail|;
    forall i | 0 <= i < n ensures !IsTokenChar(s[i]) {
      assert IsUnsafe(s[i]);
    }
    DropNoToken(s, n);
  }

  /** Dropping a prefix without token characters keeps the token
      characters. */
  lemma DropNoToken(s: string, n: nat)
    requires n <= |s|
    requires forall i :: 0 <= i < n ==> !IsTokenChar(s[i])
    ensures HasTokenChar(s) <==> HasTokenChar(s[n..])
  {
    if HasTokenChar(s) {
      var i :| 0 <= i < |s| && IsTokenChar(s[i]);
      assert s[n..][i - n] == s[i];
    }
    if HasTokenChar(s[n..]) {
      var i :| 0 <= i < |s[n..]| && IsTokenChar(s[n..][i]);
      assert s[i + n] == s[n..][i];
    }
  }

  /** The metric-name token of a value: spaces and unsafe runs become `_`,
      outer underscores are dropped and the rest is cut to 64 characters. */
  function Token(v: string): (r: string)
    ensures AllSafe(r)
    ensures |r| <= MaxTokenLength
    ensures r != "" ==> r[0] != '_'
    ensures r == "" <==> !HasTokenChar(Strip(v))
  {
    var safe := Filler(Strip(v));
    if |safe| > MaxTokenLength then
      CutKeepsToken(safe);
      safe[..MaxTokenLength]
    else safe
  }

  lemma CutKeepsToken(safe: string)
    requires AllSafe(safe) && |safe| > MaxTokenLength && safe[0] != '_'
    ensures AllSafe(safe[..MaxTokenLength]) && safe[..MaxTokenLength] != ""
    ensures safe[..MaxTokenLength][0] != '_'
  {
  }

  /** The value with spaces and unsafe runs turned into `_` and the outer
      `_` dropped. */
  function Filler(raw: string): (r: string)
    ensures AllSafe(r)
    ensures r == "" <==> !HasTokenChar(raw)
    ensures r != "" ==> r[0] != '_'
  {
    var sanitized := Sanitize(SpacesToUnderscores(raw));
    TokenTrim(raw, sanitized);
    Trim(sanitized, IsUnderscore)
  }

  lemma TokenTrim(raw: string, sanitized: string)
    requires sanitized == Sanitize(SpacesToUnderscores(raw))
    ensures AllSafe(Trim(sanitized, IsUnderscore))
    ensures Trim(sanitized, IsUnderscore) == "" <==> !HasTokenChar(raw)
    ensures Trim(sanitized, IsUnderscore) != "" ==> Trim(sanitized, IsUnderscore)[0] != '_'
  {
    SpacesKeepTokens(raw);
    TrimUnderscores(sanitized);
  }

  /** Spaces and underscores are both fillers, so turning one into the
      other keeps the token characters. */
  lemma SpacesKeepTokens(raw: string)
    ensures HasTokenChar(SpacesToUnderscores(raw)) <==> HasTokenChar(raw)
  {
    var spaced := SpacesToUnderscores(raw);
    if HasTokenChar(raw) {
      var i :| 0 <= i < |raw| && IsTokenChar(raw[i]);
      assert spaced[i] == raw[i];
    }
    if HasTokenChar(spaced) {
      var i :| 0 <= i < |spaced| && IsTokenChar(spaced[i]);
      assert raw[i] != ' ';
      assert spaced[i] == raw[i];
    }
  }

  /** Trimming the filler off a safe string leaves a safe string that is
      empty exactly when there was no token character. */
  lemma TrimUnderscores(s: string)
    requires AllSafe(s)
    ensures AllSafe(Trim(s, IsUnderscore))
    ensures Trim(s, IsUnderscore) == "" <==> !HasTokenChar(s)
    ensures Trim(s, IsUnderscore) != "" ==> Trim(s, IsUnderscore)[0] != '_'
  {
    var t := Trim(s, IsUnderscore);
    TrimShape(s, IsUnderscore);
    var off := |s| - |TrimLeft(s, IsUnderscore)|;
    assert forall i :: 0 <= i < |t| ==> t[i] == s[off + i];
    if t != "" {
      assert t[0] == s[off];
      assert IsTokenChar(s[off]);
    }
  }

  /** A safe string has no space to turn into `_`. */
  lemma SafeHasNoSpace(s: string)
    requires AllSafe(s)
    ensures SpacesToUnderscores(s) == s
  {
    var r := SpacesToUnderscores(s);
    forall i | 0 <= i < |s| ensures r[i] == s[i] {
      assert IsSafe(s[i]);
    }
  }

  /** A safe string without outer `_` is its own filler form. */
  lemma FillerOfToken(s: string)
    requires AllSafe(s) && Trimmed(s, IsUnderscore)
    ensures Filler(s) == s
  {
    SafeHasNoSpace(s);
    TrimOfTrimmed(s, IsUnderscore);
  }

  /** A value that is already a clean token is its own token. */
  lemma TokenOfToken(s: string)
    requires s != "" && |s| <= MaxTokenLength && AllSafe(s) && s[0] != '_' && s[|s| - 1] != '_'
    ensures Token(s) == s
  {
    assert IsSafe(s[0]) && IsSafe(s[|s| - 1]);
    assert IsStripped(s);
    StrippedIsFixed(s);
    FillerOfToken(s);
  }

  // ---------------------------------------------------------------------
  // Quoted descriptions

  /** The escape of one character inside a quoted string. */
  function EscChar(c: char): string {
    if c == '\\' then "\\\\" else if c == '"' then "\\\"" else [c]
  }

  /** A backslash before every backslash and every double quote. */
  function Esc(v: string): (r: string)
    ensures |r| >= |v|
  {
    if |v| == 0 then "" else EscChar(v[0]) + Esc(v[1..])
  }

  /** Reads a quoted-string body back: a backslash takes the next
      character literally. */
  function Unescape(s: string): string
    decreases |s|
  {
    if |s| == 0 then ""
    else if s[0] == '\\' && |s| >= 2 then [s[1]] + Unescape(s[2..])
    else [s[0]] + Unescape(s[1..])
  }

  /** The escaped description reads back as the original. */
  lemma {:induction false} UnescapeEsc(v: string)
    ensures Unescape(Esc(v)) == v
  {
    if |v| > 0 {
      UnescapeEsc(v[1..]);
      var e := Esc(v);
      assert e == EscChar(v[0]) + Esc(v[1..]);
      if v[0] == '\\' || v[0] == '"' {
        assert e[0] == '\\' && e[1] == v[0] && e[2..] == Esc(v[1..]);
      } else {
        assert e[0] == v[0] && e[1..] == Esc(v[1..]);
      }
      assert v == [v[0]] + v[1..];
    }
  }

  /** An escaped description has no bare double quote: every quote is
      preceded by a backslash, so it cannot end the quoted string. */
  lemma {:induction false} EscHasNoBareQuote(v: string)
    ensures Esc(v) == "" || Esc(v)[0] != '"'
    ensures forall i :: 0 < i < |Esc(v)| && Esc(v)[i] == '"' ==> Esc(v)[i - 1] == '\\'
  {
    if |v| > 0 {
      EscHasNoBareQuote(v[1..]);
      var e := Esc(v);
      var h := EscChar(v[0]);
      assert e == h + Esc(v[1..]);
      if |e| > |h| {
        assert e[|h|] == Esc(v[1..])[0];
      }
      forall i | 0 < i < |e| && e[i] == '"' ensures e[i - 1] == '\\' {
        if i > |h| {
          assert e[i] == Esc(v[1..])[i - |h|];
          assert e[i - 1] == Esc(v[1..])[i - 1 - |h|];
        }
      }
    }
  }

  // ---------------------------------------------------------------------
  // The metric list

  /** `<name>;dur=0;desc="<escaped desc>"`. */
  function Metric(name: string, desc: string): (r: string)
    ensures StartsWith(r, name)
    ensures EndsWithQuote(r)
  {
    name + ";dur=0;desc=\"" + Esc(desc) + "\""
  }

  const SourcePrefix: string := "sns_source_"

  /** The metric for an optional stage value: none when the value has no
      token (a blank value has none). */
  function OptionalMetric(prefix: string, v: string): (r: seq<string>)
    ensures |r| == if Token(v) == "" then 0 else 1
    ensures forall p :: p in r ==> EndsWithQuote(p)
  {
    if v != "" && Token(v) != "" then [Metric(prefix + Token(v), v)] else []
  }

  /** The metrics for a request: the source first (token `unknown` when
      the source has none), then the hit type and the encryption flag when
      they have a token. */
  function Metrics(src: string, hitType: string, xEnc: string): (r: seq<string>)
    requires src != ""
    ensures 1 <= |r| <= 3
    ensures r[0] == Metric(SourcePrefix + (if Token(src) == "" then "unknown" else Token(src)), src)
    ensures |r| == 1 + (if Token(hitType) != "" then 1 else 0) + (if Token(xEnc) != "" then 1 else 0)
    ensures StartsWith(r[0], SourcePrefix)
    ensures EndsWithQuote(r[|r| - 1])
  {
    var srcTok := if Token(src) == "" then "unknown" else Token(src);
    var first := Metric(SourcePrefix + srcTok, src);
    StartsWithTransitive(first, SourcePrefix + srcTok, SourcePrefix);
    var rest := OptionalMetric("sns_hit_", hitType) + OptionalMetric("sns_xenc_", xEnc);
    LastEndsWithQuote(first, rest);
    [first] + rest
  }

  lemma LastEndsWithQuote(first: string, rest: seq<string>)
    requires EndsWithQuote(first)
    requires forall p :: p in rest ==> EndsWithQuote(p)
    ensures EndsWithQuote(([first] + rest)[|rest|])
  {
    if |rest| > 0 {
      assert ([first] + rest)[|rest|] == rest[|rest| - 1];
    }
  }

  lemma HitIsNotXenc(t1: string, d1: string, t2: string, d2: string)
    ensures Metric("sns_hit_" + t1, d1) != Metric("sns_xenc_" + t2, d2)
  {
    var a := Metric("sns_hit_" + t1, d1);
    var b := Metric("sns_xenc_" + t2, d2);
    assert a[4] == 'h' && b[4] == 'x';
  }

  /** `sep.join(parts)`. */
  function Join(parts: seq<string>, sep: string): (r: string)
    requires |parts| > 0
    ensures StartsWith(r, parts[0])
    ensures EndsWithQuote(parts[|parts| - 1]) ==> EndsWithQuote(r)
  {
    if |parts| == 1 then parts[0]
    else
      var rest := Join(parts[1..], sep);
      assert (parts[0] + sep + rest)[..|parts[0]|] == parts[0];
      parts[0] + sep + rest
  }

  // ---------------------------------------------------------------------
  // The duplicate guard

  /** An `sns_source` metric name (followed by `_` or `;`) starts at `i`. */
  predicate SourceMetricAt(s: string, i: int)
    requires 0 <= i <= |s|
  {
    StartsWith(s[i..], "sns_source_") || StartsWith(s[i..], "sns_source;")
  }

  predicate AllSpace(s: string) {
    forall i :: 0 <= i < |s| ==> IsSpace(s[i])
  }

  /** A comma at `i`, `k` whitespace characters, then an `sns_source` metric. */
  predicate CommaSpaceSource(s: string, i: int, k: int) {
    && 0 <= i && 0 <= k && i + 1 + k <= |s|
    && s[i] == ','
    && AllSpace(s[i + 1..i + 1 + k])
    && SourceMetricAt(s, i + 1 + k)
  }

  /** The guard the injector evidently intends: some metric of the list,
      the first or one after a comma and optional whitespace, is an
      `sns_source` metric. */
  predicate HasSourceMetric(s: string) {
    SourceMetricAt(s, 0) || exists i, k :: 0 <= i < |s| && 0 <= k <= |s| && CommaSpaceSource(s, i, k)
  }

  /** A comma, a literal backslash at `i + 1`, `k` letters `s`, then an
      `sns_source` metric. */
  predicate CommaBackslashSource(s: string, i: int, k: int) {
    && 0 <= i && 0 <= k && i + 2 + k <= |s|
    && s[i] == ',' && s[i + 1] == '\\'
    && (forall j :: i + 2 <= j < i + 2 + k ==> s[j] == 's')
    && SourceMetricAt(s, i + 2 + k)
  }

  /** The guard as the source's pattern reads: inside a raw string `\\s`
      is an escaped backslash followed by `s`, so the comma branch only
      matches after a literal backslash. */
  predicate GuardAsWritten(s: string) {
    SourceMetricAt(s, 0) || exists i, k :: 0 <= i < |s| && 0 <= k <= |s| && CommaBackslashSource(s, i, k)
  }

  // ---------------------------------------------------------------------
  // The injector

  lemma HeaderNamesDiffer()
    ensures TimingAllowOrigin != ServerTiming
  {
    assert TimingAllowOrigin[0] != ServerTiming[0];
  }

  /** `Timing-Allow-Origin: *` unless the response already sets it. */
  function AllowOrigin(h: Headers): (r: Headers)
    ensures TimingAllowOrigin in r
    ensures r[TimingAllowOrigin] == if TimingAllowOrigin in h then h[TimingAllowOrigin] else "*"
    ensures forall k :: k != TimingAllowOrigin ==> (k in r <==> k in h) && (k in h ==> r[k] == h[k])
  {
    if TimingAllowOrigin in h then h else h[TimingAllowOrigin := "*"]
  }

  /** The `Server-Timing` value after the call: the existing value, `, `
      and our metrics; ours alone when there was none; the old value when
      `guard` finds our metrics already there. */
  function TimingValue(existing: string, combined: string, guard: string -> bool): string {
    if existing != "" && guard(existing) then existing
    else if existing != "" then existing + ", " + combined
    else combined
  }

  /** The combined metrics of a request. */
  function Combined(src: string, hitType: string, xEnc: string): string
    requires src != ""
  {
    Join(Metrics(src, Strip(hitType), Strip(xEnc)), ", ")
  }

  /** Adds the stage metrics to `h`, skipping them when `guard` reports
      that the existing `Server-Timing` value already carries them.
      Nothing happens for a blank source; otherwise the origin header is
      set first, whether or not the metrics are skipped. */
  function Inject(h: Headers, source: string, hitType: string, xEnc: string, guard: string -> bool)
    : (r: Headers)
    ensures Strip(source) == "" ==> r == h
    ensures Strip(source) != "" ==>
      && TimingAllowOrigin in r
      && r[TimingAllowOrigin] == (if TimingAllowOrigin in h then h[TimingAllowOrigin] else "*")
    ensures forall k :: k != TimingAllowOrigin && k != ServerTiming ==>
      (k in r <==> k in h) && (k in h ==> r[k] == h[k])
  {
    var src := Strip(source);
    HeaderNamesDiffer();
    if src == "" then h else SetTiming(AllowOrigin(h), src, hitType, xEnc, guard)
  }

  /** Writes our metrics into `Server-Timing` unless `guard` finds them in
      the stripped existing value. */
  function SetTiming(h: Headers, src: string, hitType: string, xEnc: string, guard: string -> bool): (r: Headers)
    requires src != ""
    ensures forall k :: k != ServerTiming ==> (k in r <==> k in h) && (k in h ==> r[k] == h[k])
  {
    var existing := Strip(Get(h, ServerTiming));
    if existing != "" && guard(existing) then h
    else h[ServerTiming := TimingValue(existing, Combined(src, hitType, xEnc), guard)]
  }

  /** The injector with the guard the source evidently intends. */
  function AddTimingHeaders(h: Headers, source: string, hitType: string, xEnc: string): Headers {
    Inject(h, source, hitType, xEnc, HasSourceMetric)
  }

  /** The injector with the guard as the source's pattern reads. */
  function AddTimingHeadersAsWritten(h: Headers, source: string, hitType: string, xEnc: string): Headers {
    Inject(h, source, hitType, xEnc, GuardAsWritten)
  }

  predicate EndsWithQuote(s: string) {
    |s| > 0 && s[|s| - 1] == '"'
  }

  lemma StartsWithTransitive(s: string, p: string, q: string)
    requires StartsWith(s, p) && StartsWith(p, q)
    ensures StartsWith(s, q)
  {
    assert s[..|q|] == s[..|p|][..|q|];
  }

  /** The combined metric list starts with the source metric and ends with
      a closing quote. */
  lemma CombinedShape(src: string, hitType: string, xEnc: string)
    requires src != ""
    ensures StartsWith(Combined(src, hitType, xEnc), SourcePrefix)
    ensures EndsWithQuote(Combined(src, hitType, xEnc))
  {
    var ms := Metrics(src, Strip(hitType), Strip(xEnc));
    var c := Join(ms, ", ");
    assert c == Combined(src, hitType, xEnc);
    StartsWithTransitive(c, ms[0], SourcePrefix);
  }

  /** What the injector leaves in `Server-Timing`: the stripped existing
      value when the guard fires, else that value followed by ours. */
  lemma InjectedValue(h: Headers, source: string, hitType: string, xEnc: string, guard: string -> bool)
    requires Strip(source) != ""
    ensures var existing := Strip(Get(h, ServerTiming));
      var r := Inject(h, source, hitType, xEnc, guard);
      && (existing != "" && guard(existing) ==> Get(r, ServerTiming) == Get(h, ServerTiming))
      && (!(existing != "" && guard(existing)) ==>
            Get(r, ServerTiming) == TimingValue(existing, Combined(Strip(source), hitType, xEnc), guard))
  {
    HeaderNamesDiffer();
    var h1 := AllowOrigin(h);
    assert Get(h1, ServerTiming) == Get(h, ServerTiming);
    assert Inject(h, source, hitType, xEnc, guard) == SetTiming(h1, Strip(source), hitType, xEnc, guard);
  }

  /** Our appended metrics sit after a comma and a space, so the intended
      guard finds them. */
  lemma AppendedIsFound(existing: string, combined: string)
    requires StartsWith(combined, SourcePrefix)
    ensures HasSourceMetric(existing + ", " + combined)
  {
    var s := existing + ", " + combined;
    var i := |existing|;
    assert s[i] == ',';
    assert s[i + 1..i + 2] == " ";
    assert s[i + 2..] == combined;
    assert CommaSpaceSource(s, i, 1);
  }

  /** The value the injector writes is stripped, non-empty, and carries
      our source metric where the intended guard looks. */
  lemma WrittenValueIsFound(existing: string, combined: string)
    requires IsStripped(existing) && StartsWith(combined, SourcePrefix)
    requires EndsWithQuote(combined)
    requires !(existing != "" && HasSourceMetric(existing))
    ensures var v := TimingValue(existing, combined, HasSourceMetric);
      v != "" && Strip(v) == v && HasSourceMetric(v)
  {
    var v := TimingValue(existing, combined, HasSourceMetric);
    assert v[|v| - 1] == '"';
    if existing != "" {
      assert v[0] == existing[0];
      AppendedIsFound(existing, combined);
    } else {
      assert v[0] == 's';
      assert SourceMetricAt(v, 0);
    }
    StrippedIsFixed(v);
  }

  /** The injector is a no-op once the origin header is set and the guard
      finds our metrics. */
  lemma InjectSkips(h: Headers, source: string, hitType: string, xEnc: string, guard: string -> bool)
    requires TimingAllowOrigin in h
    requires Strip(Get(h, ServerTiming)) != "" && guard(Strip(Get(h, ServerTiming)))
    ensures Inject(h, source, hitType, xEnc, guard) == h
  {
    assert AllowOrigin(h) == h;
  }

  /** After a call with a non-blank source, `Server-Timing` carries an
      `sns_source` metric that the intended guard finds. */
  lemma AddTimingHeadersMarks(h: Headers, source: string, hitType: string, xEnc: string)
    requires Strip(source) != ""
    ensures var r := AddTimingHeaders(h, source, hitType, xEnc);
      && TimingAllowOrigin in r
      && Strip(Get(r, ServerTiming)) != ""
      && HasSourceMetric(Strip(Get(r, ServerTiming)))
  {
    var src := Strip(source);
    var existing := Strip(Get(h, ServerTiming));
    InjectedValue(h, source, hitType, xEnc, HasSourceMetric);
    if !(existing != "" && HasSourceMetric(existing)) {
      CombinedShape(src, hitType, xEnc);
      StripIsStripped(Get(h, ServerTiming));
      WrittenValueIsFound(existing, Combined(src, hitType, xEnc));
    }
  }

  /** Injecting twice is injecting once: the intended guard recognises the
      metrics of the first call. */
  lemma AddTimingHeadersIdempotent(h: Headers, source: string, hitType: string, xEnc: string)
    ensures AddTimingHeaders(AddTimingHeaders(h, source, hitType, xEnc), source, hitType, xEnc)
         == AddTimingHeaders(h, source, hitType, xEnc)
  {
    if Strip(source) != "" {
      AddTimingHeadersMarks(h, source, hitType, xEnc);
      InjectSkips(AddTimingHeaders(h, source, hitType, xEnc), source, hitType, xEnc, HasSourceMetric);
    }
  }

  /** Without a backslash after some comma the written guard only looks at
      the first metric. */
  lemma AsWrittenNeedsBackslash(s: string)
    requires '\\' !in s
    ensures GuardAsWritten(s) <==> SourceMetricAt(s, 0)
  {
  }

  /** A description without backslashes or quotes is written as is. */
  lemma {:induction false} EscPlain(v: string)
    requires forall i :: 0 <= i < |v| ==> v[i] != '\\' && v[i] != '"'
    ensures Esc(v) == v
  {
    if |v| > 0 {
      EscPlain(v[1..]);
      assert v == [v[0]] + v[1..];
    }
  }

  /** The metric a plain `proxy` source produces. */
  const ProxyMetric: string := SourcePrefix + "proxy" + ";dur=0;desc=\"" + "proxy" + "\""

  lemma ProxyMetricText()
    ensures Metric(SourcePrefix + "proxy", "proxy") == ProxyMetric
  {
    EscPlain("proxy");
  }

  lemma ProxyMetrics()
    ensures Metrics("proxy", "", "") == [Metric(SourcePrefix + "proxy", "proxy")]
  {
    assert AllSafe("proxy");
    TokenOfToken("proxy");
    assert OptionalMetric("sns_hit_", "") == [];
    assert OptionalMetric("sns_xenc_", "") == [];
  }

  lemma ProxyCombined()
    ensures Combined("proxy", "", "") == ProxyMetric
  {
    ProxyMetrics();
    ProxyMetricText();
    assert Strip("") == "";
  }

  const Upstream: string := "edge;dur=1"

  lemma UpstreamIsPlain()
    ensures Strip(Upstream) == Upstream
    ensures !HasSourceMetric(Upstream) && !GuardAsWritten(Upstream)
  {
    UpstreamFacts();
    assert ',' !in Upstream;
    NoCommaNoMetric(Upstream);
  }

  /** No `Server-Timing` yet: the value becomes our metrics, led by the
      source metric. */
  lemma InjectsWhenMissing(h: Headers, source: string, hitType: string, xEnc: string)
    requires Strip(source) != "" && ServerTiming !in h
    ensures var tok := Token(Strip(source));
      StartsWith(Get(AddTimingHeaders(h, source, hitType, xEnc), ServerTiming),
                 SourcePrefix + (if tok == "" then "unknown" else tok))
  {
    var src := Strip(source);
    InjectedValue(h, source, hitType, xEnc, HasSourceMetric);
    var ms := Metrics(src, Strip(hitType), Strip(xEnc));
    StartsWithTransitive(Join(ms, ", "), ms[0], SourcePrefix + (if Token(src) == "" then "unknown" else Token(src)));
  }

  /** An upstream value without our metrics is kept in front of them. */
  lemma AppendsAfterUpstream(h: Headers, source: string, hitType: string, xEnc: string)
    requires Strip(source) != ""
    requires Strip(Get(h, ServerTiming)) != "" && !HasSourceMetric(Strip(Get(h, ServerTiming)))
    ensures StartsWith(Get(AddTimingHeaders(h, source, hitType, xEnc), ServerTiming),
                       Strip(Get(h, ServerTiming)) + ", " + SourcePrefix)
  {
    var existing := Strip(Get(h, ServerTiming));
    var c := Combined(Strip(source), hitType, xEnc);
    InjectedValue(h, source, hitType, xEnc, HasSourceMetric);
    CombinedShape(Strip(source), hitType, xEnc);
    StartsWithAfter(existing + ", ", c, SourcePrefix);
  }

  lemma QuotedAfter(a: string, b: string)
    requires |a| > 0 && EndsWithQuote(b)
    ensures (a + b)[0] == a[0] && EndsWithQuote(a + b)
  {
  }

  lemma StartsWithAfter(a: string, s: string, p: string)
    requires StartsWith(s, p)
    ensures StartsWith(a + s, a + p)
  {
    assert (a + s)[..|a + p|] == a + s[..|p|];
  }

  /** A value that opens with an `sns_source` metric is left alone by
      either guard. */
  lemma LeadingMetricIsKept(h: Headers, source: string, hitType: string, xEnc: string)
    requires Strip(source) != "" && SourceMetricAt(Strip(Get(h, ServerTiming)), 0)
    ensures Get(AddTimingHeaders(h, source, hitType, xEnc), ServerTiming) == Get(h, ServerTiming)
    ensures Get(AddTimingHeadersAsWritten(h, source, hitType, xEnc), ServerTiming) == Get(h, ServerTiming)
  {
    InjectedValue(h, source, hitType, xEnc, HasSourceMetric);
    InjectedValue(h, source, hitType, xEnc, GuardAsWritten);
  }

  /** Text that does not open with `s` does not open with our metric. */
  lemma NoLeadingMetric(s: string)
    requires |s| > 0 && s[0] != 's'
    ensures !SourceMetricAt(s, 0)
  {
    var t := s[0..];
    if |t| >= |SourcePrefix| {
      assert t[..|SourcePrefix|][0] == s[0];
    }
  }

  /** Text without a comma that does not open with `s` holds no metric
      of ours, under either guard. */
  lemma NoCommaNoMetric(s: string)
    requires |s| > 0 && s[0] != 's' && ',' !in s
    ensures !HasSourceMetric(s) && !GuardAsWritten(s)
  {
    NoLeadingMetric(s);
    forall i, k | 0 <= i < |s| && 0 <= k <= |s|
      ensures !CommaSpaceSource(s, i, k) && !CommaBackslashSource(s, i, k)
    {
      assert s[i] in s;
    }
  }

  /** One call behind such an upstream value: the guard as written misses
      nothing there, so ours is appended. */
  lemma AsWrittenAppends(h: Headers, source: string, hitType: string, xEnc: string)
    requires Strip(source) != ""
    requires var e := Strip(Get(h, ServerTiming)); e != "" && e[0] != 's' && '\\' !in e
    ensures Get(AddTimingHeadersAsWritten(h, source, hitType, xEnc), ServerTiming)
         == Strip(Get(h, ServerTiming)) + ", " + Combined(Strip(source), hitType, xEnc)
  {
    var e := Strip(Get(h, ServerTiming));
    AsWrittenNeedsBackslash(e);
    NoLeadingMetric(e);
    InjectedValue(h, source, hitType, xEnc, GuardAsWritten);
  }

  /** The appended value again has no backslash and opens like the
      upstream value, and it is stripped. */
  lemma AppendedStaysPlain(e: string, c: string)
    requires e != "" && IsStripped(e) && e[0] != 's' && '\\' !in e
    requires '\\' !in c && EndsWithQuote(c)
    ensures var v := e + ", " + c;
      && v != "" && Strip(v) == v && v[0] != 's' && '\\' !in v
  {
    var v := e + ", " + c;
    QuotedAfter(e + ", ", c);
    assert v[0] == e[0];
    StrippedIsFixed(v);
  }

  /** Behind an upstream value with no backslash that does not open with
      our metric, the guard as written misses the metrics the first call
      appended, so a second call appends them again. */
  lemma AsWrittenAppendsTwice(h: Headers, source: string, hitType: string, xEnc: string)
    requires Strip(source) != ""
    requires var e := Strip(Get(h, ServerTiming)); e != "" && e[0] != 's' && '\\' !in e
    requires '\\' !in Combined(Strip(source), hitType, xEnc)
    ensures var e := Strip(Get(h, ServerTiming));
      var c := Combined(Strip(source), hitType, xEnc);
      var h1 := AddTimingHeadersAsWritten(h, source, hitType, xEnc);
      && Get(h1, ServerTiming) == e + ", " + c
      && Get(AddTimingHeadersAsWritten(h1, source, hitType, xEnc), ServerTiming) == e + ", " + c + ", " + c
  {
    var e := Strip(Get(h, ServerTiming));
    var c := Combined(Strip(source), hitType, xEnc);
    AsWrittenAppends(h, source, hitType, xEnc);
    var h1 := AddTimingHeadersAsWritten(h, source, hitType, xEnc);
    CombinedShape(Strip(source), hitType, xEnc);
    StripIsStripped(Get(h, ServerTiming));
    AppendedStaysPlain(e, c);
    assert Strip(Get(h1, ServerTiming)) == e + ", " + c;
    AsWrittenAppends(h1, source, hitType, xEnc);
  }

  /** Behind an upstream value without our metrics, the intended guard
      appends them once and then leaves the headers alone. */
  lemma IntendedAppendsOnce(h: Headers, source: string, hitType: string, xEnc: string)
    requires Strip(source) != ""
    requires var e := Strip(Get(h, ServerTiming)); e != "" && !HasSourceMetric(e)
    ensures var h1 := AddTimingHeaders(h, source, hitType, xEnc);
      && Get(h1, ServerTiming) == Strip(Get(h, ServerTiming)) + ", " + Combined(Strip(source), hitType, xEnc)
      && AddTimingHeaders(h1, source, hitType, xEnc) == h1
  {
    InjectedValue(h, source, hitType, xEnc, HasSourceMetric);
    AddTimingHeadersIdempotent(h, source, hitType, xEnc);
  }

  /** The facts about a `proxy` source the scenarios below use: it is
      stripped, and its single metric holds no backslash. */
  lemma ProxyFacts()
    ensures Strip("proxy") == "proxy"
    ensures Combined("proxy", "", "") == ProxyMetric
    ensures '\\' !in ProxyMetric
  {
    ProxyIsStripped();
    ProxyCombined();
    ProxyMetricPlain();
  }

  lemma ProxyIsStripped()
    ensures Strip("proxy") == "proxy"
  {
    StrippedIsFixed("proxy");
  }

  /** The `proxy` metric holds no backslash. */
  lemma ProxyMetricPlain()
    ensures '\\' !in ProxyMetric
  {
    assert '\\' !in SourcePrefix;
    assert '\\' !in ";dur=0;desc=\"";
  }

  /** `edge;dur=1` is stored as is, opens with `e` and has no backslash. */
  lemma UpstreamFacts()
    ensures Get(map[ServerTiming := Upstream], ServerTiming) == Upstream
    ensures Strip(Upstream) == Upstream && Upstream[0] == 'e' && '\\' !in Upstream
  {
    var h0 := map[ServerTiming := Upstream];
    assert Get(h0, ServerTiming) == Upstream;
    StrippedIsFixed(Upstream);
  }

  /** The first call behind `edge;dur=1` appends ours; with the guard as
      written a second call appends them again. */
  lemma AsWrittenDuplicatesSourceMetric()
    ensures var h1 := AddTimingHeadersAsWritten(map[ServerTiming := Upstream], "proxy", "", "");
      && Get(h1, ServerTiming) == Upstream + ", " + ProxyMetric
      && Get(AddTimingHeadersAsWritten(h1, "proxy", "", ""), ServerTiming)
         == Upstream + ", " + ProxyMetric + ", " + ProxyMetric
  {
    UpstreamFacts();
    ProxyFacts();
    AsWrittenAppendsTwice(map[ServerTiming := Upstream], "proxy", "", "");
  }

  /** With the intended guard the second call changes nothing. */
  lemma IntendedKeepsOneSourceMetric()
    ensures var h1 := AddTimingHeaders(map[ServerTiming := Upstream], "proxy", "", "");
      && Get(h1, ServerTiming) == Upstream + ", " + ProxyMetric
      && AddTimingHeaders(h1, "proxy", "", "") == h1
  {
    UpstreamFacts();
    UpstreamIsPlain();
    ProxyFacts();
    IntendedAppendsOnce(map[ServerTiming := Upstream], "proxy", "", "");
  }

  /** The written guard's comma branch does fire after a comma and a
      literal backslash. */
  lemma AsWrittenCommaBranch(e: string, c: string)
    requires StartsWith(c, SourcePrefix)
    ensures GuardAsWritten(e + ",\\" + c)
  {
    var s := e + ",\\" + c;
    var i := |e|;
    assert s[i] == ',' && s[i + 1] == '\\';
    assert s[i + 2..] == c;
    assert CommaBackslashSource(s, i, 0);
  }
}
