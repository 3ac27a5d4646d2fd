/** The `db:table:local_id` message identifier of the edit store, and the
    subset of Python's `int(str)` it relies on. */
module MessageId {
  import opened Wrappers
  import opened Text

  const InvalidFormat: string := "Invalid message_id format."

  datatype MessageId = MessageId(db: string, table: string, localId: int)

  /** `format_message_id`: stripped database and table names and the id. */
  function Format(db: string, table: string, localId: int): string {
    Strip(db) + ":" + Strip(table) + ":" + IntToStr(localId)
  }

  /** Index of the first ':' of `s`. */
  function FindColon(s: string): (r: Option<nat>)
    ensures r.None? <==> ':' !in s
    ensures r.Some? ==> r.value < |s| && s[r.value] == ':' && ':' !in s[..r.value]
  {
    if |s| == 0 then None
    else if s[0] == ':' then Some(0)
    else
      var r := FindColon(s[1..]);
      assert s == [s[0]] + s[1..];
      if r.None? then None
      else
        assert s[..r.value + 1] == [s[0]] + s[1..][..r.value];
        Some(r.value + 1)
  }

  /** `s.split(":", 2)` when it yields three parts; `None` when `s` holds
      fewer than two colons. */
  function Split3(s: string): (r: Option<(string, string, string)>)
    ensures r.Some? ==> s == r.value.0 + ":" + r.value.1 + ":" + r.value.2
    ensures r.Some? ==> ':' !in r.value.0 && ':' !in r.value.1
  {
    var i := FindColon(s);
    if i.None? then None
    else
      var rest := s[i.value + 1..];
      var j := FindColon(rest);
      if j.None? then None
      else
        var a, b, c := s[..i.value], rest[..j.value], rest[j.value + 1..];
        SplitAtColon(s, i.value);
        SplitAtColon(rest, j.value);
        JoinAssoc(s, a, rest, b, c);
        Some((a, b, c))
  }

  lemma SplitAtColon(s: string, i: nat)
    requires i < |s| && s[i] == ':'
    ensures s == s[..i] + ":" + s[i + 1..]
  {
  }

  lemma JoinAssoc(s: string, a: string, rest: string, b: string, c: string)
    requires s == a + ":" + rest && rest == b + ":" + c
    ensures s == a + ":" + b + ":" + c
  {
  }

  /** The first colon of `a + ":" + t` is the one after `a` when `a` has none. */
  lemma FirstColonAfter(a: string, t: string)
    requires ':' !in a
    ensures FindColon(a + ":" + t) == Some(|a|)
  {
    var s := a + ":" + t;
    assert s[|a|] == ':';
  }

  /** The three parts are determined by the two first colons. */
  lemma Split3Unique(a: string, b: string, c: string)
    requires ':' !in a && ':' !in b
    ensures Split3(a + ":" + b + ":" + c) == Some((a, b, c))
  {
    var s := a + ":" + b + ":" + c;
    assert s == a + ":" + (b + ":" + c);
    FirstColonAfter(a, b + ":" + c);
    assert s[|a| + 1..] == b + ":" + c;
    FirstColonAfter(b, c);
    assert s[..|a|] == a;
    assert (b + ":" + c)[..|b|] == b;
    assert (b + ":" + c)[|b| + 1..] == c;
  }

  lemma Split3NoColons(s: string)
    requires ':' !in s
    ensures Split3(s).None?
  {
  }

  // ---------------------------------------------------------------------
  // Python's int() on a string, restricted to ASCII digits

  function DigitValue(c: char): nat
    requires IsAsciiDigit(c)
  {
    (c - '0') as nat
  }

  predicate AllDigits(s: string) {
    forall i :: 0 <= i < |s| ==> IsAsciiDigit(s[i])
  }

  /** Value of a decimal numeral, most significant digit first. */
  function DigitsValue(s: string): nat
    requires AllDigits(s)
  {
    if |s| == 0 then 0 else DigitsValue(s[..|s| - 1]) * 10 + DigitValue(s[|s| - 1])
  }

  /** Digits, with single underscores allowed between two digits. */
  predicate Numeral(s: string) {
    && |s| > 0
    && IsAsciiDigit(s[0])
    && IsAsciiDigit(s[|s| - 1])
    && (forall i :: 0 <= i < |s| ==> IsAsciiDigit(s[i]) || s[i] == '_')
    && (forall i :: 0 <= i < |s| - 1 ==> !(s[i] == '_' && s[i + 1] == '_'))
  }

  function DropUnderscores(s: string): (r: string)
    requires forall i :: 0 <= i < |s| ==> IsAsciiDigit(s[i]) || s[i] == '_'
    ensures AllDigits(r) && |r| <= |s|
  {
    if |s| == 0 then []
    else if s[0] == '_' then DropUnderscores(s[1..])
    else [s[0]] + DropUnderscores(s[1..])
  }

  /** `int(s)` for a `str` argument: surrounding whitespace, an optional
      sign, then a numeral. */
  function ParseInt(s: string): (r: Option<int>)
    ensures r.Some? ==> |Strip(s)| > 0
    ensures r.Some? ==> forall i :: 0 <= i < |Strip(s)| ==>
      IsAsciiDigit(Strip(s)[i]) || Strip(s)[i] == '_' || (i == 0 && Strip(s)[i] in "+-")
  {
    var t := Strip(s);
    if |t| == 0 then None
    else
      var neg := t[0] == '-';
      var body := if t[0] == '-' || t[0] == '+' then t[1..] else t;
      if !Numeral(body) then None
      else
        var v: int := DigitsValue(DropUnderscores(body));
        Some(if neg then -v else v)
  }

  /** `int(part or 0)`: the empty part reads as zero. */
  function ParseLocalId(part: string): Option<int> {
    if part == "" then Some(0) else ParseInt(part)
  }

  /** `parse_message_id`. */
  function Parse(s: string): (r: Result<MessageId, string>)
    ensures Split3(s).None? ==> r == Err(InvalidFormat)
    ensures r.Err? ==> r.error == InvalidFormat
    ensures r.Ok? ==>
      && r.value.db != "" && r.value.table != "" && r.value.localId > 0
      && Strip(r.value.db) == r.value.db && Strip(r.value.table) == r.value.table
      && ':' !in r.value.db && ':' !in r.value.table
    ensures r.Ok? <==>
      && Split3(s).Some?
      && Strip(Split3(s).value.0) != "" && Strip(Split3(s).value.1) != ""
      && ParseLocalId(Split3(s).value.2).Some? && ParseLocalId(Split3(s).value.2).value > 0
    ensures r.Ok? ==>
      r.value == MessageId(Strip(Split3(s).value.0), Strip(Split3(s).value.1), ParseLocalId(Split3(s).value.2).value)
  {
    match Split3(s)
    case None => Err(InvalidFormat)
    case Some((a, b, c)) =>
      var db := Strip(a);
      var table := Strip(b);
      StripIdempotent(a);
      StripIdempotent(b);
      StripKeepsOut(a, ':');
      StripKeepsOut(b, ':');
      match ParseLocalId(c)
      case None => Err(InvalidFormat)
      case Some(id) =>
        if db == "" || table == "" || id <= 0 then Err(InvalidFormat)
        else Ok(MessageId(db, table, id))
  }

  lemma StripKeepsOut(s: string, c: char)
    requires c !in s
    ensures c !in Strip(s)
  {
    TrimShape(s, IsSpace);
  }

  // ---------------------------------------------------------------------
  // Round trip

  lemma {:induction false} NatToStrValue(n: nat)
    ensures DigitsValue(NatToStr(n)) == n
    decreases n
  {
    if n >= 10 {
      NatToStrValue(n / 10);
      var s := NatToStr(n);
      assert s[..|s| - 1] == NatToStr(n / 10);
    }
  }

  lemma DropUnderscoresOfDigits(s: string)
    requires AllDigits(s)
    ensures DropUnderscores(s) == s
  {
    if |s| > 0 {
      DropUnderscoresOfDigits(s[1..]);
    }
  }

  lemma NoSpaceIsStripped(s: string)
    requires |s| > 0 ==> !IsSpace(s[0]) && !IsSpace(s[|s| - 1])
    ensures Strip(s) == s
  {
    TrimOfTrimmed(s, IsSpace);
  }

  lemma ParseIntOfNatToStr(n: nat)
    ensures ParseInt(NatToStr(n)) == Some(n)
  {
    var d := NatToStr(n);
    NoSpaceIsStripped(d);
    assert Numeral(d);
    DropUnderscoresOfDigits(d);
    NatToStrValue(n);
  }

  lemma ParseIntOfNegative(n: nat)
    requires n > 0
    ensures ParseInt("-" + NatToStr(n)) == Some(-(n as int))
  {
    var d := NatToStr(n);
    var s := "-" + d;
    assert s[|s| - 1] == d[|d| - 1];
    NoSpaceIsStripped(s);
    assert s[1..] == d;
    assert Numeral(d);
    DropUnderscoresOfDigits(d);
    NatToStrValue(n);
  }

  /** `int(str(n)) == n`. */
  lemma ParseIntOfIntToStr(n: int)
    ensures ParseInt(IntToStr(n)) == Some(n)
  {
    if n < 0 {
      var m: nat := -n;
      assert IntToStr(n) == "-" + NatToStr(m);
      ParseIntOfNegative(m);
    } else {
      assert IntToStr(n) == NatToStr(n);
      ParseIntOfNatToStr(n);
    }
  }

  /** Parsing a formatted id gives back the stripped names and the id, and
      succeeds exactly when both names are non-blank and the id positive. */
  lemma ParseFormat(db: string, table: string, localId: int)
    requires ':' !in db && ':' !in table
    ensures Parse(Format(db, table, localId)).Ok? <==> Strip(db) != "" && Strip(table) != "" && localId > 0
    ensures Parse(Format(db, table, localId)).Ok? ==>
      Parse(Format(db, table, localId)).value == MessageId(Strip(db), Strip(table), localId)
  {
    var a, b, c := Strip(db), Strip(table), IntToStr(localId);
    StripKeepsOut(db, ':');
    StripKeepsOut(table, ':');
    Split3Unique(a, b, c);
    StripIdempotent(db);
    StripIdempotent(table);
    ParseIntOfIntToStr(localId);
    assert ParseLocalId(c) == Some(localId);
    ParseParts(Format(db, table, localId), a, b, c, localId);
  }

  /** `Parse` once the split and the id are known. */
  lemma ParseParts(s: string, a: string, b: string, c: string, id: int)
    requires Split3(s) == Some((a, b, c)) && ParseLocalId(c) == Some(id)
    ensures Parse(s) == if Strip(a) == "" || Strip(b) == "" || id <= 0 then Err(InvalidFormat)
      else Ok(MessageId(Strip(a), Strip(b), id))
  {
  }

  /** A parsed id is in normal form: formatting and parsing it again gives
      the same id. */
  lemma ParseIsCanonical(s: string)
    requires Parse(s).Ok?
    ensures var m := Parse(s).value; Parse(Format(m.db, m.table, m.localId)) == Ok(m)
  {
    var m := Parse(s).value;
    ParseFormat(m.db, m.table, m.localId);
  }

  lemma RejectsBad()
    ensures Parse("bad").Err?
  {
    Split3NoColons("bad");
  }

  /** Three parts whose last is not an integer are rejected, whatever the
      first two hold. */
  lemma RejectsNonIntegerId(a: string, b: string, c: string)
    requires ':' !in a && ':' !in b && ParseLocalId(c).None?
    ensures Parse(a + ":" + b + ":" + c) == Err(InvalidFormat)
  {
    Split3Unique(a, b, c);
  }
}
