/** The `0x`-hex encoding of byte strings and the tree transforms that apply
    it before a snapshot is stored as JSON and after it is read back. */
module BlobCodec {
  import opened Wrappers
  import opened Text
  import opened Json

  function HexDigit(n: nat): (c: char)
    requires n < 16
    ensures IsLowerHex(c)
  {
    if n < 10 then '0' + n as char else 'a' + (n - 10) as char
  }

  predicate IsLowerHex(c: char) {
    '0' <= c <= '9' || 'a' <= c <= 'f'
  }

  /** A character of the class `[0-9a-fA-F]`. */
  predicate IsHexChar(c: char) {
    '0' <= c <= '9' || 'a' <= c <= 'f' || 'A' <= c <= 'F'
  }

  function HexValue(c: char): (n: nat)
    requires IsHexChar(c)
    ensures n < 16
  {
    if '0' <= c <= '9' then (c - '0') as nat
    else if 'a' <= c <= 'f' then (c - 'a') as nat + 10
    else (c - 'A') as nat + 10
  }

  /** `bytes.hex()`: two lowercase digits per byte. */
  function Hex(b: seq<byte>): (r: string)
    ensures |r| == 2 * |b|
    ensures forall i :: 0 <= i < |r| ==> IsLowerHex(r[i])
  {
    if |b| == 0 then ""
    else [HexDigit(b[0] as nat / 16), HexDigit(b[0] as nat % 16)] + Hex(b[1..])
  }

  /** `_bytes_to_hex`. */
  function BytesToHex(b: seq<byte>): (r: string)
    ensures |r| == 2 + 2 * |b| && StartsWith(r, "0x")
    ensures forall i :: 2 <= i < |r| ==> IsLowerHex(r[i])
  {
    "0x" + Hex(b)
  }

  predicate AllHex(h: string) {
    forall i :: 0 <= i < |h| ==> IsHexChar(h[i])
  }

  /** `bytes.fromhex` on an even-length run of hex digits. */
  function FromHex(h: string): (r: seq<byte>)
    requires |h| % 2 == 0 && AllHex(h)
    ensures 2 * |r| == |h|
  {
    if |h| == 0 then []
    else [(HexValue(h[0]) * 16 + HexValue(h[1])) as byte] + FromHex(h[2..])
  }

  /** `_hex_to_bytes`: the stripped text must be "0x" followed by a
      non-empty, even-length run of hex digits of either case. */
  function HexToBytes(s: string): (r: Option<seq<byte>>)
    ensures r.Some? <==>
      var t := Strip(s);
      StartsWith(t, "0x") && |t| > 2 && |t| % 2 == 0 && AllHex(t[2..])
    ensures r.Some? ==> |r.value| > 0 && 2 + 2 * |r.value| == |Strip(s)|
  {
    var t := Strip(s);
    if !StartsWith(t, "0x") then None
    else
      var h := t[2..];
      if |h| == 0 || |h| % 2 != 0 || !AllHex(h) then None
      else Some(FromHex(h))
  }

  lemma {:induction false} FromHexOfHex(b: seq<byte>)
    ensures FromHex(Hex(b)) == b
  {
    if |b| > 0 {
      FromHexOfHex(b[1..]);
      var h := Hex(b);
      assert h[2..] == Hex(b[1..]);
    }
  }

  lemma HexDigitOfValue(c: char)
    requires IsHexChar(c)
    ensures HexDigit(HexValue(c)) == LowerChar(c)
  {
  }

  /** The two lowercase digits of the byte a pair of hex digits encodes. */
  lemma HexPair(a: char, b: char)
    requires IsHexChar(a) && IsHexChar(b)
    ensures var v := HexValue(a) * 16 + HexValue(b);
      v < 256 && HexDigit(v / 16) == LowerChar(a) && HexDigit(v % 16) == LowerChar(b)
  {
    var v := HexValue(a) * 16 + HexValue(b);
    assert v / 16 == HexValue(a) && v % 16 == HexValue(b);
    HexDigitOfValue(a);
    HexDigitOfValue(b);
  }

  lemma {:induction false} HexOfFromHex(h: string)
    requires |h| % 2 == 0 && AllHex(h)
    ensures Hex(FromHex(h)) == Lower(h)
  {
    if |h| > 0 {
      var rest := h[2..];
      assert AllHex(rest) by {
        forall i | 0 <= i < |rest| ensures IsHexChar(rest[i]) {
          assert rest[i] == h[i + 2];
        }
      }
      HexOfFromHex(rest);
      var v := HexValue(h[0]) * 16 + HexValue(h[1]);
      HexPair(h[0], h[1]);
      var x := v as byte;
      assert x as nat == v;
      assert FromHex(h) == [x] + FromHex(rest);
      HexCons(x, FromHex(rest));
      LowerDrop2(h);
    }
  }

  lemma HexCons(x: byte, rest: seq<byte>)
    ensures Hex([x] + rest) == [HexDigit(x as nat / 16), HexDigit(x as nat % 16)] + Hex(rest)
  {
    assert ([x] + rest)[1..] == rest;
  }

  lemma LowerDrop2(h: string)
    requires |h| >= 2
    ensures Lower(h) == [LowerChar(h[0]), LowerChar(h[1])] + Lower(h[2..])
  {
    var r := [LowerChar(h[0]), LowerChar(h[1])] + Lower(h[2..]);
    var l := Lower(h);
    assert |l| == |r|;
    forall i | 0 <= i < |h| ensures l[i] == r[i] {
      if i >= 2 {
        assert r[i] == Lower(h[2..])[i - 2];
        assert h[2..][i - 2] == h[i];
      }
    }
  }

  lemma BytesToHexIsStripped(b: seq<byte>)
    ensures Strip(BytesToHex(b)) == BytesToHex(b)
  {
    var s := BytesToHex(b);
    assert s[0] == '0';
    TrimOfTrimmed(s, IsSpace);
  }

  /** Decoding inverts encoding exactly for non-empty byte strings; the
      empty one encodes to "0x", which does not decode. */
  lemma HexRoundTrip(b: seq<byte>)
    ensures HexToBytes(BytesToHex(b)) == if |b| == 0 then None else Some(b)
  {
    var s := BytesToHex(b);
    BytesToHexIsStripped(b);
    var h := Hex(b);
    assert s[2..] == h;
    if |b| > 0 {
      assert AllHex(h);
      HexDecodes(s, h);
      FromHexOfHex(b);
    }
  }

  lemma HexDecodes(s: string, h: string)
    requires Strip(s) == s && s == "0x" + h
    requires AllHex(h)
    requires |h| > 0 && |h| % 2 == 0
    ensures HexToBytes(s) == Some(FromHex(h))
  {
    assert s[2..] == h;
  }

  /** Every decodable text is, up to whitespace and letter case, the
      encoding of what it decodes to. */
  lemma HexNormalForm(s: string)
    requires HexToBytes(s).Some?
    ensures BytesToHex(HexToBytes(s).value) == Lower(Strip(s))
  {
    var t := Strip(s);
    var h := t[2..];
    assert HexToBytes(s).value == FromHex(h);
    HexOfFromHex(h);
    assert t == "0x" + h;
    LowerHexPrefix(h);
  }

  lemma LowerHexPrefix(h: string)
    ensures Lower("0x" + h) == "0x" + Lower(h)
  {
    var r := "0x" + Lower(h);
    assert forall i :: 0 <= i < |r| ==> Lower("0x" + h)[i] == r[i];
  }

  lemma RejectsMissingPrefix(s: string)
    requires !StartsWith(Strip(s), "0x")
    ensures HexToBytes(s).None?
  {
  }

  // ---------------------------------------------------------------------
  // Tree transforms

  /** `_jsonify_blobs`: byte strings become hex text, tuples become lists. */
  function Jsonify(v: Value): (r: Value)
    ensures IsJsonData(r)
  {
    match v
    case Bytes(b) => Str(BytesToHex(b))
    case List(xs) => List(seq(|xs|, i requires 0 <= i < |xs| => Jsonify(xs[i])))
    case Tuple(xs) => List(seq(|xs|, i requires 0 <= i < |xs| => Jsonify(xs[i])))
    case Dict(es) => Dict(seq(|es|, i requires 0 <= i < |es| => (es[i].0, Jsonify(es[i].1))))
    case _ => v
  }

  /** `_dejsonify_blobs`: decodable hex text becomes bytes; anything else
      that is not a list or a dict, tuples included, is returned as is. */
  function Dejsonify(v: Value): Value {
    match v
    case Str(s) => (match HexToBytes(s) case Some(b) => Bytes(b) case None => v)
    case List(xs) => List(seq(|xs|, i requires 0 <= i < |xs| => Dejsonify(xs[i])))
    case Dict(es) => Dict(seq(|es|, i requires 0 <= i < |es| => (es[i].0, Dejsonify(es[i].1))))
    case _ => v
  }

  /** Trees whose blobs survive the round trip: every byte string is
      non-empty and no text already reads as hex. */
  predicate Admissible(v: Value) {
    match v
    case Bytes(b) => |b| > 0
    case Str(s) => HexToBytes(s).None?
    case List(xs) => forall i :: 0 <= i < |xs| ==> Admissible(xs[i])
    case Tuple(xs) => forall i :: 0 <= i < |xs| ==> Admissible(xs[i])
    case Dict(es) => forall i :: 0 <= i < |es| ==> Admissible(es[i].1)
    case _ => true
  }

  /** `v` with every tuple turned into a list. */
  function TuplesToLists(v: Value): Value {
    match v
    case List(xs) => List(seq(|xs|, i requires 0 <= i < |xs| => TuplesToLists(xs[i])))
    case Tuple(xs) => List(seq(|xs|, i requires 0 <= i < |xs| => TuplesToLists(xs[i])))
    case Dict(es) => Dict(seq(|es|, i requires 0 <= i < |es| => (es[i].0, TuplesToLists(es[i].1))))
    case _ => v
  }

  /** Storing and loading an admissible snapshot gives it back, with
      tuples read back as lists. */
  lemma {:induction false} BlobRoundTrip(v: Value)
    requires Admissible(v)
    ensures Dejsonify(Jsonify(v)) == TuplesToLists(v)
  {
    match v
    case Bytes(b) =>
      HexRoundTrip(b);
    case List(xs) =>
      forall i | 0 <= i < |xs| ensures Dejsonify(Jsonify(xs[i])) == TuplesToLists(xs[i]) {
        BlobRoundTrip(xs[i]);
      }
    case Tuple(xs) =>
      forall i | 0 <= i < |xs| ensures Dejsonify(Jsonify(xs[i])) == TuplesToLists(xs[i]) {
        BlobRoundTrip(xs[i]);
      }
    case Dict(es) =>
      forall i | 0 <= i < |es| ensures Dejsonify(Jsonify(es[i].1)) == TuplesToLists(es[i].1) {
        BlobRoundTrip(es[i].1);
      }
    case _ =>
  }

  /** Encoding leaves JSON data alone, so encoding twice is encoding once. */
  lemma {:induction false} JsonifyFixesJsonData(v: Value)
    requires IsJsonData(v)
    ensures Jsonify(v) == v
  {
    match v
    case List(xs) =>
      forall i | 0 <= i < |xs| ensures Jsonify(xs[i]) == xs[i] {
        JsonifyFixesJsonData(xs[i]);
      }
    case Dict(es) =>
      forall i | 0 <= i < |es| ensures Jsonify(es[i].1) == es[i].1 {
        JsonifyFixesJsonData(es[i].1);
      }
    case _ =>
  }

  lemma JsonifyIdempotent(v: Value)
    ensures Jsonify(Jsonify(v)) == Jsonify(v)
  {
    JsonifyFixesJsonData(Jsonify(v));
  }

  /** The empty byte string comes back as the text "0x". */
  lemma EmptyBytesComeBackAsText()
    ensures Dejsonify(Jsonify(Bytes([]))) == Str("0x")
  {
    HexRoundTrip([]);
  }
}
