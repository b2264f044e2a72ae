/** sign.go: the percent-encoder used for signatures and the request signer. */
module Signer {
  import opened Go

  const Percent: byte := 37    // '%'
  const Equals: byte := 61     // '='
  const Ampersand: byte := 38  // '&'

  // ---------------------------------------------------------------------------
  // The table of unreserved characters

  /** The unreserved characters of section 2.3 of RFC 3986: letters, digits,
      '-', '_', '.' and '~'. */
  predicate IsUnreserved(c: int)
  {
    || 'A' as int <= c <= 'Z' as int
    || 'a' as int <= c <= 'z' as int
    || '0' as int <= c <= '9' as int
    || c == '-' as int || c == '_' as int || c == '.' as int || c == '~' as int
  }

  /** The literal `init` walks to fill the table; '0' appears in it twice.
      It is written as its three runs (upper case, lower case, digits and
      marks), which concatenate to the literal character for character. */
  const UpperPart: string := "ABCDEFGHIJKLMNOPQRSTUVWXYZ"
  const LowerPart: string := "abcdefghijklmnopqrstuvwxyz"
  const DigitMarkPart: string := "01234567890-_.~"
  const UnreservedLiteral: string := UpperPart + LowerPart + DigitMarkPart

  lemma UpperPartMembers(c: char)
    ensures c in UpperPart <==> 'A' <= c <= 'Z'
  {
    if 'A' <= c <= 'Z' { assert UpperPart[c as int - 'A' as int] == c; }
  }

  lemma LowerPartMembers(c: char)
    ensures c in LowerPart <==> 'a' <= c <= 'z'
  {
    if 'a' <= c <= 'z' { assert LowerPart[c as int - 'a' as int] == c; }
  }

  lemma DigitMarkPartMembers(c: char)
    ensures c in DigitMarkPart <==> '0' <= c <= '9' || c == '-' || c == '_' || c == '.' || c == '~'
  {
    if '0' <= c <= '9' { assert DigitMarkPart[c as int - '0' as int] == c; }
  }

  /** The characters of the literal are exactly the unreserved set: the
      duplicated '0' adds nothing and nothing is missing. */
  lemma UnreservedLiteralExact(c: char)
    ensures c in UnreservedLiteral <==> IsUnreserved(c as int)
  {
    UpperPartMembers(c);
    LowerPartMembers(c);
    DigitMarkPartMembers(c);
    assert c in UnreservedLiteral <==> c in UpperPart || c in LowerPart || c in DigitMarkPart;
  }

  /** The package's `unreserved` table: 128 flags, set exactly for the
      unreserved characters. */
  predicate UnreservedTable(table: array<bool>)
    reads table
  {
    table.Length == 128 && forall c :: 0 <= c < 128 ==> table[c] == IsUnreserved(c)
  }

  /** `init`: a table of 128 false flags, then one flag set per character of
      the literal (all of them ASCII, so Go's rune loop is a byte loop). */
  method InitUnreserved() returns (table: array<bool>)
    ensures UnreservedTable(table)
  {
    table := new bool[128](_ => false);
    var i := 0;
    while i < |UnreservedLiteral|
      invariant 0 <= i <= |UnreservedLiteral|
      invariant table.Length == 128
      invariant forall c :: 0 <= c < 128 ==> table[c] == (c as char in UnreservedLiteral[..i])
    {
      var c := UnreservedLiteral[i];
      UnreservedLiteralExact(c);
      table[c as int] := true;
      PrefixStep(UnreservedLiteral, i);
      i := i + 1;
    }
    assert UnreservedLiteral[..i] == UnreservedLiteral;
    forall c | 0 <= c < 128 ensures table[c] == IsUnreserved(c) {
      UnreservedLiteralExact(c as char);
    }
  }

  // ---------------------------------------------------------------------------
  // Encode

  /** `charsTof`: the upper-case hex digits. */
  const CharsTof: Bytes := Ascii("0123456789ABCDEF")

  predicate IsUpperHexDigit(b: byte) { '0' as int <= b as int <= '9' as int || 'A' as int <= b as int <= 'F' as int }

  /** The value of an upper-case hex digit (0 for any other byte). */
  function UpperHexValue(b: byte): (v: int)
    ensures 0 <= v < 16
  {
    if '0' as int <= b as int <= '9' as int then b as int - '0' as int
    else if 'A' as int <= b as int <= 'F' as int then b as int - 'A' as int + 10
    else 0
  }

  lemma CharsTofTable(v: int)
    requires 0 <= v < 16
    ensures IsUpperHexDigit(CharsTof[v]) && UpperHexValue(CharsTof[v]) == v
  {
  }

  /** The test both loops of `Encode` apply to a byte. */
  predicate MustEscape(c: byte) { c > 127 || !IsUnreserved(c as int) }

  /** '%' and the digits of the high nibble (c >> 4) and the low nibble (c & 0xF). */
  function Escape(c: byte): Bytes
  {
    [Percent, CharsTof[c as int / 16], CharsTof[c as int % 16]]
  }

  function EncodeByte(c: byte): Bytes
  {
    if MustEscape(c) then Escape(c) else [c]
  }

  /** The encoding of a string, byte by byte. */
  function Encoded(s: Bytes): Bytes
    decreases |s|
  {
    if s == [] then [] else EncodeByte(s[0]) + Encoded(s[1..])
  }

  /** `Encode`: a first loop looks for a byte that needs escaping and returns
      `s` itself when there is none; otherwise a second loop fills a buffer of
      3 * |s| bytes through the write index `ei`, and the filled prefix is the
      result. */
  method Encode(table: array<bool>, s: Bytes) returns (r: Bytes)
    requires UnreservedTable(table)
    ensures r == Encoded(s)
  {
    var encode := false;
    var i := 0;
    while i != |s|
      invariant 0 <= i <= |s|
      invariant forall j :: 0 <= j < i ==> !MustEscape(s[j])
    {
      var c := s[i];
      assert (c > 127 || !table[c as int]) == MustEscape(c);
      if c > 127 || !table[c as int] {
        encode := true;
        break;
      }
      i := i + 1;
    }
    if !encode {
      EncodedUnchanged(s);
      return s;
    }
    var e := new byte[|s| * 3];
    var ei := 0;
    ghost var done: Bytes := [];
    i := 0;
    while i != |s|
      invariant 0 <= i <= |s|
      invariant ei <= 3 * i
      invariant e.Length == 3 * |s|
      invariant done == Encoded(s[..i])
      invariant e[..ei] == done
    {
      var c := s[i];
      EncodedStep(s, i);
      assert (c > 127 || !table[c as int]) == MustEscape(c);
      if c > 127 || !table[c as int] {
        PutEscape(e, ei, c);
        ei := ei + 3;
      } else {
        e[ei] := c;
        assert e[..ei + 1] == done + [c];
        ei := ei + 1;
      }
      done := done + EncodeByte(c);
      i := i + 1;
    }
    assert s[..i] == s;
    r := e[..ei];
  }

  /** The three writes of an escape at `at`: '%', `charsTof[c>>4]` and
      `charsTof[c&0xF]`; the bytes before and after them are left as they were. */
  method PutEscape(e: array<byte>, at: nat, c: byte)
    requires at + 3 <= e.Length
    modifies e
    ensures e[..at + 3] == old(e[..at]) + Escape(c)
    ensures e[at + 3..] == old(e[at + 3..])
  {
    e[at] := Percent;
    e[at + 1] := CharsTof[c as int / 16];
    e[at + 2] := CharsTof[c as int % 16];
  }

  /** The encoding of one more byte: the encoding so far and that byte's own. */
  lemma EncodedStep(s: Bytes, i: int)
    requires 0 <= i < |s|
    ensures Encoded(s[..i + 1]) == Encoded(s[..i]) + EncodeByte(s[i])
  {
    EncodedAppend(s[..i], [s[i]]);
    assert s[..i + 1] == s[..i] + [s[i]];
    assert Encoded([s[i]]) == EncodeByte(s[i]) + Encoded([]);
  }

  lemma {:induction false} EncodedAppend(a: Bytes, b: Bytes)
    ensures Encoded(a + b) == Encoded(a) + Encoded(b)
    decreases |a|
  {
    if a == [] {
      assert a + b == b;
    } else {
      assert (a + b)[1..] == a[1..] + b;
      EncodedAppend(a[1..], b);
    }
  }

  /** Length bounds: every byte becomes one or three bytes, and the result is
      as long as the input exactly when no byte is escaped. */
  lemma {:induction false} EncodedLength(s: Bytes)
    ensures |s| <= |Encoded(s)| <= 3 * |s|
    ensures |Encoded(s)| == |s| <==> forall i :: 0 <= i < |s| ==> !MustEscape(s[i])
    decreases |s|
  {
    if s != [] {
      EncodedLength(s[1..]);
      assert forall i :: 1 <= i < |s| ==> s[i] == s[1..][i - 1];
    }
  }

  /** Encoding leaves a string unchanged exactly when every byte of it is an
      unreserved ASCII character (the empty string included). */
  lemma {:induction false} EncodedUnchanged(s: Bytes)
    ensures Encoded(s) == s <==> forall i :: 0 <= i < |s| ==> !MustEscape(s[i])
    decreases |s|
  {
    EncodedLength(s);
    if s != [] && forall i :: 0 <= i < |s| ==> !MustEscape(s[i]) {
      assert forall i :: 0 <= i < |s[1..]| ==> s[1..][i] == s[i + 1];
      EncodedUnchanged(s[1..]);
      assert [s[0]] + s[1..] == s;
    }
  }

  /** The output alphabet: unreserved characters, '%' and upper-case hex
      digits. Hence the output is ASCII (a byte above 127 is never copied) and
      never contains '=' or '&'. */
  lemma {:induction false} EncodedAlphabet(s: Bytes)
    ensures forall i :: 0 <= i < |Encoded(s)| ==>
      IsUnreserved(Encoded(s)[i] as int) || Encoded(s)[i] == Percent || IsUpperHexDigit(Encoded(s)[i])
    ensures forall i :: 0 <= i < |Encoded(s)| ==> Encoded(s)[i] < 128
    ensures Equals !in Encoded(s) && Ampersand !in Encoded(s)
    decreases |s|
  {
    if s != [] {
      EncodedAlphabet(s[1..]);
      var c := s[0];
      if MustEscape(c) {
        CharsTofTable(c as int / 16);
        CharsTofTable(c as int % 16);
      }
      var e := Encoded(s);
      var h := EncodeByte(c);
      assert e == h + Encoded(s[1..]);
      assert forall i :: |h| <= i < |e| ==> e[i] == Encoded(s[1..])[i - |h|];
    }
  }

  /** A bare byte that is not an unreserved character is escaped, also when
      it is above 127. */
  lemma EscapedByte(c: byte)
    requires c > 127 || !IsUnreserved(c as int)
    ensures Encoded([c]) == [Percent, CharsTof[c as int / 16], CharsTof[c as int % 16]]
    ensures IsUpperHexDigit(Encoded([c])[1]) && UpperHexValue(Encoded([c])[1]) * 16 + UpperHexValue(Encoded([c])[2]) == c as int
  {
    assert [c][1..] == [];
    CharsTofTable(c as int / 16);
    CharsTofTable(c as int % 16);
  }

  /** A reference decoder: "%XX" with upper-case hex digits back to one byte,
      anything else copied. */
  function PercentDecode(e: Bytes): Bytes
    decreases |e|
  {
    if e == [] then []
    else if e[0] == Percent && |e| >= 3 && IsUpperHexDigit(e[1]) && IsUpperHexDigit(e[2]) then
      [(UpperHexValue(e[1]) * 16 + UpperHexValue(e[2])) as byte] + PercentDecode(e[3..])
    else [e[0]] + PercentDecode(e[1..])
  }

  /** Decoding undoes encoding, so distinct strings encode differently. */
  lemma {:induction false} EncodedRoundTrip(s: Bytes)
    ensures PercentDecode(Encoded(s)) == s
    decreases |s|
  {
    if s != [] {
      EncodedRoundTrip(s[1..]);
      var c := s[0];
      var e := Encoded(s);
      if MustEscape(c) {
        CharsTofTable(c as int / 16);
        CharsTofTable(c as int % 16);
        assert e[3..] == Encoded(s[1..]);
      } else {
        assert e[1..] == Encoded(s[1..]);
      }
      assert [c] + s[1..] == s;
    }
  }

  lemma EncodedInjective(a: Bytes, b: Bytes)
    requires Encoded(a) == Encoded(b)
    ensures a == b
  {
    EncodedRoundTrip(a);
    EncodedRoundTrip(b);
  }

  // ---------------------------------------------------------------------------
  // NewSign

  /** `Auth`: the public key identifier and the secret. */
  datatype Auth = Auth(accessKey: Bytes, secretKey: Bytes)

  /** `sign`: the hex signature and the key identifier sent with it. */
  datatype Sign = Sign(signature: Bytes, key: Bytes)

  /** A SHA-512 digest. */
  type Digest = d: Bytes | |d| == 64 witness seq(64, _ => 0)

  /** HMAC-SHA512 (RFC 2104) keyed by the first argument over the second; the
      hash itself is not modelled. */
  type Hmac = (Bytes, Bytes) -> Digest

  /** One element of `sarray`: Encode(k) + "=" + Encode(v). */
  function Piece(k: Bytes, v: Bytes): Bytes
  {
    Encoded(k) + [Equals] + Encoded(v)
  }

  /** The elements of `sarray` when `range params` visits the keys in `order`. */
  function Pieces(params: map<Bytes, Bytes>, order: seq<Bytes>): seq<Bytes>
    requires forall i :: 0 <= i < |order| ==> order[i] in params
  {
    seq(|order|, i requires 0 <= i < |order| => Piece(order[i], params[order[i]]))
  }

  /** The signed payload: the pieces joined by '&'. */
  function Payload(params: map<Bytes, Bytes>, order: seq<Bytes>): Bytes
    requires forall i :: 0 <= i < |order| ==> order[i] in params
  {
    Join(Pieces(params, order), Ampersand)
  }

  /** The signature text: the digest in hex, lower-cased. */
  function SignatureOf(hmac: Hmac, secret: Bytes, payload: Bytes): Bytes
  {
    ToLower(HexEncode(hmac(secret, payload)))
  }

  /** `NewSign`: one piece per parameter in the map's iteration order, joined
      by '&', signed with the secret; the key identifier is passed through. */
  method NewSign(table: array<bool>, hmac: Hmac, auth: Auth, params: map<Bytes, Bytes>)
    returns (s: Sign, ghost order: seq<Bytes>)
    requires UnreservedTable(table)
    ensures Enumerates(order, params.Keys)
    ensures s.key == auth.accessKey
    ensures s.signature == SignatureOf(hmac, auth.secretKey, Payload(params, order))
  {
    var sarray: seq<Bytes> := [];
    var rest := params.Keys;
    order := [];
    while rest != {}
      invariant rest <= params.Keys
      invariant Enumerates(order, params.Keys - rest)
      invariant sarray == Pieces(params, order)
      decreases rest
    {
      var k :| k in rest;
      var ek := Encode(table, k);
      var ev := Encode(table, params[k]);
      sarray := sarray + [ek + [Equals] + ev];
      order := order + [k];
      rest := rest - {k};
    }
    var payload := Join(sarray, Ampersand);
    var digest := hmac(auth.secretKey, payload);
    s := Sign(ToLower(HexEncode(digest)), auth.accessKey);
  }

  /** The signature is 128 lower-case hex digits that spell out the digest of
      the payload; lower-casing the hex text changes nothing. */
  lemma SignatureShape(hmac: Hmac, secret: Bytes, payload: Bytes)
    ensures |SignatureOf(hmac, secret, payload)| == 128
    ensures forall i :: 0 <= i < 128 ==> IsLowerHexDigit(SignatureOf(hmac, secret, payload)[i])
    ensures HexDecode(SignatureOf(hmac, secret, payload)) == hmac(secret, payload)
    ensures SignatureOf(hmac, secret, payload) == HexEncode(hmac(secret, payload))
  {
    HexEncodeShape(hmac(secret, payload));
    ToLowerOfHex(hmac(secret, payload));
  }

  // ---------------------------------------------------------------------------
  // Reading a payload back

  /** The position of the first `b` in `s` (|s| when there is none). */
  function IndexOf(s: Bytes, b: byte): (i: nat)
    ensures i <= |s|
    decreases |s|
  {
    if s == [] || s[0] == b then 0 else 1 + IndexOf(s[1..], b)
  }

  lemma {:induction false} IndexOfAfter(a: Bytes, b: byte, c: Bytes)
    requires b !in a
    ensures IndexOf(a + [b] + c, b) == |a|
    decreases |a|
  {
    if a != [] {
      assert (a + [b] + c)[1..] == a[1..] + [b] + c;
      IndexOfAfter(a[1..], b, c);
    }
  }

  /** A piece split at its first '=', both halves decoded. */
  function ParsePiece(p: Bytes): (Bytes, Bytes)
  {
    var i := IndexOf(p, Equals);
    if i < |p| then (PercentDecode(p[..i]), PercentDecode(p[i + 1..])) else (PercentDecode(p), [])
  }

  /** The map a sequence of pieces describes (a later piece wins a key). */
  function PiecesToMap(ps: seq<Bytes>): map<Bytes, Bytes>
    decreases |ps|
  {
    if ps == [] then map[]
    else
      var kv := ParsePiece(ps[|ps| - 1]);
      PiecesToMap(ps[..|ps| - 1])[kv.0 := kv.1]
  }

  /** A reference reading of a payload as a parameter map. */
  function ParsePayload(payload: Bytes): map<Bytes, Bytes>
  {
    if payload == [] then map[] else PiecesToMap(Split(payload, Ampersand))
  }

  lemma PieceRoundTrip(k: Bytes, v: Bytes)
    ensures ParsePiece(Piece(k, v)) == (k, v)
    ensures multiset(Piece(k, v))[Equals] == 1
    ensures Ampersand !in Piece(k, v)
  {
    var p := Piece(k, v);
    EncodedAlphabet(k);
    EncodedAlphabet(v);
    IndexOfAfter(Encoded(k), Equals, Encoded(v));
    assert p[..|Encoded(k)|] == Encoded(k);
    assert p[|Encoded(k)| + 1..] == Encoded(v);
    EncodedRoundTrip(k);
    EncodedRoundTrip(v);
    assert multiset(p) == multiset(Encoded(k)) + multiset([Equals]) + multiset(Encoded(v));
  }

  lemma {:induction false} PiecesToMapOfPieces(params: map<Bytes, Bytes>, order: seq<Bytes>)
    requires forall i :: 0 <= i < |order| ==> order[i] in params
    ensures forall k :: k in PiecesToMap(Pieces(params, order)) <==> k in order
    ensures forall k :: k in PiecesToMap(Pieces(params, order)) ==> PiecesToMap(Pieces(params, order))[k] == params[k]
    decreases |order|
  {
    if order != [] {
      var n := |order|;
      var init := order[..n - 1];
      var last := order[n - 1];
      var ps := Pieces(params, order);
      assert ps[..n - 1] == Pieces(params, init);
      PiecesToMapOfPieces(params, init);
      PieceRoundTrip(last, params[last]);
      var m0 := PiecesToMap(Pieces(params, init));
      assert PiecesToMap(ps) == m0[last := params[last]];
      assert forall k :: k in order <==> k in init || k == last by {
        assert order == init + [last];
      }
    }
  }

  /** Every piece of the payload has exactly one '=' and no '&'. */
  lemma PiecesSeparated(params: map<Bytes, Bytes>, order: seq<Bytes>)
    requires forall i :: 0 <= i < |order| ==> order[i] in params
    ensures |Pieces(params, order)| == |order|
    ensures forall i :: 0 <= i < |order| ==>
      multiset(Pieces(params, order)[i])[Equals] == 1 && Ampersand !in Pieces(params, order)[i]
  {
    var ps := Pieces(params, order);
    forall i | 0 <= i < |order|
      ensures multiset(ps[i])[Equals] == 1 && Ampersand !in ps[i]
    {
      PieceRoundTrip(order[i], params[order[i]]);
    }
  }

  /** Reading back the pieces of an enumeration of the map gives the map. */
  lemma PiecesReadBack(params: map<Bytes, Bytes>, order: seq<Bytes>)
    requires Enumerates(order, params.Keys)
    ensures PiecesToMap(Pieces(params, order)) == params
  {
    PiecesToMapOfPieces(params, order);
    var m := PiecesToMap(Pieces(params, order));
    assert m.Keys == params.Keys by {
      forall k | k in params ensures k in m {
        var i :| 0 <= i < |order| && order[i] == k;
      }
    }
  }

  /** Whatever order the map is iterated in, the payload holds one piece per
      parameter: splitting it on '&' gives back exactly the pieces, each with
      exactly one '=', and reading it back gives the parameter map itself. */
  lemma PayloadRoundTrip(params: map<Bytes, Bytes>, order: seq<Bytes>)
    requires Enumerates(order, params.Keys)
    ensures |Pieces(params, order)| == |params|
    ensures |params| >= 1 ==> Split(Payload(params, order), Ampersand) == Pieces(params, order)
    ensures forall i :: 0 <= i < |order| ==> multiset(Pieces(params, order)[i])[Equals] == 1
    ensures ParsePayload(Payload(params, order)) == params
  {
    EnumerationSize(order, params.Keys);
    PiecesSeparated(params, order);
    var ps := Pieces(params, order);
    if |params| >= 1 {
      SplitJoin(ps, Ampersand);
      assert Payload(params, order) != [] by {
        assert Equals in ps[0];
        JoinContainsFirst(ps, Ampersand);
      }
      PiecesReadBack(params, order);
    } else {
      assert order == [];
    }
  }

  lemma JoinContainsFirst(parts: seq<Bytes>, sep: byte)
    requires |parts| >= 1
    ensures forall b :: b in parts[0] ==> b in Join(parts, sep)
  {
  }
}
