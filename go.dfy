/** Go's value model as far as the client relies on it: byte strings, int64
    arithmetic, `range` over a map, and the few standard-library string
    functions the client calls (strings.Join, strings.ToLower,
    hex.EncodeToString, fmt.Sprint of an integer). */
module Go {

  /** A Go string is a sequence of bytes. */
  newtype byte = b: int | 0 <= b < 256
  type Bytes = seq<byte>

  const Minus: byte := 45  // '-'

  /** The bytes of an ASCII string literal. */
  function Ascii(s: string): (r: Bytes)
    requires forall i :: 0 <= i < |s| ==> s[i] < 128 as char
    ensures |r| == |s|
    ensures forall i :: 0 <= i < |s| ==> r[i] as int == s[i] as int
  {
    seq(|s|, i requires 0 <= i < |s| => s[i] as int as byte)
  }

  /** A prefix one element longer. */
  lemma PrefixStep<T>(s: seq<T>, i: int)
    requires 0 <= i < |s|
    ensures s[..i + 1] == s[..i] + [s[i]]
  {
  }

  // ---------------------------------------------------------------------------
  // int64

  const MinInt64: int := -0x8000_0000_0000_0000
  const MaxInt64: int := 0x7FFF_FFFF_FFFF_FFFF
  type Int64 = x: int | MinInt64 <= x <= MaxInt64

  /** `n + 1` on a Go int64, which wraps around at the top of the range. */
  function Int64Succ(n: Int64): (r: Int64)
    ensures n < MaxInt64 ==> r == n + 1
  {
    if n == MaxInt64 then MinInt64 else n + 1
  }

  /** Int64Succ is two's-complement addition of one: the result is
      congruent to n + 1 modulo 2^64, and so lies in the int64 range. */
  lemma Int64SuccModular(n: Int64)
    ensures (Int64Succ(n) - MinInt64) == (n - MinInt64 + 1) % 0x1_0000_0000_0000_0000
  {
  }

  // ---------------------------------------------------------------------------
  // fmt.Sprint of an integer

  predicate IsDigit(b: byte) { 48 <= b <= 57 }

  /** Decimal digits of a natural number, most significant first. */
  function NatDigits(n: nat): Bytes
    decreases n
  {
    if n < 10 then [(48 + n) as byte] else NatDigits(n / 10) + [(48 + n % 10) as byte]
  }

  /** fmt.Sprint of an integer: an optional '-' and then the decimal digits. */
  function Decimal(n: int): Bytes
  {
    if n < 0 then [Minus] + NatDigits(-n) else NatDigits(n)
  }

  /** Reads the digits of `s` as a number (a reference parser for Decimal). */
  function ParseNat(s: Bytes): int
    decreases |s|
  {
    if s == [] then 0 else ParseNat(s[..|s| - 1]) * 10 + (s[|s| - 1] as int - 48)
  }

  function ParseDecimal(s: Bytes): int
  {
    if |s| > 0 && s[0] == Minus then -ParseNat(s[1..]) else ParseNat(s)
  }

  lemma {:induction false} NatDigitsRoundTrip(n: nat)
    ensures |NatDigits(n)| >= 1
    ensures forall i :: 0 <= i < |NatDigits(n)| ==> IsDigit(NatDigits(n)[i])
    ensures ParseNat(NatDigits(n)) == n
    decreases n
  {
    if n >= 10 {
      NatDigitsRoundTrip(n / 10);
      var d := NatDigits(n);
      assert d[..|d| - 1] == NatDigits(n / 10);
    }
  }

  /** Sprint of an integer is a non-empty string of digits with at most a
      leading '-', and it can be read back: distinct numbers print differently. */
  lemma DecimalRoundTrip(n: int)
    ensures |Decimal(n)| >= 1
    ensures forall i :: 0 <= i < |Decimal(n)| ==> IsDigit(Decimal(n)[i]) || (i == 0 && Decimal(n)[i] == Minus)
    ensures (Decimal(n)[0] == Minus) <==> n < 0
    ensures ParseDecimal(Decimal(n)) == n
  {
    if n < 0 {
      var digits := NatDigits(-n);
      NatDigitsRoundTrip(-n);
      var d := [Minus] + digits;
      assert d[1..] == digits;
      assert forall i :: 1 <= i < |d| ==> IsDigit(d[i]) by {
        forall i | 1 <= i < |d| ensures IsDigit(d[i]) {
          assert d[i] == digits[i - 1];
        }
      }
      assert Decimal(n) == d;
    } else {
      NatDigitsRoundTrip(n);
    }
  }

  lemma DecimalInjective(a: int, b: int)
    requires Decimal(a) == Decimal(b)
    ensures a == b
  {
    DecimalRoundTrip(a);
    DecimalRoundTrip(b);
  }

  // ---------------------------------------------------------------------------
  // strings.Join and strings.Split with a one-byte separator

  function Join(parts: seq<Bytes>, sep: byte): Bytes
    decreases |parts|
  {
    if |parts| == 0 then []
    else if |parts| == 1 then parts[0]
    else parts[0] + [sep] + Join(parts[1..], sep)
  }

  /** strings.Split: the pieces between the separators; the empty string
      splits into one empty piece. */
  function Split(s: Bytes, sep: byte): (r: seq<Bytes>)
    ensures |r| >= 1
    decreases |s|
  {
    if s == [] then [[]]
    else
      var t := Split(s[1..], sep);
      if s[0] == sep then [[]] + t else [[s[0]] + t[0]] + t[1..]
  }

  lemma {:induction false} SplitWithoutSeparator(p: Bytes, sep: byte)
    requires sep !in p
    ensures Split(p, sep) == [p]
    decreases |p|
  {
    if p != [] {
      SplitWithoutSeparator(p[1..], sep);
      assert [p[0]] + p[1..] == p;
    }
  }

  lemma {:induction false} SplitAfterPiece(p: Bytes, sep: byte, rest: Bytes)
    requires sep !in p
    ensures Split(p + [sep] + rest, sep) == [p] + Split(rest, sep)
    decreases |p|
  {
    var s := p + [sep] + rest;
    if p == [] {
      assert s[1..] == rest;
    } else {
      assert s[1..] == p[1..] + [sep] + rest;
      SplitAfterPiece(p[1..], sep, rest);
      assert [p[0]] + p[1..] == p;
    }
  }

  /** Splitting a join recovers the parts, provided none of them contains the
      separator. */
  lemma {:induction false} SplitJoin(parts: seq<Bytes>, sep: byte)
    requires |parts| >= 1
    requires forall i :: 0 <= i < |parts| ==> sep !in parts[i]
    ensures Split(Join(parts, sep), sep) == parts
    decreases |parts|
  {
    if |parts| == 1 {
      SplitWithoutSeparator(parts[0], sep);
    } else {
      SplitJoin(parts[1..], sep);
      SplitAfterPiece(parts[0], sep, Join(parts[1..], sep));
      assert [parts[0]] + parts[1..] == parts;
    }
  }

  // ---------------------------------------------------------------------------
  // hex.EncodeToString and strings.ToLower

  /** encoding/hex's digit table. */
  const LowerHexDigits: Bytes := Ascii("0123456789abcdef")

  predicate IsLowerHexDigit(b: byte) { 48 <= b <= 57 || 97 <= b <= 102 }

  /** The value of a lower-case hex digit (0 for any other byte). */
  function LowerHexValue(b: byte): (v: int)
    ensures 0 <= v < 16
  {
    if 48 <= b <= 57 then b as int - 48 else if 97 <= b <= 102 then b as int - 87 else 0
  }

  lemma LowerHexDigitsTable(v: int)
    requires 0 <= v < 16
    ensures IsLowerHexDigit(LowerHexDigits[v]) && LowerHexValue(LowerHexDigits[v]) == v
  {
  }

  /** hex.EncodeToString: two lower-case digits per byte, high nibble first. */
  function HexEncode(d: Bytes): Bytes
    decreases |d|
  {
    if d == [] then []
    else [LowerHexDigits[d[0] as int / 16], LowerHexDigits[d[0] as int % 16]] + HexEncode(d[1..])
  }

  /** A reference decoder: each pair of digits back to one byte. */
  function HexDecode(h: Bytes): Bytes
    decreases |h|
  {
    if |h| < 2 then [] else [(LowerHexValue(h[0]) * 16 + LowerHexValue(h[1])) as byte] + HexDecode(h[2..])
  }

  /** One byte's two digits are lower-case hex and spell the byte. */
  lemma HexByte(b: byte)
    ensures IsLowerHexDigit(LowerHexDigits[b as int / 16]) && IsLowerHexDigit(LowerHexDigits[b as int % 16])
    ensures LowerHexValue(LowerHexDigits[b as int / 16]) * 16 + LowerHexValue(LowerHexDigits[b as int % 16]) == b as int
  {
    var hi, lo := b as int / 16, b as int % 16;
    LowerHexDigitsTable(hi);
    LowerHexDigitsTable(lo);
  }

  lemma {:induction false} HexEncodeShape(d: Bytes)
    ensures |HexEncode(d)| == 2 * |d|
    ensures forall i :: 0 <= i < |HexEncode(d)| ==> IsLowerHexDigit(HexEncode(d)[i])
    ensures HexDecode(HexEncode(d)) == d
    decreases |d|
  {
    if d != [] {
      var t := HexEncode(d[1..]);
      HexEncodeShape(d[1..]);
      HexByte(d[0]);
      var pair := [LowerHexDigits[d[0] as int / 16], LowerHexDigits[d[0] as int % 16]];
      var h := HexEncode(d);
      assert h == pair + t;
      assert h[2..] == t;
      assert HexDecode(h) == [d[0]] + HexDecode(t);
      assert [d[0]] + d[1..] == d;
    }
  }

  /** strings.ToLower on ASCII text: 'A'..'Z' become 'a'..'z'. */
  function ToLower(s: Bytes): (r: Bytes)
    ensures |r| == |s|
  {
    seq(|s|, i requires 0 <= i < |s| => if 65 <= s[i] <= 90 then s[i] + 32 else s[i])
  }

  /** Lower-casing lower-case hex text changes nothing. */
  lemma ToLowerOfHex(d: Bytes)
    ensures ToLower(HexEncode(d)) == HexEncode(d)
  {
    HexEncodeShape(d);
  }

  // ---------------------------------------------------------------------------
  // `for k := range m`

  /** `order` lists every key of `keys` exactly once: one of the orders in
      which Go may iterate over a map with these keys. */
  ghost predicate Enumerates<K>(order: seq<K>, keys: set<K>)
  {
    && (forall i, j :: 0 <= i < j < |order| ==> order[i] != order[j])
    && (forall i :: 0 <= i < |order| ==> order[i] in keys)
    && (forall k :: k in keys ==> k in order)
  }

  /** Some enumeration of a finite set. */
  ghost function AnyOrder<K>(keys: set<K>): (order: seq<K>)
    ensures Enumerates(order, keys)
    decreases keys
  {
    if keys == {} then []
    else
      var k :| k in keys;
      var rest := AnyOrder(keys - {k});
      assert forall j :: 0 <= j < |rest| ==> rest[j] != k;
      [k] + rest
  }

  lemma {:induction false} EnumerationSize<K>(order: seq<K>, keys: set<K>)
    requires Enumerates(order, keys)
    ensures |order| == |keys|
    decreases |order|
  {
    if order != [] {
      var last := order[|order| - 1];
      var init := order[..|order| - 1];
      assert forall k :: k in keys - {last} ==> k in init by {
        forall k | k in keys - {last} ensures k in init {
          var i :| 0 <= i < |order| && order[i] == k;
          assert init[i] == k;
        }
      }
      EnumerationSize(init, keys - {last});
    }
  }

  /** Visiting one more key extends the enumeration of the keys visited. */
  lemma EnumerationStep<K>(order: seq<K>, done: set<K>, k: K)
    requires Enumerates(order, done) && k !in done
    ensures Enumerates(order + [k], done + {k})
  {
    var o := order + [k];
    forall x | x in done + {k} ensures x in o {
      if x != k {
        var i :| 0 <= i < |order| && order[i] == x;
        assert o[i] == x;
      }
    }
  }

  /** Two enumerations of disjoint sets, one after the other, enumerate the union. */
  lemma EnumerationsConcat<K>(o1: seq<K>, s1: set<K>, o2: seq<K>, s2: set<K>)
    requires Enumerates(o1, s1) && Enumerates(o2, s2) && s1 !! s2
    ensures Enumerates(o1 + o2, s1 + s2)
  {
    var o := o1 + o2;
    forall i, j | 0 <= i < j < |o| ensures o[i] != o[j] {
      if j < |o1| {
      } else if i >= |o1| {
        assert o[i] == o2[i - |o1|] && o[j] == o2[j - |o1|];
      } else {
        assert o[i] in s1 && o[j] == o2[j - |o1|];
      }
    }
    forall k | k in s1 + s2 ensures k in o {
      if k in s1 {
        var i :| 0 <= i < |o1| && o1[i] == k;
        assert o[i] == k;
      } else {
        var i :| 0 <= i < |o2| && o2[i] == k;
        assert o[|o1| + i] == k;
      }
    }
  }
}
