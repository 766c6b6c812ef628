/** The base62 codec of short codes (internal/domain/link/base62.go).

    `Digits` and `Value` are the mathematical meaning of a code: most significant
    character first, over unbounded numbers.  The two methods are the program's own
    loops: one fills an 11-byte buffer backwards, the other accumulates in 64 bits
    and wraps around.
 */
module Base62 {
  import opened Options

  const NUMERALS: string := "0123456789"
  const UPPER: string := "ABCDEFGHIJKLMNOPQRSTUVWXYZ"
  const LOWER: string := "abcdefghijklmnopqrstuvwxyz"
  const ALPHABET: string := NUMERALS + UPPER + LOWER
  const TWO_64: nat := 0x1_0000_0000_0000_0000
  const BUFFER_SIZE: nat := 11

  type uint64 = n: int | 0 <= n < TWO_64

  /** The position of `c` in the alphabet, by the three character ranges it consists of. */
  function DigitOf(c: char): Option<nat> {
    if '0' <= c <= '9' then Some(c as int - '0' as int)
    else if 'A' <= c <= 'Z' then Some(c as int - 'A' as int + 10)
    else if 'a' <= c <= 'z' then Some(c as int - 'a' as int + 36)
    else None
  }

  function CharOf(d: nat): (c: char)
    requires d < 62
    ensures DigitOf(c) == Some(d)
  {
    if d < 10 then ('0' as int + d) as char
    else if d < 36 then ('A' as int + d - 10) as char
    else ('a' as int + d - 36) as char
  }

  ghost predicate IsBlock(s: string, first: char, size: nat) {
    |s| == size && forall k :: 0 <= k < size ==> s[k] as int == first as int + k
  }

  lemma Blocks()
    ensures IsBlock(NUMERALS, '0', 10) && IsBlock(UPPER, 'A', 26) && IsBlock(LOWER, 'a', 26)
  {
  }

  lemma IndexInBlocks(a: string, b: string, e: string, c: char, d: nat)
    requires IsBlock(a, '0', 10) && IsBlock(b, 'A', 26) && IsBlock(e, 'a', 26)
    ensures |a + b + e| == 62
    ensures DigitOf(c) == Some(d) <==> d < 62 && (a + b + e)[d] == c
  {
  }

  /** DigitOf is the index search over the alphabet, in which no character occurs twice, and
      CharOf the look-up in it. */
  lemma DigitOfIsAlphabetIndex(c: char, d: nat)
    ensures |ALPHABET| == 62
    ensures DigitOf(c) == Some(d) <==> d < 62 && ALPHABET[d] == c
    ensures d < 62 ==> ALPHABET[d] == CharOf(d)
  {
    Blocks();
    IndexInBlocks(NUMERALS, UPPER, LOWER, c, d);
    if d < 62 {
      IndexInBlocks(NUMERALS, UPPER, LOWER, CharOf(d), d);
    }
  }

  predicate IsCode(s: string) {
    forall i :: 0 <= i < |s| ==> DigitOf(s[i]).Some?
  }

  /** The canonical digits of n, without leading zeros; zero has none. */
  function Digits(n: nat): string {
    if n == 0 then "" else Digits(n / 62) + [CharOf(n % 62)]
  }

  /** The code the program issues for n. */
  function Encode(n: nat): string {
    if n == 0 then "0" else Digits(n)
  }

  /** The number a code denotes when nothing wraps around. */
  function Value(s: string): nat
    requires IsCode(s)
  {
    if s == "" then 0 else Value(s[..|s| - 1]) * 62 + DigitOf(s[|s| - 1]).value
  }

  /** What DecodeBase62 returns: None is its error. */
  function Decode(s: string): Option<uint64> {
    if s == "" || !IsCode(s) then None else Some(Value(s) % TWO_64)
  }

  function Pow62(k: nat): nat {
    if k == 0 then 1 else 62 * Pow62(k - 1)
  }

  /** The digits of n have room in so many characters. */
  predicate Fits(n: nat, room: nat) {
    n < Pow62(room)
  }

  lemma BufferHoldsEveryId(id: uint64)
    ensures Fits(id, BUFFER_SIZE)
  {
    assert Pow62(4) == 14776336;
    assert Pow62(8) == 62 * 62 * 62 * 62 * Pow62(4);
    assert Pow62(11) == 62 * 62 * 62 * Pow62(8);
  }

  // ------------------------------------------------------------ the two loops

  method EncodeBase62(id: uint64) returns (s: string)
    ensures s == Encode(id)
  {
    if id == 0 {
      return "0";
    }
    var n: int := id;
    var buf := new char[BUFFER_SIZE];
    var i := buf.Length;
    BufferHoldsEveryId(id);
    while n > 0
      invariant 0 <= i <= buf.Length
      invariant 0 <= n && Fits(n, i)
      invariant Digits(id) == Digits(n) + buf[i..]
    {
      ghost var written := buf[i..];
      OneDigit(id, n, i, written);
      i := i - 1;
      var c := Letter(n % 62);
      buf[i] := c;
      assert buf[i..] == [buf[i]] + written;
      n := n / 62;
    }
    return buf[i..];
  }

  method Letter(d: nat) returns (c: char)
    requires d < 62
    ensures c == CharOf(d)
  {
    DigitOfIsAlphabetIndex('0', d);
    c := ALPHABET[d];
  }

  lemma OneDigit(id: nat, n: nat, room: nat, written: string)
    requires 0 < n && Fits(n, room) && Digits(id) == Digits(n) + written
    ensures 0 < room && Fits(n / 62, room - 1)
    ensures Digits(id) == Digits(n / 62) + ([CharOf(n % 62)] + written)
  {
    assert Digits(n) == Digits(n / 62) + [CharOf(n % 62)];
  }

  method DecodeBase62(s: string) returns (r: Option<uint64>)
    ensures r == Decode(s)
  {
    if s == "" {
      return None;
    }
    var n: uint64 := 0;
    for k := 0 to |s|
      invariant IsCode(s[..k])
      invariant n == Value(s[..k]) % TWO_64
    {
      var idx := DigitOf(s[k]);
      if idx.None? {
        return None;
      }
      assert s[..k + 1][..k] == s[..k];
      WrapIsHarmless(Value(s[..k]), idx.value);
      n := (n * 62 + idx.value) % TWO_64;
    }
    assert s[..|s|] == s;
    return Some(n);
  }

  lemma WrapIsHarmless(v: nat, d: nat)
    ensures (v % TWO_64 * 62 + d) % TWO_64 == (v * 62 + d) % TWO_64
  {
    var q, m := v / TWO_64, v % TWO_64;
    assert v == q * TWO_64 + m;
    ModAddMultiple(m * 62 + d, q * 62, TWO_64);
  }

  lemma ModAddMultiple(a: int, k: int, m: int)
    requires 0 < m
    ensures (a + k * m) % m == a % m
  {
    var q, r := a / m, a % m;
    var q', r' := (a + k * m) / m, (a + k * m) % m;
    assert a == q * m + r && a + k * m == q' * m + r';
    MultipleInsideRange(q' - q - k, m, r - r');
  }

  lemma MultipleInsideRange(z: int, m: int, x: int)
    requires 0 < m && -m < x < m && z * m == x
    ensures x == 0
  {
    if z >= 1 {
      assert false;
    } else if z <= -1 {
      assert false;
    }
  }

  // ------------------------------------------------------------- round trips

  lemma {:induction false} DigitsDenote(n: nat)
    ensures IsCode(Digits(n)) && Value(Digits(n)) == n
  {
    if n != 0 {
      DigitsDenote(n / 62);
      var s := Digits(n);
      assert s[..|s| - 1] == Digits(n / 62);
    }
  }

  lemma EncodeDenotes(n: nat)
    ensures Encode(n) != "" && IsCode(Encode(n)) && Value(Encode(n)) == n
  {
    DigitsDenote(n);
    assert "0"[..0] == "" && Value("") == 0;
  }

  lemma FitsOrWraps(v: nat)
    ensures 0 <= v % TWO_64 < TWO_64 && (v % TWO_64 == v <==> v < TWO_64)
  {
  }

  /** decode(encode(n)) == n for every 64-bit n. */
  lemma RoundTrip(n: uint64)
    ensures Decode(Encode(n)) == Some(n)
  {
    EncodeDenotes(n);
    FitsOrWraps(n);
  }

  lemma EncodeInjective(m: nat, n: nat)
    requires Encode(m) == Encode(n)
    ensures m == n
  {
    EncodeDenotes(m);
    EncodeDenotes(n);
  }

  lemma DistinctValuesEncodeApart(m: nat, n: nat)
    ensures Encode(m) == Encode(n) <==> m == n
  {
    if Encode(m) == Encode(n) {
      EncodeInjective(m, n);
    }
  }

  function StripZeros(s: string): string {
    if |s| > 1 && s[0] == '0' then StripZeros(s[1..]) else s
  }

  lemma {:induction false} LeadingZeroAddsNothing(s: string)
    requires IsCode(s)
    ensures IsCode("0" + s) && Value("0" + s) == Value(s)
  {
    if s == "" {
      assert ("0" + s)[..0] == "";
    } else {
      var t := s[..|s| - 1];
      LeadingZeroAddsNothing(t);
      assert ("0" + s)[..|s|] == "0" + t;
    }
  }

  lemma DigitsAppend(v: nat, d: nat)
    requires d < 62 && 0 < v * 62 + d
    ensures Digits(v * 62 + d) == Digits(v) + [CharOf(d)]
  {
    assert (v * 62 + d) / 62 == v && (v * 62 + d) % 62 == d;
  }

  lemma LastIsChar(s: string)
    requires IsCode(s) && s != ""
    ensures s == s[..|s| - 1] + [CharOf(DigitOf(s[|s| - 1]).value)]
    ensures DigitOf(s[|s| - 1]).value < 62 && (s[|s| - 1] == '0' <==> DigitOf(s[|s| - 1]).value == 0)
  {
  }

  lemma {:induction false} CanonicalDigits(s: string)
    requires IsCode(s) && (s == "" || s[0] != '0')
    ensures Digits(Value(s)) == s && (s != "" ==> Value(s) > 0)
  {
    if s != "" {
      var t, d := s[..|s| - 1], DigitOf(s[|s| - 1]).value;
      CanonicalDigits(t);
      LastIsChar(s);
      DigitsAppend(Value(t), d);
    }
  }

  lemma {:induction false} EncodeStrips(s: string)
    requires s != "" && IsCode(s)
    ensures Encode(Value(s)) == StripZeros(s)
  {
    if s[0] != '0' {
      CanonicalDigits(s);
    } else if |s| == 1 {
      assert s[..0] == "";
    } else {
      assert s == "0" + s[1..];
      LeadingZeroAddsNothing(s[1..]);
      EncodeStrips(s[1..]);
    }
  }

  /** encode(decode(s)) strips the leading zeros, exactly when the value fits in 64 bits. */
  lemma DecodeThenEncode(s: string)
    requires s != "" && IsCode(s)
    ensures Encode(Decode(s).value) == StripZeros(s) <==> Value(s) < TWO_64
  {
    EncodeStrips(s);
    FitsOrWraps(Value(s));
    DistinctValuesEncodeApart(Value(s) % TWO_64, Value(s));
  }

  const LONG: string := "zzzzzzzzzzz"

  /** A valid code that decodes to a number whose code is another: its value is 62^11 - 1. */
  lemma LongCodeIsNotCanonical()
    ensures IsCode(LONG) && StripZeros(LONG) == LONG
    ensures Decode(LONG) == Some(15143072536417990655) && Encode(15143072536417990655) != LONG
  {
    LongDecodes();
    DecodeThenEncode(LONG);
  }

  lemma LongDecodes()
    ensures IsCode(LONG) && Value(LONG) == 52036560683837093887 && Decode(LONG) == Some(15143072536417990655)
  {
    ValuesOfLong(11);
    assert LONG[..11] == LONG;
    assert Zs(6) == 56800235583;
    assert Zs(11) == 52036560683837093887;
  }

  lemma {:induction false} ValuesOfLong(k: nat)
    requires k <= 11
    ensures IsCode(LONG[..k]) && Value(LONG[..k]) == Zs(k)
  {
    if k > 0 {
      ValuesOfLong(k - 1);
      assert LONG[..k][..k - 1] == LONG[..k - 1];
    }
  }

  /** The value of as many z's. */
  function Zs(k: nat): nat {
    if k == 0 then 0 else Zs(k - 1) * 62 + 61
  }

  /** Decoding fails on the empty string and on strings with a character outside the alphabet,
      and on no others. */
  lemma DecodeFailsExactlyWhen(s: string)
    ensures Decode(s).None? <==> s == "" || exists c :: c in s && c !in ALPHABET
  {
    forall c | c in s
      ensures c in ALPHABET <==> DigitOf(c).Some?
    {
      InAlphabetExactlyWhen(c);
    }
    if s != "" && !IsCode(s) {
      var i :| 0 <= i < |s| && DigitOf(s[i]).None?;
      assert s[i] in s;
    }
    if IsCode(s) {
      assert forall c :: c in s ==> DigitOf(c).Some?;
    }
  }

  lemma InAlphabetExactlyWhen(c: char)
    ensures c in ALPHABET <==> DigitOf(c).Some?
  {
    if DigitOf(c).Some? {
      DigitOfIsAlphabetIndex(c, DigitOf(c).value);
    }
    if c in ALPHABET {
      var d :| 0 <= d < |ALPHABET| && ALPHABET[d] == c;
      DigitOfIsAlphabetIndex(c, d);
    }
  }

  // -------------------------------------------------------------------- order

  /** Bytewise comparison of two strings, as sort.Strings and MySQL's binary order do it. */
  predicate Less(a: string, b: string) {
    b != "" && (a == "" || a[0] < b[0] || (a[0] == b[0] && Less(a[1..], b[1..])))
  }

  lemma Horner(h: int, p: int, v: int, d: int)
    ensures (h * p + v) * 62 + d == h * (62 * p) + (v * 62 + d)
  {
  }

  lemma LastDigit(s: string)
    requires IsCode(s) && s != ""
    ensures Value(s) == Value(s[..|s| - 1]) * 62 + DigitOf(s[|s| - 1]).value
  {
  }

  lemma CodesConcat(a: string, b: string)
    ensures IsCode(a + b) <==> IsCode(a) && IsCode(b)
  {
    if IsCode(a + b) {
      assert forall i :: 0 <= i < |a| ==> a[i] == (a + b)[i];
      assert forall i :: 0 <= i < |b| ==> b[i] == (a + b)[|a| + i];
    }
  }

  lemma ShiftOne(whole: int, front: int, p: int, most: int, back: int, d: int)
    requires whole == (front * p + most) * 62 + d && back == most * 62 + d
    ensures whole == front * (62 * p) + back
  {
    Horner(front, p, most, d);
  }

  /** A concatenation denotes its front part, shifted by the length of the back part, plus the
      back part. */
  lemma {:induction false} ValueConcat(front: string, back: string)
    requires IsCode(front) && IsCode(back)
    ensures IsCode(front + back) && Value(front + back) == Value(front) * Pow62(|back|) + Value(back)
  {
    CodesConcat(front, back);
    if back == "" {
      assert front + back == front;
    } else {
      var most := back[..|back| - 1];
      ValueConcat(front, most);
      assert (front + back)[..|front + back| - 1] == front + most;
      LastDigit(front + back);
      LastDigit(back);
      ShiftOne(Value(front + back), Value(front), Pow62(|most|), Value(most), Value(back), DigitOf(back[|back| - 1]).value);
    }
  }

  lemma {:induction false} ValueBound(s: string)
    requires IsCode(s)
    ensures Value(s) < Pow62(|s|)
  {
    if s != "" {
      ValueBound(s[..|s| - 1]);
    }
  }

  lemma SingleDigit(c: char)
    requires DigitOf(c).Some?
    ensures IsCode([c]) && Value([c]) == DigitOf(c).value
  {
    assert [c][..0] == "";
  }

  lemma ValueOfHead(s: string)
    requires IsCode(s) && s != ""
    ensures IsCode(s[..1]) && IsCode(s[1..]) && Value(s[..1]) == DigitOf(s[0]).value
    ensures Value(s) == Value(s[..1]) * Pow62(|s| - 1) + Value(s[1..])
    ensures Value(s[1..]) < Pow62(|s| - 1)
  {
    var head, tail := s[..1], s[1..];
    assert s == head + tail && head == [s[0]];
    CodesConcat(head, tail);
    ValueConcat(head, tail);
    ValueBound(tail);
    SingleDigit(s[0]);
  }

  lemma Dominates(x: nat, y: nat, p: nat, v: nat, w: nat)
    requires v < p && w < p
    ensures x < y ==> x * p + v < y * p + w
    ensures y < x ==> y * p + w < x * p + v
  {
    if x < y {
      assert (x + 1) * p <= y * p;
    } else if y < x {
      assert (y + 1) * p <= x * p;
    }
  }

  /** Equal-length codes compare bytewise exactly as the numbers they denote. */
  lemma {:induction false} OrderAgrees(a: string, b: string)
    requires IsCode(a) && IsCode(b) && |a| == |b|
    ensures Less(a, b) <==> Value(a) < Value(b)
  {
    if a != "" {
      ValueOfHead(a);
      ValueOfHead(b);
      OrderAgrees(a[1..], b[1..]);
      Dominates(Value(a[..1]), Value(b[..1]), Pow62(|a| - 1), Value(a[1..]), Value(b[1..]));
    }
  }

  /** Codes of equal length sort exactly as the ids they were issued for. */
  lemma CodesSortLikeIds(m: uint64, n: uint64)
    requires |Encode(m)| == |Encode(n)|
    ensures Less(Encode(m), Encode(n)) <==> m < n
  {
    EncodeDenotes(m);
    EncodeDenotes(n);
    OrderAgrees(Encode(m), Encode(n));
  }
}
