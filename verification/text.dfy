/** The decimal text the plugin builds from ids and hardware-id bytes. */
module Text {
  import opened Widths

  predicate IsDigit(c: char) {
    '0' <= c <= '9'
  }

  predicate AllDigits(s: string) {
    forall i | 0 <= i < |s| :: IsDigit(s[i])
  }

  function DigitChar(d: nat): (c: char)
    requires d < 10
    ensures IsDigit(c)
  {
    ('0' as int + d) as char
  }

  function DigitValue(c: char): (d: nat)
    requires IsDigit(c)
    ensures d < 10
    ensures DigitChar(d) == c
  {
    c as int - '0' as int
  }

  /** The text .NET's `ToString()` gives an unsigned integer: decimal digits, no sign, no leading zero. */
  function Decimal(n: nat): (s: string)
    ensures |s| > 0
    ensures AllDigits(s)
    ensures s[0] == '0' ==> n == 0
    ensures n < 10 <==> |s| == 1
    decreases n
  {
    if n < 10 then [DigitChar(n)] else Decimal(n / 10) + [DigitChar(n % 10)]
  }

  /** The number a string of decimal digits denotes; the reading partner of `Decimal`. */
  function ParseDecimal(s: string): (n: nat)
    requires AllDigits(s)
  {
    if |s| == 0 then 0 else ParseDecimal(s[..|s| - 1]) * 10 + DigitValue(s[|s| - 1])
  }

  /** Reading back the decimal text of a number gives the number. */
  lemma {:induction false} ParseDecimalOfDecimal(n: nat)
    ensures ParseDecimal(Decimal(n)) == n
    decreases n
  {
    var s := Decimal(n);
    if n >= 10 {
      var p := Decimal(n / 10);
      assert s[..|s| - 1] == p;
      assert DigitValue(s[|s| - 1]) == n % 10;
      ParseDecimalOfDecimal(n / 10);
    }
  }

  /** Distinct numbers never share a decimal text. */
  lemma DecimalInjective(m: nat, n: nat)
    ensures Decimal(m) == Decimal(n) ==> m == n
  {
    ParseDecimalOfDecimal(m);
    ParseDecimalOfDecimal(n);
  }

  /** A byte is written with one to three digits. */
  lemma ByteDecimalLength(b: u8)
    ensures 1 <= |Decimal(b)| <= 3
  {
  }

  /**
   * `string.Join("", bytes)` over a hardware id: the decimal text of every byte,
   * concatenated with no separator.
   */
  function JoinBytes(bytes: seq<u8>): (s: string)
    ensures |bytes| <= |s| <= 3 * |bytes|
    ensures AllDigits(s)
    ensures |s| == 0 <==> |bytes| == 0
  {
    if |bytes| == 0 then ""
    else
      ByteDecimalLength(bytes[0]);
      Decimal(bytes[0]) + JoinBytes(bytes[1..])
  }

  /** Joining two byte runs one after the other is joining each and concatenating the texts. */
  lemma {:induction false} JoinBytesAppend(a: seq<u8>, b: seq<u8>)
    ensures JoinBytes(a + b) == JoinBytes(a) + JoinBytes(b)
  {
    if |a| > 0 {
      assert (a + b)[1..] == a[1..] + b;
      JoinBytesAppend(a[1..], b);
    } else {
      assert a + b == b;
    }
  }

  /**
   * Without a separator the join forgets where one byte ends and the next begins:
   * the hardware ids [1, 23] and [12, 3] are recorded as the same text.
   */
  lemma JoinBytesCollides()
    ensures JoinBytes([1, 23]) == JoinBytes([12, 3]) == "123"
  {
  }
}
