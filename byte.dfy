/** byte.go: storage quantities.  A Bytes value counts bits; one byte is 8 of
    them and the prefixes K, M, G, T, P, E are successive powers of 1024.
    Text is a decimal count, an optional prefix letter and the marker 'B'. */
module ByteUnit {
  import opened Decimal
  import opened Units

  const Byte: Bytes := 8
  const Kilobyte: Bytes := 1024 * Byte
  const Megabyte: Bytes := 1024 * Kilobyte
  const Gigabyte: Bytes := 1024 * Megabyte
  const Terabyte: Bytes := 1024 * Gigabyte
  const Petabyte: Bytes := 1024 * Terabyte
  const Exabyte: Bytes := 1024 * Petabyte

  const MaxByteUnit: Bytes := U64_LIMIT - 1
  const MinByteUnit: Bytes := 0

  /** The units by rank: ByteScale[k] is the unit of prefix Prefixes[k - 1]. */
  const ByteScale: seq<Bytes> := [Byte, Kilobyte, Megabyte, Gigabyte, Terabyte, Petabyte, Exabyte]

  const ByteFamily: Family := Family('B', Byte, 1024, "Invalid Byte")

  /** The family's units are exactly the constants of byte.go, the largest is
      2^63, and the family fits the 64-bit count. */
  lemma ByteTable()
    ensures Exabyte == 0x8000_0000_0000_0000
    ensures WellFormed(ByteFamily)
  {
    assert Unit(ByteFamily, 0) == Byte;
    assert Unit(ByteFamily, 1) == Kilobyte;
    assert Unit(ByteFamily, 2) == Megabyte;
    assert Unit(ByteFamily, 3) == Gigabyte;
    assert Unit(ByteFamily, 4) == Terabyte;
    assert Unit(ByteFamily, 5) == Petabyte;
    assert Unit(ByteFamily, 6) == Exabyte;
  }

  /** The unit of rank k is the k-th constant of the table. */
  lemma ByteUnitAt(k: nat)
    requires k <= MaxRank
    ensures Unit(ByteFamily, k) == ByteScale[k]
  {
    assert Unit(ByteFamily, 0) == Byte;
    assert Unit(ByteFamily, 1) == Kilobyte;
    assert Unit(ByteFamily, 2) == Megabyte;
    assert Unit(ByteFamily, 3) == Gigabyte;
    assert Unit(ByteFamily, 4) == Terabyte;
    assert Unit(ByteFamily, 5) == Petabyte;
    assert Unit(ByteFamily, 6) == Exabyte;
  }

  /** The units String compares against for b, as table constants. */
  lemma ByteRankUnits(b: nat)
    ensures Unit(ByteFamily, 1) == Kilobyte
    ensures Rank(ByteFamily, b) == 0 <==> b < Kilobyte
    ensures Unit(ByteFamily, Rank(ByteFamily, b)) == ByteScale[Rank(ByteFamily, b)]
    ensures Rank(ByteFamily, b) < MaxRank ==>
      Unit(ByteFamily, Rank(ByteFamily, b) + 1) == ByteScale[Rank(ByteFamily, b) + 1]
  {
    var k := Rank(ByteFamily, b);
    ByteUnitAt(1);
    if b < Kilobyte {
      ByteTable();
      RankUnique(ByteFamily, b, 0);
    }
    ByteUnitAt(k);
    if k < MaxRank {
      ByteUnitAt(k + 1);
    }
  }

  /** ParseBytes.  The empty string is 0; anything else must end in 'B' and
      be at least two characters long; the character before the 'B' must be
      an upper-case prefix letter or a digit. */
  function ParseBytes(s: string): (r: Result<Bytes>)
    ensures s == "" ==> r == Ok(0)
    ensures s != "" && (|s| < 2 || s[|s| - 1] != 'B') ==> r == Err(InvalidUnit("Invalid Byte"))
    ensures |s| >= 2 && s[|s| - 1] == 'B' && s[|s| - 2] !in Prefixes && !IsDigit(s[|s| - 2]) ==>
      r == Err(InvalidUnit("Invalid Byte"))
  {
    Parse(ByteFamily, s)
  }

  /** A digit literal followed by the spelling of rank k reads as the literal
      times the k-th unit (8, 8192, ..., 2^63), or fails when that does not
      fit in 64 bits. */
  lemma ParseBytesPrefix(d: string, k: nat)
    requires IsDigits(d) && |d| >= 1 && k <= MaxRank
    ensures ParseBytes(d + (if k == 0 then "" else [Prefixes[k - 1]]) + "B") ==
      if Value(d) * ByteScale[k] < U64_LIMIT then Ok(Value(d) * ByteScale[k]) else Err(OutOfRange)
  {
    ByteUnitAt(k);
    ParsePrefixed(ByteFamily, d, k, ByteScale[k]);
  }

  /** Worked case: "5B" is five bytes, 40 bits. */
  lemma ParseBytesCount()
    ensures ParseBytes("5B") == Ok(40)
  {
    ParseBytesPrefix("5", 0);
    assert "5" + "" + "B" == "5B";
  }

  /** Worked case: "1KB" is one kilobyte, 8192 bits. */
  lemma ParseBytesKilobyte()
    ensures ParseBytes("1KB") == Ok(8192)
  {
    var s := "1" + [Prefixes[0]] + "B";
    assert s == "1KB";
    assert Value("1") * ByteScale[1] == 8192;
    ParseBytesPrefix("1", 1);
  }

  /** "1EB" is the exabyte, 2^63 bits, the largest unit. */
  lemma ParseBytesExabyte()
    ensures ParseBytes("1EB") == Ok(0x8000_0000_0000_0000)
  {
    assert Value("1") == 1;
    ByteTable();
    ByteUnitAt(6);
    ParseSpelling(ByteFamily, "1", 6);
    assert Spelling(ByteFamily, Split("1", 6)) == "1EB";
  }

  /** Worked failures: "KB" and "EB" have no number; "5b", "B", "abc" and a
      lower-case prefix fail on the suffix. */
  lemma ParseBytesRejects()
    ensures ParseBytes("KB") == Err(InvalidSyntax) && ParseBytes("EB") == Err(InvalidSyntax)
    ensures ParseBytes("5b") == Err(InvalidUnit("Invalid Byte"))
    ensures ParseBytes("B") == Err(InvalidUnit("Invalid Byte"))
    ensures ParseBytes("abc") == Err(InvalidUnit("Invalid Byte"))
    ensures ParseBytes("1kB") == Err(InvalidUnit("Invalid Byte"))
  {
    ParseBarePrefix(ByteFamily, 1);
    ParseBarePrefix(ByteFamily, 6);
    assert 'k' !in Prefixes;
  }

  /** Bytes.String: the count in the largest unit not above it. */
  function String(b: Bytes): (r: string)
    ensures SuffixOk(ByteFamily, r) && IsDigit(r[0])
  {
    ByteTable();
    Format(ByteFamily, b)
  }

  /** What String prints: at or above a kilobyte, the largest unit not above
      b, the whole number of those units (1 to 1023, always 1 for exabytes)
      and its prefix; below a kilobyte, the stored count itself (not divided
      by 8) and 'B'. */
  lemma StringShape(b: Bytes)
    ensures b < Kilobyte ==> String(b) == Digits(b) + "B"
    ensures Kilobyte <= b ==>
      var k := Rank(ByteFamily, b);
      1 <= k <= MaxRank && ByteScale[k] <= b && (k < MaxRank ==> b < ByteScale[k + 1])
      && 1 <= b / ByteScale[k] <= 1023
      && String(b) == Digits(b / ByteScale[k]) + [Prefixes[k - 1], 'B']
    ensures Exabyte <= b ==> String(b) == "1EB"
  {
    ByteTable();
    ByteRankUnits(b);
    FormatText(ByteFamily, b);
    var q := Shown(ByteFamily, b);
    if Exabyte <= b {
      assert q == 1;
      assert Digits(1) == "1";
    }
  }

  /** Reading back the text of a count below a kilobyte multiplies it by 8:
      the printed number is taken as a number of bytes. */
  lemma ParseStringSmall(b: Bytes)
    requires b < Kilobyte
    ensures ParseBytes(String(b)) == Ok(8 * b)
  {
    ByteTable();
    var s := String(b);
    assert s == Format(ByteFamily, b);
    ParseFormat(ByteFamily, b);
    RankUnique(ByteFamily, b, 0);
    assert b * ByteFamily.base == 8 * b;
  }

  /** At or above a kilobyte, reading back the text drops the remainder
      modulo the printed unit. */
  lemma ParseStringLarge(b: Bytes)
    requires Kilobyte <= b
    ensures ParseBytes(String(b)) == Ok(b - b % ByteScale[Rank(ByteFamily, b)])
  {
    ByteTable();
    var k := Rank(ByteFamily, b);
    var s := String(b);
    assert s == Format(ByteFamily, b);
    ParseFormat(ByteFamily, b);
    ByteUnitAt(k);
    assert k != 0 by {
      ByteRankUnits(b);
    }
  }

  /** A whole number 1..1023 of one prefixed unit reads back exactly. */
  lemma ParseStringExact(n: nat, k: nat)
    requires 1 <= n <= 1023 && 1 <= k <= MaxRank && n * ByteScale[k] < U64_LIMIT
    ensures ParseBytes(String(n * ByteScale[k])) == Ok(n * ByteScale[k])
  {
    ByteTable();
    ByteUnitAt(k);
    assert String(n * Unit(ByteFamily, k)) == Format(ByteFamily, n * Unit(ByteFamily, k));
    ParseFormatExact(ByteFamily, n, k);
  }

  /** Canonical text with a prefix reads as a count that String prints as
      the same text again. */
  lemma StringOfParse(d: string, k: nat)
    requires IsCanonical(d) && 1 <= Value(d) <= 1023 && 1 <= k <= MaxRank
    requires Value(d) * ByteScale[k] < U64_LIMIT
    ensures ParseBytes(d + [Prefixes[k - 1]] + "B") == Ok(Value(d) * ByteScale[k])
    ensures String(Value(d) * ByteScale[k]) == d + [Prefixes[k - 1]] + "B"
  {
    ByteTable();
    ByteUnitAt(k);
    FormatParse(ByteFamily, d, k, ByteScale[k]);
  }

  /** As written, the base case prints the bit count: one byte (8 bits)
      prints as "8B", which reads back as 64 bits. */
  lemma ByteCountMisread()
    ensures String(Byte) == "8B"
    ensures ParseBytes(String(Byte)) == Ok(64)
  {
    StringShape(Byte);
    assert Digits(8) == "8";
    ParseStringSmall(Byte);
  }

  /** The evidently intended Bytes.String: the base case prints whole bytes,
      like every other branch prints whole units, so reading the text back
      loses only the remainder modulo the printed unit at every size. */
  function StringInBytes(b: Bytes): (r: string)
    ensures ParseBytes(r) == Ok(b - b % ByteScale[Rank(ByteFamily, b)])
    ensures Kilobyte <= b ==> r == String(b)
  {
    if b < Kilobyte then
      ParseWholeBytes(b);
      Digits(b / Byte) + "B"
    else
      ParseStringLarge(b);
      String(b)
  }

  /** Below a kilobyte the corrected text is the whole number of bytes and
      'B', which reads back as b with the part of a byte dropped. */
  lemma ParseWholeBytes(b: Bytes)
    requires b < Kilobyte
    ensures ParseBytes(Digits(b / Byte) + "B") == Ok(b - b % ByteScale[Rank(ByteFamily, b)])
  {
    var q := b / Byte;
    var d := Digits(q);
    assert b - b % ByteScale[Rank(ByteFamily, b)] == q * Byte by {
      SmallByteRank(b);
      DivMod(b, Byte);
    }
    assert ParseBytes(d + "B") == Ok(q * Byte) by {
      assert Spelling(ByteFamily, Split(d, 0)) == d + "B";
      ParseSpelling(ByteFamily, d, 0);
    }
  }

  /** Below a kilobyte String uses the base unit, the byte. */
  lemma SmallByteRank(b: Bytes)
    requires b < Kilobyte
    ensures ByteScale[Rank(ByteFamily, b)] == Byte
  {
    ByteRankUnits(b);
  }

  /** Bytes.Bit: the same count, now typed as bits. */
  function Bit(b: Bytes): (r: Bits)
    ensures r == b
  {
    b
  }

  /** MarshalText: the text String prints. */
  function MarshalText(b: Bytes): (r: string)
    ensures SuffixOk(ByteFamily, r) && IsDigit(r[0])
  {
    String(b)
  }

  /** MarshalJSON: String's text in double quotes. */
  function MarshalJSON(b: Bytes): (r: string)
    ensures |r| >= 4 && r[0] == '"' && r[|r| - 1] == '"'
    ensures r[1..|r| - 1] == MarshalText(b)
  {
    "\"" + String(b) + "\""
  }

  /** Unquoting the JSON text gives the plain text back, so reading a value's
      JSON stores what reading its text stores. */
  lemma JsonUnquote(b: Bytes)
    ensures |MarshalJSON(b)| >= 2
    ensures MarshalJSON(b)[1..|MarshalJSON(b)| - 1] == MarshalText(b)
    ensures ParseBytes(MarshalJSON(b)[1..|MarshalJSON(b)| - 1]) == ParseBytes(MarshalText(b))
  {
    var j := MarshalJSON(b);
    assert j[1..|j| - 1] == String(b);
  }

  /** A Bytes variable, the receiver of UnmarshalText and UnmarshalJSON. */
  class BytesRef {
    var value: Bytes

    constructor (v: Bytes)
      ensures value == v
    {
      value := v;
    }

    /** Stores the parsed count on success; on error reports it and leaves
        the variable as it was. */
    method UnmarshalText(bs: string) returns (err: Option<ParseError>)
      modifies this
      ensures ParseBytes(bs).Ok? ==> err == None && value == ParseBytes(bs).value
      ensures ParseBytes(bs).Err? ==> err == Some(ParseBytes(bs).error) && value == old(value)
    {
      match ParseBytes(bs) {
        case Ok(n) =>
          value := n;
          err := None;
        case Err(e) =>
          err := Some(e);
      }
    }

    /** Drops the first and the last character (the quotes) and unmarshals
        the rest as text. */
    method UnmarshalJSON(bs: string) returns (err: Option<ParseError>)
      requires |bs| >= 2
      modifies this
      ensures ParseBytes(bs[1..|bs| - 1]).Ok? ==>
        err == None && value == ParseBytes(bs[1..|bs| - 1]).value
      ensures ParseBytes(bs[1..|bs| - 1]).Err? ==>
        err == Some(ParseBytes(bs[1..|bs| - 1]).error) && value == old(value)
    {
      err := UnmarshalText(bs[1..|bs| - 1]);
    }
  }
}
