/** bit.go: quantities of bits with decimal prefixes.  One bit is the unit and
    K, M, G, T, P, E are successive powers of 1000.  Text is a decimal count,
    an optional prefix letter and the marker 'b'. */
module BitUnit {
  import opened Decimal
  import opened Units
  import ByteUnit

  const Bit: Bits := 1
  const Kilobit: Bits := 1000
  const Megabit: Bits := 1000 * Kilobit
  const Gigabit: Bits := 1000 * Megabit
  const Terabit: Bits := 1000 * Gigabit
  const Petabit: Bits := 1000 * Terabit
  const Exabit: Bits := 1000 * Petabit

  const MaxBitUnit: Bits := U64_LIMIT - 1
  const MinBitUnit: Bits := 0

  /** The units by rank: BitScale[k] is the unit of prefix Prefixes[k - 1]. */
  const BitScale: seq<Bits> := [Bit, Kilobit, Megabit, Gigabit, Terabit, Petabit, Exabit]

  const BitFamily: Family := Family('b', Bit, 1000, "Invalid Bit")

  /** The family's units are exactly the constants of bit.go, the largest is
      10^18, and the family fits the 64-bit count. */
  lemma BitTable()
    ensures Exabit == 1_000_000_000_000_000_000
    ensures WellFormed(BitFamily)
  {
    assert Unit(BitFamily, 0) == Bit;
    assert Unit(BitFamily, 1) == Kilobit;
    assert Unit(BitFamily, 2) == Megabit;
    assert Unit(BitFamily, 3) == Gigabit;
    assert Unit(BitFamily, 4) == Terabit;
    assert Unit(BitFamily, 5) == Petabit;
    assert Unit(BitFamily, 6) == Exabit;
  }

  /** The unit of rank k is the k-th constant of the table. */
  lemma BitUnitAt(k: nat)
    requires k <= MaxRank
    ensures Unit(BitFamily, k) == BitScale[k]
  {
    assert Unit(BitFamily, 0) == Bit;
    assert Unit(BitFamily, 1) == Kilobit;
    assert Unit(BitFamily, 2) == Megabit;
    assert Unit(BitFamily, 3) == Gigabit;
    assert Unit(BitFamily, 4) == Terabit;
    assert Unit(BitFamily, 5) == Petabit;
    assert Unit(BitFamily, 6) == Exabit;
  }

  /** The units String compares against for b, as table constants. */
  lemma BitRankUnits(b: nat)
    ensures Unit(BitFamily, 1) == Kilobit
    ensures Rank(BitFamily, b) == 0 <==> b < Kilobit
    ensures Unit(BitFamily, Rank(BitFamily, b)) == BitScale[Rank(BitFamily, b)]
    ensures Rank(BitFamily, b) < MaxRank ==>
      Unit(BitFamily, Rank(BitFamily, b) + 1) == BitScale[Rank(BitFamily, b) + 1]
  {
    var k := Rank(BitFamily, b);
    BitUnitAt(1);
    if b < Kilobit {
      BitTable();
      RankUnique(BitFamily, b, 0);
    }
    BitUnitAt(k);
    if k < MaxRank {
      BitUnitAt(k + 1);
    }
  }

  /** ParseBits.  The empty string is 0; anything else must end in 'b' and be
      at least two characters long; the character before the 'b' must be an
      upper-case prefix letter or a digit. */
  function ParseBits(s: string): (r: Result<Bits>)
    ensures s == "" ==> r == Ok(0)
    ensures s != "" && (|s| < 2 || s[|s| - 1] != 'b') ==> r == Err(InvalidUnit("Invalid Bit"))
    ensures |s| >= 2 && s[|s| - 1] == 'b' && s[|s| - 2] !in Prefixes && !IsDigit(s[|s| - 2]) ==>
      r == Err(InvalidUnit("Invalid Bit"))
  {
    Parse(BitFamily, s)
  }

  /** A digit literal followed by the spelling of rank k reads as the literal
      times the k-th unit (1, 1000, ..., 10^18), or fails when that does not
      fit in 64 bits. */
  lemma ParseBitsPrefix(d: string, k: nat)
    requires IsDigits(d) && |d| >= 1 && k <= MaxRank
    ensures ParseBits(d + (if k == 0 then "" else [Prefixes[k - 1]]) + "b") ==
      if Value(d) * BitScale[k] < U64_LIMIT then Ok(Value(d) * BitScale[k]) else Err(OutOfRange)
  {
    BitUnitAt(k);
    ParsePrefixed(BitFamily, d, k, BitScale[k]);
  }

  /** Worked case: "5b" is 5 bits. */
  lemma ParseBitsCount()
    ensures ParseBits("5b") == Ok(5)
  {
    ParseBitsPrefix("5", 0);
    assert "5" + "" + "b" == "5b";
  }

  /** Worked case: "2Kb" is 2000 bits. */
  lemma ParseBitsKilobits()
    ensures ParseBits("2Kb") == Ok(2000)
  {
    ParseBitsPrefix("2", 1);
    assert "2" + [Prefixes[0]] + "b" == "2Kb";
  }

  /** Worked failures: "Kb" has no number; "5" and "5B" fail on the suffix. */
  lemma ParseBitsRejects()
    ensures ParseBits("Kb") == Err(InvalidSyntax)
    ensures ParseBits("5") == Err(InvalidUnit("Invalid Bit"))
    ensures ParseBits("5B") == Err(InvalidUnit("Invalid Bit"))
  {
    ParseBarePrefix(BitFamily, 1);
  }

  /** Bits.String: the count in the largest unit not above it. */
  function String(b: Bits): (r: string)
    ensures SuffixOk(BitFamily, r) && IsDigit(r[0])
  {
    BitTable();
    Format(BitFamily, b)
  }

  /** What String prints: at or above a kilobit, the largest unit not above
      b, the whole number of those units (1 to 999, and 1 to 18 for exabits)
      and its prefix; below a kilobit, the count itself and 'b'. */
  lemma StringShape(b: Bits)
    ensures b < Kilobit ==> String(b) == Digits(b) + "b"
    ensures Kilobit <= b ==>
      var k := Rank(BitFamily, b);
      1 <= k <= MaxRank && BitScale[k] <= b && (k < MaxRank ==> b < BitScale[k + 1])
      && 1 <= b / BitScale[k] && (k < MaxRank ==> b / BitScale[k] <= 999)
      && String(b) == Digits(b / BitScale[k]) + [Prefixes[k - 1], 'b']
    ensures Exabit <= b ==> 1 <= b / Exabit <= 18
  {
    BitTable();
    BitRankUnits(b);
    FormatText(BitFamily, b);
    var q := Shown(BitFamily, b);
  }

  /** Reading back the text of any count drops the remainder modulo the
      printed unit; below a kilobit that unit is 1 and nothing is lost. */
  lemma ParseString(b: Bits)
    ensures ParseBits(String(b)) == Ok(b - b % BitScale[Rank(BitFamily, b)])
    ensures b < Kilobit ==> ParseBits(String(b)) == Ok(b)
  {
    BitTable();
    var k := Rank(BitFamily, b);
    var u := Unit(BitFamily, k);
    var t := String(b);
    assert t == Format(BitFamily, b);
    assert ParseBits(t) == Ok(b - b % u) by {
      ParseFormat(BitFamily, b);
      if k == 0 {
        assert u == 1;
      }
    }
    BitUnitAt(k);
    if b < Kilobit {
      RankUnique(BitFamily, b, 0);
    }
  }

  /** A whole number 1..999 of one prefixed unit reads back exactly. */
  lemma ParseStringExact(n: nat, k: nat)
    requires 1 <= n <= 999 && 1 <= k <= MaxRank && n * BitScale[k] < U64_LIMIT
    ensures ParseBits(String(n * BitScale[k])) == Ok(n * BitScale[k])
  {
    BitTable();
    BitUnitAt(k);
    assert String(n * Unit(BitFamily, k)) == Format(BitFamily, n * Unit(BitFamily, k));
    ParseFormatExact(BitFamily, n, k);
  }

  /** Canonical text with a prefix reads as a count that String prints as
      the same text again. */
  lemma StringOfParse(d: string, k: nat)
    requires IsCanonical(d) && 1 <= Value(d) <= 999 && 1 <= k <= MaxRank
    requires Value(d) * BitScale[k] < U64_LIMIT
    ensures ParseBits(d + [Prefixes[k - 1]] + "b") == Ok(Value(d) * BitScale[k])
    ensures String(Value(d) * BitScale[k]) == d + [Prefixes[k - 1]] + "b"
  {
    BitTable();
    BitUnitAt(k);
    FormatParse(BitFamily, d, k, BitScale[k]);
  }

  /** The same without a prefix: a canonical count below 1000 followed by
      'b' reads as that count and prints as the same text. */
  lemma StringOfParseBase(d: string)
    requires IsCanonical(d) && Value(d) <= 999
    ensures ParseBits(d + "b") == Ok(Value(d))
    ensures String(Value(d)) == d + "b"
  {
    var n := Value(d);
    assert ParseBits(d + "b") == Ok(n) by {
      assert Spelling(BitFamily, Split(d, 0)) == d + "b";
      ParseSpelling(BitFamily, d, 0);
    }
    assert String(n) == d + "b" by {
      StringBelowKilobit(n);
      DigitsOfValue(d);
    }
  }

  /** Below a kilobit String prints the count and 'b'. */
  lemma StringBelowKilobit(b: Bits)
    requires b < Kilobit
    ensures String(b) == Digits(b) + "b"
  {
    StringShape(b);
  }

  /** 1500 bits print as "1Kb": the quotient is truncated. */
  lemma StringTruncates()
    ensures String(1500) == "1Kb"
  {
    StringShape(1500);
    assert Digits(1) == "1";
  }

  /** Bits.Byte: the same count, now typed as bytes. */
  function Byte(b: Bits): (r: Bytes)
    ensures r == b
  {
    b
  }

  /** Converting to bits and back changes nothing. */
  lemma ByteOfBit(x: Bytes)
    ensures Byte(ByteUnit.Bit(x)) == x
  {
  }

  /** MarshalText: the text String prints. */
  function MarshalText(b: Bits): (r: string)
    ensures SuffixOk(BitFamily, r) && IsDigit(r[0])
  {
    String(b)
  }

  /** MarshalJSON: String's text, without quotes. */
  function MarshalJSON(b: Bits): (r: string)
    ensures r == MarshalText(b) && SuffixOk(BitFamily, r) && IsDigit(r[0])
  {
    String(b)
  }

  /** UnmarshalJSON still strips a first and a last character, so reading back
      a value's own JSON stores 0 for counts up to 9 (a digit and 'b' leave
      the empty string) and fails for every larger count (what is left never
      ends in 'b'). */
  lemma JsonReread(b: Bits)
    ensures |MarshalJSON(b)| >= 2
    ensures ParseBits(MarshalJSON(b)[1..|MarshalJSON(b)| - 1]) ==
      if b <= 9 then Ok(0) else Err(InvalidUnit("Invalid Bit"))
  {
    BitTable();
    var s := MarshalJSON(b);
    assert s == Format(BitFamily, b);
    FormatEnds(BitFamily, b);
    var t := s[1..|s| - 1];
    if b <= 9 {
      assert Rank(BitFamily, b) == 0 by {
        RankUnique(BitFamily, b, 0);
      }
      assert t == [];
    } else {
      assert |s| > 2;
      assert t[|t| - 1] == s[|s| - 2] != 'b';
    }
  }

  /** The evidently intended Bits.MarshalJSON: String's text in double
      quotes, as for Bytes.  Unquoting it gives the plain text, so reading a
      value's JSON stores what reading its text stores. */
  function QuotedJSON(b: Bits): (r: string)
    ensures |r| >= 2 && r[1..|r| - 1] == MarshalText(b)
    ensures ParseBits(r[1..|r| - 1]) == Ok(b - b % BitScale[Rank(BitFamily, b)])
  {
    var r := "\"" + String(b) + "\"";
    assert r[1..|r| - 1] == String(b);
    ParseString(b);
    r
  }

  /** A Bits variable, the receiver of UnmarshalText and UnmarshalJSON. */
  class BitsRef {
    var value: Bits

    constructor (v: Bits)
      ensures value == v
    {
      value := v;
    }

    /** Stores the parsed count on success; on error reports it and leaves
        the variable as it was. */
    method UnmarshalText(bs: string) returns (err: Option<ParseError>)
      modifies this
      ensures ParseBits(bs).Ok? ==> err == None && value == ParseBits(bs).value
      ensures ParseBits(bs).Err? ==> err == Some(ParseBits(bs).error) && value == old(value)
    {
      match ParseBits(bs) {
        case Ok(n) =>
          value := n;
          err := None;
        case Err(e) =>
          err := Some(e);
      }
    }

    /** Drops the first and the last character and unmarshals the rest as
        text. */
    method UnmarshalJSON(bs: string) returns (err: Option<ParseError>)
      requires |bs| >= 2
      modifies this
      ensures ParseBits(bs[1..|bs| - 1]).Ok? ==>
        err == None && value == ParseBits(bs[1..|bs| - 1]).value
      ensures ParseBits(bs[1..|bs| - 1]).Err? ==>
        err == Some(ParseBits(bs[1..|bs| - 1]).error) && value == old(value)
    {
      err := UnmarshalText(bs[1..|bs| - 1]);
    }
  }
}
