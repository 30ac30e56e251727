/** What the two unit families share.

    The parsers and formatters of byte.go and bit.go are two copies of one
    algorithm that differ only in their marker letter, their base unit, the
    ratio between successive units and their error text.  A Family value holds those four things; the
    parser (SplitUnit, Parse) and the formatter (Rank, Format) are written
    once over it, and their round-trip facts are proved once here.
 */
module Units {
  import opened Decimal

  /** 2^64: both Go types are uint64. */
  const U64_LIMIT: nat := 0x1_0000_0000_0000_0000

  type U64 = x: nat | x < U64_LIMIT

  /** The Go types Bits and Bytes: both are uint64 counts of bits. */
  type Bits = U64
  type Bytes = U64

  datatype Option<T> = None | Some(value: T)

  datatype ParseError =
    | InvalidUnit(message: string)  // errors.New("Invalid Byte") / errors.New("Invalid Bit")
    | InvalidSyntax                 // the numeric literal is not a number
    | OutOfRange                    // literal times unit does not fit in 64 bits

  datatype Result<T> = Ok(value: T) | Err(error: ParseError)

  /** The prefix letters; Prefixes[k - 1] names the unit of rank k. */
  const Prefixes: string := "KMGTPE"
  const MaxRank: nat := 6

  /** A unit family: the trailing marker letter, the base unit (in bits), the
      ratio between successive units and the error text of a bad suffix. */
  datatype Family = Family(marker: char, base: nat, step: nat, invalid: string)

  /** The unit of rank k: base * step^k. */
  function Unit(f: Family, k: nat): (u: nat)
    ensures f.step >= 1 ==> u >= f.base
  {
    if k == 0 then f.base
    else
      var v := Unit(f, k - 1);
      assert f.step >= 1 ==> f.step * v >= v;
      f.step * v
  }

  /** The family's units fit the 64-bit count, and every count below the
      first prefixed unit, multiplied by the base unit, does too. */
  predicate WellFormed(f: Family) {
    1 <= f.base && 2 <= f.step
    && f.base * Unit(f, 1) <= U64_LIMIT
    && Unit(f, MaxRank) < U64_LIMIT
  }

  lemma {:induction false} UnitIncreasing(f: Family, j: nat, k: nat)
    requires WellFormed(f) && j < k
    ensures Unit(f, j) < Unit(f, k)
  {
    var v := Unit(f, k - 1);
    MulMonotone(2, f.step, v);
    assert f.step * v >= 2 * v >= v + 1;
    if j < k - 1 {
      UnitIncreasing(f, j, k - 1);
    }
  }

  lemma UnitBounded(f: Family, k: nat)
    requires WellFormed(f) && k <= MaxRank
    ensures 1 <= Unit(f, k) < U64_LIMIT
  {
    if k < MaxRank {
      UnitIncreasing(f, k, MaxRank);
    }
  }

  /** The rank the switch on the prefix letter selects; None for every other
      character. */
  function PrefixRank(c: char): (r: Option<nat>)
    ensures r.Some? <==> c in Prefixes
    ensures r.Some? ==> 1 <= r.value <= MaxRank && Prefixes[r.value - 1] == c
  {
    match c
    case 'K' => Some(1)
    case 'M' => Some(2)
    case 'G' => Some(3)
    case 'T' => Some(4)
    case 'P' => Some(5)
    case 'E' => Some(6)
    case _ => None
  }

  /** A parsed suffix: the numeric literal in front of it and the rank of the
      unit it names (0 for the bare marker). */
  datatype Split = Split(literal: string, rank: nat)

  /** The text a split stands for: literal, prefix letter if any, marker. */
  function Spelling(f: Family, sp: Split): string
    requires sp.rank <= MaxRank
  {
    sp.literal + (if sp.rank == 0 then [] else [Prefixes[sp.rank - 1]]) + [f.marker]
  }

  /** The suffix test of ParseBytes/ParseBits: at least two characters, the
      marker last, and a prefix letter or a digit in front of it. */
  predicate SuffixOk(f: Family, s: string) {
    |s| >= 2 && s[|s| - 1] == f.marker && (s[|s| - 2] in Prefixes || IsDigit(s[|s| - 2]))
  }

  /** A numeric literal the model reads (a non-empty digit string) and a rank. */
  predicate Numeral(d: string, k: nat) {
    IsDigits(d) && |d| >= 1 && k <= MaxRank
  }

  /** The suffix handling of ParseBytes/ParseBits for a non-empty input: the
      marker must be last, then one prefix letter selects a unit, or else the
      character before the marker must be a digit. */
  function SplitUnit(f: Family, s: string): (r: Result<Split>)
    ensures r.Ok? <==> SuffixOk(f, s)
    ensures r.Ok? ==> r.value.rank <= MaxRank && s == Spelling(f, r.value)
    ensures r.Ok? && r.value.rank == 0 ==> IsDigit(s[|s| - 2])
    ensures r.Err? ==> r.error == InvalidUnit(f.invalid)
  {
    if |s| < 2 || s[|s| - 1] != f.marker then
      Err(InvalidUnit(f.invalid))
    else
      var body := s[..|s| - 1];
      var last := body[|body| - 1];
      match PrefixRank(last)
      case Some(k) =>
        assert s == body[..|body| - 1] + [Prefixes[k - 1]] + [f.marker];
        Ok(Split(body[..|body| - 1], k))
      case None =>
        if IsDigit(last) then
          assert s == body + [] + [f.marker];
          Ok(Split(body, 0))
        else
          Err(InvalidUnit(f.invalid))
  }

  /** SplitUnit undoes Spelling whenever the spelling is unambiguous: a prefix
      is present, or the literal ends in a digit. */
  lemma SplitSpelling(f: Family, sp: Split)
    requires sp.rank <= MaxRank
    requires sp.rank > 0 || (|sp.literal| >= 1 && IsDigit(sp.literal[|sp.literal| - 1]))
    ensures SplitUnit(f, Spelling(f, sp)) == Ok(sp)
  {
    var s := Spelling(f, sp);
    if sp.rank == 0 {
      assert s[..|s| - 1] == sp.literal;
      assert s[|s| - 2] !in Prefixes;
    } else {
      assert s[..|s| - 1] == sp.literal + [Prefixes[sp.rank - 1]];
      assert s[..|s| - 1][..|s| - 2] == sp.literal;
    }
  }

  /** ParseBytes/ParseBits: the empty string is zero; otherwise the suffix is
      split off and the digit literal is multiplied by the selected unit.
      The "Invalid" error is given exactly to the non-empty inputs that fail
      the suffix test; the only other errors are a literal that is not a
      number and a count that does not fit in 64 bits. */
  function Parse(f: Family, s: string): (r: Result<U64>)
    ensures s == [] ==> r == Ok(0)
    ensures s != [] ==> (r == Err(InvalidUnit(f.invalid)) <==> !SuffixOk(f, s))
    ensures r.Err? ==> r.error == InvalidUnit(f.invalid) || r.error == InvalidSyntax || r.error == OutOfRange
  {
    if s == [] then Ok(0)
    else
      match SplitUnit(f, s)
      case Err(e) => Err(e)
      case Ok(sp) =>
        if sp.literal == [] || !IsDigits(sp.literal) then Err(InvalidSyntax)
        else
          var v := Value(sp.literal) * Unit(f, sp.rank);
          if v < U64_LIMIT then Ok(v) else Err(OutOfRange)
  }

  /** Every non-empty input Parse reads as a count, or finds out of range, is
      the spelling of a numeral, and the outcome is that numeral's value times
      its unit: the converse of ParseSpelling. */
  lemma ParseReadsSpelling(f: Family, s: string)
    requires s != [] && (Parse(f, s).Ok? || Parse(f, s) == Err(OutOfRange))
    ensures exists d, k ::
      && Numeral(d, k)
      && s == Spelling(f, Split(d, k))
      && Parse(f, s) == (if Value(d) * Unit(f, k) < U64_LIMIT then Ok(Value(d) * Unit(f, k)) else Err(OutOfRange))
  {
    var sp := SplitUnit(f, s).value;
    assert Split(sp.literal, sp.rank) == sp;
    assert Numeral(sp.literal, sp.rank);
  }

  /** The syntax error is given exactly to the inputs that pass the suffix
      test but spell no numeral: the literal in front of the unit is empty or
      holds a character other than a digit. */
  lemma ParseSyntaxError(f: Family, s: string)
    ensures Parse(f, s) == Err(InvalidSyntax) <==>
      SuffixOk(f, s) && forall d, k :: Numeral(d, k) ==> s != Spelling(f, Split(d, k))
  {
    if SuffixOk(f, s) {
      var sp := SplitUnit(f, s).value;
      if Parse(f, s) == Err(InvalidSyntax) {
        forall d, k | Numeral(d, k)
          ensures s != Spelling(f, Split(d, k))
        {
          if s == Spelling(f, Split(d, k)) {
            SplitSpelling(f, Split(d, k));
          }
        }
      } else {
        assert Split(sp.literal, sp.rank) == sp;
        assert Numeral(sp.literal, sp.rank);
      }
    }
  }

  /** Parsing a well-formed spelling yields literal times unit, for every
      non-empty digit literal and every rank. */
  lemma ParseSpelling(f: Family, d: string, k: nat)
    requires IsDigits(d) && |d| >= 1 && k <= MaxRank
    ensures Parse(f, Spelling(f, Split(d, k))) ==
      if Value(d) * Unit(f, k) < U64_LIMIT then Ok(Value(d) * Unit(f, k)) else Err(OutOfRange)
  {
    SplitSpelling(f, Split(d, k));
  }

  /** The same with the spelling written out and the unit given by value. */
  lemma ParsePrefixed(f: Family, d: string, k: nat, u: nat)
    requires IsDigits(d) && |d| >= 1 && k <= MaxRank && Unit(f, k) == u
    ensures Parse(f, d + (if k == 0 then [] else [Prefixes[k - 1]]) + [f.marker]) ==
      if Value(d) * u < U64_LIMIT then Ok(Value(d) * u) else Err(OutOfRange)
  {
    var s := d + (if k == 0 then [] else [Prefixes[k - 1]]) + [f.marker];
    assert s == Spelling(f, Split(d, k));
    ParseSpelling(f, d, k);
  }

  /** A prefix letter with no digits in front of it is a syntax error. */
  lemma ParseBarePrefix(f: Family, k: nat)
    requires 1 <= k <= MaxRank
    ensures Parse(f, [Prefixes[k - 1], f.marker]) == Err(InvalidSyntax)
  {
    assert Spelling(f, Split([], k)) == [Prefixes[k - 1], f.marker];
    SplitSpelling(f, Split([], k));
  }

  /** The rank of the unit String uses: the largest unit not above b, tried
      from the top of the table down; 0 when b is below the first prefixed
      unit. */
  function Rank(f: Family, b: nat): (k: nat)
    ensures k <= MaxRank
    ensures k > 0 ==> Unit(f, k) <= b
    ensures k < MaxRank ==> b < Unit(f, k + 1)
  {
    if b >= Unit(f, 6) then 6
    else if b >= Unit(f, 5) then 5
    else if b >= Unit(f, 4) then 4
    else if b >= Unit(f, 3) then 3
    else if b >= Unit(f, 2) then 2
    else if b >= Unit(f, 1) then 1
    else 0
  }

  /** The two properties of Rank determine it: it is the one largest unit
      not above b. */
  lemma RankUnique(f: Family, b: nat, k: nat)
    requires WellFormed(f) && k <= MaxRank
    requires k > 0 ==> Unit(f, k) <= b
    requires k < MaxRank ==> b < Unit(f, k + 1)
    ensures Rank(f, b) == k
  {
    var r := Rank(f, b);
    if r < k {
      if r + 1 < k { UnitIncreasing(f, r + 1, k); }
      assert false;
    } else if k < r {
      if k + 1 < r { UnitIncreasing(f, k + 1, r); }
      assert false;
    }
  }

  /** The number String prints: b divided by the chosen unit, or b itself
      below the first prefixed unit.  Between the first and the last prefixed
      unit it lies in 1 .. step - 1; it is never lower than one unit, and
      multiplied back by the unit it gives b with the remainder dropped. */
  function Shown(f: Family, b: nat): (q: nat)
    requires WellFormed(f)
    ensures Rank(f, b) == 0 ==> q == b && b < Unit(f, 1)
    ensures Rank(f, b) > 0 ==>
      1 <= q && q * Unit(f, Rank(f, b)) == b - b % Unit(f, Rank(f, b))
    ensures 0 < Rank(f, b) < MaxRank ==> q < f.step
  {
    var k := Rank(f, b);
    if k == 0 then b
    else
      var u := Unit(f, k);
      DivMod(b, u);
      QuotientBelowStep(f, k, b);
      b / u
  }

  lemma QuotientBelowStep(f: Family, k: nat, b: nat)
    requires WellFormed(f) && 0 < k <= MaxRank
    requires k < MaxRank ==> b < Unit(f, k + 1)
    ensures k < MaxRank ==> b / Unit(f, k) < f.step
  {
    if k < MaxRank {
      var u := Unit(f, k);
      assert Unit(f, k + 1) == f.step * u;
      DivBelow(b, u, f.step);
    }
  }

  /** Euclidean division of naturals. */
  lemma DivMod(b: nat, u: nat)
    requires u >= 1
    ensures (b / u) * u == b - b % u && b % u < u
    ensures u <= b ==> 1 <= b / u
  {
  }

  lemma DivBelow(b: nat, u: nat, step: nat)
    requires u >= 1 && b < step * u
    ensures b / u < step
  {
    DivMod(b, u);
    if b / u >= step {
      MulMonotone(step, b / u, u);
    }
  }

  lemma MulMonotone(x: nat, y: nat, u: nat)
    requires x <= y
    ensures x * u <= y * u
  {
  }

  /** Bytes.String / Bits.String: the shown quotient in decimal, then the
      prefix letter of the chosen rank (none for the base case) and the
      marker. */
  function Format(f: Family, b: nat): (r: string)
    requires WellFormed(f)
    ensures SuffixOk(f, r) && IsDigit(r[0])
  {
    var k := Rank(f, b);
    var d := Digits(Shown(f, b));
    var s := Spelling(f, Split(d, k));
    assert s[0] == d[0];
    assert s[|s| - 2] == if k == 0 then d[|d| - 1] else Prefixes[k - 1];
    s
  }

  /** The formatted text written out: below the first prefixed unit the count
      itself and the marker, above it b divided by the chosen unit, the prefix
      letter and the marker. */
  lemma FormatText(f: Family, b: nat)
    requires WellFormed(f)
    ensures Format(f, b) ==
      if Rank(f, b) == 0 then Digits(b) + [f.marker]
      else Digits(b / Unit(f, Rank(f, b))) + [Prefixes[Rank(f, b) - 1], f.marker]
  {
    var k := Rank(f, b);
    var d := Digits(Shown(f, b));
    if k != 0 {
      assert d + [Prefixes[k - 1]] + [f.marker] == d + [Prefixes[k - 1], f.marker];
    }
  }

  /** Every formatted count ends in the marker, preceded by a digit or a
      prefix letter, so it always passes SplitUnit's suffix check; it is two
      characters long exactly for a single-digit count of base units. */
  lemma FormatEnds(f: Family, b: nat)
    requires WellFormed(f)
    ensures var s := Format(f, b);
      |s| >= 2 && s[|s| - 1] == f.marker && (IsDigit(s[|s| - 2]) || s[|s| - 2] in Prefixes)
      && (|s| == 2 <==> Rank(f, b) == 0 && b < 10)
  {
    var k := Rank(f, b);
    var s := Format(f, b);
    FormatText(f, b);
    if k == 0 {
      var d := Digits(b);
      assert s == d + [f.marker];
      assert s[|s| - 2] == d[|d| - 1];
    } else {
      var d := Digits(b / Unit(f, k));
      assert s == d + [Prefixes[k - 1], f.marker];
    }
  }

  /** Reading back what String printed: below the first prefixed unit the
      printed count is read as a count of base units (multiplied by base);
      above it the remainder modulo the chosen unit is lost. */
  lemma ParseFormat(f: Family, b: U64)
    requires WellFormed(f)
    ensures Parse(f, Format(f, b)) ==
      Ok(if Rank(f, b) == 0 then b * f.base else b - b % Unit(f, Rank(f, b)))
  {
    var k, q := Rank(f, b), Shown(f, b);
    var u := Unit(f, k);
    var v := if k == 0 then b * f.base else b - b % u;
    assert q * u == v;
    assert v < U64_LIMIT by {
      if k == 0 {
        BaseCountFits(f, b);
      }
    }
    ParseSpelling(f, Digits(q), k);
  }

  lemma BaseCountFits(f: Family, b: nat)
    requires WellFormed(f) && b < Unit(f, 1)
    ensures b * f.base < U64_LIMIT
  {
    MulMonotone(b + 1, Unit(f, 1), f.base);
  }

  /** The unit String picks for n times the unit of rank k, 1 <= n < step,
      is that unit, and the quotient it prints is n. */
  lemma RankOfMultiple(f: Family, n: nat, k: nat)
    requires WellFormed(f) && 1 <= k <= MaxRank && 1 <= n < f.step
    requires n * Unit(f, k) < U64_LIMIT
    ensures Rank(f, n * Unit(f, k)) == k
    ensures (n * Unit(f, k)) / Unit(f, k) == n && (n * Unit(f, k)) % Unit(f, k) == 0
    ensures Shown(f, n * Unit(f, k)) == n
  {
    var u := Unit(f, k);
    var b := n * u;
    UnitBounded(f, k);
    MulMonotone(1, n, u);
    if k < MaxRank {
      assert Unit(f, k + 1) == f.step * u;
      MulMonotone(n + 1, f.step, u);
      assert (n + 1) * u == b + u;
    }
    RankUnique(f, b, k);
    MulDivExact(n, u);
  }

  /** n times the unit of rank k, with 1 <= n < step (and fitting in 64 bits),
      reads back exactly. */
  lemma ParseFormatExact(f: Family, n: nat, k: nat)
    requires WellFormed(f) && 1 <= k <= MaxRank && 1 <= n < f.step
    requires n * Unit(f, k) < U64_LIMIT
    ensures Parse(f, Format(f, n * Unit(f, k))) == Ok(n * Unit(f, k))
  {
    RankOfMultiple(f, n, k);
    ParseSpelling(f, Digits(n), k);
  }

  /** The other direction: a canonical literal 1 .. step - 1 with a prefix
      parses to a count that String prints as the very same text. */
  lemma FormatParse(f: Family, d: string, k: nat, u: nat)
    requires WellFormed(f) && IsCanonical(d) && 1 <= k <= MaxRank && Unit(f, k) == u
    requires 1 <= Value(d) < f.step && Value(d) * u < U64_LIMIT
    ensures Parse(f, d + [Prefixes[k - 1]] + [f.marker]) == Ok(Value(d) * u)
    ensures Format(f, Value(d) * u) == d + [Prefixes[k - 1]] + [f.marker]
  {
    var n := Value(d);
    assert Spelling(f, Split(d, k)) == d + [Prefixes[k - 1]] + [f.marker];
    assert Parse(f, Spelling(f, Split(d, k))) == Ok(n * u) by {
      ParseSpelling(f, d, k);
    }
    assert Format(f, n * u) == Spelling(f, Split(Digits(n), k)) by {
      RankOfMultiple(f, n, k);
    }
    DigitsOfValue(d);
  }

  lemma MulDivExact(n: nat, u: nat)
    requires u >= 1
    ensures (n * u) / u == n && (n * u) % u == 0
  {
    var q := (n * u) / u;
    DivMod(n * u, u);
    if q < n {
      MulMonotone(q + 1, n, u);
    } else if q > n {
      MulMonotone(n + 1, q, u);
    }
  }
}
