/**
 * Ruleset: Wolfram's numbering of the 256 elementary cellular automata.
 * Rule number r is written as eight binary digits, most significant first;
 * digit i gives the new state of a cell whose neighbourhood, read as the
 * binary number a b c (left, centre, right), has the value 7 - i.
 */
module Rules {
  import opened Wrappers
  import opened Formatting

  predicate IsBit(v: int) {
    v == 0 || v == 1
  }

  /** The value of neighbourhood (a, b, c) read as a three-digit binary number. */
  function PatternValue(a: int, b: int, c: int): int {
    4 * a + 2 * b + c
  }

  /** A decoded rule: `_rules` maps a neighbourhood, written as three binary
      digits, to the new state of the centre cell. It is filled once when the
      rule is decoded and only read afterwards. */
  datatype Ruleset = Ruleset(rules: map<string, int>)

  /** The key of neighbourhood value k: its three bits, most significant
      first, as binary digit characters. */
  function Neighbourhood(k: nat): (key: string)
    requires k < 8
  {
    [DigitChar(Bit(k, 2)), DigitChar(Bit(k, 1)), DigitChar(Bit(k, 0))]
  }

  /** The source spells the key of value k as `bin(k)[2:].rjust(3, "0")`,
      which is the same string. */
  lemma NeighbourhoodIsPaddedBin(k: nat)
    requires k < 8
    ensures RJust(Bin(k), 3, '0') == Neighbourhood(k)
  {
    PaddedBinDigit(k, 3, 0);
    PaddedBinDigit(k, 3, 1);
    PaddedBinDigit(k, 3, 2);
  }

  /** A number below 8 is recovered from its three bits, so distinct
      neighbourhood values have distinct keys. */
  lemma NeighbourhoodValue(k: nat)
    requires k < 8
    ensures k == PatternValue(Bit(k, 2), Bit(k, 1), Bit(k, 0))
  {
    var a, b, c := k / 2 / 2, (k / 2) % 2, k % 2;
    assert k == PatternValue(a, b, c);
    PatternBits(a, b, c);
  }

  lemma NeighbourhoodInjective(j: nat, k: nat)
    requires j < 8 && k < 8
    ensures Neighbourhood(j) == Neighbourhood(k) <==> j == k
  {
    if Neighbourhood(j) == Neighbourhood(k) {
      NeighbourhoodValue(j);
      NeighbourhoodValue(k);
      var key := Neighbourhood(j);
      assert Bit(j, 2) == DigitValue(key[0]) == Bit(k, 2);
      assert Bit(j, 1) == DigitValue(key[1]) == Bit(k, 1);
      assert Bit(j, 0) == DigitValue(key[2]) == Bit(k, 0);
    }
  }

  /** The keys of the neighbourhood values lo..7; KeysFrom(0) are all
      eight. */
  ghost function KeysFrom(lo: nat): set<string> {
    set k: nat | lo <= k < 8 :: Neighbourhood(k)
  }

  /** `rule_bin`: the rule number in binary, left-padded with zeros to eight
      digits (longer, and then only its first eight digits are read, for a
      number above 255). */
  function RuleBin(ruleValue: nat): (s: string)
    ensures 8 <= |s|
    ensures forall i :: 0 <= i < |s| ==> IsBinaryDigit(s[i])
  {
    BinaryPadding(Bin(ruleValue), 8);
    RJust(Bin(ruleValue), 8, '0')
  }

  /** `int(rule_bin[j])` for j = 0..7: the first eight digits of `rule_bin`
      as numbers, each 0 or 1. */
  function RuleDigits(ruleValue: nat): (digits: seq<int>)
    ensures |digits| == 8
    ensures forall j :: 0 <= j < 8 ==> IsBit(digits[j])
  {
    var ruleBin := RuleBin(ruleValue);
    seq(8, j requires 0 <= j < 8 => DigitValue(ruleBin[j]))
  }

  /** rules holds exactly the neighbourhood values lo..7, value k mapped to
      digits[7 - k]: the table after 8 - lo steps of decoding. */
  ghost predicate FilledFrom(rules: map<string, int>, digits: seq<int>, lo: nat) {
    |digits| == 8 &&
    rules.Keys == KeysFrom(lo) &&
    forall k: nat :: lo <= k < 8 ==> Neighbourhood(k) in rules && rules[Neighbourhood(k)] == digits[7 - k]
  }

  /** rs is the table decoded from ruleValue: its keys are the eight
      neighbourhoods, and neighbourhood value k maps to digit 7 - k of
      `rule_bin`. */
  ghost predicate Decodes(rs: Ruleset, ruleValue: nat) {
    FilledFrom(rs.rules, RuleDigits(ruleValue), 0)
  }

  /** Adding neighbourhood value lo - 1 to the keys of lo..7 gives the keys
      of lo - 1..7. */
  lemma KeysStep(lo: nat)
    requires 0 < lo <= 8
    ensures KeysFrom(lo) + {Neighbourhood(lo - 1)} == KeysFrom(lo - 1)
  {
    var keys := KeysFrom(lo - 1);
    forall x | x in keys ensures x in KeysFrom(lo) + {Neighbourhood(lo - 1)} {
      var k: nat :| lo - 1 <= k < 8 && x == Neighbourhood(k);
      if k != lo - 1 {
        assert x in KeysFrom(lo);
      }
    }
  }

  /** After one decoding step, neighbourhood value k of lo - 1..7 is present
      and maps to digits[7 - k]: the new entry for lo - 1, the old one above. */
  lemma FillEntry(rules: map<string, int>, digits: seq<int>, lo: nat, k: nat)
    requires 0 < lo <= 8 && FilledFrom(rules, digits, lo) && lo - 1 <= k < 8
    ensures var next := rules[Neighbourhood(lo - 1) := digits[7 - (lo - 1)]];
            Neighbourhood(k) in next && next[Neighbourhood(k)] == digits[7 - k]
  {
    if k != lo - 1 {
      NeighbourhoodInjective(k, lo - 1);
    }
  }

  /** One decoding step adds the next neighbourhood without disturbing the
      ones already there. */
  lemma FillStep(rules: map<string, int>, digits: seq<int>, lo: nat)
    requires 0 < lo <= 8 && FilledFrom(rules, digits, lo)
    ensures FilledFrom(rules[Neighbourhood(lo - 1) := digits[7 - (lo - 1)]], digits, lo - 1)
  {
    var next := rules[Neighbourhood(lo - 1) := digits[7 - (lo - 1)]];
    KeysStep(lo);
    assert next.Keys == KeysFrom(lo - 1);
    forall k: nat | lo - 1 <= k < 8
      ensures Neighbourhood(k) in next && next[Neighbourhood(k)] == digits[7 - k]
    {
      FillEntry(rules, digits, lo, k);
    }
  }

  /** A table that answers every neighbourhood with a bit and nothing else. */
  ghost predicate Complete(rs: Ruleset) {
    rs.rules.Keys == KeysFrom(0) &&
    forall k: nat :: k < 8 ==> Neighbourhood(k) in rs.rules && IsBit(rs.rules[Neighbourhood(k)])
  }

  /** `Ruleset.__init__`: decodes rule number ruleValue into its table, one
      neighbourhood per step. A negative number makes the source fail on
      `int('b')`, so it is excluded. */
  method NewRuleset(ruleValue: int) returns (rs: Ruleset)
    requires 0 <= ruleValue
    ensures Decodes(rs, ruleValue) && Complete(rs)
  {
    var ruleBin := RuleBin(ruleValue);
    var rules: map<string, int> := map[];
    for i := 0 to 8
      invariant FilledFrom(rules, RuleDigits(ruleValue), 8 - i)
    {
      var neighbourhood := RJust(Bin(7 - i), 3, '0');
      NeighbourhoodIsPaddedBin(7 - i);
      FillStep(rules, RuleDigits(ruleValue), 8 - i);
      rules := rules[neighbourhood := DigitValue(ruleBin[i])];
    }
    rs := Ruleset(rules);
  }

  /** `get_rule(a, b, c)`: looks up the key `str(a) + str(b) + str(c)`; the
      source raises KeyError when it is missing, here the result is None. */
  function GetRule(rs: Ruleset, a: int, b: int, c: int): (r: Option<int>)
    ensures Complete(rs) ==> (r.Some? <==> IsBit(a) && IsBit(b) && IsBit(c))
    ensures Complete(rs) && r.Some? ==> IsBit(r.value)
  {
    var key := Str(a) + Str(b) + Str(c);
    assert Complete(rs) && key in rs.rules ==> IsBit(a) && IsBit(b) && IsBit(c) && IsBit(rs.rules[key]) by {
      if Complete(rs) && key in rs.rules {
        KeyIsBits(a, b, c);
        KeyOfBits(a, b, c);
      }
    }
    assert Complete(rs) && IsBit(a) && IsBit(b) && IsBit(c) ==> key in rs.rules by {
      if IsBit(a) && IsBit(b) && IsBit(c) {
        KeyOfBits(a, b, c);
      }
    }
    if key in rs.rules then Some(rs.rules[key]) else None
  }

  /** For three bits, `str(a) + str(b) + str(c)` is the key of their
      pattern value. */
  lemma KeyOfBits(a: int, b: int, c: int)
    requires IsBit(a) && IsBit(b) && IsBit(c)
    ensures Str(a) + Str(b) + Str(c) == Neighbourhood(PatternValue(a, b, c))
  {
    PatternBits(a, b, c);
  }

  /** The three bits of 4a + 2b + c are a, b and c. */
  lemma PatternBits(a: int, b: int, c: int)
    requires IsBit(a) && IsBit(b) && IsBit(c)
    ensures Bit(PatternValue(a, b, c), 2) == a
    ensures Bit(PatternValue(a, b, c), 1) == b
    ensures Bit(PatternValue(a, b, c), 0) == c
  {
    var k: nat := PatternValue(a, b, c);
    DivUnique(k, 2, 2 * a + b, c);
    DivUnique(2 * a + b, 2, a, b);
    assert k / 2 == 2 * a + b && (2 * a + b) / 2 == a;
    assert Bit(k, 2) == Bit(2 * a + b, 1) == Bit(a, 0);
    assert Bit(k, 1) == Bit(2 * a + b, 0);
  }

  /** Only three bits spell one of the eight neighbourhood keys: every other
      argument makes `get_rule` raise. */
  lemma KeyIsBits(a: int, b: int, c: int)
    requires Str(a) + Str(b) + Str(c) in KeysFrom(0)
    ensures IsBit(a) && IsBit(b) && IsBit(c)
  {
    var key := Str(a) + Str(b) + Str(c);
    var k: nat :| k < 8 && key == Neighbourhood(k);
    assert |Str(a)| == 1 && |Str(b)| == 1 && |Str(c)| == 1;
    assert key == [DigitChar(a), DigitChar(b), DigitChar(c)];
    assert DigitValue(key[0]) == a && DigitValue(key[0]) == Bit(k, 2);
    assert DigitValue(key[1]) == b && DigitValue(key[1]) == Bit(k, 1);
    assert DigitValue(key[2]) == c && DigitValue(key[2]) == Bit(k, 0);
  }

  /** A decoded table is complete. */
  lemma DecodesComplete(rs: Ruleset, ruleValue: nat)
    requires Decodes(rs, ruleValue)
    ensures Complete(rs)
  {
  }

  /** Digit 7 - k of `rule_bin`, for a rule number up to 255, is bit k of
      the number. */
  lemma RuleBinDigit(ruleValue: nat, k: nat)
    requires ruleValue <= 255 && k < 8
    ensures RuleDigits(ruleValue)[7 - k] == Bit(ruleValue, k)
  {
    Pow2Byte();
    PaddedBinDigit(ruleValue, 8, 7 - k);
    DigitRoundTrip(Bit(ruleValue, k));
  }

  /** In a decoded table of a rule number up to 255, neighbourhood value k
      maps to bit k of the number. */
  lemma DecodedBit(rs: Ruleset, ruleValue: nat, k: nat)
    requires ruleValue <= 255 && Decodes(rs, ruleValue) && k < 8
    ensures rs.rules[Neighbourhood(k)] == Bit(ruleValue, k)
  {
    RuleBinDigit(ruleValue, k);
    assert rs.rules[Neighbourhood(k)] == RuleDigits(ruleValue)[7 - k];
  }

  /** A decoded table of a rule number up to 255 answers bit 4a + 2b + c of
      the number for the bits a, b, c. */
  lemma DecodedLookup(rs: Ruleset, ruleValue: nat, a: int, b: int, c: int)
    requires ruleValue <= 255 && Decodes(rs, ruleValue)
    requires IsBit(a) && IsBit(b) && IsBit(c)
    ensures GetRule(rs, a, b, c) == Some(Bit(ruleValue, PatternValue(a, b, c)))
  {
    KeyOfBits(a, b, c);
    DecodedBit(rs, ruleValue, PatternValue(a, b, c));
  }

  /** Wolfram's numbering: for a rule number r in 0..255, the table maps the
      neighbourhood with value k = 4a + 2b + c to bit k of r, that is
      `(r // 2**k) % 2`. */
  lemma GetRuleBit(rs: Ruleset, ruleValue: nat, a: int, b: int, c: int)
    requires ruleValue <= 255 && Decodes(rs, ruleValue)
    requires IsBit(a) && IsBit(b) && IsBit(c)
    ensures GetRule(rs, a, b, c) == Some((ruleValue / Pow2(PatternValue(a, b, c))) % 2)
  {
    DecodedLookup(rs, ruleValue, a, b, c);
    BitIsDivMod(ruleValue, PatternValue(a, b, c));
  }

  /** Rule 0 sends every neighbourhood to 0. */
  lemma RuleZeroIsAllZeros(rs: Ruleset, a: int, b: int, c: int)
    requires Decodes(rs, 0)
    requires IsBit(a) && IsBit(b) && IsBit(c)
    ensures GetRule(rs, a, b, c) == Some(0)
  {
    DecodedLookup(rs, 0, a, b, c);
    BitOfZero(PatternValue(a, b, c));
  }

  /** Rule 255 sends every neighbourhood to 1. */
  lemma RuleFullIsAllOnes(rs: Ruleset, a: int, b: int, c: int)
    requires Decodes(rs, 255)
    requires IsBit(a) && IsBit(b) && IsBit(c)
    ensures GetRule(rs, a, b, c) == Some(1)
  {
    DecodedLookup(rs, 255, a, b, c);
    ByteAllOnes(PatternValue(a, b, c));
  }

  /** Two tables decoded from the same rule number agree on every key. */
  lemma DecodedEntry(rs1: Ruleset, rs2: Ruleset, ruleValue: nat, key: string)
    requires Decodes(rs1, ruleValue) && Decodes(rs2, ruleValue) && key in rs1.rules
    ensures key in rs2.rules && rs1.rules[key] == rs2.rules[key]
  {
    var k: nat :| k < 8 && key == Neighbourhood(k);
    assert rs1.rules[Neighbourhood(k)] == RuleDigits(ruleValue)[7 - k];
  }

  /** The table of a rule number is unique. */
  lemma DecodesUnique(rs1: Ruleset, rs2: Ruleset, ruleValue: nat)
    requires Decodes(rs1, ruleValue) && Decodes(rs2, ruleValue)
    ensures rs1 == rs2
  {
    forall key | key in rs1.rules ensures key in rs2.rules && rs1.rules[key] == rs2.rules[key] {
      DecodedEntry(rs1, rs2, ruleValue, key);
    }
    assert rs1.rules.Keys == rs2.rules.Keys;
  }
}
