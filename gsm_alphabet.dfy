/**
  The character table of the generator (TechnicalTest/MessagePartGenerator.cs,
  the `_gsmCharacters` dictionary): the characters of the GSM 7-bit default
  alphabet that the generator accepts, each with its cost in encoding units.
  The escape-extension characters cost two units because they are sent as an
  escape code followed by the character code (3GPP TS 23.038, sections 6.2.1
  and 6.2.1.1); the table is modelled as written, not the full standard.
 */
module GsmAlphabet {
  import opened Wrappers

  /** The escape-extension characters: the entries of the table whose cost is 2. */
  const EXTENSION_CHARACTERS: set<char> := {'€', '[', ']', '|', '^', '\\', '~', '{', '}'}

  /**
    The dictionary lookup: `Some(cost)` for a character in the table, `None`
    otherwise. The entries appear in the order of the dictionary initializer.
   */
  function Lookup(c: char): (cost: Option<int>)
    ensures cost.Some? ==> cost.value == (if c in EXTENSION_CHARACTERS then 2 else 1)
    ensures c in EXTENSION_CHARACTERS ==> cost == Some(2)
  {
    match c
    case '@' | '£' | '$' | '¥' | 'è' | 'é' | 'ù' |
         'ì' | 'ò' | 'Ç' | 'Ø' | 'ø' | 'Å' | 'å' |
         'Δ' | '_' | 'Φ' | 'Γ' | 'Λ' | 'Ω' | 'Π' |
         'Ψ' | 'Σ' | 'Θ' | 'Ξ' | 'Æ' | 'æ' | 'ß' |
         'É' | '!' | '"' | '#' | '¤' | '%' | '&' |
         '\'' | '(' | ')' | '*' | '+' | ',' | '-' |
         '.' | '/' | '0' | '1' | '2' | '3' | '4' |
         '5' | '6' | '7' | '8' | '9' | ':' | ';' |
         '<' | '=' | '>' | '?' | '¡' | 'A' | 'B' |
         'C' | 'D' | 'E' | 'F' | 'G' | 'H' | 'I' |
         'J' | 'K' | 'L' | 'M' | 'N' | 'O' | 'P' |
         'Q' | 'R' | 'S' | 'T' | 'U' | 'V' | 'W' |
         'X' | 'Y' | 'Z' | 'Ä' | 'Ö' | 'Ñ' | 'Ü' |
         '§' | '¿' | 'a' | 'b' | 'c' | 'd' | 'e' |
         'f' | 'g' | 'h' | 'i' | 'j' | 'k' | 'l' |
         'm' | 'n' | 'o' | 'p' | 'q' | 'r' | 's' |
         't' | 'u' | 'v' | 'w' | 'x' | 'y' | 'z' |
         'ä' | 'ö' | 'ñ' | 'ü' | 'à' | '\r' | '\n' |
         ' '
      => Some(1)
    case '€' | '[' | ']' | '|' | '^' | '\\' | '~' | '{' | '}'
      => Some(2)
    case _ => None
  }

  /** `ContainsKey`: the character is in the table. */
  predicate IsGsm(c: char): (inTable: bool)
    ensures c in EXTENSION_CHARACTERS ==> inTable
    ensures !inTable ==> Lookup(c) == None
  {
    Lookup(c).Some?
  }

  /**
    The unit cost of a character: its entry in the table. Characters outside
    the table are refused before they are costed; for them the value is
    immaterial and is 1.
   */
  function Cost(c: char): (n: int)
    ensures 1 <= n <= 2
  {
    if c in EXTENSION_CHARACTERS then 2 else 1
  }

  /** For a character of the table, the cost is its entry in the table. */
  lemma CostIsEntry(c: char)
    requires IsGsm(c)
    ensures Lookup(c) == Some(Cost(c))
  {
  }

  /** Every character of `s` is in the table. */
  predicate AllGsm(s: string)
  {
    forall i :: 0 <= i < |s| ==> IsGsm(s[i])
  }

  /** Every character of `s` is in the table and costs one unit. */
  predicate AllSingleUnit(s: string)
  {
    forall i :: 0 <= i < |s| ==> IsGsm(s[i]) && Cost(s[i]) == 1
  }

  /** A slice of text of the table is text of the table. */
  lemma AllGsmSlice(s: string, i: int, j: int)
    requires AllGsm(s) && 0 <= i <= j <= |s|
    ensures AllGsm(s[i..j])
  {
    forall k | 0 <= k < j - i ensures IsGsm(s[i..j][k]) {
      assert s[i..j][k] == s[i + k];
    }
  }

  /** A slice of single-unit text is single-unit text. */
  lemma SingleUnitSlice(s: string, i: int, j: int)
    requires AllSingleUnit(s) && 0 <= i <= j <= |s|
    ensures AllSingleUnit(s[i..j])
  {
    forall k | 0 <= k < j - i ensures IsGsm(s[i..j][k]) && Cost(s[i..j][k]) == 1 {
      assert s[i..j][k] == s[i + k];
    }
  }

  /** The number of units `s` takes: the sum of the costs of its characters. */
  function Units(s: string): (n: int)
    ensures |s| <= n <= 2 * |s|
  {
    if s == [] then 0 else Units(s[..|s| - 1]) + Cost(s[|s| - 1])
  }

  /** Units are additive over concatenation. */
  lemma {:induction false} UnitsAppend(s: string, t: string)
    ensures Units(s + t) == Units(s) + Units(t)
  {
    if t == [] {
      assert s + t == s;
    } else {
      var u := t[..|t| - 1];
      assert (s + t)[..|s + t| - 1] == s + u;
      UnitsAppend(s, u);
    }
  }

  /** The units of a prefix grow by the cost of the next character. */
  lemma UnitsPrefixStep(s: string, i: int)
    requires 0 <= i < |s|
    ensures Units(s[..i + 1]) == Units(s[..i]) + Cost(s[i])
  {
    assert s[..i + 1][..i] == s[..i];
  }

  /**
    The units of prefixes strictly increase with their length: every cost is
    at least 1 and at most 2.
   */
  lemma UnitsOfPrefixes(s: string, i: int, j: int)
    requires 0 <= i <= j <= |s|
    ensures Units(s[..i]) + (j - i) <= Units(s[..j]) <= Units(s[..i]) + 2 * (j - i)
  {
    assert s[..j] == s[..i] + s[i..j];
    UnitsAppend(s[..i], s[i..j]);
  }

  /** A message of single-unit characters takes as many units as it has characters. */
  lemma {:induction false} SingleUnitUnits(s: string)
    requires AllSingleUnit(s)
    ensures Units(s) == |s|
  {
    if s != [] {
      SingleUnitUnits(s[..|s| - 1]);
    }
  }
}
