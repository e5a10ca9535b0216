/**
  A reference definition of how the generator splits a message into SMS
  parts, written on strings rather than on the position buffer the
  generator keeps, and the properties the generator promises, proved of it.

  A message is split greedily: each part is the longest prefix of what is
  left whose units fit the per-part limit (160 for a message of at most 160
  units, 153 otherwise, which leaves room for the concatenation header of
  3GPP TS 23.040, section 9.2.3.24.1); a message that needs more than 255
  parts is refused.
 */
module Segmentation {
  import opened Wrappers
  import opened GsmAlphabet
  import opened Records

  /** The units one part may use when the whole message fits in one SMS. */
  const SINGLE_PART_LIMIT := 160
  /** The units one part may use when the message is sent in several parts. */
  const MULTI_PART_LIMIT := 153
  /** The most parts a message may be split into. */
  const MAX_PARTS := 255

  /** The two ways the generator refuses a message. */
  datatype Error =
    | InvalidCharacter(character: char)
    | TooManyParts

  /**
    The index of the first character of `s` that is not in the table, or
    `|s|` when every character is.
   */
  function FirstInvalidIndex(s: string): (i: nat)
    ensures i <= |s|
    ensures AllGsm(s[..i])
    ensures i < |s| ==> !IsGsm(s[i])
  {
    if s == [] || !IsGsm(s[0]) then 0
    else
      var j := FirstInvalidIndex(s[1..]);
      assert s[..1 + j] == [s[0]] + s[1..][..j];
      1 + j
  }

  /** The per-part limit the generator chooses for a valid message. */
  function Limit(message: string): (limit: int)
    ensures limit == SINGLE_PART_LIMIT <==> Units(message) <= SINGLE_PART_LIMIT
    ensures limit == MULTI_PART_LIMIT <==> Units(message) > SINGLE_PART_LIMIT
  {
    if Units(message) > SINGLE_PART_LIMIT then MULTI_PART_LIMIT else SINGLE_PART_LIMIT
  }

  /** `k` is the length of the longest prefix of `t` whose units do not exceed `limit`. */
  ghost predicate IsFitLength(t: string, limit: int, k: int)
  {
    0 <= k <= |t| && Units(t[..k]) <= limit && (k < |t| ==> Units(t[..k + 1]) > limit)
  }

  /** Some prefix is the longest one that fits: the text itself, or one of its shorter prefixes. */
  lemma {:induction false} FitLengthExists(t: string, limit: int)
    requires limit >= 0
    ensures exists k :: IsFitLength(t, limit, k)
    decreases |t|
  {
    if Units(t) <= limit {
      assert t[..|t|] == t;
      assert IsFitLength(t, limit, |t|);
    } else {
      var u := t[..|t| - 1];
      FitLengthExists(u, limit);
      var k :| IsFitLength(u, limit, k);
      assert u[..k] == t[..k];
      if k < |u| {
        assert u[..k + 1] == t[..k + 1];
      } else {
        assert t[..k + 1] == t;
      }
      assert IsFitLength(t, limit, k);
    }
  }

  /** The length of the longest prefix of `t` whose units do not exceed `limit`. */
  ghost function FitLength(t: string, limit: int): (k: nat)
    requires limit >= 0
    ensures k <= |t|
    ensures Units(t[..k]) <= limit
    ensures k < |t| ==> Units(t[..k + 1]) > limit
  {
    FitLengthExists(t, limit);
    var k :| IsFitLength(t, limit, k);
    k
  }

  /**
    Splits `t` into parts of at most `limit` units, numbering them from
    `first`: each part is the longest prefix of what is left that fits.
   */
  ghost function Split(t: string, limit: int, first: int): (parts: seq<MessagePart>)
    requires limit >= 2
    ensures |parts| <= |t|
    ensures parts == [] <==> t == []
    decreases |t|
  {
    if t == [] then []
    else
      var k := FitLength(t, limit);
      UnitsPrefixStep(t, 0);
      assert t[..0] == [];
      assert k >= 1;
      [MessagePart(t[..k], Units(t[..k]), first)] + Split(t[k..], limit, first + 1)
  }

  /**
    What the generator returns for `message`: one empty part for the empty
    message, the first character outside the table, too many parts, or the
    parts numbered from 1.
   */
  ghost function MessageParts(message: string): (r: Result<seq<MessagePart>, Error>)
    ensures r.Ok? ==> AllGsm(message) && 1 <= |r.value| <= MAX_PARTS
    ensures r.Err? && r.error.InvalidCharacter? ==>
              r.error.character in message && !IsGsm(r.error.character)
  {
    if message == [] then Ok([MessagePart([], 0, 1)])
    else
      var i := FirstInvalidIndex(message);
      if i < |message| then Err(InvalidCharacter(message[i]))
      else
        assert message[..i] == message;
        var parts := Split(message, Limit(message), 1);
        if |parts| > MAX_PARTS then Err(TooManyParts) else Ok(parts)
  }

  // ---------------------------------------------------------------------------
  // Properties of the greedy split

  /** A valid, non-empty message is split with the limit its units call for. */
  lemma ValidMessage(message: string)
    requires AllGsm(message) && message != []
    ensures MessageParts(message) ==
              var parts := Split(message, Limit(message), 1);
              if |parts| > MAX_PARTS then Err(TooManyParts) else Ok(parts)
  {
  }

  /** One step of the split: the longest fitting prefix, then the split of the rest. */
  lemma SplitStep(t: string, limit: int, first: int)
    requires limit >= 2 && t != []
    ensures FitLength(t, limit) >= 1
    ensures Split(t, limit, first) ==
              [MessagePart(t[..FitLength(t, limit)], Units(t[..FitLength(t, limit)]), first)] +
              Split(t[FitLength(t, limit)..], limit, first + 1)
  {
  }

  /** In single-unit text the longest fitting prefix is the limit, or the whole text when it is shorter. */
  lemma FitLengthSingleUnit(t: string, limit: int)
    requires AllSingleUnit(t) && limit >= 0
    ensures FitLength(t, limit) == if |t| <= limit then |t| else limit
  {
    SingleUnitUnits(t);
    if |t| <= limit {
      assert t[..|t|] == t;
      FitLengthIsLongest(t, limit, |t|);
    } else {
      SingleUnitUnits(t[..limit]);
      SingleUnitUnits(t[..limit + 1]);
      FitLengthIsLongest(t, limit, limit);
      FitLengthIsLongest(t, limit, limit + 1);
    }
  }

  /** The first invalid character is the one the generator reports: no earlier one is invalid. */
  lemma {:induction false} FirstInvalidIsFirst(s: string, j: int)
    requires 0 <= j < |s| && AllGsm(s[..j]) && !IsGsm(s[j])
    ensures FirstInvalidIndex(s) == j
  {
    if j > 0 {
      assert s[..j][0] == s[0];
      AllGsmSlice(s[..j], 1, j);
      assert s[..j][1..j] == s[1..][..j - 1];
      FirstInvalidIsFirst(s[1..], j - 1);
    }
  }

  /** A prefix fits the limit exactly when it is no longer than the longest fitting prefix. */
  lemma FitLengthIsLongest(t: string, limit: int, j: int)
    requires limit >= 0 && 0 <= j <= |t|
    ensures Units(t[..j]) <= limit <==> j <= FitLength(t, limit)
  {
    var k := FitLength(t, limit);
    if j <= k {
      UnitsOfPrefixes(t, j, k);
    } else {
      UnitsOfPrefixes(t, k + 1, j);
    }
  }

  /**
    Each part is numbered in order, holds a non-empty piece of text, and
    records the units of that piece, which fit the limit.
   */
  lemma {:induction false} SplitPart(t: string, limit: int, first: int, i: int)
    requires limit >= 2 && 0 <= i < |Split(t, limit, first)|
    ensures Split(t, limit, first)[i].part == first + i
    ensures Split(t, limit, first)[i].message != []
    ensures Split(t, limit, first)[i].characters == Units(Split(t, limit, first)[i].message)
    ensures 1 <= Split(t, limit, first)[i].characters <= limit
    decreases |t|
  {
    SplitStep(t, limit, first);
    var k := FitLength(t, limit);
    var parts := Split(t, limit, first);
    if i == 0 {
      assert parts[0] == MessagePart(t[..k], Units(t[..k]), first);
    } else {
      var rest := Split(t[k..], limit, first + 1);
      assert parts[i] == rest[i - 1];
      SplitPart(t[k..], limit, first + 1, i - 1);
    }
  }

  /** Joining the parts' texts gives back `t`: nothing is dropped, repeated or reordered. */
  lemma {:induction false} SplitConcat(t: string, limit: int, first: int)
    requires limit >= 2
    ensures ConcatMessages(Split(t, limit, first)) == t
    decreases |t|
  {
    if t != [] {
      SplitStep(t, limit, first);
      ConcatMessagesCons(MessagePart(t[..FitLength(t, limit)], Units(t[..FitLength(t, limit)]), first),
                         Split(t[FitLength(t, limit)..], limit, first + 1));
      SplitConcat(t[FitLength(t, limit)..], limit, first + 1);
      assert t == t[..FitLength(t, limit)] + t[FitLength(t, limit)..];
    }
  }

  /** The parts' unit counts add up to the units of `t`. */
  lemma {:induction false} SplitUnits(t: string, limit: int, first: int)
    requires limit >= 2
    ensures TotalCharacters(Split(t, limit, first)) == Units(t)
    decreases |t|
  {
    if t != [] {
      SplitStep(t, limit, first);
      TotalCharactersCons(MessagePart(t[..FitLength(t, limit)], Units(t[..FitLength(t, limit)]), first),
                          Split(t[FitLength(t, limit)..], limit, first + 1));
      SplitUnits(t[FitLength(t, limit)..], limit, first + 1);
      assert t == t[..FitLength(t, limit)] + t[FitLength(t, limit)..];
      UnitsAppend(t[..FitLength(t, limit)], t[FitLength(t, limit)..]);
    }
  }

  /**
    A part other than the last is full: adding the first character of the
    next part would exceed the limit. So a two-unit character is never split
    and moves whole to the next part.
   */
  lemma {:induction false} SplitPartsAreFull(t: string, limit: int, first: int, i: int)
    requires limit >= 2
    requires 0 <= i < |Split(t, limit, first)| - 1
    ensures var parts := Split(t, limit, first);
              parts[i + 1].message != [] &&
              parts[i].characters + Cost(parts[i + 1].message[0]) > limit
    decreases |t|
  {
    SplitStep(t, limit, first);
    var k := FitLength(t, limit);
    var parts := Split(t, limit, first);
    var rest := Split(t[k..], limit, first + 1);
    assert parts[i + 1] == rest[i];
    if i == 0 {
      SplitStep(t[k..], limit, first + 1);
      var k' := FitLength(t[k..], limit);
      assert rest[0] == MessagePart(t[k..][..k'], Units(t[k..][..k']), first + 1);
      assert t[k..][..k'][0] == t[k];
      UnitsPrefixStep(t, k);
      assert parts[0].characters == Units(t[..k]);
    } else {
      assert parts[i] == rest[i - 1];
      SplitPartsAreFull(t[k..], limit, first + 1, i - 1);
    }
  }

  /** A text that fits the limit is one part. */
  lemma SplitFits(t: string, limit: int, first: int)
    requires limit >= 2 && t != [] && Units(t) <= limit
    ensures Split(t, limit, first) == [MessagePart(t, Units(t), first)]
  {
    FitLengthIsLongest(t, limit, |t|);
    assert t[..|t|] == t;
  }

  /** The units of a sequence of parts, each of at most `limit` units. */
  lemma {:induction false} TotalAtMost(parts: seq<MessagePart>, limit: int)
    requires forall i :: 0 <= i < |parts| ==> parts[i].characters <= limit
    ensures TotalCharacters(parts) <= |parts| * limit
  {
    if parts != [] {
      TotalAtMost(parts[1..], limit);
      assert |parts| * limit == limit + |parts[1..]| * limit;
    }
  }

  /** The units of a sequence of parts whose every part but the last has at least `low` units. */
  lemma {:induction false} TotalAtLeast(parts: seq<MessagePart>, low: int)
    requires parts != []
    requires forall i :: 0 <= i < |parts| - 1 ==> parts[i].characters >= low
    requires parts[|parts| - 1].characters >= 1
    ensures TotalCharacters(parts) >= (|parts| - 1) * low + 1
  {
    if |parts| > 1 {
      TotalAtLeast(parts[1..], low);
      assert (|parts| - 1) * low == low + (|parts[1..]| - 1) * low;
    }
  }

  /** In single-unit text every part of the split but the last holds exactly `limit` units. */
  lemma {:induction false} SplitSingleUnitFull(t: string, limit: int, first: int)
    requires AllSingleUnit(t) && limit >= 2
    ensures forall i :: 0 <= i < |Split(t, limit, first)| - 1 ==> Split(t, limit, first)[i].characters == limit
    decreases |t|
  {
    FitLengthSingleUnit(t, limit);
    if t != [] && |t| <= limit {
      SingleUnitUnits(t);
      SplitFits(t, limit, first);
    } else if t != [] {
      SingleUnitSlice(t, limit, |t|);
      SingleUnitSlice(t, 0, limit);
      assert t[0..limit] == t[..limit] && t[limit..|t|] == t[limit..];
      SingleUnitUnits(t[..limit]);
      SplitSingleUnitFull(t[limit..], limit, first + 1);
      SplitStep(t, limit, first);
      forall i | 0 <= i < |Split(t, limit, first)| - 1 ensures Split(t, limit, first)[i].characters == limit {
        if i > 0 {
          assert Split(t, limit, first)[i] == Split(t[limit..], limit, first + 1)[i - 1];
        }
      }
    }
  }

  /**
    For single-unit text every part but the last holds exactly `limit`
    characters, so the number of parts is the character count divided by
    the limit, rounded up.
   */
  lemma SplitSingleUnit(t: string, limit: int, first: int)
    requires AllSingleUnit(t) && limit >= 2 && t != []
    ensures forall i :: 0 <= i < |Split(t, limit, first)| - 1 ==> Split(t, limit, first)[i].characters == limit
    ensures (|Split(t, limit, first)| - 1) * limit < |t| <= |Split(t, limit, first)| * limit
  {
    SplitSingleUnitFull(t, limit, first);
    SingleUnitUnits(t);
    SplitUnits(t, limit, first);
    forall i | 0 <= i < |Split(t, limit, first)| ensures 1 <= Split(t, limit, first)[i].characters <= limit {
      SplitPart(t, limit, first, i);
    }
    TotalAtMost(Split(t, limit, first), limit);
    TotalAtLeast(Split(t, limit, first), limit);
  }


  // ---------------------------------------------------------------------------
  // Properties of the generator's result

  /** A message made only of table characters is never refused for its characters; any other is, for its first bad one. */
  lemma InvalidCharacterIffNotGsm(message: string)
    ensures (MessageParts(message).Err? && MessageParts(message).error.InvalidCharacter?)
              <==> !AllGsm(message)
    ensures !AllGsm(message) ==>
              exists i :: 0 <= i < |message| && AllGsm(message[..i]) && !IsGsm(message[i]) &&
                MessageParts(message) == Err(InvalidCharacter(message[i]))
  {
    var i := FirstInvalidIndex(message);
    if i == |message| {
      assert message[..i] == message;
    }
  }

  /** Joining the texts of the parts gives back the message. */
  lemma RoundTrip(message: string)
    requires MessageParts(message).Ok?
    ensures ConcatMessages(MessageParts(message).value) == message
  {
    if message != [] {
      assert AllGsm(message) by { InvalidCharacterIffNotGsm(message); }
      SplitConcat(message, Limit(message), 1);
    }
  }

  /** The parts' unit counts add up to the units of the whole message. */
  lemma UnitsConserved(message: string)
    requires MessageParts(message).Ok?
    ensures AllGsm(message)
    ensures TotalCharacters(MessageParts(message).value) == Units(message)
  {
    InvalidCharacterIffNotGsm(message);
    if message != [] {
      SplitUnits(message, Limit(message), 1);
    }
  }

  /** Parts are numbered 1, 2, ..., n in order, and there are between 1 and 255 of them. */
  lemma PartNumbers(message: string)
    requires MessageParts(message).Ok?
    ensures 1 <= |MessageParts(message).value| <= MAX_PARTS
    ensures forall i :: 0 <= i < |MessageParts(message).value| ==> MessageParts(message).value[i].part == i + 1
  {
    if message != [] {
      InvalidCharacterIffNotGsm(message);
      ValidMessage(message);
      forall i | 0 <= i < |MessageParts(message).value| ensures MessageParts(message).value[i].part == i + 1 {
        SplitPart(message, Limit(message), 1, i);
      }
    }
  }

  /** A message of at most 160 units, the empty one included, is sent whole as a single part. */
  lemma SinglePart(message: string)
    requires AllGsm(message) && Units(message) <= SINGLE_PART_LIMIT
    ensures MessageParts(message) == Ok([MessagePart(message, Units(message), 1)])
  {
    if message != [] {
      InvalidCharacterIffNotGsm(message);
      SplitFits(message, SINGLE_PART_LIMIT, 1);
    }
  }

  /**
    A message of more than 160 units is sent in at least two parts of at
    most 153 units; every part but the last has 152 or 153 units, and 152
    only when the next part starts with a two-unit character.
   */
  lemma MultiPartBounds(message: string)
    requires AllGsm(message) && Units(message) > SINGLE_PART_LIMIT
    requires MessageParts(message).Ok?
    ensures |MessageParts(message).value| >= 2
    ensures forall i :: 0 <= i < |MessageParts(message).value| ==>
              1 <= MessageParts(message).value[i].characters <= MULTI_PART_LIMIT
    ensures forall i :: 0 <= i < |MessageParts(message).value| - 1 ==>
              MessageParts(message).value[i].characters in {MULTI_PART_LIMIT - 1, MULTI_PART_LIMIT}
    ensures forall i :: 0 <= i < |MessageParts(message).value| - 1 ==>
              MessageParts(message).value[i].characters == MULTI_PART_LIMIT - 1 ==>
                MessageParts(message).value[i + 1].message != [] &&
                MessageParts(message).value[i + 1].message[0] in EXTENSION_CHARACTERS
  {
    ValidMessage(message);
    var parts := Split(message, MULTI_PART_LIMIT, 1);
    assert MessageParts(message).value == parts;
    forall i | 0 <= i < |parts| ensures 1 <= parts[i].characters <= MULTI_PART_LIMIT {
      SplitPart(message, MULTI_PART_LIMIT, 1, i);
    }
    if |parts| == 1 {
      SplitUnits(message, MULTI_PART_LIMIT, 1);
      assert false;
    }
    forall i | 0 <= i < |parts| - 1
      ensures parts[i].characters in {MULTI_PART_LIMIT - 1, MULTI_PART_LIMIT}
      ensures parts[i].characters == MULTI_PART_LIMIT - 1 ==>
                parts[i + 1].message != [] && parts[i + 1].message[0] in EXTENSION_CHARACTERS
    {
      SplitPart(message, MULTI_PART_LIMIT, 1, i);
      SplitPartsAreFull(message, MULTI_PART_LIMIT, 1, i);
    }
  }

  /** In a multi-part split every part has at most 153 units and every part but the last at least 152. */
  lemma MultiPartTotals(message: string)
    requires AllGsm(message) && message != [] && Units(message) > SINGLE_PART_LIMIT
    ensures var parts := Split(message, MULTI_PART_LIMIT, 1);
              parts != [] &&
              (|parts| - 1) * (MULTI_PART_LIMIT - 1) + 1 <= Units(message) <= |parts| * MULTI_PART_LIMIT
  {
    var parts := Split(message, MULTI_PART_LIMIT, 1);
    SplitUnits(message, MULTI_PART_LIMIT, 1);
    forall i | 0 <= i < |parts| ensures 1 <= parts[i].characters <= MULTI_PART_LIMIT {
      SplitPart(message, MULTI_PART_LIMIT, 1, i);
    }
    TotalAtMost(parts, MULTI_PART_LIMIT);
    forall i | 0 <= i < |parts| - 1 ensures parts[i].characters >= MULTI_PART_LIMIT - 1 {
      SplitPartsAreFull(message, MULTI_PART_LIMIT, 1, i);
    }
    TotalAtLeast(parts, MULTI_PART_LIMIT - 1);
  }

  /**
    The 255-part cap: a message of more than 255 * 153 = 39015 units is
    always refused, and one of at most 255 * 152 = 38760 units never is.
   */
  lemma TooManyPartsBounds(message: string)
    requires AllGsm(message)
    ensures Units(message) > MAX_PARTS * MULTI_PART_LIMIT ==> MessageParts(message) == Err(TooManyParts)
    ensures MessageParts(message) == Err(TooManyParts) ==> Units(message) > MAX_PARTS * (MULTI_PART_LIMIT - 1)
  {
    if message != [] {
      ValidMessage(message);
      if Units(message) > SINGLE_PART_LIMIT {
        MultiPartTotals(message);
      } else {
        SplitFits(message, SINGLE_PART_LIMIT, 1);
      }
    }
  }

  /**
    A message of more than 160 single-unit characters is accepted exactly
    when it has at most 255 * 153 = 39015 characters; then every part but
    the last is 153 units and the number of parts is the length divided by
    153, rounded up.
   */
  lemma SingleUnitMultiPart(message: string)
    requires AllSingleUnit(message) && |message| > SINGLE_PART_LIMIT
    ensures MessageParts(message).Ok? <==> |message| <= MAX_PARTS * MULTI_PART_LIMIT
    ensures MessageParts(message).Ok? ==>
              var parts := MessageParts(message).value;
              (|parts| - 1) * MULTI_PART_LIMIT < |message| <= |parts| * MULTI_PART_LIMIT &&
              forall i :: 0 <= i < |parts| - 1 ==> parts[i].characters == MULTI_PART_LIMIT
  {
    SingleUnitUnits(message);
    InvalidCharacterIffNotGsm(message);
    SplitSingleUnit(message, MULTI_PART_LIMIT, 1);
  }

  /** A message of exactly 39015 single-unit characters fills all 255 parts of 153 units. */
  lemma MaxSizedMessage(message: string)
    requires AllSingleUnit(message) && |message| == MAX_PARTS * MULTI_PART_LIMIT
    ensures MessageParts(message).Ok?
    ensures |MessageParts(message).value| == MAX_PARTS
    ensures MessageParts(message).value[0].characters == MULTI_PART_LIMIT
    ensures MessageParts(message).value[MAX_PARTS - 1].characters == MULTI_PART_LIMIT
    ensures TotalCharacters(MessageParts(message).value) == MAX_PARTS * MULTI_PART_LIMIT
  {
    SingleUnitUnits(message);
    SingleUnitMultiPart(message);
    var parts := MessageParts(message).value;
    assert |parts| == MAX_PARTS;
    UnitsConserved(message);
    MultiPartBounds(message);
    TotalSplit(parts, MAX_PARTS - 1);
    TotalAtMost(parts[..MAX_PARTS - 1], MULTI_PART_LIMIT);
    assert parts[MAX_PARTS - 1..] == [parts[MAX_PARTS - 1]];
    TotalCharactersCons(parts[MAX_PARTS - 1], []);
  }

  /** The total of a sequence of parts is the total of a prefix plus the rest. */
  lemma {:induction false} TotalSplit(parts: seq<MessagePart>, n: int)
    requires 0 <= n <= |parts|
    ensures TotalCharacters(parts) == TotalCharacters(parts[..n]) + TotalCharacters(parts[n..])
  {
    if n > 0 {
      TotalSplit(parts[1..], n - 1);
      assert parts[1..][..n - 1] == parts[..n][1..];
      assert parts[1..][n - 1..] == parts[n..];
    }
  }

  /** The units of 159 single-unit characters followed by a euro sign, and of its pieces. */
  lemma EuroUnits(s: string)
    requires AllSingleUnit(s) && |s| == 159
    ensures AllGsm(s + ['€'])
    ensures Units(s + ['€']) == 161
    ensures Units((s + ['€'])[..153]) == 153 && Units((s + ['€'])[..154]) == 154
    ensures Units(s[153..] + ['€']) == 8
  {
    assert AllSingleUnit(s[153..]) && AllSingleUnit(s[..153]) && AllSingleUnit(s[..154]);
    SingleUnitUnits(s[153..]);
    SingleUnitUnits(s[..153]);
    SingleUnitUnits(s[..154]);
    SingleUnitUnits(s);
    assert Units(['€']) == 2 by { assert ['€'][..0] == []; }
    UnitsAppend(s, ['€']);
    UnitsAppend(s[153..], ['€']);
    assert (s + ['€'])[..154] == s[..154] && (s + ['€'])[..153] == s[..153];
    assert IsGsm('€');
    forall i | 0 <= i < |s + ['€']| ensures IsGsm((s + ['€'])[i]) {
      if i < |s| {
        assert (s + ['€'])[i] == s[i];
      }
    }
  }

  /** The split of 159 single-unit characters followed by a euro sign, at the multi-part limit. */
  lemma EuroSplit(s: string)
    requires AllSingleUnit(s) && |s| == 159
    ensures Split(s + ['€'], MULTI_PART_LIMIT, 1) ==
              [MessagePart(s[..153], 153, 1), MessagePart(s[153..] + ['€'], 8, 2)]
  {
    EuroUnits(s);
    FitLengthIsLongest(s + ['€'], MULTI_PART_LIMIT, 153);
    FitLengthIsLongest(s + ['€'], MULTI_PART_LIMIT, 154);
    assert FitLength(s + ['€'], MULTI_PART_LIMIT) == 153;
    assert (s + ['€'])[..153] == s[..153];
    assert (s + ['€'])[153..] == s[153..] + ['€'];
    SplitStep(s + ['€'], MULTI_PART_LIMIT, 1);
    SplitFits(s[153..] + ['€'], MULTI_PART_LIMIT, 2);
  }

  /**
    159 single-unit characters followed by a euro sign take 161 units: two
    parts, of 153 and 8 units.
   */
  lemma EuroTrailing(s: string)
    requires AllSingleUnit(s) && |s| == 159
    ensures MessageParts(s + ['€']) ==
              Ok([MessagePart(s[..153], 153, 1), MessagePart(s[153..] + ['€'], 8, 2)])
  {
    EuroUnits(s);
    ValidMessage(s + ['€']);
    EuroSplit(s);
  }
}
