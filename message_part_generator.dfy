/**
  `MessagePartGenerator.GetMessageParts` (TechnicalTest/MessagePartGenerator.cs):
  the imperative split of a message into SMS parts over a buffer of running
  positions, proved to compute what the reference split of module
  Segmentation describes.
 */
module MessagePartGenerator {
  import opened Wrappers
  import opened GsmAlphabet
  import opened Records
  import opened Segmentation

  /**
    The buffer the generator holds for the text `t` still to be sent: each
    character with the units of `t` up to and including it.
   */
  ghost function PositionsOf(t: string): (buffer: seq<CharacterPosition>)
  {
    seq(|t|, j requires 0 <= j < |t| => CharacterPosition(t[j], Units(t[..j + 1])))
  }

  /** `Where(c => c.Position <= limit)`: the buffered characters within the limit, in order. */
  function Where(buffer: seq<CharacterPosition>, limit: int): (taken: seq<CharacterPosition>)
    ensures |taken| <= |buffer|
    ensures forall i :: 0 <= i < |taken| ==> taken[i].position <= limit
  {
    if buffer == [] then []
    else if buffer[0].position <= limit then [buffer[0]] + Where(buffer[1..], limit)
    else Where(buffer[1..], limit)
  }

  /** What `RemoveAll(c => c.Position <= limit)` leaves: the buffered characters beyond the limit, in order. */
  function RemoveAll(buffer: seq<CharacterPosition>, limit: int): (kept: seq<CharacterPosition>)
    ensures |kept| <= |buffer|
    ensures forall i :: 0 <= i < |kept| ==> kept[i].position > limit
  {
    if buffer == [] then []
    else if buffer[0].position <= limit then RemoveAll(buffer[1..], limit)
    else [buffer[0]] + RemoveAll(buffer[1..], limit)
  }

  /** `Select(x => x.Character)`: the characters of a buffer. */
  function Select(buffer: seq<CharacterPosition>): (s: string)
    ensures |s| == |buffer|
    ensures forall i :: 0 <= i < |buffer| ==> s[i] == buffer[i].character
  {
    seq(|buffer|, i requires 0 <= i < |buffer| => buffer[i].character)
  }

  /** `ForEach(c => c.Position -= units)`: every position moved down by `units`. */
  function Rebase(buffer: seq<CharacterPosition>, units: int): (rebased: seq<CharacterPosition>)
    ensures |rebased| == |buffer|
    ensures forall i :: 0 <= i < |buffer| ==> rebased[i].character == buffer[i].character
    ensures forall i :: 0 <= i < |buffer| ==> rebased[i].position + units == buffer[i].position
  {
    seq(|buffer|, i requires 0 <= i < |buffer| => CharacterPosition(buffer[i].character, buffer[i].position - units))
  }

  // ---------------------------------------------------------------------------
  // The buffer of positions

  /**
    One turn of the generator's first loop: a character of the table is
    buffered at the previous last position (or 0) plus its cost in the
    table, which gives the buffer of the text one character longer.
   */
  lemma BufferStep(message: string, n: int, buffer: seq<CharacterPosition>)
    requires 0 <= n < |message| && AllGsm(message[..n]) && buffer == PositionsOf(message[..n])
    requires Lookup(message[n]).Some?
    ensures AllGsm(message[..n + 1])
    ensures PositionsOf(message[..n + 1]) ==
              buffer + [CharacterPosition(message[n],
                                          (if buffer == [] then 0 else buffer[|buffer| - 1].position) +
                                          Lookup(message[n]).value)]
  {
    if buffer != [] {
      LastPosition(message[..n]);
    }
    PositionsAppend(message[..n], message[n]);
    CostIsEntry(message[n]);
    assert message[..n + 1] == message[..n] + [message[n]];
  }

  /** Appending a character appends its position: the previous last position plus its cost. */
  lemma PositionsAppend(s: string, c: char)
    ensures PositionsOf(s + [c]) == PositionsOf(s) + [CharacterPosition(c, Units(s) + Cost(c))]
  {
    var t := s + [c];
    assert t[..|s|] == s;
    UnitsPrefixStep(t, |s|);
    forall j | 0 <= j < |s| ensures PositionsOf(t)[j] == PositionsOf(s)[j] {
      assert t[..j + 1] == s[..j + 1];
    }
  }

  /** The last buffered position is the units of the whole text. */
  lemma LastPosition(t: string)
    requires t != []
    ensures PositionsOf(t)[|t| - 1].position == Units(t)
  {
    assert t[..|t|] == t;
  }

  /**
    Positions strictly increase along the buffer, and the first one is the
    cost of the first character, so 1 or 2.
   */
  lemma PositionsIncrease(t: string, i: int, j: int)
    requires 0 <= i <= j < |t|
    ensures 1 <= PositionsOf(t)[0].position <= 2
    ensures i < j ==> PositionsOf(t)[i].position < PositionsOf(t)[j].position
  {
    UnitsPrefixStep(t, 0);
    assert t[..0] == [];
    UnitsOfPrefixes(t, i + 1, j + 1);
  }

  /**
    The per-part limit is the multi-part one exactly when the last buffered
    position, which the generator reads to choose it, exceeds 160.
   */
  lemma LimitFromLastPosition(message: string)
    requires message != []
    ensures Limit(message) == MULTI_PART_LIMIT <==>
              PositionsOf(message)[|message| - 1].position > SINGLE_PART_LIMIT
  {
    LastPosition(message);
  }

  /**
    When the positions up to `k` are within the limit and those after are
    beyond it, `Where` takes exactly the first `k` entries and `RemoveAll`
    keeps exactly the rest.
   */
  lemma {:induction false} FilterAtPrefix(buffer: seq<CharacterPosition>, limit: int, k: int)
    requires 0 <= k <= |buffer|
    requires forall j :: 0 <= j < k ==> buffer[j].position <= limit
    requires forall j :: k <= j < |buffer| ==> buffer[j].position > limit
    ensures Where(buffer, limit) == buffer[..k]
    ensures RemoveAll(buffer, limit) == buffer[k..]
  {
    if buffer != [] {
      if k == 0 {
        FilterAtPrefix(buffer[1..], limit, 0);
        assert buffer[1..] == buffer[k..][1..];
      } else {
        FilterAtPrefix(buffer[1..], limit, k - 1);
        assert buffer[..k] == [buffer[0]] + buffer[1..][..k - 1];
        assert buffer[1..][k - 1..] == buffer[k..];
      }
    }
  }

  /**
    `Where` and `RemoveAll` use the same predicate, so between them they
    hold every buffered entry exactly once.
   */
  lemma {:induction false} FilterPartition(buffer: seq<CharacterPosition>, limit: int)
    ensures multiset(Where(buffer, limit)) + multiset(RemoveAll(buffer, limit)) == multiset(buffer)
  {
    if buffer != [] {
      FilterPartition(buffer[1..], limit);
      assert buffer == [buffer[0]] + buffer[1..];
    }
  }

  /**
    Because positions increase, the `Where` filter and the `RemoveAll` of
    the generator split the buffer at the longest prefix of the text that
    fits the limit.
   */
  lemma WhereIsPrefix(t: string, limit: int)
    requires limit >= 0
    ensures Where(PositionsOf(t), limit) == PositionsOf(t)[..FitLength(t, limit)]
    ensures RemoveAll(PositionsOf(t), limit) == PositionsOf(t)[FitLength(t, limit)..]
  {
    var buffer := PositionsOf(t);
    var k := FitLength(t, limit);
    forall j | 0 <= j < |buffer| ensures buffer[j].position <= limit <==> j < k {
      FitLengthIsLongest(t, limit, j + 1);
    }
    FilterAtPrefix(buffer, limit, k);
  }

  /** The characters of a prefix of the buffer spell the same prefix of the text. */
  lemma SelectPrefix(t: string, k: int)
    requires 0 <= k <= |t|
    ensures Select(PositionsOf(t)[..k]) == t[..k]
  {
  }

  /**
    Dropping the first `k` entries and moving the rest down by the units of
    the text they covered gives the buffer of the remaining text.
   */
  lemma RebaseRest(t: string, k: int)
    requires 0 <= k <= |t|
    ensures Rebase(PositionsOf(t)[k..], Units(t[..k])) == PositionsOf(t[k..])
  {
    var rest := t[k..];
    var rebased := Rebase(PositionsOf(t)[k..], Units(t[..k]));
    forall j | 0 <= j < |rest| ensures rebased[j] == PositionsOf(rest)[j] {
      assert t[..k + j + 1] == t[..k] + rest[..j + 1];
      UnitsAppend(t[..k], rest[..j + 1]);
    }
  }

  /** The buffer of a prefix of the text is the same prefix of the buffer. */
  lemma PositionsPrefix(t: string, k: int)
    requires 0 <= k <= |t|
    ensures PositionsOf(t)[..k] == PositionsOf(t[..k])
  {
    forall j | 0 <= j < k ensures PositionsOf(t)[j] == PositionsOf(t[..k])[j] {
      assert t[..k][..j + 1] == t[..j + 1];
    }
  }

  /**
    One turn of the generator's loop on the buffer of the text `t`: the
    characters taken are never none, spell the longest fitting prefix, and
    end at its units; once those are removed and the rest re-based, the
    buffer is that of the remaining text. A text within the limit is
    taken whole.
   */
  lemma TakePart(t: string, limit: int)
    requires t != [] && limit >= 2
    ensures Where(PositionsOf(t), limit) != []
    ensures Select(Where(PositionsOf(t), limit)) == t[..FitLength(t, limit)]
    ensures Where(PositionsOf(t), limit)[|Where(PositionsOf(t), limit)| - 1].position == Units(t[..FitLength(t, limit)])
    ensures Rebase(RemoveAll(PositionsOf(t), limit), Units(t[..FitLength(t, limit)])) == PositionsOf(t[FitLength(t, limit)..])
    ensures Units(t) <= limit ==> FitLength(t, limit) == |t| && RemoveAll(PositionsOf(t), limit) == []
  {
    var k := FitLength(t, limit);
    WhereIsPrefix(t, limit);
    SplitStep(t, limit, 0);
    SelectPrefix(t, k);
    PositionsPrefix(t, k);
    LastPosition(t[..k]);
    RebaseRest(t, k);
    if Units(t) <= limit {
      assert t[..|t|] == t;
      FitLengthIsLongest(t, limit, |t|);
    }
  }

  /** Concatenation re-associates around one element. */
  lemma AppendOne<T>(whole: seq<T>, done: seq<T>, rest: seq<T>, x: T, after: seq<T>)
    requires whole == done + rest && rest == [x] + after
    ensures whole == (done + [x]) + after
  {
  }

  // ---------------------------------------------------------------------------
  // The second loop of the generator

  /**
    The state of the generator's second loop: `rest` is the text not yet
    sent, the buffer is that of `rest`, and the parts made so far followed
    by the split of `rest` make up the split of the whole message.
   */
  ghost predicate Pending(message: string, limit: int, rest: string, parts: seq<MessagePart>, buffer: seq<CharacterPosition>)
  {
    limit >= 2 &&
    buffer == PositionsOf(rest) &&
    Split(message, limit, 1) == parts + Split(rest, limit, |parts| + 1)
  }

  /** Appending the next part of the split of `rest` keeps the parts a prefix of the split of the message. */
  lemma SplitAdvance(message: string, limit: int, rest: string, parts: seq<MessagePart>)
    requires limit >= 2 && rest != []
    requires Split(message, limit, 1) == parts + Split(rest, limit, |parts| + 1)
    ensures |Split(message, limit, 1)| > |parts|
    ensures Split(message, limit, 1) ==
              (parts + [MessagePart(rest[..FitLength(rest, limit)], Units(rest[..FitLength(rest, limit)]), |parts| + 1)]) +
              Split(rest[FitLength(rest, limit)..], limit,
                    |parts + [MessagePart(rest[..FitLength(rest, limit)], Units(rest[..FitLength(rest, limit)]), |parts| + 1)]| + 1)
  {
    SplitStep(rest, limit, |parts| + 1);
    AppendOne(Split(message, limit, 1), parts, Split(rest, limit, |parts| + 1),
              MessagePart(rest[..FitLength(rest, limit)], Units(rest[..FitLength(rest, limit)]), |parts| + 1),
              Split(rest[FitLength(rest, limit)..], limit, |parts| + 1 + 1));
  }

  /**
    What one turn of the second loop takes from the buffer: the characters
    within the limit are never none, spell the longest fitting prefix of
    the rest and end at its units; once they are removed (and the rest
    re-based for a multi-part message) the buffer is that of the text after
    them. While text remains, the split of the message is longer than the
    parts made so far.
   */
  lemma NextPart(message: string, limit: int, rest: string, parts: seq<MessagePart>, buffer: seq<CharacterPosition>)
    requires Pending(message, limit, rest, parts, buffer) && buffer != []
    ensures |Split(message, limit, 1)| > |parts|
    ensures Where(buffer, limit) != []
    ensures Select(Where(buffer, limit)) == rest[..FitLength(rest, limit)]
    ensures Where(buffer, limit)[|Where(buffer, limit)| - 1].position == Units(rest[..FitLength(rest, limit)])
    ensures Rebase(RemoveAll(buffer, limit), Units(rest[..FitLength(rest, limit)])) ==
            PositionsOf(rest[FitLength(rest, limit)..])
    ensures Units(rest) <= limit ==> RemoveAll(buffer, limit) == [] && rest[FitLength(rest, limit)..] == []
  {
    SplitAdvance(message, limit, rest, parts);
    TakePart(rest, limit);
  }

  /**
    One turn of the second loop keeps its state: the part it appends is the
    next part of the split, and the buffer it leaves is that of the text
    after it. A message within the single-part limit is not re-based, and
    is sent whole in one turn.
   */
  lemma LoopStep(message: string, limit: int, rest: string, parts: seq<MessagePart>,
                 buffer: seq<CharacterPosition>, rebase: bool,
                 parts': seq<MessagePart>, buffer': seq<CharacterPosition>)
    requires Pending(message, limit, rest, parts, buffer) && buffer != [] && Where(buffer, limit) != []
    requires !rebase ==> rest == message && Units(message) <= limit
    requires parts' == parts + [MessagePart(Select(Where(buffer, limit)),
                                            Where(buffer, limit)[|Where(buffer, limit)| - 1].position, |parts| + 1)]
    requires buffer' == if rebase
                        then Rebase(RemoveAll(buffer, limit), Where(buffer, limit)[|Where(buffer, limit)| - 1].position)
                        else RemoveAll(buffer, limit)
    ensures Pending(message, limit, rest[FitLength(rest, limit)..], parts', buffer')
    ensures !rebase ==> rest[FitLength(rest, limit)..] == []
  {
    SplitAdvance(message, limit, rest, parts);
    NextPart(message, limit, rest, parts, buffer);
  }

  /** When the buffer runs out, the parts are the whole split of the message. */
  lemma LoopDone(message: string, limit: int, rest: string, parts: seq<MessagePart>)
    requires Pending(message, limit, rest, parts, [])
    ensures parts == Split(message, limit, 1)
  {
    assert parts + [] == parts;
  }

  // ---------------------------------------------------------------------------
  // The generator

  /**
    The generator's first loop: buffers each character of the message with
    its running position, the previous last position (or 0) plus its cost
    in the table, and refuses the first character outside the table.
   */
  method BufferCharacters(message: string) returns (r: Result<seq<CharacterPosition>, Error>)
    ensures r == if FirstInvalidIndex(message) < |message|
                 then Err(InvalidCharacter(message[FirstInvalidIndex(message)]))
                 else Ok(PositionsOf(message))
    ensures r.Ok? ==> AllGsm(message)
  {
    var buffer: seq<CharacterPosition> := [];
    var n := 0;
    while n < |message|
      invariant 0 <= n <= |message|
      invariant AllGsm(message[..n])
      invariant buffer == PositionsOf(message[..n])
    {
      var character := message[n];
      if Lookup(character).None? {
        FirstInvalidIsFirst(message, n);
        return Err(InvalidCharacter(character));
      }
      BufferStep(message, n, buffer);
      var previous := if buffer == [] then 0 else buffer[|buffer| - 1].position;
      buffer := buffer + [CharacterPosition(character, previous + Lookup(character).value)];
      n := n + 1;
    }
    assert message[..n] == message;
    assert AllGsm(message);
    return Ok(buffer);
  }

  /**
    The generator's second loop: while the buffer is not empty, takes the
    characters within the limit as the next part, numbered from 1, removes
    them and, for a multi-part message, re-bases the rest by the units of
    the part; refuses to start a 256th part. The result is the split of the
    message, or `TooManyParts` when that split has more than 255 parts.
   */
  method SplitBuffer(ghost message: string, buffer: seq<CharacterPosition>, isMultiPart: bool)
    returns (r: Result<seq<MessagePart>, Error>)
    requires message != [] && buffer == PositionsOf(message)
    requires isMultiPart <==> Units(message) > SINGLE_PART_LIMIT
    ensures r == if |Split(message, Limit(message), 1)| > MAX_PARTS then Err(TooManyParts)
                 else Ok(Split(message, Limit(message), 1))
  {
    LastPosition(message);
    assert [] + Split(message, Limit(message), 1) == Split(message, Limit(message), 1);
    var limit := if isMultiPart then MULTI_PART_LIMIT else SINGLE_PART_LIMIT;
    var parts: seq<MessagePart> := [];
    var characterPositions := buffer;
    ghost var rest := message;
    while |characterPositions| > 0
      invariant Pending(message, limit, rest, parts, characterPositions)
      invariant |parts| <= MAX_PARTS
      invariant !isMultiPart ==> rest == message || rest == []
      decreases |characterPositions|
    {
      NextPart(message, limit, rest, parts, characterPositions);
      if |parts| == MAX_PARTS {
        return Err(TooManyParts);
      }
      ghost var before := parts;
      ghost var held := characterPositions;
      var split := Where(characterPositions, limit);
      var msg := Select(split);
      var charactersToLoad := split[|split| - 1].position;
      parts := parts + [MessagePart(msg, charactersToLoad, |parts| + 1)];
      characterPositions := RemoveAll(characterPositions, limit);
      if isMultiPart {
        characterPositions := Rebase(characterPositions, charactersToLoad);
      }
      LoopStep(message, limit, rest, before, held, isMultiPart, parts, characterPositions);
      rest := rest[FitLength(rest, limit)..];
    }
    LoopDone(message, limit, rest, parts);
    return Ok(parts);
  }

  /**
    Splits `message` into SMS parts: an empty message is one empty part;
    otherwise the message is buffered (refusing a character outside the
    table), the last buffered position decides whether the message is
    multi-part, and the buffer is split into parts. The result is the
    reference split of the message.
   */
  method GetMessageParts(message: string) returns (r: Result<seq<MessagePart>, Error>)
    ensures r == MessageParts(message)
  {
    if message == [] {
      return Ok([MessagePart([], 0, 1)]);
    }
    var buffered := BufferCharacters(message);
    if buffered.Err? {
      return Err(buffered.error);
    }
    var buffer := buffered.value;
    ValidMessage(message);
    LimitFromLastPosition(message);
    var isMultiPart := buffer[|buffer| - 1].position > SINGLE_PART_LIMIT;
    r := SplitBuffer(message, buffer, isMultiPart);
  }
}
