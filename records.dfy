/**
  The two record types of the generator: a produced SMS part
  (TechnicalTest/MessagePart.cs) and a buffered character with its running
  position (TechnicalTest/CharacterPosition.cs).
 */
module Records {

  /** One SMS part: the text it carries, the encoding units it uses, and its 1-based number. */
  datatype MessagePart = MessagePart(message: string, characters: int, part: int)

  /** A character of the message together with the cumulative number of units up to and including it. */
  datatype CharacterPosition = CharacterPosition(character: char, position: int)

  /** The texts of the parts, joined in order. */
  function ConcatMessages(parts: seq<MessagePart>): string
  {
    if parts == [] then [] else parts[0].message + ConcatMessages(parts[1..])
  }

  /** The sum of the parts' unit counts. */
  function TotalCharacters(parts: seq<MessagePart>): int
  {
    if parts == [] then 0 else parts[0].characters + TotalCharacters(parts[1..])
  }

  /** Joining the texts of a part followed by more parts. */
  lemma ConcatMessagesCons(p: MessagePart, rest: seq<MessagePart>)
    ensures ConcatMessages([p] + rest) == p.message + ConcatMessages(rest)
  {
    assert ([p] + rest)[1..] == rest;
  }

  /** The units of a part followed by more parts. */
  lemma TotalCharactersCons(p: MessagePart, rest: seq<MessagePart>)
    ensures TotalCharacters([p] + rest) == p.characters + TotalCharacters(rest)
  {
    assert ([p] + rest)[1..] == rest;
  }
}
