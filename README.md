# SMS message part generator

A Dafny model of `MessagePartGenerator.GetMessageParts` from the TechnicalTest
project. The method splits a text message into SMS parts:

- Every character must be in the generator's table of the GSM 7-bit
  default alphabet.
- A character costs one encoding unit, or two for the escape-extension
  characters `€ [ ] | ^ \ ~ { }` (3GPP TS 23.038, sections 6.2.1 and
  6.2.1.1).
- A message of at most 160 units is sent as one part.
- A longer message is cut into parts of at most 153 units, which leaves
  room for the concatenation header of 3GPP TS 23.040, section
  9.2.3.24.1.
- A message needing more than 255 parts is refused.

The project has five modules:

- `Wrappers` holds `Option` and `Result`.
- `Records` holds the two records of the generator:
  - `MessagePart` holds the text, the units and the 1-based part number.
  - `CharacterPosition` holds a character and its running position.
- `GsmAlphabet` holds the character table and the unit count of a text.
- `Segmentation` is a reference definition of the split, written on
  strings:
  - each part is the longest prefix of the remaining text whose units fit
    the limit;
  - the properties the generator promises are proved about it.
- `MessagePartGenerator` is the generator itself, written imperatively:
  - A first loop buffers every character with its running position.
  - A second loop takes the buffered characters within the limit as the
    next part, removes them, and re-bases the remaining positions of a
    multi-part message.
  - `GetMessageParts` is proved to return exactly the reference split.

The two loops of the C# method are modelled as two methods,
`BufferCharacters` and `SplitBuffer`, which `GetMessageParts` calls in
sequence. Their bodies follow the source statement by statement. Exceptions
become `Err` values of the `Segmentation.Error` datatype:

- `ArgumentOutOfRangeException` becomes `InvalidCharacter(c)`.
- `IndexOutOfRangeException` becomes `TooManyParts`.

## Model

| member | source | states |
|---|---|---|
| GsmAlphabet.Lookup | TechnicalTest/MessagePartGenerator.cs:16-38 | the dictionary: every character it holds costs 2 if it is an escape-extension character and 1 otherwise, and every escape-extension character is in it |
| GsmAlphabet.IsGsm | TechnicalTest/MessagePartGenerator.cs:58 | `ContainsKey`: every escape-extension character is in the table, and a character outside it has no entry; CostIsEntry gives a table character's cost and FirstInvalidIndex shows where the first one outside the table stops the generator |
| GsmAlphabet.CostIsEntry | TechnicalTest/MessagePartGenerator.cs:16-38 | for a character in the table, the unit cost used throughout the model is the table's entry |
| GsmAlphabet.Units | TechnicalTest/MessagePartGenerator.cs:65 | a text takes between one and two units per character |
| GsmAlphabet.UnitsAppend | TechnicalTest/MessagePartGenerator.cs:65 | units are additive over concatenation, which is what makes a running position meaningful |
| GsmAlphabet.UnitsOfPrefixes | TechnicalTest/MessagePartGenerator.cs:65 | the units of longer prefixes grow by at least one and at most two per character |
| GsmAlphabet.SingleUnitUnits | TechnicalTest/MessagePartGenerator.cs:16-38 | a text of one-unit characters takes as many units as it has characters |
| Segmentation.FirstInvalidIndex | TechnicalTest/MessagePartGenerator.cs:55-59 | the index of the first character outside the table: everything before it is in the table, and the character there is not |
| Segmentation.FirstInvalidIsFirst | TechnicalTest/MessagePartGenerator.cs:55-59 | the character at which the foreach loop throws is the first invalid one |
| Segmentation.FitLength | TechnicalTest/MessagePartGenerator.cs:80 | the length of the longest prefix whose units fit the limit: that prefix fits and one more character would not |
| Segmentation.FitLengthIsLongest | TechnicalTest/MessagePartGenerator.cs:80 | a prefix fits the limit if and only if it is no longer than the longest fitting prefix |
| Segmentation.Split | TechnicalTest/MessagePartGenerator.cs:73-98 | the reference split has no more parts than the text has characters, and is empty exactly when the text is |
| Segmentation.MessageParts | TechnicalTest/MessagePartGenerator.cs:47-101 | the reference result of the generator: an accepted message is all table characters and has 1 to 255 parts, and a refused character occurs in the message and is outside the table; RoundTrip, UnitsConserved and PartNumbers state the rest |
| Segmentation.SplitPart | TechnicalTest/MessagePartGenerator.cs:80-89 | each part is numbered in order, holds a non-empty text, and records that text's units, which lie between 1 and the limit |
| Segmentation.SplitPartsAreFull | TechnicalTest/MessagePartGenerator.cs:84-87 | every part but the last is full: its units plus the cost of the next part's first character exceed the limit, so a two-unit character moves whole to the next part |
| Segmentation.SplitConcat | TechnicalTest/MessagePartGenerator.cs:80-92 | joining the texts of the parts gives back the text |
| Segmentation.SplitUnits | TechnicalTest/MessagePartGenerator.cs:87-97 | the parts' units add up to the units of the text |
| Segmentation.SplitSingleUnit | TechnicalTest/MessagePartGenerator.cs:80-92 | for one-unit text every part but the last holds exactly the limit, and the number of parts is the length divided by the limit, rounded up |
| Segmentation.InvalidCharacterIffNotGsm | TechnicalTest/MessagePartGenerator.cs:55-59 | a message is refused for a character if and only if some character is outside the table, and the character reported is the first such one |
| Segmentation.RoundTrip | TechnicalTest/MessagePartGenerator.cs:47-101 | for an accepted message, joining the texts of the parts gives back the message |
| Segmentation.UnitsConserved | TechnicalTest/MessagePartGenerator.cs:87-97 | for an accepted message, the parts' units add up to the units of the message |
| Segmentation.PartNumbers | TechnicalTest/MessagePartGenerator.cs:75-89 | an accepted message has between 1 and 255 parts, numbered 1, 2, ... in order |
| Segmentation.SinglePart | TechnicalTest/MessagePartGenerator.cs:49-51 | a message of at most 160 units, the empty one included, is one part holding the whole message and its units |
| Segmentation.MultiPartBounds | TechnicalTest/MessagePartGenerator.cs:70-89 | a message of more than 160 units has at least two parts of 1 to 153 units; every part but the last has 152 or 153 units, and 152 only when the next part starts with a two-unit character |
| Segmentation.MultiPartTotals | TechnicalTest/MessagePartGenerator.cs:70-97 | a multi-part message of n parts takes more than (n-1)*152 and at most n*153 units |
| Segmentation.TooManyPartsBounds | TechnicalTest/MessagePartGenerator.cs:75-77 | a message of more than 255*153 units is always refused as too many parts, and a refused one has more than 255*152 units |
| Segmentation.SingleUnitMultiPart | TechnicalTest.Tests/MessagePartGeneratorTests.cs:111-129 | a message of more than 160 one-unit characters is accepted if and only if it has at most 39015 characters; then every part but the last holds 153 units |
| Segmentation.MaxSizedMessage | TechnicalTest.Tests/MessagePartGeneratorTests.cs:119-129 | 39015 one-unit characters give 255 parts, the first and the last of 153 units, 39015 units in total |
| Segmentation.EuroTrailing | TechnicalTest.Tests/MessagePartGeneratorTests.cs:99-109 | 159 one-unit characters followed by a euro sign give two parts, of 153 and 8 units |
| MessagePartGenerator.BufferStep | TechnicalTest/MessagePartGenerator.cs:61-66 | buffering one more character at the previous last position (or 0) plus its table entry gives the buffer of the text one character longer |
| MessagePartGenerator.PositionsAppend | TechnicalTest/MessagePartGenerator.cs:63-66 | the buffer of a text with one more character gains one entry, at the units of the text plus the character's cost |
| MessagePartGenerator.LastPosition | TechnicalTest/MessagePartGenerator.cs:70 | the last buffered position is the units of the whole message |
| MessagePartGenerator.PositionsIncrease | TechnicalTest/MessagePartGenerator.cs:63-66 | for every non-empty text the first buffered position is 1 or 2, and positions strictly increase along the buffer |
| MessagePartGenerator.LimitFromLastPosition | TechnicalTest/MessagePartGenerator.cs:70 | the message is split with the multi-part limit of 153 exactly when the last buffered position, which the generator reads, exceeds 160 |
| MessagePartGenerator.Where | TechnicalTest/MessagePartGenerator.cs:80 | the filter keeps only entries within the limit, and never more entries than the buffer has |
| MessagePartGenerator.RemoveAll | TechnicalTest/MessagePartGenerator.cs:92 | what the removal leaves is only entries beyond the limit, and never more entries than the buffer has |
| MessagePartGenerator.Select | TechnicalTest/MessagePartGenerator.cs:82 | the part's text has one character per entry taken, in order; SelectPrefix and TakePart show that on the buffer of a text it spells the longest fitting prefix |
| MessagePartGenerator.Rebase | TechnicalTest/MessagePartGenerator.cs:96-97 | every remaining entry keeps its character and moves down by exactly the units sent; RebaseRest shows the result is the buffer of the remaining text |
| MessagePartGenerator.FilterPartition | TechnicalTest/MessagePartGenerator.cs:80-92 | the filter and the removal use the same predicate, so between them they hold every buffered entry exactly once |
| MessagePartGenerator.FilterAtPrefix | TechnicalTest/MessagePartGenerator.cs:80-92 | on a buffer whose first k entries are within the limit and the rest beyond it, the filter is exactly those k entries and the removal leaves exactly the rest |
| MessagePartGenerator.WhereIsPrefix | TechnicalTest/MessagePartGenerator.cs:80-92 | on the buffer of a text, the filter takes exactly the longest fitting prefix and the removal leaves exactly what follows |
| MessagePartGenerator.RebaseRest | TechnicalTest/MessagePartGenerator.cs:96-97 | re-basing the remaining entries by the units already sent gives the buffer of the remaining text |
| MessagePartGenerator.TakePart | TechnicalTest/MessagePartGenerator.cs:80-97 | one turn on the buffer of a non-empty text: the filter is never empty, spells the longest fitting prefix and ends at its units; the re-based rest is the buffer of the remaining text; a text within the limit is taken whole |
| MessagePartGenerator.NextPart | TechnicalTest/MessagePartGenerator.cs:80-97 | the same facts stated on the loop's state, and while the buffer is non-empty the parts made so far are fewer than the split's |
| MessagePartGenerator.LoopStep | TechnicalTest/MessagePartGenerator.cs:73-98 | one turn of the second loop appends the next part of the split and leaves the buffer of the remaining text; a single-part message, never re-based, is sent in one turn |
| MessagePartGenerator.LoopDone | TechnicalTest/MessagePartGenerator.cs:73 | when the buffer runs out the parts made are the whole split |
| MessagePartGenerator.BufferCharacters | TechnicalTest/MessagePartGenerator.cs:53-67 | the first loop refuses the first character outside the table, and otherwise returns every character with the units of the message up to and including it |
| MessagePartGenerator.SplitBuffer | TechnicalTest/MessagePartGenerator.cs:70-100 | the second loop returns the reference split of the message, or refuses it as too many parts exactly when that split has more than 255 parts |
| MessagePartGenerator.GetMessageParts | TechnicalTest/MessagePartGenerator.cs:47-101 | the generator returns the reference result: one empty part for the empty message, the first invalid character, too many parts, or the split numbered from 1 |

## Left out

- Program.cs, file reading and console output are not part of this model.
- The exception types and message texts are left out; only the kind of
  error and the offending character are kept. The source's error text says
  "in message." where its test expects "in file.", and that wording is not
  modelled.
- A `null` message is treated by `string.IsNullOrEmpty` like the empty
  message. Dafny strings cannot be null, so only the empty message is
  modelled.
- MessagePartGenerator.BufferCharacters: like the source, it reports the
  invalid character but not its index. The model follows the code here,
  not a design that also reports the position.
- Characters are Unicode scalar values, as Dafny's `char` is, while C#
  iterates UTF-16 code units. Every character outside the Basic
  Multilingual Plane is outside the table, so both refuse such a message.
  But the model reports the whole character, where the source reports its
  high surrogate.
- GsmAlphabet.Units: positions are unbounded integers. The source's
  32-bit `int` cannot overflow for strings that fit in memory
  (at most 2 units per character), so wrap-around is not modelled.
- GsmAlphabet.Cost: for characters outside the table its value (1) is
  never used. The generator refuses such characters before costing them.
- The 7-bit packing of characters and the concatenation header bytes are
  not built by the source and not modelled. Only their unit budget is.
- The buffer is a list of mutable `CharacterPosition` objects, updated in
  place by `RemoveAll` and `ForEach`. The model holds it as a sequence of
  values that each step reassigns. The buffer is never shared, so there is
  no aliasing to lose.
- LINQ's deferred evaluation of `Where` is not modelled. The query is
  enumerated (by `Select` and `Last`) before `RemoveAll` changes the list,
  so evaluating it eagerly gives the same result.
