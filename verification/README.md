# Verified model of the p≡p JSON server adapter

The JSON server adapter serves the p≡p engine to local clients over JSON-RPC. This project models the parts of the
adapter whose correctness is an argument rather than a reading, and proves that argument:

| part | files | source |
|---|---|---|
| Unicode: UTF-8, canonical ordering, decomposition, composition, NFC | `utf8`, `unicode_tables`, `canonical_ordering`, `decomposition`, `standard_decomposition`, `composition`, `nfc`, `standard_composition`, `standard_nfc`, `hangul`, `nfc_promises`, `nfc_acceptance` | server/nfc.cc |
| JSON: escapes, printer, grammar, tree-building machine | `json_strings`, `json_escapes`, `json_values`, `json_writer`, `json_layout`, `json_grammar`, `semantic_actions`, `json_reader`, `json_faults`, `json_round_trip` | server/json_spirit |
| Event fan-out to polling sessions | `event_queues`, `event_histories` | server/json-adapter.cc |
| Engine sessions and the configuration cache of each client | `session_registry` | server/session_registry.cc |
| Handles and the resource registry | `handle_codes`, `handle_registry` | server/registry.cc, server/registry.hh |
| Base64, log line wrapping, parameter marshalling | `base64`, `line_wrap`, `function_call` | server/base64.cc, server/logger.cc, server/function_map.hh |

`dafny verify dfyconfig.toml` checks everything.

Code that changes state is modelled by methods and classes over arrays and fields (`CanonicalOrdering`, `Combine`,
`Machine`, `Generator`, `SessionRegistry`, `Registry`, `Context`, ...). Each such method is proved against a function,
and the promises are theorems about that function. Exceptions are `Err` results. C++ words are integers, with
truncation and wrap-around written out where they happen.

## What the program does not do

Some promises made by comments, names or standards do not hold of the code. The model follows the code, and the
theorems say exactly when the promise is met.

- `createNFC` composes each starter at most once, because the marker of a deleted mark has class 0 and blocks what
  follows (server/nfc.cc:364, 386), and it never composes two starters, so it composes no Hangul, for which there is no
  arithmetic either. It also composes to the exclusions of UAX #15: server/nfc_sets.hh:25 says that the table leaves
  them out, but `generate_nfc_compose` leaves out singletons only (server/nfc.cc:498). It meets the composition
  algorithm of the Unicode Standard (D114 to D117) exactly on the strings of `ComposesOnce`
  (`ComposedMeetsStandardIff`; samples `SampleHalfComposed`, `SampleExcluded`, `SampleHangul`).
- So `toNFC` yields NFC exactly if the quick check says Yes or the program's decomposition is such a string
  (`NfcMeetsStandardIff`). Canonically equivalent strings can have different results (`EquivalentSameNfcIff` and
  `EquivalentPairSameNfcIff`; samples `SampleHalfComposed`, `SampleHebrew`, `SampleHangul`), a result can be refused by
  `isNFC` (`ResultRefusedIff`; `SampleExcluded`), and `isNFC` can be wrong both ways: it accepts strings that are not in
  NFC (`AcceptedIsNfcIff`; `SampleFalseAccept`) and refuses strings that are (`NfcIsAcceptedIff`; `SampleFalseRefusal`).
- `isNFC_quick_check` stops at the first Maybe; the algorithm of UAX #15 section 9 goes on and may still find a No
  (`QuickCheckMeetsStandardIff`; `SampleMaybeBeforeNo`).
- `isUtf8` catches an exception type that the parser does not throw, so it never returns false (`IsUtf8`;
  `Utf8.SampleIllFormed`). For the same reason `toNFC` reports ill-formed input with two different exception types
  (`ToNfc`; `NfcPromises.SampleIllFormed`).
- Without `raw_utf8` and `always_escape_nonascii`, a printable character beyond ASCII loses its continuation octets
  (server/json_spirit/json_spirit_writer_template.h:103-105). The option's comment promises that printable ASCII
  characters are not escaped, but with it they are (server/json_spirit/json_spirit_writer_options.h:29-31).
  `RoundTripIff` says when a string survives (`SampleLosesOctets`), and `AsciiStaysIff` when ASCII text comes out as it
  is (`SampleEscapesAscii`).
- The alphabet of the handle code has sixty letters, of which base 57 uses fifty-seven, and the sum of `unbase57`
  wraps around. So different texts can name the same handle (`Base57InvertsIff`; `SampleAlias`).
- `Registry::clear` deletes the resources but leaves the map as it is, and a resource that the creator returns again
  is deleted while it stays registered. Either way it is deleted a second time later, and only then
  (`NeverDeletedTwiceIff`, `DeletedOnceIff`; `SampleClear`, `SampleDuplicate`).
- `wrapLongLine` runs forever on some lines when the maximum length is below 8, and its setter has no lower bound
  (`TerminatesIff`; `SampleEndless`).
- `base64_decode` accepts more than encodings (`EncodeOfDecodeIff`; `SampleNotCanonical`).

## Model

| member | source | states |
|---|---|---|
| Utf8.ParseUtf8 | server/nfc.cc:191-272 | succeeds exactly if the input begins with a sequence of the grammar in RFC 3629 section 4, returns its payload and stops on its last octet; otherwise the exception, its octet, its number and the place are those that the input determines |
| Utf8.OutcomeIsUnique | server/nfc.cc:191-272 | an input has one value or exception, with all that it carries, and one place where the parser stops |
| Utf8.ToUtf8Char | server/nfc.cc:275-298 | appends the encoding of every code point up to 10FFFF and refuses the others |
| Utf8.ToUtf8 | server/nfc.cc:301-309 | the encodings of all code points in order |
| Utf8.EncodingIsSequence | server/nfc.cc:275-298 | what is printed for a scalar value is one sequence of the grammar, and its payload bits are that value |
| Utf8.SequenceIsEncoding | server/nfc.cc:191-272 | every sequence of the grammar is the encoding of a scalar value: none is overlong, a surrogate or too big |
| Utf8.FrontIsUnique | server/nfc.cc:191-272 | no sequence is a proper prefix of another one, so parsing is unambiguous |
| Utf8.DecodeEncode | server/nfc.cc:191-309 | parsing the printed form of scalar values returns them |
| Utf8.EncodeDecode | server/nfc.cc:191-309 | printing what was parsed returns the octets: each accepted string is the encoding of its value |
| Utf8.WellFormedIffEncoding | server/nfc.cc:322-338 | the accepted strings are exactly the encodings of sequences of scalar values |
| Utf8.WellFormedConcat | server/nfc.cc:322-338 | behind a well-formed prefix, well-formedness and the decoding of the rest are independent of it |
| Utf8.AssertUtf8 | server/nfc.cc:322-338 | throws exactly on ill-formed strings, with the position and the reason of the first fault |
| Utf8.FirstFaultIsUnique | server/nfc.cc:322-338 | there is only one first fault |
| Utf8.IsUtf8 | server/nfc.cc:470-480 | true exactly on well-formed strings, the parser's exception on all others, never false |
| Utf8.SampleIllFormed | server/nfc.cc:470-480 | a lone continuation octet leaves isUtf8 with the exception it does not catch |
| UnicodeTables.GenerateNfcCompose | server/nfc.cc:493-505 | the table sends each pair to the greatest code point that decomposes into it, and holds nothing else |
| UnicodeTables.ComposeTableIsUnique | server/nfc.cc:493-505 | that fixes the table |
| Ordering.CanonicalOrdering | server/nfc.cc:159-174 | the bubble sort leaves in the array the canonical ordering of what was there |
| Ordering.OrderedIsInOrder | server/nfc.cc:150-174 | no reorderable pair (D108) is left, and a string has none exactly if sorting leaves it alone |
| Ordering.OrderedIsStablePermutation | server/nfc.cc:159-174 | it permutes, keeps the order inside every class, and fixes the class-0 positions |
| Ordering.LinkedIffSameOrdering | server/nfc.cc:159-174 | two strings have one ordering exactly if swaps of adjacent marks of different non-zero classes lead from one to the other |
| Ordering.OrderedIsTheOnlyResult | server/nfc.cc:159-174 | D109: it is the only string that is so linked to the input and has no reorderable pair |
| Decomposition.DecomposeFullIsFinal | server/nfc.cc:133-146 | full decomposition ends in scalar values that decompose no further |
| Decomposition.NfdIsNormal | server/nfc.cc:342-355 | decomposing again changes nothing |
| Decomposition.FromUtf8Decompose | server/nfc.cc:342-355 | yields the ordered full decomposition of every well-formed string, and the parser's exception on the others |
| StandardDecomposition.FullDecompositionIff | server/nfc.cc:133-146 | the full decomposition of a character is exactly what is left when entries of the table, singletons and pairs, are replaced in any order until none applies |
| StandardDecomposition.DecompositionIff | server/nfc.cc:342-355 | the same for strings |
| StandardDecomposition.NfdIff | server/nfc.cc:122-174 | the canonical decomposition is exactly the string in canonical order that replacing entries and exchanging independent neighbours lead to, which is D68 of the Unicode Standard |
| StandardDecomposition.SampleAngstrom | server/nfc.cc:133-146 | 212B, a singleton of 00C5, decomposes into 0041 030A, once |
| Composition.Blocked | server/nfc.cc:358-368 | true exactly if a class-0 character or one of the same class lies between |
| Composition.CombineMarks | server/nfc.cc:374-389 | the in-place loop composes the first mark that can be composed and no other one |
| Composition.Combine | server/nfc.cc:371-399 | appends the starter, composed at most once, with the remaining marks; the rest of the buffer is unchanged |
| Composition.TriedStep | server/nfc.cc:375-389 | behind a composed mark everything is blocked, before it nothing has changed |
| Composition.KeptOfTried | server/nfc.cc:391-398 | the filter removes the deletion marker and nothing else |
| Composition.CreateNfc | server/nfc.cc:402-423 | composes piece by piece, over any ordered or unordered input |
| Composition.CombinedKeepsNfd | server/nfc.cc:371-399 | composing one starter keeps the canonical decomposition of every string it stands in |
| Composition.ComposedKeepsNfd | server/nfc.cc:402-423 | decomposing the composition of an ordered decomposition returns it |
| Composition.ComposedIsInOrder | server/nfc.cc:402-423 | composing leaves no reorderable pair |
| Nfc.IsNfcQuickCheck | server/nfc.cc:426-452 | the verdict on the code points in front of the first fault; that fault is reported, with position and reason, only if nothing before it decided |
| Nfc.QuickYesIff | server/nfc.cc:426-452 | Yes exactly for strings in canonical order without No and Maybe characters |
| Nfc.QuickNoIff | server/nfc.cc:426-452 | on ordered strings, No exactly if a No character stands in front of every Maybe |
| Nfc.QuickCheckMeetsStandardIff | server/nfc.cc:426-452 | disagrees with the algorithm of UAX #15 section 9 exactly if a Maybe, with no reason for No up to it, stands in front of a character with one |
| Nfc.SampleMaybeBeforeNo | server/nfc.cc:441-442 | 09BE 0958 is such a string |
| Nfc.ToNfc | server/nfc.cc:483-489 | succeeds exactly on well-formed input, with the result of the fast or the slow path; which exception is thrown otherwise, and for which fault |
| Nfc.Renormalise | server/nfc.cc:488 | the slow path composes the canonical decomposition of every well-formed string, and throws the parser's exception on the others |
| Nfc.IsNfc | server/nfc.cc:455-468 | the answer for well-formed input; ill-formed input gets one only if the quick check says No, and then it is false |
| Nfc.NfcKeepsNfd | server/nfc.cc:483-489 | normalisation preserves canonical equivalence |
| Nfc.NfcIsIdempotent | server/nfc.cc:483-489 | normalising twice is normalising once, whichever path each call takes |
| Nfc.IsNfcIff | server/nfc.cc:455-468 | isNFC accepts exactly the strings that toNFC leaves alone and the quick check does not refuse |
| Nfc.NfcAcceptedIff | server/nfc.cc:455-489 | a result of toNFC is accepted by isNFC exactly if each of its No characters stands behind a Maybe; `ResultRefusedIff` says which inputs have such results |
| Nfc.NfcWithoutNoIsAccepted | server/nfc.cc:455-489 | a result without No characters is accepted |
| Nfc.NfcOfBytes | server/nfc.cc:455-489 | the same promises for octet strings |
| StandardComposition.ComposedMeetsStandardIff | server/nfc.cc:402-423 | over any tables, createNFC computes D117 over primary composites exactly if it takes no composition exclusion and nothing is left to compose with a starter that has composed once |
| StandardComposition.EquivalentStringsDiffer | server/nfc.cc:364-386 | two equivalent strings with different results, wherever two marks compose in turn |
| StandardComposition.OwnResultRefused | server/nfc.cc:497-501 | an excluded composite is produced, where the standard leaves the pair alone, and then refused |
| StandardComposition.SampleHalfComposed | server/nfc.cc:483-489 | a, dot below, circumflex comes out as 1EA1 0302 although 1EAD passes |
| StandardComposition.SampleExcluded | server/nfc.cc:483-489 | 0915 093C comes out as 0958, which isNFC refuses |
| StandardNfc.PrimaryIff | server/nfc.cc:493-505 | over coherent tables the compositions outside No are exactly the primary composites of D114, and their second characters are in Maybe |
| StandardNfc.CharacterComposes | server/nfc.cc:402-423 | D117 takes the full decomposition of a character outside No back to that character, whatever follows |
| StandardNfc.InsertCommutes | server/nfc.cc:426-452 | composing an ordered string and inserting a mark that is not in Maybe may change places |
| StandardNfc.QuickYesIsNfc | server/nfc.cc:485-486 | the fast path is right: a string with the verdict Yes is its own NFC by the standard |
| StandardNfc.QuickNoIsNotNfc | server/nfc.cc:455-460 | a string with the verdict No is not in NFC |
| StandardNfc.StandardKeepsNfd | server/nfc.cc:483-489 | the NFC of the standard is canonically equivalent to the string |
| StandardNfc.ExclusionComesBack | server/nfc.cc:483-505 | an exclusion whose mark is not in Maybe differs from its own decomposition after toNFC |
| StandardNfc.SampleHebrew | server/nfc.cc:483-505 | FB1D and 05D9 05B4 are such strings |
| Hangul.WithHangulAddsIt | server/nfc.cc:493-505 | Hangul can be added to the tables: syllables split and jamo pairs join as in section 3.12 of the Unicode Standard, and the tables stay valid |
| Hangul.SampleSyllables | server/nfc.cc:493-505 | the syllables that are added split as in the example of section 3.12, D4DB, and so do the first and the last one |
| Hangul.NfdWithHangul | server/nfc.cc:342-355 | the canonical decomposition of the standard is that of the program with its Hangul syllables split |
| Hangul.SameComposed | server/nfc.cc:402-423 | createNFC does the same over tables with Hangul |
| NfcPromises.SlowPathIsNfcIff | server/nfc.cc:488 | the slow path makes NFC of a string exactly if createNFC meets D117 on what the program decomposes, Hangul included |
| NfcPromises.NfcKeepsEquivalence | server/nfc.cc:483-489 | toNFC preserves canonical equivalence, that of Hangul included |
| NfcPromises.NfcMeetsStandardIff | server/nfc.cc:483-489 | toNFC yields NFC exactly on Yes or where the slow path is right |
| NfcPromises.EquivalentPairSameNfcIff | server/nfc.cc:483-489 | two equivalent strings get one result exactly if both pass the quick check, or one does and the slow path is right on the other, or neither does and the program decomposes both alike |
| NfcPromises.EquivalentSameNfcIff | server/nfc.cc:483-489 | all strings equivalent to a given one get one result exactly if its decomposition spells no Hangul syllable and the slow path is right on it or its NFC does not pass the quick check |
| NfcPromises.SampleIllFormed | server/nfc.cc:483-489 | one ill-formed input for each exception type of toNFC |
| NfcPromises.SampleHangul | server/nfc.cc:483-489 | the jamo 1100 1161 are left apart, where NFC is AC00 |
| NfcPromises.SampleIsStandard | server/nfc.cc:493-505 | there are tables with decompositions, exclusions and Hangul that meet everything the theorems suppose |
| NfcAcceptance.ComposedAgainIff | server/nfc.cc:402-423 | if createNFC took no exclusion, composing its result by D117 changes nothing exactly if it had left nothing to compose |
| NfcAcceptance.AcceptedIsNfcIff | server/nfc.cc:455-468 | a string that isNFC accepts is in NFC exactly if it holds no exclusion and nothing in it, taken as it stands, composes by D117 |
| NfcAcceptance.NfcIsAcceptedIff | server/nfc.cc:455-468 | a string in NFC is accepted exactly on Yes, or if each of its composites is one of a final character and a mark and no piece of its decomposition is composed to an exclusion |
| NfcAcceptance.ResultRefusedIff | server/nfc.cc:455-489 | isNFC refuses the result of toNFC exactly if the input is no Yes and composing its decomposition takes an exclusion with no Maybe in front of it |
| NfcAcceptance.SampleFalseAccept | server/nfc.cc:455-468 | 1EA1 0302 is accepted, where NFC is 1EAD |
| NfcAcceptance.SampleFalseRefusal | server/nfc.cc:455-468 | 0915 093C is refused, which is in NFC |
| JsonStrings.AddEscChars | server/json_spirit/json_spirit_writer_template.h:80-115 | yields the escaped text, or fails exactly where there is none |
| JsonEscapes.EscapedIff | server/json_spirit/json_spirit_writer_template.h:52-78 | exactly the control characters, the quote and the backslash are escaped in every mode |
| JsonEscapes.EscapeSpelled | server/json_spirit/json_spirit_writer_template.h:52-78 | with the short escape where there is one, and with four digits otherwise |
| JsonEscapes.UnitSpelled | server/json_spirit/json_spirit_writer_template.h:24-52 | the digits of a code unit, most significant first, in upper case |
| JsonEscapes.NoControlsWritten | server/json_spirit/json_spirit_writer_template.h:80-115 | no control character is ever written inside a string, in no mode |
| JsonEscapes.SampleLineFeed | server/json_spirit/json_spirit_writer_template.h:80-115 | a line feed in raw mode comes out as backslash and n |
| JsonStrings.EscapeNeedsWritable | server/json_spirit/json_spirit_writer_template.h:80-115 | outside raw mode exactly the well-formed strings can be escaped |
| JsonStrings.SubstituteEscChars | server/json_spirit/json_spirit_reader_template.h:175-206 | the loop over stretches computes the character-wise unescaping, errors included |
| JsonEscapes.UnescapeIff | server/json_spirit/json_spirit_reader_template.h:95-206 | a text comes out exactly if the characters stand for it by RFC 8259 section 7: short escapes, hexadecimal digits of either case, surrogate pairs, and the extension of one octet |
| JsonEscapes.UnescapeFailsIff | server/json_spirit/json_spirit_reader_template.h:95-206 | each exception is thrown exactly for the fault it names, in the first escape that has one |
| JsonEscapes.SampleLowerCase | server/json_spirit/json_spirit_reader_template.h:57-63 | 00e9 in lower case is e with acute |
| JsonStrings.ReadEscape | server/json_spirit/json_spirit_reader_template.h:101-172 | one escape: its text and its end, in terms of the whole unescaping |
| JsonStrings.EncodeUtf | server/json_spirit/json_spirit_reader.cc:44-74 | agrees with the printer of nfc.cc on every code point |
| JsonStrings.ReadUnit | server/json_spirit/json_spirit_writer_template.h:42-51 | an escaped code unit is read back as the UTF-8 form of its character |
| JsonStrings.ReadPair | server/json_spirit/json_spirit_writer_template.h:35-41 | an escaped surrogate pair is joined to the code point it was split from |
| JsonStrings.UnescapeEscape | server/json_spirit/json_spirit_writer_template.h:80-115 | unescaping an escaped string returns what is received of it, in every mode |
| JsonStrings.RoundTripIff | server/json_spirit/json_spirit_writer_template.h:80-115 | the string itself comes back exactly if no printable character loses octets: always in raw mode and with always_escape_nonascii |
| JsonStrings.AsciiStaysIff | server/json_spirit/json_spirit_writer_template.h:80-115 | ASCII text comes out as it is exactly if no character of it needs an escape and the mode is raw, or the characters are printable and always_escape_nonascii is off |
| JsonStrings.SampleEscapesAscii | server/json_spirit/json_spirit_writer_template.h:97-110 | with always_escape_nonascii a capital A is escaped |
| JsonStrings.SampleLosesOctets | server/json_spirit/json_spirit_writer_template.h:103-105 | a printable e with acute comes back as its lead octet |
| JsonStrings.EscapePasses | server/json_spirit/json_spirit_writer_template.h:55-98 | escaped text has no unescaped quote and no dangling backslash |
| JsonStrings.TokenEndsAtItsQuote | server/json_spirit/json_spirit_reader_template.h:528-538 | a string token ends exactly at its closing quote, whatever follows |
| JsonValues.IntegerCasts | server/json_spirit/json_spirit_value.h:440-463 | each integer accessor casts back what the other one gave |
| SemanticActions.Machine.AddToCurrent | server/json_spirit/json_spirit_reader_template.h:335-387 | the new state and the pointer to the new child |
| SemanticActions.Machine.Perform | server/json_spirit/json_spirit_reader_template.h:262-369 | each semantic action makes the step of the specification |
| SemanticActions.StepKeepsPointers | server/json_spirit/json_spirit_reader_template.h:335-394 | every action keeps: the stack holds exactly the strict ancestors of the current container, each entered through its last child |
| SemanticActions.RunKeepsPointers | server/json_spirit/json_spirit_reader_template.h:335-394 | and so does every run |
| SemanticActions.NoPointerIsInvalidated | server/json_spirit/json_spirit_reader_template.h:377-394 | in no reachable state does push_back move an object that a stored pointer points to |
| SemanticActions.Replay | server/json_spirit/json_spirit_reader_template.h:335-387 | replaying the actions of a value inside a container appends exactly that value and restores pointers and stack |
| SemanticActions.ReplayBuilds | server/json_spirit/json_spirit_reader_template.h:335-387 | replaying them from the start leaves exactly that value |
| JsonWriter.Generator.Output | server/json_spirit/json_spirit_writer_template.h:155-276 | appends the text of the value in the current layout and restores the indentation, or throws exactly if a string in it cannot be written |
| JsonWriter.Generator.PutElement | server/json_spirit/json_spirit_writer_template.h:225-276 | one element with its comma and layout |
| JsonWriter.Generator.PutMemberLine | server/json_spirit/json_spirit_writer_template.h:257-276 | one member with its comma and layout |
| JsonWriter.WriteString | server/json_spirit/json_spirit_writer_template.h:326-335 | the whole text |
| JsonLayout.TokensSpelled | server/json_spirit/json_spirit_writer_template.h:155-309 | the brackets, separators and words that the printer writes |
| JsonLayout.Indents | server/json_spirit/json_spirit_writer_template.h:278-309 | pretty layouts indent by four spaces for each level and put spaces around the colon |
| JsonLayout.InnerLayouts | server/json_spirit/json_spirit_writer_template.h:225-255 | an array without compounds stands on one line exactly with the option for it, otherwise with an element on each line |
| JsonLayout.OuterLayouts | server/json_spirit/json_spirit_writer_template.h:225-255 | an array that holds a compound has its elements on lines of their own, each one level deeper |
| JsonLayout.SampleParts | server/json_spirit/json_spirit_writer_template.h:195-276 | where the layout of an object stands |
| JsonLayout.SampleCompact | server/json_spirit/json_spirit_writer_template.h:155-276 | a whole value without layout, character by character |
| JsonLayout.SpacesSpelled | server/json_spirit/json_spirit_reader_template.h:605 | which characters are white space |
| JsonLayout.CommentsSpelled | server/json_spirit/json_spirit_reader_template.h:606-607 | which texts are comments |
| JsonReader.MatchSpells | server/json_spirit/json_spirit_reader_template.h:488-544 | whatever the text, what a match takes of it spells a value in the grammar, comments and white space included, and the actions are those of that value |
| JsonReader.SpelledIsRead | server/json_spirit/json_spirit_reader_template.h:488-544 | every text that spells a value is matched with the actions of that value, up to its end |
| JsonReader.MatchIff | server/json_spirit/json_spirit_reader_template.h:488-544 | a match takes exactly the texts of the grammar |
| JsonReader.ReadIff | server/json_spirit/json_spirit_reader_template.h:597-616 | a text is read as a value exactly if it begins with a text that spells the value and, behind a number, does not go on with one |
| JsonReader.SpellingIsUnique | server/json_spirit/json_spirit_reader_template.h:488-544 | no text spells two values |
| JsonReader.EveryMatchRuns | server/json_spirit/json_spirit_reader_template.h:488-544 | no assertion of the machine fails on any text that matches |
| JsonReader.PerformAll | server/json_spirit/json_spirit_reader_template.h:597-616 | the machine ends in the state that the actions lead to |
| JsonReader.Read | server/json_spirit/json_spirit_reader_template.h:597-616 | grammar and machine together compute the reading of the text, errors included |
| JsonFaults.ReadFailsIff | server/json_spirit/json_spirit_reader_template.h:488-616 | a text is refused with an error exactly if the grammar of faults says so: which of an unclosed array or object, a missing colon or value, a bad escape and a real number is met first |
| JsonRoundTrip.TextSpells | server/json_spirit/json_spirit_writer_template.h:155-276 | every printed text is in the grammar and spells what comes back of the value, in every layout |
| JsonRoundTrip.ReadValue | server/json_spirit/json_spirit_reader_template.h:493-544 | every printed value is matched with its own actions, in every layout and whatever follows that does not continue a number |
| JsonRoundTrip.ReadBack | server/json_spirit/json_spirit_reader_template.h:597-616 | reading what was written returns the value with its member order and duplicate names, up to what `Returned` says of strings and small unsigned integers |
| JsonRoundTrip.ReturnedIff | server/json_spirit/json_spirit_writer_template.h:155-296 | that is the value itself exactly if it is faithful |
| JsonRoundTrip.RoundTripOfValueIff | server/json_spirit/json_spirit_writer_template.h:155-296 | so the round trip returns exactly the faithful values unchanged, in compact, pretty and single-line layout |
| EventQueues.NextKeepsInv | server/json-adapter.cc:136-429 | every atomic action of a deliverer, poller or closer keeps the invariant |
| EventQueues.RunKeepsInv | server/json-adapter.cc:136-429 | and so does every interleaving |
| EventQueues.DeliveredInOrder | server/json-adapter.cc:136-151 | in every reachable state, the events popped from a queue and those waiting in it are a contiguous segment of the global log, from the poll that made the queue up to its close or to now |
| EventQueues.SameOrderForAll | server/json-adapter.cc:146-150 | two sessions see every common stretch of the log alike |
| EventQueues.ClosedStaysClosed | server/json-adapter.cc:306-340 | a closed queue is served no further and its segment is not taken back |
| EventQueues.AnswersAreHistory | server/json-adapter.cc:390-429 | a poll returns what its thread popped, in order; all of it, if no other thread polled the queue meanwhile |
| EventHistories.AnswerStory | server/json-adapter.cc:390-429 | every answer comes from the queue that was listed under the key of its own poll when that began and was made for this key, and holds as many messages as were waiting at the look, or at most one after blocking |
| EventHistories.NoForeignAnswers | server/json-adapter.cc:396 | polls with different keys are never answered from one queue |
| EventHistories.ClosedByItsSession | server/json-adapter.cc:306-340 | a queue ends, or holds the closing event, only if its own session was closed |
| EventHistories.FreeLockServes | server/json-adapter.cc:136-396 | with the lock free every event can be delivered, every thread can begin to poll, and exactly the listed sessions can be closed |
| EventHistories.LockIsReleased | server/json-adapter.cc:136-340 | whoever holds the lock can always go on until it is free |
| EventHistories.PollersMove | server/json-adapter.cc:399-425 | which step a poller can take, and that the closing thread wakes those that may wait |
| EventHistories.SampleRun | server/json-adapter.cc:136-429 | two sessions poll, an event is delivered, and each of them gets it |
| SessionRegistries.LastUseIsLastCall | server/session_registry.cc:103-120 | the remembered last use is the time of the client's last call, unless it has expired since |
| SessionRegistries.CachedIsLive | server/session_registry.cc:81-120 | the cache of a client maps each name to the last value stored under it since the client last expired, and holds nothing else |
| SessionRegistries.InTouchNeverExpires | server/session_registry.cc:103-120 | a client whose gaps never exceed the timeout never expires |
| SessionRegistries.InTouchKeepsAll | server/session_registry.cc:81-120 | such a client never loses a setting |
| SessionRegistries.LateIsForgotten | server/session_registry.cc:103-120 | a client whose last call is longer ago than the timeout, at a call of anyone, has no last use and an empty cache from then on, until it stores again |
| SessionRegistries.ForgottenIff | server/session_registry.cc:103-120 | while time does not run backwards, it is forgotten exactly then |
| SessionRegistries.SampleCache | server/session_registry.cc:103-120 | with a timeout of 600 a setting of time 0 is there at 600 and gone later |
| SessionRegistries.SampleExpiry | server/session_registry.cc:11-120 | the same through the methods: what a new session gets |
| SessionRegistries.SessionRegistry.UpdateLastUse | server/session_registry.cc:103-120 | notes the use and removes exactly the clients that are too old, from both maps |
| SessionRegistries.SessionRegistry.AddToCache | server/session_registry.cc:81-87 | the maps keep agreeing with the history of all clients |
| SessionRegistries.SessionRegistry.Get | server/session_registry.cc:11-52 | a thread keeps its session; a new session gets exactly the live settings of the client |
| SessionRegistries.SessionRegistry.ApplyAll | server/session_registry.cc:42-48 | every cached call is applied, and nothing else |
| SessionRegistries.SessionRegistry.Remove | server/session_registry.cc:55-67 | exactly the thread's session goes |
| HandleCodes.Joggle | server/registry.cc:6-13 | the mixing steps give the word from which unjoggle gets the input back |
| HandleCodes.Unjoggle | server/registry.cc:16-22 | the steps back give the word that joggle makes the input of |
| HandleCodes.UnjoggleInverts | server/registry.cc:6-22 | unjoggle undoes joggle on every 64-bit word |
| HandleCodes.JoggleInverts | server/registry.cc:6-22 | and joggle undoes unjoggle |
| HandleCodes.JoggleIsInjective | server/registry.cc:6-13 | different words get different handles |
| HandleCodes.XorAt | server/registry.cc:9 | the xor of two words, digit by digit |
| HandleCodes.GoldenRatio | server/registry.cc:10-20 | the factor is 2^64 divided by the golden ratio, rounded down, and the other one is its inverse |
| HandleCodes.SampleHandles | server/registry.cc:6-13 | two words and their handles |
| HandleCodes.AlphabetSpelled | server/registry.cc:27 | the alphabet has sixty letters, and which one is where |
| HandleCodes.FillReverse | server/registry.cc:33-45 | the reverse table inverts the alphabet and is -1 elsewhere |
| HandleCodes.Base57 | server/registry.cc:52-62 | writes the eleven digits, least significant first |
| HandleCodes.Unbase57 | server/registry.cc:65-86 | accepts exactly eleven letters and returns their number modulo 2^64; otherwise the length or the first invalid character is reported |
| HandleCodes.ElevenDigitsSuffice | server/registry.cc:55 | 57^11 exceeds 2^64 |
| HandleCodes.Unbase57Inverts | server/registry.cc:52-86 | unbase57 undoes base57 on every 64-bit word, without wrapping around |
| HandleCodes.Base57InvertsIff | server/registry.cc:52-86 | an accepted text is the code of its value exactly if it uses no spare letter and its number fits into 64 bits |
| HandleCodes.SampleAlias | server/registry.cc:52-86 | two texts for the word 57 |
| HandleRegistries.Registry.Emplace | server/registry.hh:72-83 | fails exactly if the same resource is live; otherwise files it under a fresh handle |
| HandleRegistries.Registry.Get | server/registry.hh:55-63 | finds exactly the registered handles |
| HandleRegistries.Registry.GetByCode | server/registry.hh:65-68 | the same for the text form, with its own errors |
| HandleRegistries.Registry.Erase | server/registry.hh:85-95 | deletes and removes exactly that entry, or throws |
| HandleRegistries.Registry.Clear | server/registry.hh:113-119 | calls the deleter once on every entry, in whatever order, and leaves the map as it is |
| HandleRegistries.RunIsKeyed | server/registry.hh:72-95 | in every run each entry is filed under the joggled word of its resource |
| HandleRegistries.LiveIffKeyed | server/registry.hh:72-83 | a resource is live exactly if its handle is in use |
| HandleRegistries.CodeFindsResource | server/registry.hh:65-83 | in every reachable registry the text form of a handle finds its resource |
| HandleRegistries.Conservation | server/registry.hh:46-119 | over every run, what was deleted and what is live is what was created and what was cleared early |
| HandleRegistries.DeletedAsOftenIff | server/registry.hh:46-119 | after the destructor the deleter has been called as often on every resource as the creator returned it, exactly if clear never met an entry before |
| HandleRegistries.CleanIff | server/registry.hh:46-119 | in every reachable registry no registered resource has been deleted and none was deleted twice, exactly if the creator never returned a registered resource and clear never met an entry |
| HandleRegistries.NeverDeletedTwiceIff | server/registry.hh:46-119 | after the destructor no registration has been deleted twice, exactly under the same condition |
| HandleRegistries.DeletedOnceIff | server/registry.hh:46-119 | so every resource is deleted exactly once, as often as it was created, exactly under that condition |
| HandleRegistries.FreshDeletedOnce | server/registry.hh:46-95 | a creator of fresh resources has each of them deleted exactly once |
| HandleRegistries.SampleClear | server/registry.hh:113-119 | a cleared resource is deleted again by the destructor |
| HandleRegistries.SampleDuplicate | server/registry.hh:76-81 | a resource that is created twice is deleted while it stays registered, and again by the destructor |
| Base64.AlphabetSpelled | server/base64.cc:20 | which letter is where |
| Base64.SkippedSpelled | server/base64.cc:20-45 | which five characters are white space, which one is padding, and that all others outside the alphabet are illegal |
| Base64.Fetch | server/base64.cc:47-64 | yields the next symbol behind white space, padding at the end, and throws exactly at an illegal character |
| Base64.Base64Decode | server/base64.cc:69-97 | throws exactly if some character is illegal, with the first such one; otherwise the octets of the symbols |
| Base64.Base64Encode | server/base64.cc:100-150 | the encoding of the input |
| Base64.DecodeOfEncode | server/base64.cc:69-150 | decoding undoes encoding on every octet string |
| Base64.SampleFoobar | server/base64.cc:100-150 | test vectors of RFC 4648 section 10 |
| Base64.PaddingIsIgnored | server/base64.cc:69-97 | padding behind any symbols changes nothing |
| Base64.PaddingInside | server/base64.cc:69-97 | padding in front of symbols that are written counts like the last letter |
| Base64.StrippedDecodesAlike | server/base64.cc:69-97 | nor does stripping the padding of any input |
| Base64.WhitespaceIsIgnored | server/base64.cc:47-64 | nor does white space inserted or removed anywhere |
| Base64.EncodeOfDecodeIff | server/base64.cc:69-150 | encoding undoes decoding exactly on canonical texts |
| Base64.SampleNotCanonical | server/base64.cc:69-97 | AA decodes without its padding |
| LineWrap.FindEnd | server/logger.cc:191-212 | the inner loop goes back over at most seven continuation octets, or not at all |
| LineWrap.WrapLongLine | server/logger.cc:177-220 | appends the fragments with their markers |
| LineWrap.MarkersShowCuts | server/logger.cc:214-218 | each line is its fragment, with exactly the markers that say where it was cut |
| LineWrap.MarkersSpelled | server/logger.cc:104-105 | the two markers, as code points |
| LineWrap.FragmentsAreTheLine | server/logger.cc:177-220 | the fragments concatenate to the line, none exceeds the limit, and none is empty unless the line is |
| LineWrap.TerminatesIff | server/logger.cc:184-219 | the loop ends exactly if the limit is at least 8 or no run of continuation octets behind the first octet is as long as the limit |
| LineWrap.SampleEndless | server/logger.cc:184-219 | the euro sign at a limit of two is never passed |
| LineWrap.WellFormedIsWrappable | server/logger.cc:193-202 | so a well-formed line is wrapped at every limit of at least 4 |
| LineWrap.FragmentsAreWellFormed | server/logger.cc:193-202 | no UTF-8 sequence of a well-formed line is split |
| LineWrap.LinesAreWellFormed | server/logger.cc:177-220 | every line written for it is well-formed, markers included |
| LineWrap.FragmentIsLongest | server/logger.cc:186-203 | and no fragment could have been longer |
| FunctionCall.CopyParam | server/function_map.hh:101-111 | fills in a dummy for each parameter without input; no index is out of range |
| FunctionCall.FilledConsumesAll | server/function_map.hh:98-111 | exactly nr_of_input_params values are consumed, all of them and in order |
| FunctionCall.FilledAt | server/function_map.hh:101-111 | which value stands at which place |
| FunctionCall.FilledIsOriginal | server/function_map.hh:176-182 | where every parameter has input, the copy that is not made would be the original |
| FunctionCall.Context.Store | server/context.cc:29-33 | keeps a value that is there already |
| FunctionCall.Context.Retrieve | server/context.cc:35-46 | returns what is stored, or fails |
| FunctionCall.MakeElement | server/c_string.hh:39-44 | constructs a parameter, with the length it stores or retrieves |
| FunctionCall.CallHelper | server/function_map.hh:113-131 | makes all parameters in order, calls the function and collects the outputs; the first failure is reported |
| FunctionCall.OutputPlace | server/function_map.hh:120-127 | outputs come in reverse declaration order, nr_of_output_params of them |
| FunctionCall.Call | server/function_map.hh:164-197 | rejects a wrong number of parameters; else the result object, or the first failing parameter |
| FunctionCall.MemberNamesSpelled | server/function_map.hh:193-194 | the names of the two members of the result |
| FunctionCall.ArgumentIsConverted | server/function_map.hh:98-131 | an argument is what its own JSON value is converted to, or null where it consumes none; a failing conversion is reported with its position |
| FunctionCall.LengthOfPrevious | server/c_string.hh:130-140 | in a fresh context an InLength receives the length of the string just before it, whatever stands in its own place, and fails exactly if there is none |

## Left out

- The contents of server/nfc_sets.cc: the tables are parameters that satisfy `Tables.Valid`; its ghost rank only witnesses that decompositions end, and some real entries are checked as samples.
- StandardNfc.QuickYesIsNfc: and what builds on it suppose tables that are `Coherent` and `HangulReady`, which those of server/nfc_sets.cc are; that table itself is not part of the model.
- JsonReader.MatchSpells: and the other theorems about the reader do not cover texts with real numbers, for which the stream library's `strict_real_p` would be needed.
- JsonReader.EveryMatchRuns: the same.
- JsonReader.Read: reports a number that goes on with a point or an exponent as `RealNumber`.
- Wide strings.
- LineWrap.MarkersSpelled: the markers of the build with `LOGGER_USE_ASCII_TAGS` are not modelled.
- Boost.Spirit itself: its primitives are taken by their meaning (`lex_escape_ch_p` takes the character behind a backslash, `int64_p` and `uint64_p` fail on overflow); positions in errors are not modelled.
- The locale: `iswprint` is a parameter of the escaping mode.
- EventQueues.NextKeepsInv: is a transition system on values instead of a class, because the threads interleave; `locked_queue` is taken as an atomic queue, a timed wait fails only on an empty queue, and the closing thread may read any count of waiters that the pollers allow, which includes runs that the program does not have.
- SessionRegistries.SessionRegistry.Get: the outcome of creating and configuring a session is a parameter, and a cached call is an opaque value; the passphrase cache is not modelled.
- The variants `FuncCache` and `FuncPC` of a function, conversions of engine structures, and what the C functions do: conversion, length and the call are parameters.
- The order in which `clear` and the loops over maps visit entries: every order is covered.
- Sizes truncated to `unsigned` in loops over strings of 4 GiB and more.
- The exact texts of error messages and of logging.
- HTTP server, file serving, security token, command line, user interface and the hotfix tool: input and output, or no clean specification.
- The error ladder of server/json_rpc.cc: its branches are its specification.
