# Verified model of the JSON library, the SHA-1 digest and the first-party cores

This project models the parts of the socket server that compute rather than talk to the outside: the
vendored JSON library (reader, document, pointers, the path stack of the schema validator, member index,
pool allocator, UTF codecs), the SHA-1 digest of the UUID header, the worker pool, the env-file token
store and the SQL `VALUES` printer. `dafny verify dfyconfig.toml` checks all of it.

Code that works step by step is a class or a method with loops here, proved against a function that says
what the step does; the laws are lemmas about those functions, so they hold of the methods.

## How it is laid out

| files | what they hold |
|---|---|
| `json_text`, `json_scalars` | texts, events, error codes; literals, strings and numbers as the reader takes them |
| `json_recursive`, `json_iterative`, `json_pull` | the three parsers as functions from a text to events and a verdict |
| `json_reader` | the reader itself: a class with a cursor, an event log, an error and a stack |
| `json_equivalence`, `json_pull` | the three parsers agree |
| `json_grammar`, `json_grammar_scalars`, `json_grammar_laws` | the grammar of RFC 8259, sections 2 to 7, the reader's limits within it, and that the parsers accept exactly that |
| `json_strings` | what a string token stands for |
| `json_printing` | a tree that is printed and parsed is the same tree |
| `json_errors` | what stands at the offset of an error |
| `json_numbers`, `decimals` | which event an integer is delivered as; where the exponent arithmetic would leave 32 bits |
| `json_value`, `json_document`, `json_dom` | values, the document's stack of values, the document class |
| `json_pointer`, `pointer_parser`, `pointer_laws`, `pointer_indexes`, `pointer_fragments`, `pointer_meaning` | pointers: parser, printer, the in-place buffer, round trips, what is accepted and what it means |
| `pointer_tree`, `pointer_tree_laws`, `pointer_tree_kinds`, `pointer_dom` | lookup, creation and erasure by pointer, and the containers that are made |
| `schema_path`, `schema_path_laws` | the validator's path stack |
| `member_index` | the linear scan and the multimap index |
| `pool_allocator`, `pool_runs`, `pool_capacity`, `memory_pool` | the pool allocator, runs of it, what it asks for, and its class |
| `encodings`, `encodings_order` | UTF-8, UTF-16 and transcoding |
| `sha1`, `sha1_values` | SHA-1 of FIPS 180-4, the byte-at-a-time hasher, and the digest of a known message |
| `task_queue`, `task_progress` | workers, pushers and shutdown as interleaved steps, and what gets done |
| `env_file`, `env_file_laws`, `env_file_writes`, `env_store` | the env file: lookup, what is read, what a write does, operations |
| `sql_values`, `sql_statements` | quoting, the value list, the field list, the statement, and readers of them |
| `widths` | the widths of machine integers |

A text is a sequence of code units; the unit 0 ends it, as it ends the library's streams. The JSON
parsers run with the default flags and a handler that accepts every event. Whether a number is too large
for a double is a predicate of its digits (`Input.overflows`) about which nothing is assumed.

## Where the code does not do what one would expect

Each of these is stated as a theorem and kept in the model as the code has it.

- The three parsers give different error codes for two kinds of text only: the table-driven parser reports an
  empty document where a stray token stands at the root (`ParserEquivalence.SameDocumentCode`), and where a
  text is blank but not empty, which the pull parser calls an invalid value (`PullParser.SameDocument`).
- The reader refuses a JSON text for two reasons the grammar does not know, and for no others
  (`GrammarLaws.AcceptsJson`): an escaped surrogate without its other half, and a number that is not an
  integer of 64 bits and whose double overflows or whose exponent exceeds 308 and the fraction digits that
  scale it. It is the exponent that is limited, so `0e309` is refused (`GrammarLaws.ZeroOutOfRange`,
  `JsonNumbers.ExponentLimit`).
- A pointer index of ten digits that does not fit 32 bits may be taken for a small one: `5000000000` becomes
  index 705032704 (`PointerIndexes.UnnoticedOverflow`). Nine digits always fit. `4294967295` fits 32 bits but
  is the mark of a token without index, so it is a name (`PointerIndexes.NumeralIndex`).
- In a URI fragment the digit of an escape must stand as such: `%7E1` is a solidus, `%7E%31` is refused
  (`PointerFragments.UriAccepted`). A solidus that is percent-encoded is taken for a part of the name, where
  RFC 6901 decodes it first and has it start the next one (`PointerMeaning.FragmentMeans`).
- Creating a value below `-` in an array appends, and the same pointer then still finds nothing
  (`PointerTreeLaws.GetAfterCreate`).
- A lookup in the multimap and a scan agree for every name exactly when names are unique
  (`MemberIndex.LookupsAgree`).
- A request that wraps when it is rounded or added to the bytes in use is granted
  (`PoolAllocator.WrappedRequest`); that is the only way a block can leave its chunk.
- SHA-1 writes a 32-bit length: from 2^29 bytes on, the padding is not the standard's
  (`Sha1.PaddingIsStandard`).
- The env file loses a value's outer spaces, its quotes and what follows a separator in it
  (`EnvFileLaws.ValueSurvives`, one space at either end: `EnvFileLaws.OuterLost`), the last character of a value written without quotes
  (`EnvFileLaws.UnquotedLosesLast`), and the write to a key exactly when the key's text occurs earlier in the
  file (`EnvFileWrites.WriteReadBack`).
- `values_string` prints a well-formed row list exactly for a non-empty list of whole rows
  (`SqlValues.ValuesReadBack`), and an empty value reads back as the text `NULL`. The table and the fields of
  a statement are not quoted: a bracket or a comma in them is lost (`SqlStatements.InsertReadBack`).

## Model
| member | source | states |
|---|---|---|
| ParserEquivalence.SameDocument | include/codec/rapidjson/reader.h:2189-2222 | For every text the table-driven parser and the recursive parser send the same events with the same counts and give the same verdict; after a failure both stand at the same place |
| ParserEquivalence.SameDocumentCode | include/codec/rapidjson/reader.h:2160-2180 | Both report the same error too, except for a stray token at the root: one says the value is invalid, the other that the document is empty |
| ParserEquivalence.ValueSimulated | include/codec/rapidjson/reader.h:2005-2158 | From every reachable configuration that expects a value, the loop of the table-driven parser gets to where the recursive descent over that value gets, with the stack as it was |
| ParserEquivalence.ElementsSimulated | include/codec/rapidjson/reader.h:807-853 | The rest of an array is passed by the loop as by recursion, and the saved state and count are popped |
| ParserEquivalence.MembersSimulated | include/codec/rapidjson/reader.h:739-805 | The same for the rest of an object |
| PullParser.SameDocument | include/codec/rapidjson/reader.h:620-679 | Pulling events until completion or failure sends the same events with the same verdict and error as one pass of the loop, except that a blank text is an invalid value instead of an empty document |
| PullParser.OneEventPerCall | include/codec/rapidjson/reader.h:620-674 | A call that returns true before completion has delivered exactly one event |
| PullParser.PullRuns | include/codec/rapidjson/reader.h:620-679 | The agreement from every reachable configuration on, not only from the start |
| IterativeParser.TransitKeepsInv | include/codec/rapidjson/reader.h:2005-2158 | Every step that is not an error keeps the invariant relating the stack to the open containers, and the stack holds what the step pops |
| IterativeParser.StackShape | include/codec/rapidjson/reader.h:2009-2040 | The stack has two entries per open container, the lower one Start at the bottom only and Element or MemberValue elsewhere; in Finish it is empty |
| IterativeParser.Transit | include/codec/rapidjson/reader.h:2005-2158 | A step that is not an error consumes at least one unit, so the loop ends |
| GrammarLaws.DocumentSound | include/codec/rapidjson/reader.h:558-590 | A text that is parsed is a JSON text of RFC 8259 within the limits, up to where it ends |
| GrammarLaws.DocumentComplete | include/codec/rapidjson/reader.h:558-590 | A JSON text within the limits is parsed to its end; one that only follows the grammar may be refused, as too big only if a number is out of range and for a surrogate only if one is unpaired |
| GrammarLaws.AcceptsJson | include/codec/rapidjson/reader.h:558-590 | A text without the unit 0 is accepted if and only if it is a JSON text whose numbers are in range and whose escaped surrogates are paired; the code of a refused JSON text names what is wrong with it |
| GrammarLaws.EveryParserAcceptsJson | include/codec/rapidjson/reader.h:2189-2222 | All three parsers accept exactly those texts, with the same events |
| GrammarLaws.ValueSound | include/codec/rapidjson/reader.h:1749-1763 | A parsed value is a value of the grammar, within the limits |
| GrammarLaws.ValueComplete | include/codec/rapidjson/reader.h:1749-1763 | A value of the grammar within the limits, followed by what may follow one, is parsed exactly to its end |
| GrammarScalars.NumberSound | include/codec/rapidjson/reader.h:1467-1747 | A delivered number has the form of section 6 of RFC 8259 and is in range |
| GrammarScalars.NumberComplete | include/codec/rapidjson/reader.h:1467-1747 | A number of that form is taken whole if it is in range, and otherwise refused as too big |
| GrammarScalars.RangeWithin | include/codec/rapidjson/reader.h:1467-1747 | Whether a number is in range depends on its own text only |
| GrammarScalars.StringSound | include/codec/rapidjson/reader.h:958-1068 | A delivered string has the form of section 7 of RFC 8259, and its escaped surrogates are paired |
| GrammarScalars.StringComplete | include/codec/rapidjson/reader.h:958-1068 | A string of that form is taken whole if its surrogates are paired, and otherwise refused for one that is not |
| GrammarLaws.ZeroOutOfRange | include/codec/rapidjson/reader.h:1664-1671 | A number of value zero that is refused |
| GrammarLaws.GrammarCharacters | include/codec/rapidjson/reader.h:265-273 | White space, digits and the characters of strings, by their codes |
| JsonStrings.StringMeans | include/codec/rapidjson/reader.h:990-1068 | A token is read as a given string exactly if it is made, between quotes, of items that stand for it: plain units, the eight two-character escapes of section 7 of RFC 8259 with the units it gives them, and hexadecimal escapes, in either case, of code points or their surrogate pairs |
| JsonStrings.EscapedRead | include/codec/rapidjson/reader.h:990-1068 | Any string, escaped as section 7 of RFC 8259 demands and put in quotes, is read back |
| JsonPrinting.PrintedParsed | include/codec/rapidjson/document.h:2626-2636 | Any tree that is printed as a text and parsed again gives the same tree: its events are those the tree sends, and no other tree sends them |
| JsonPrinting.PrintReads | include/codec/rapidjson/reader.h:1749-1763 | A printed value within any text is read to its end, and sends what the tree sends |
| JsonPrinting.AcceptInjective | include/codec/rapidjson/document.h:1932-1970 | Trees that send the same events are the same |
| JsonErrors.FailureExplained | include/codec/rapidjson/reader.h:739-1747 | Each error code says what stands in the text at the offset of the error, for every code and every text that is refused |
| JsonNumbers.IntegerDelivered | include/codec/rapidjson/reader.h:1707-1744 | A numeral without fraction and exponent is delivered with its exact value through Int, Int64, Uint or Uint64, the narrowest that holds it, and as Double only outside [-2^63, 2^64-1] |
| JsonNumbers.DigitsAreDecimal | include/codec/rapidjson/reader.h:1484-1514 | Every digit string without a leading zero is the numeral of its value, so the statement above covers every integer token |
| JsonNumbers.DoubleDelivered | include/codec/rapidjson/reader.h:1707-1744 | A number with a point or an exponent is delivered as a double, and any double carries the text of its number |
| JsonNumbers.FractionDigits | include/codec/rapidjson/reader.h:1582-1625 | The fraction digits that scale the significand: the first 17 significant ones behind a zero, otherwise as many as make 18 with the digits of the integer |
| JsonNumbers.ExponentLimit | include/codec/rapidjson/reader.h:1664-1671 | A zero may have an exponent of 308 and no larger one |
| JsonNumbers.LongerFractionOverflows | include/codec/rapidjson/reader.h:1632-1678 | With more than 214748055 fraction digits there is a number whose exponent leaves 32 bits before it is refused, so the bound of the methods below is the exact one |
| JsonReader.Reader.Parse | include/codec/rapidjson/reader.h:558-590 | The recursive parse, with cursor, events and error as the function of the text says |
| JsonReader.Reader.ParseValue | include/codec/rapidjson/reader.h:1749-1763 | Any value: cursor, events and error |
| JsonReader.Reader.ParseObject | include/codec/rapidjson/reader.h:739-805 | An object: its members in order and their count, or the error at its place |
| JsonReader.Reader.ParseArray | include/codec/rapidjson/reader.h:807-853 | An array: its elements in order and their count, or the error at its place |
| JsonReader.Reader.ParseNull | include/codec/rapidjson/reader.h:855-866 | The literal, or an invalid value where the text departs from it |
| JsonReader.Reader.ParseTrue | include/codec/rapidjson/reader.h:868-879 | The literal, or an invalid value where the text departs from it |
| JsonReader.Reader.ParseFalse | include/codec/rapidjson/reader.h:881-892 | The literal, or an invalid value where the text departs from it |
| JsonReader.Reader.Consume | include/codec/rapidjson/reader.h:894-902 | Moves over a unit exactly if it is the one asked for |
| JsonReader.Reader.SkipWhitespace | include/codec/rapidjson/reader.h:265-273 | Moves to the first unit that is not white space |
| JsonReader.Reader.ParseHex4 | include/codec/rapidjson/reader.h:905-925 | The value of four hexadecimal digits, or an error at the escape |
| JsonReader.Reader.ParseUnicode | include/codec/rapidjson/reader.h:1023-1046 | The code point of one escape or of a surrogate pair; an unpaired surrogate is an error at the escape |
| JsonReader.Reader.ParseStringToStream | include/codec/rapidjson/reader.h:990-1068 | The decoded string up to the closing quote, or the error at its place |
| JsonReader.Reader.ParseString | include/codec/rapidjson/reader.h:958-987 | A string sent as a key or as a value |
| JsonReader.Reader.ParseInteger | include/codec/rapidjson/reader.h:1493-1580 | The digits in 32 bits, then in 64, then given up: no wrap, and 64 bits or a double are used exactly when the value needs them |
| JsonReader.Reader.ParseInteger64 | include/codec/rapidjson/reader.h:1549-1580 | The digits beyond 32 bits: no wrap, and a double is used exactly when the value does not fit 64 |
| JsonReader.Reader.ParseFraction | include/codec/rapidjson/reader.h:1582-1625 | The scale a fraction contributes, within 32 bits |
| JsonReader.Reader.ParsePositiveExponent | include/codec/rapidjson/reader.h:1664-1671 | A positive exponent beyond 308 and the fraction digits is refused, any other one is taken without leaving 32 bits |
| JsonReader.Reader.ParseNegativeExponent | include/codec/rapidjson/reader.h:1646-1663 | A negative exponent is cut before it would leave 32 bits |
| JsonReader.Reader.ParseExponent | include/codec/rapidjson/reader.h:1632-1678 | The exponent; its sum with the scale stays within 32 bits |
| JsonReader.Reader.ParseNumber | include/codec/rapidjson/reader.h:1467-1747 | A number: its end and the event it is sent as, or the error at its place |
| JsonReader.Reader.SendNumber | include/codec/rapidjson/reader.h:1707-1744 | The event chosen from the flags is the one the value calls for |
| JsonReader.Reader.Transit | include/codec/rapidjson/reader.h:2005-2158 | One step of the table-driven parser on the real stack, with the invariant kept |
| JsonReader.Reader.HandleError | include/codec/rapidjson/reader.h:2160-2180 | The error for the state in which no step was possible; an error already set is kept |
| JsonReader.Reader.IterativeParse | include/codec/rapidjson/reader.h:2189-2222 | The table-driven parse, with cursor, events and error as the function of the text says |
| JsonReader.Reader.IterativeParseInit | include/codec/rapidjson/reader.h:607-610 | Starting over |
| JsonReader.Reader.IterativeParseNext | include/codec/rapidjson/reader.h:620-674 | One pull: delimiters are passed over and the first event ends the call |
| JsonReader.Reader.PullAll | include/codec/rapidjson/reader.h:620-679 | The loop of a caller that pulls until it is done |
| JsonDocument.AcceptBuilds | include/codec/rapidjson/document.h:1932-1970 | Replaying the events of any tree into the handlers pushes exactly that tree and leaves the stack below as it was |
| JsonDocument.NumberKept | include/codec/rapidjson/document.h:2806-2810 | A number keeps its value and its type flags through the event it is sent as |
| JsonDocument.NumberSent | include/codec/rapidjson/document.h:1963-1968 | A number is sent as the first of Int, Uint, Int64 and Uint64 that holds it |
| JsonDocument.DocumentMirrors | include/codec/rapidjson/document.h:2626-2636 | Every successful parse leaves exactly one value on the stack, which sends the very events that built it; after a failed parse every event so far was within the bounds of the stack |
| JsonDocument.ValueMirrors | include/codec/rapidjson/reader.h:1749-1763 | The same of any value, over any stack, from any event log |
| JsonDocument.ElementsMirror | include/codec/rapidjson/reader.h:807-853 | The rest of an array adds its elements and EndArray pops exactly them |
| JsonDocument.MembersMirror | include/codec/rapidjson/reader.h:739-805 | The rest of an object adds alternating names and values and EndObject pops exactly them |
| JsonDom.Document.EndObject | include/codec/rapidjson/document.h:2832-2836 | The topmost names and values become the members of the object below them |
| JsonDom.Document.EndArray | include/codec/rapidjson/document.h:2840-2844 | The topmost values become the elements of the array below them |
| JsonDom.Document.Handle | include/codec/rapidjson/document.h:2804-2844 | One event on the stack |
| JsonDom.Document.Populate | include/codec/rapidjson/document.h:2606-2613 | A tree that sends its events to a document becomes that document, and leaves the stack empty |
| JsonDom.Document.ParseStream | include/codec/rapidjson/document.h:2626-2636 | A parsed document sends exactly the events of its text; a failed one keeps its old value; the stack is empty afterwards |
| JsonDom.Document.AcceptValue | include/codec/rapidjson/document.h:1932-1970 | Sending a tree pushes that tree |
| PointerLaws.ParsePrinted | include/codec/rapidjson/pointer.h:872-993 | Parsing a printed pointer gives back its names and indexes, in plain and in URI form; the plain form can always be printed |
| PointerLaws.PrintParsed | include/codec/rapidjson/pointer.h:1001-1034 | Printing a parsed plain pointer gives back the text |
| PointerLaws.UriPrintable | include/codec/rapidjson/pointer.h:1084-1098 | A pointer can be printed as a URI fragment exactly when every name is well-formed UTF-8 |
| PointerLaws.UriReprinted | include/codec/rapidjson/pointer.h:1001-1034 | A parsed URI fragment can be printed as one, which denotes the same pointer |
| PointerLaws.PlainAccepted | include/codec/rapidjson/pointer.h:932-948 | A plain text is accepted exactly when it is empty or starts with a solidus and every tilde is followed by 0 or 1 |
| PointerFragments.UriAccepted | include/codec/rapidjson/pointer.h:901-954 | A URI fragment is accepted exactly when it is empty or starts with a solidus, every unit is unreserved or part of a triplet, the triplets spell well-formed UTF-8 and every tilde introduces an escape |
| PointerMeaning.PlainMeans | include/codec/rapidjson/pointer.h:894-980 | The tokens of a plain pointer are those of section 4 of RFC 6901: the text is cut at its solidi, and in each part first every ~1 becomes a solidus and then every ~0 a tilde |
| PointerMeaning.FragmentMeans | include/codec/rapidjson/pointer.h:901-954 | A fragment denotes the same pointer as its percent-decoded text exactly when no solidus in it is percent-encoded |
| PointerMeaning.FragmentPrinted | include/codec/rapidjson/pointer.h:1001-1034 | A printed fragment is the printed plain text in which exactly the units are percent-encoded that are neither unreserved nor a solidus |
| PointerMeaning.CapitalDigits | include/codec/rapidjson/pointer.h:1084-1098 | A triplet is printed with capital digits |
| PointerMeaning.UnreservedCharacters | include/codec/rapidjson/pointer.h:851-853 | The characters that need no encoding are the unreserved ones of RFC 3986 |
| PointerMeaning.InvalidExplained | include/codec/rapidjson/pointer.h:889-948 | Each error code says what stands in the text at the offset of the error |
| PointerLaws.TokensRegular | include/codec/rapidjson/pointer.h:956-979 | Every parsed pointer satisfies what the printing laws ask of their tokens |
| PointerIndexes.NumeralIndex | include/codec/rapidjson/pointer.h:961-978 | A numeral has the index it denotes, and a valid one, exactly when it lies below 2^32 - 1; nine digits always do; 2^32 - 1 is the mark of no index; for ten digits the wrap test says when an overflow is noticed |
| PointerIndexes.UnnoticedOverflow | include/codec/rapidjson/pointer.h:965-978 | A numeral that does not fit and is not noticed |
| PointerIndexes.DecimalIndex | include/codec/rapidjson/pointer.h:961-978 | The numeral of a 32-bit number is read as that number, which is a valid index unless it is 2^32 - 1 |
| PointerParser.Pointer.constructor | include/codec/rapidjson/pointer.h:872-993 | The parsed tokens, or the error and its offset; as many entries as there are solidi and one name buffer of the length of the text suffice for every text |
| PointerParser.Pointer.CountTokens | include/codec/rapidjson/pointer.h:872-876 | The number of solidi |
| PointerParser.Pointer.ReadToken | include/codec/rapidjson/pointer.h:894-980 | One name and its token; the write cursor never catches up with the read cursor, on any path |
| PointerParser.Pointer.Fill | include/codec/rapidjson/pointer.h:872-993 | All tokens, or the error with the token array given back |
| PointerParser.ToIndex | include/codec/rapidjson/pointer.h:961-978 | The conversion to 32 bits with the wrap test as the code has it |
| PointerParser.PercentDecodeStream.Take | include/codec/rapidjson/pointer.h:1052-1072 | A percent triplet is a byte; anything else makes the stream invalid |
| PointerParser.PercentValidate | include/codec/rapidjson/pointer.h:905-923 | Triplets are decoded by one UTF-8 character, which is copied into the buffer |
| PointerParser.Unescaped | include/codec/rapidjson/pointer.h:932-948 | The two tilde escapes, or an error |
| PointerParser.Pointer.Stringify | include/codec/rapidjson/pointer.h:1001-1034 | The printed text in either form |
| PointerParser.PutName | include/codec/rapidjson/pointer.h:1008-1031 | A name with its escapes and percent triplets, behind what is printed already |
| PointerTreeLaws.GetAfterCreate | include/codec/rapidjson/pointer.h:461-508 | Lookup after creation finds exactly the slot creation returned, if and only if no token appends to an array |
| PointerTreeLaws.CreatedIsFound | include/codec/rapidjson/pointer.h:461-508 | After a parsed pointer without a "-" token has been created, it leads to the slot creation returned |
| PointerTreeLaws.ParsedAppend | include/codec/rapidjson/pointer.h:961-978 | No "-" token of a parsed pointer has an index, as the laws of creation ask |
| PointerTreeLaws.CreateExisted | include/codec/rapidjson/pointer.h:461-508 | Creation reports that the value existed exactly when lookup finds it; it then changes nothing and returns what lookup returns |
| PointerTreeLaws.CreatedIsNull | include/codec/rapidjson/pointer.h:491-497 | A value that did not exist is created as null |
| PointerTreeKinds.ParentKinds | include/codec/rapidjson/pointer.h:464-502 | Every parent on the way to the created slot is an array or an object as its token and the value before ask for, has grown by no more than the slot needs, and what is new beside the slot is null |
| PointerTreeKinds.ScalarGrows | include/codec/rapidjson/pointer.h:472-487 | A scalar becomes an array of nulls for an index, and an object with one null member for a name |
| PointerTreeLaws.CreateKeeps | include/codec/rapidjson/pointer.h:461-508 | Every value off the path is kept, unless it lay in a value of the wrong type |
| PointerTreeLaws.EraseAfterCreate | include/codec/rapidjson/pointer.h:772-810 | Erasing what one new token has created gives back the tree |
| PointerTreeLaws.EraseSucceeds | include/codec/rapidjson/pointer.h:772-810 | Erasing succeeds exactly for a value below the root that lookup finds, takes that child out of its parent, and otherwise changes nothing |
| PointerTreeLaws.EraseKeeps | include/codec/rapidjson/pointer.h:772-810 | Erasing keeps every value off the path, later elements moving down by one |
| PointerTreeLaws.GetAfterErase | include/codec/rapidjson/pointer.h:772-810 | After erasing a member of an object with unique names the pointer finds nothing there |
| PointerDom.Tree.Get | include/codec/rapidjson/pointer.h:540-568 | The location found, or the token that could not be resolved |
| PointerDom.Tree.Create | include/codec/rapidjson/pointer.h:461-508 | The grown tree, the slot and whether it existed |
| PointerDom.Tree.Erase | include/codec/rapidjson/pointer.h:772-810 | The tree without the value, or no change and failure |
| PointerDom.Tree.StepInto | include/codec/rapidjson/pointer.h:543-566 | The child a token names |
| PointerDom.Tree.GrowInPlace | include/codec/rapidjson/pointer.h:465-502 | The child a token names, made if it is missing |
| PointerTree.PutAt | include/codec/rapidjson/pointer.h:461-508 | What is put at a location is what is found there; putting back what was there changes nothing |
| PointerTree.ResolveAppend | include/codec/rapidjson/pointer.h:540-568 | A longer pointer is resolved by resolving the shorter one first |
| SchemaPathLaws.PathsReported | include/codec/rapidjson/schema.h:2365-2456 | Over the events of any tree the path stack spells, at every event, the path of the value the event belongs to, and both stacks end empty |
| SchemaPathLaws.ReportedPointers | include/codec/rapidjson/schema.h:1984-1991 | Parsing the reported path gives that path, and following it from the root leads to the value being validated |
| SchemaPathLaws.CutExtended | include/codec/rapidjson/schema.h:2395-2437 | Popping back to the last solidus removes exactly the token added, whatever the name contains |
| SchemaPathLaws.ValueReported | include/codec/rapidjson/schema.h:2365-2437 | A value leaves both stacks as it found them but for the index of the next element |
| SchemaPathLaws.ExtendIndex | include/codec/rapidjson/schema.h:1523-1551 | An index is appended as its decimal numeral |
| SchemaPath.Validator.AppendToken | include/codec/rapidjson/schema.h:2439-2456 | A solidus and the name with its escapes are pushed |
| SchemaPath.Validator.BeginValue | include/codec/rapidjson/schema.h:2365-2393 | In an array the index is appended and counted on; a context is pushed |
| SchemaPath.Validator.EndValue | include/codec/rapidjson/schema.h:2395-2437 | The path is cut back to its last solidus and the context popped |
| SchemaPath.Validator.Receive | include/codec/rapidjson/schema.h:2210-2278 | One event, and the path a failing keyword would report meanwhile |
| SchemaPath.Validator.Run | include/codec/rapidjson/schema.h:2210-2278 | A whole run of events, with the paths reported |
| MemberIndex.LookupsAgree | include/codec/rapidjson/document.h:2213-2223 | A lookup through the multimap agrees with the scan for every name exactly when the names are unique |
| MemberIndex.Drive | include/codec/rapidjson/document.h:2202-2361 | After any run of additions of new names, removals, erasures and lookups both objects hold the same members in the same order and have given the same answers, each as the member list calls for |
| MemberIndex.SwapKeepsTheRest | include/codec/rapidjson/document.h:2305-2328 | A removal loses the one member and no other |
| MemberIndex.Places | include/codec/rapidjson/document.h:2305-2361 | Where each member is after a removal and after an erased range |
| MemberIndex.GrownCapacity | include/codec/rapidjson/document.h:2289-2292 | An empty object starts with 16 places, and then grows by half, rounded up |
| MemberIndex.ApplyKeepsUnique | include/codec/rapidjson/document.h:2289-2361 | Every operation keeps names unique |
| MemberIndex.CountEntries | include/codec/rapidjson/document.h:2176-2197 | The multimap has as many entries as there are members, so growing copies them all |
| MemberIndex.ScanObject.Reserve | include/codec/rapidjson/document.h:2257-2264 | Growing keeps the members |
| MemberIndex.ScanObject.Find | include/codec/rapidjson/document.h:2268-2274 | The first member with the name |
| MemberIndex.ScanObject.Add | include/codec/rapidjson/document.h:2289-2303 | The member is added at the end |
| MemberIndex.ScanObject.Remove | include/codec/rapidjson/document.h:2305-2328 | The last member takes the place of the removed one |
| MemberIndex.ScanObject.Erase | include/codec/rapidjson/document.h:2330-2361 | A range is erased and the order of the rest kept |
| MemberIndex.MapObject.Find | include/codec/rapidjson/document.h:2213-2223 | A member with the name, or none if there is none |
| MemberIndex.MapObject.Reserve | include/codec/rapidjson/document.h:2176-2211 | Growing keeps the members and their entries |
| MemberIndex.MapObject.Add | include/codec/rapidjson/document.h:2289-2303 | The member is added at the end; entry i still leads to member i |
| MemberIndex.MapObject.Remove | include/codec/rapidjson/document.h:2305-2328 | Swap removal; entry i still leads to member i |
| MemberIndex.MapObject.Erase | include/codec/rapidjson/document.h:2330-2361 | Order-preserving erasure; entry i still leads to member i |
| PoolRuns.RunKeeps | include/codec/rapidjson/allocators.h:276-368 | After any run of Malloc, Realloc, Clear and stores all live blocks are aligned, inside their chunk and pairwise disjoint |
| PoolRuns.NextKeeps | include/codec/rapidjson/allocators.h:320-368 | Every single operation keeps that |
| PoolRuns.BytesKept | include/codec/rapidjson/allocators.h:336-368 | Realloc keeps the bytes up to the smaller size; every other block keeps its place, its size and its bytes |
| PoolAllocator.MallocKeeps | include/codec/rapidjson/allocators.h:320-333 | A request that does not wrap yields NULL and no change, or a new block apart from all live ones |
| PoolAllocator.MallocWithinChunk | include/codec/rapidjson/allocators.h:320-333 | A granted block lies within its chunk exactly when no sum has wrapped |
| PoolCapacity.MallocCapacity | include/codec/rapidjson/allocators.h:320-333 | A request the head serves or that is refused asks for nothing; any other one adds a chunk of the chunk capacity, or of the request if that is larger |
| PoolCapacity.NewChunkServes | include/codec/rapidjson/allocators.h:320-333 | Behind a new chunk all requests that together fit the chunk capacity are granted without the base allocator |
| PoolCapacity.ClearRestores | include/codec/rapidjson/allocators.h:276-287 | Clearing after any run takes the pool back to where it began: one chunk, no byte in use |
| PoolCapacity.EmptyRequests | include/codec/rapidjson/allocators.h:320-341 | Requests of no bytes, of a null pointer, and to nothing |
| PoolAllocator.WrappedRequest | include/codec/rapidjson/allocators.h:320-333 | A request that wraps and is granted |
| PoolAllocator.ReallocKeeps | include/codec/rapidjson/allocators.h:336-368 | Realloc keeps the invariant and copies as much as it should |
| PoolAllocator.ReallocWithinBlock | include/codec/rapidjson/allocators.h:347-358 | A block left in place has room for the new size exactly when no sum has wrapped |
| PoolAllocator.LastBlock | include/codec/rapidjson/allocators.h:351-358 | The test for growth in place passes only for the last block of the head chunk |
| MemoryPool.Allocator.constructor | include/codec/rapidjson/allocators.h:168-190 | An empty pool: no chunk of its own room, no live block |
| MemoryPool.Allocator.InBuffer | include/codec/rapidjson/allocators.h:201-213 | The first chunk lies aligned within the caller's buffer and ends where that ends, if the headers fit behind the alignment |
| MemoryPool.Allocator.AddChunk | include/codec/rapidjson/allocators.h:389-401 | A new head chunk, or no change if memory is refused |
| MemoryPool.Allocator.Malloc | include/codec/rapidjson/allocators.h:320-333 | The chunk list and the address as the specification says |
| MemoryPool.Allocator.Realloc | include/codec/rapidjson/allocators.h:336-368 | The chunk list, the address and the copied bytes as the specification says |
| MemoryPool.Allocator.Clear | include/codec/rapidjson/allocators.h:276-287 | All chunks but the first are given back and the first is empty |
| MemoryPool.Allocator.Size | include/codec/rapidjson/allocators.h:303-309 | The bytes in use, modulo 2^64 |
| MemoryPool.Allocator.Capacity | include/codec/rapidjson/allocators.h:292-298 | The bytes of all chunks, modulo 2^64 |
| MemoryPool.Allocator.Perform | include/codec/rapidjson/allocators.h:276-368 | Any legal operation of a client keeps the invariant on the real fields |
| MemoryPool.MallocUses | include/codec/rapidjson/allocators.h:303-333 | A granted request adds exactly its rounded size to the bytes in use, a refused one nothing |
| MemoryPool.UsedAtMost | include/codec/rapidjson/allocators.h:292-309 | The bytes in use never exceed the capacity |
| Encodings.Utf8Decode | include/codec/rapidjson/encodings.h:145-176 | Decoding succeeds exactly on a well-formed sequence of section 4 of RFC 3629, with its code point, and stops behind it |
| Encodings.Utf8Validate | include/codec/rapidjson/encodings.h:178-202 | The same verdict, the bytes of the character being copied |
| Encodings.Utf8Encode | include/codec/rapidjson/encodings.h:101-121 | The bytes of section 3 of RFC 3629 |
| Encodings.Classes | include/codec/rapidjson/encodings.h:204-220 | What the class table says of every leading byte, and the bits it leaves of it |
| Encodings.Masks | include/codec/rapidjson/encodings.h:204-220 | Which second bytes each mask admits |
| Encodings.Utf8Value8 | include/codec/rapidjson/encodings.h:101-176 | Encoding a decoded character gives back its bytes |
| Encodings.Value8Utf8 | include/codec/rapidjson/encodings.h:101-176 | Decoding an encoded code point gives it back |
| EncodingsOrder.OrderKept8 | include/codec/rapidjson/encodings.h:101-121 | UTF-8 keeps the order of code points, which with the grammar above leaves no other assignment |
| Encodings.EncodeDecoded8 | include/codec/rapidjson/encodings.h:101-176 | Decoding and re-encoding a whole string is the identity |
| Encodings.DecodeEncoded8 | include/codec/rapidjson/encodings.h:101-176 | Encoding and decoding any scalar values is the identity |
| Encodings.DecodeEncoded16 | include/codec/rapidjson/encodings.h:276-322 | The same in UTF-16 |
| Encodings.Value16Utf16 | include/codec/rapidjson/encodings.h:276-322 | One code point through UTF-16 and back |
| EncodingsOrder.OrderKept16 | include/codec/rapidjson/encodings.h:275-288 | One unit stands for itself, and surrogate pairs are in the order of their code points |
| Encodings.Utf16Decode | include/codec/rapidjson/encodings.h:306-322 | Decoding succeeds exactly on a unit that is no surrogate or a pair of them |
| Encodings.Utf16Encode | include/codec/rapidjson/encodings.h:275-288 | One unit, or a surrogate pair |
| Encodings.TranscodeTo16 | include/codec/rapidjson/encodings.h:658-684 | UTF-8 to UTF-16, code point by code point, or refused if a character is ill-formed |
| Encodings.TranscodeTo8 | include/codec/rapidjson/encodings.h:658-684 | UTF-16 to UTF-8 alike |
| Encodings.ThereAndBack | include/codec/rapidjson/encodings.h:658-684 | UTF-8 to UTF-16 and back is the identity for every well-formed string and refused for every other |
| Sha1.Hasher.ProcessByte | include/codec/uuid.h:84-91 | A byte is appended to the message; a full block goes into the digest |
| Sha1.Hasher.ProcessBytes | include/codec/uuid.h:93-105 | Bytes are appended in order |
| Sha1.Hasher.ProcessBlock | include/codec/uuid.h:168-216 | One block is hashed as section 6.1.2 of FIPS 180-4 says |
| Sha1.Hasher.Expand | include/codec/uuid.h:168-178 | The message schedule |
| Sha1.Hasher.Reset | include/codec/uuid.h:74-82 | The empty message |
| Sha1.Hasher.Pad | include/codec/uuid.h:107-121 | The bit one and the zeros up to the length field of this block or of the next one |
| Sha1.Hasher.GetDigest | include/codec/uuid.h:107-133 | The digest of the message below 2^29 bytes; beyond, that of the message with a truncated length |
| Sha1.Hasher.GetDigestBytes | include/codec/uuid.h:135-165 | The same as 20 bytes |
| Sha1.HashPieces | include/codec/uuid.h:93-105 | However a message of any length is cut into pieces, its digest is that of the whole, which below 2^29 bytes is the standard one |
| Sha1Values.DigestOfAbc | include/codec/uuid.h:107-216 | The digest of "abc", round by round |
| Sha1Values.DigestBytesOfAbc | include/codec/uuid.h:135-165 | The same as 20 bytes |
| Sha1Values.RoundConstants | include/codec/uuid.h:186-202 | The constants are 2^30 times the square roots of 2, 3, 5 and 10 |
| Sha1Values.InitialValue | include/codec/uuid.h:74-82 | The initial value by its bytes |
| Sha1.PaddingIsStandard | include/codec/uuid.h:107-129 | The padding written is that of section 5.1.1 exactly for messages below 2^29 bytes |
| Sha1.LengthIsStandard | include/codec/uuid.h:107-129 | The length field is the standard one exactly below that bound |
| Sha1.CodePadded | include/codec/uuid.h:107-129 | The padded length is a multiple of 64 for every message |
| Sha1.RotationsAgree | include/codec/uuid.h:68-70 | The shifts and the exclusive-or make a rotation |
| Sha1.ChooseAgrees | include/codec/uuid.h:190-192 | The first round function is Ch |
| Sha1.MajorityAgrees | include/codec/uuid.h:196-198 | The third round function is Maj |
| TaskQueue.EveryRun | src/task_queue.cpp:35-97 | In every interleaving the tasks pushed are the tasks taken followed by the queue, no task is in two hands, no task is finished twice, and once no worker is busy all tasks taken are finished |
| TaskQueue.NextKeeps | src/task_queue.cpp:50-97 | Every step of a pusher, a worker or the owner keeps the invariant |
| TaskQueue.RunKeeps | src/task_queue.cpp:50-97 | So does every run |
| TaskQueue.TakesFromNonEmpty | src/task_queue.cpp:57-70 | A worker about to take a task finds one; nothing but the lock stops a worker |
| TaskQueue.AfterShutdown | src/task_queue.cpp:20-24 | After shutdown at most one more task is taken, by the worker that had already passed the check |
| TaskQueue.NextAfterShutdown | src/task_queue.cpp:20-60 | Shutdown is final, and each step uses up what may still be taken |
| TaskProgress.ExitedAfterShutdown | src/task_queue.cpp:53-60 | In every run a worker that has left its loop has seen the shutdown |
| TaskProgress.TakesHead | src/task_queue.cpp:50-72 | A worker with nobody else in the critical section takes the head of the queue by its own steps alone |
| TaskProgress.FinishesTask | src/task_queue.cpp:73-78 | One more step, and the task it has taken is done |
| TaskProgress.HeadFinished | src/task_queue.cpp:50-79 | In every running pool some schedule of the workers finishes the task at the head of the queue |
| TaskProgress.EveryTaskCanBeDone | src/task_queue.cpp:35-97 | After every run that has spawned a worker and was not shut down, some schedule of the workers finishes every task ever pushed |
| TaskProgress.IdleWaits | src/task_queue.cpp:57-67 | A worker with nothing to do comes to wait, and the pool accepts tasks again |
| TaskQueue.Pool.constructor | src/task_queue.cpp:9-13 | No worker, an empty queue, active |
| TaskQueue.Pool.PushToQueue | src/task_queue.cpp:35-42 | The step that pushes a task |
| TaskQueue.Pool.DeployWorkers | src/task_queue.cpp:88-97 | The workers are spawned, then tasks are no longer accepted |
| TaskQueue.Pool.Shutdown | src/task_queue.cpp:20-24 | The pool is no longer active |
| TaskQueue.Pool.WorkerLoop | src/task_queue.cpp:50-79 | One atomic step of a worker, whichever it stands before |
| EnvFileLaws.KeyFound | include/common/util.cpp:635-647 | In a created file whose keys are no prefixes of one another the search finds the line of every key |
| EnvFileLaws.ReadEntry | include/common/util.cpp:635-651 | Reading a key depends on its own entry only, in any key order |
| EnvFileLaws.ValueSurvives | include/common/util.cpp:559-585 | A value is read back as written exactly if it has no quote, no separator and no outer space |
| EnvFileLaws.JsonSurvives | include/common/util.cpp:570-575 | Read as JSON, exactly if it has no separator and does not end in a quote |
| EnvFileLaws.OuterLost | include/common/util.cpp:564-575 | Of the spaces at either end of a value one is lost, of the quotes behind a JSON text one |
| EnvFileLaws.ReadEmptied | include/common/util.cpp:645-646 | An entry emptied by a write reads as the whole rest of the file |
| EnvFileLaws.UnquotedLosesLast | include/common/util.cpp:645-646 | A value written without quotes loses its last character |
| EnvFileWrites.WriteEntry | include/common/util.cpp:653-673 | Writing a key whose text first occurs at its line replaces its entry and nothing else |
| EnvFileWrites.WriteThenRead | include/common/util.cpp:635-673 | That key then reads back the new value, and every other key what it read before |
| EnvFileWrites.WriteReadBack | include/common/util.cpp:635-673 | Every value that can survive is read back after it has been written in quotes to a key, if and only if the key's text first occurs at its own line |
| EnvFileWrites.OwnRead | include/common/util.cpp:635-673 | A write to such a key is read back as its text says, whatever the text contains |
| EnvFileWrites.WriteAstray | include/common/util.cpp:657-669 | A write behind an earlier occurrence replaces the text up to the next separator, and so the end of an earlier line or a whole line up to the key's own |
| EnvFileWrites.AstrayRead | include/common/util.cpp:635-651 | After such a write the key reads what it read before, or nothing if its own line was overwritten |
| EnvFileWrites.WriteFirst | include/common/util.cpp:657-669 | It is the text behind the first occurrence of the key that is overwritten, wherever that stands |
| EnvFileWrites.EarlierOccurrence | include/common/util.cpp:657-669 | An example: the write to the key "env", whose text occurs in the first line |
| EnvFileWrites.Missing | include/common/util.cpp:635-673 | A key that stands nowhere is not written and reads as nothing, and nothing is written without a separator behind it |
| EnvFileWrites.FileText | include/common/util.cpp:627-633 | The text of a created file, entry by entry |
| EnvStore.CreateEnvFile | include/common/util.cpp:627-633 | The first line and one line per pair, in the order the table yields them |
| EnvStore.RemoveDoubleQuotes | include/common/util.cpp:559-562 | The characters that are no quotes, in order, moved to the front in place |
| EnvStore.Store.Read | include/common/util.cpp:635-651 | The reading of a token, or the exception when the key ends the file |
| EnvStore.Store.Write | include/common/util.cpp:653-673 | The new text, or no change when the key or the separator is missing |
| SqlValues.ValuesReadBack | src/helpers.hpp:26-42 | The printed list is a well-formed list of rows exactly for a non-empty list of whole rows; its reader then recovers every value in order and rows of the given width, whatever the values contain, empty values as NULL |
| SqlValues.FieldsReadBack | src/helpers.hpp:12-24 | Cut at its commas a field list gives back the names exactly when none has a comma |
| SqlStatements.InsertReadBack | src/helpers.hpp:70-75 | A printed statement of whole rows gives back its table, its fields and its values exactly when the table has no opening bracket and no field has a comma or a closing one |
| SqlValues.ValuesString | src/helpers.hpp:26-42 | The text of the list |
| SqlValues.FieldsString | src/helpers.hpp:12-24 | The names with commas between them |
| SqlValues.DoubleSingleQuotes | include/database/db_structs.hpp:40-49 | Every quote doubled, nothing else changed |
| SqlValues.LiteralRead | include/database/db_structs.hpp:40-49 | A quoted literal is read back as the value and ends at its closing quote |

## Left out
- Sockets, sessions, databases, threads as such, mail, processes, logging, the scheduler and the other SQL statements: input and output, or plain concatenation.
- `writer.h`, `internal/stack.h`, `internal/strtod.h`, `internal/regex.h`: the stack of the reader and of the document is a sequence; the rest is not part of this model.
- Handlers that reject an event: the handler accepts everything, so the termination error never arises.
- Parse flags other than the default, SIMD scanning, in-situ strings, and the byte order mark.
- The value of a double: an event carries the digits, and `Input.overflows` decides whether they are too large.
- JsonReader.Reader.ParseNumber: for texts without a point followed by more than 214748055 digits, because beyond that the 32-bit exponent arithmetic of the code is undefined; the functions it is proved against, and the laws about them, have no such bound.
- JsonReader.Reader.Parse: the same bound on the fractions in the text.
- JsonReader.Reader.IterativeParse: the same bound on the fractions in the text.
- JsonReader.Reader.IterativeParseNext: the same bound on the fractions in the text.
- JsonReader.Reader.ParseStringToStream: the decoded string is built as such instead of on the stack with a terminator; units above 127 are copied as they are, as they are by the code when both encodings are UTF-8.
- JsonDocument.DocumentMirrors: for texts below 2^32 units, because a longer one may hold more items than the 32-bit counts of the events.
- JsonDocument.ValueMirrors: the same bound.
- JsonDocument.ElementsMirror: the same bound.
- JsonDocument.MembersMirror: the same bound.
- JsonDom.Document.ParseStream: with the bounds of the reader and of the counts; values are moved instead of their bytes.
- GrammarLaws.AcceptsJson: the grammar is over units; that a text is well-formed UTF-8 is not asked, as the reader with default flags does not ask it. Which doubles overflow is a parameter.
- JsonPrinting.PrintedParsed: for trees whose doubles are texts that are read as doubles. The printing is that of section 2 of RFC 8259 without white space; `writer.h` is not part of this model.
- JsonErrors.FailureExplained: of the recursive parser; ParserEquivalence.SameDocumentCode carries it over to the others.
- JsonNumbers.IntegerDelivered: for a numeral followed by what may follow a number; a fraction or an exponent makes it another number.
- PointerParser.Pointer.constructor: the triplets of one character are decoded before they are validated, at most four of them, instead of byte by byte; the error and its place are the same.
- PointerParser.Pointer.Stringify: the text is put at the end of a string instead of a stream.
- PointerLaws.ParsePrinted: for tokens as parsing yields them, with names below 2^32 units, whose length the token can hold.
- PointerLaws.PrintParsed: for texts of at most 2^32 units, for the same reason.
- PointerLaws.UriReprinted: the same bound.
- PointerLaws.TokensRegular: the same bound.
- PointerTreeLaws.GetAfterCreate: allocation does not fail.
- PointerDom.Tree.Create: the tree is a value that is replaced at a location; references into it, and what they alias, are not modelled. The 32-bit capacity of an array is not either.
- PointerDom.Tree.Erase: on values and locations alike.
- SchemaPath.Validator.Receive: keyword checks, sub-validators, hashing and the element schemas pushed with a context are left out, so a run never stops early.
- SchemaPathLaws.ReportedPointers: for trees whose member names are unique within an object and shorter than 2^32 units, since a pointer cannot tell two members of one name apart.
- MemberIndex.Drive: for fewer than 2^30 operations, each with a new name to add, so that the 32-bit capacity does not wrap.
- MemberIndex.MapObject.Add: the multimap is a map from the identity of an entry to its name and position; its balancing is not modelled. The capacity must fit 32 bits.
- MemberIndex.MapObject.Find: where names repeat, any member with the name may be found.
- Sharing of one pool by several handles, and what Clear and the destructor give back to the base allocator.
- MemoryPool.Allocator.AddChunk: the linked list of chunks is a sequence, and the address the base allocator answers with is a parameter.
- PoolAllocator.MallocKeeps: for memory from the base allocator that is aligned and apart from what is in use.
- Encodings.Utf8Decode: shifts and masks that put bits together are products and remainders; the class masks are bit-vectors.
- Encodings.Utf8Validate: at the end of the input the terminator is read as a unit 0, as the streams do.
- TaskQueue.Pool.DeployWorkers: run without interruption; workers that start while others are still being spawned are covered by TaskQueue.EveryRun, where spawning is a step like any other.
- TaskQueue.EveryRun: the count of active workers is left out, because it is updated outside the lock.
- TaskProgress.EveryTaskCanBeDone: a waiting worker may wake at any time, so it is a schedule that exists; that the operating system wakes and schedules the workers is not modelled.
- EnvStore.Store.Read: the file is a string; saving it always succeeds.
- EnvStore.CreateEnvFile: the table is a list of pairs in the order in which it is walked.
- EnvFileWrites.WriteThenRead: for values without line breaks, which could make a new line of their own; EnvFileWrites.WriteReadBack has no such condition for the key that is written.
- EnvFileWrites.WriteReadBack: for keys that are not empty, and keys and texts without separators, one of which would end its line early.
- SqlStatements.InsertReadBack: for a non-empty list of whole rows; other lists print no well-formed rows.
- SqlValues.ValuesString: for fewer values than the 32-bit counter can hold, and with at least one field unless there is no value, since the code divides by the number of fields.
- Random and time-based identifiers, and the branches for other systems.
