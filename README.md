# Solaire XML format, modelled in Dafny

This project models the XML format of the Solaire library (`Src/Solaire/XML/Format.cpp`). The format does three things:

- it reads an XML-like element from a character stream;
- it writes elements, attributes and generic values back out;
- it converts between parsed elements and the library's dynamically typed generic value.

Nothing is repaired. The model follows the code as written, and the places where that code does something other than its evident purpose are stated as lemmas about the model (see "Behaviour shown by lemmas" below).

Files and modules:

- `types.dfy` (`XmlTypes`): the data model. It defines
  - `Attribute(name, value)`;
  - `Element(name, body, attributes, children)`;
  - the generic value, with variants `Null`, `Char`, `Bool`, `Unsigned`, `Signed`, `Double`, `Str`, `Array` and `Object`. An object is an ordered list of named entries;
  - the C-locale whitespace set.
- `bridge.dfy` (`XmlBridge`): `bodyToGenericValue` and `elementToGenericValue`, as functions, with lemmas about them.
- `reader_spec.dfy` (`XmlReaderSpec`): what the reader computes, as functions over the input text and a cursor index. These cover the whitespace skip, the attribute scan and the start-tag state machine. Lemmas describe where each outcome leaves the cursor and what it returns.
- `reader.dfy` (`XmlReader`): the reader as methods with loops over `seq<char>` and a mutable index. It covers `skipWhitespace`, `readAttribute`, `readElement` and `readValue`. Each method is proved to compute the matching function of `XmlReaderSpec`, or states its outcome directly.
  - Reading a character returns `s[p]` and advances `p`.
  - `end()` is `p == |s|`.
  - `setOffset(getOffset() - k)` is `p - k`.
  - `peek` is taken to return `s[p]` without advancing.
- `writer.dfy` (`XmlWriter`): `writeAttribute`, `writeElement`, `writeArray`, `writeObject` and `writeValue`. Each is a function returning the text it appends to the output stream. `writeElement` and `writeValue` can fail, so their functions also return the verdict. `writeAttribute`, `writeArray` and `writeObject` always return true, so their functions return the text alone. The source itself ignores those verdicts when it writes nested arrays and objects. Lemmas give the layout of what is written.
- `roundtrip.dfy` (`XmlRoundTrip`): what the reader makes of the writers' output.

## Behaviour shown by lemmas

- `readAttribute` appends the quoted characters to the name, so every attribute read has an empty value. See `AttributeScan` and `ReadWrittenAttribute`.
- `elementToGenericValue` never fills its list of seen names, so the array branch cannot be taken. See `NeverArray` and `DuplicateNamesGiveObject`.
- `elementToGenericValue` drops the scalar it computes for a body-only element. See `BodyOnlyIsDiscarded`.
- In `readElement`, the end-tag name always starts with `/`, so it never equals the start name. Every element read with a body part is therefore the default element. See `ReadEndTag` and `ReadElement`.
- In `writeElement`, the body and children branches are swapped. Neither the body nor the children are ever written. See `WriteElementCases`.
- Together these mean that `readValue` yields only `Null` or an object whose entries are all `Null` (see `ReadValue`). They also mean that written values do not come back as what was written (see `EmptyContainersReadBackAsNull` and `WrittenAttributesConvertToNulls`).

## Model

| member | source | states |
|---|---|---|
| XmlReader.SkipWhitespace | Src/Solaire/XML/Format.cpp:23-33 | the cursor ends on the first non-whitespace character at or after the start, or at the end of the input |
| XmlReaderSpec.SkipSpaces | Src/Solaire/XML/Format.cpp:23-33 | the index stopped at lies between the start and the end of the input; `SkipSpacesFirst` states that it is the first non-whitespace one |
| XmlReaderSpec.SkipSpacesFirst | Src/Solaire/XML/Format.cpp:23-33 | everything skipped is whitespace and the character stopped at is not |
| XmlWriter.WriteArray | Src/Solaire/XML/Format.cpp:37-102 | the text starts with `<name`, and it is `<name/>` exactly when the array is empty; the items are stated by `NullItem` and `ValuedItemLayout` |
| XmlWriter.ArrayItem | Src/Solaire/XML/Format.cpp:44-90 | every item, scalar or nested, is written as an element starting with `<solaire_array_element` |
| XmlWriter.ValuedItemOpening | Src/Solaire/XML/Format.cpp:48-78 | what a valued item writes before its value starts with `<solaire_array_element` |
| XmlWriter.NullItem | Src/Solaire/XML/Format.cpp:45-47 | a null array item is a self-closing `solaire_array_element` with the single attribute `type="null"` |
| XmlWriter.ValuedItemLayout | Src/Solaire/XML/Format.cpp:48-81 | every other scalar array item is a self-closing `solaire_array_element` with a `type` attribute (char, bool, number or string) and a `value` attribute holding its text |
| XmlWriter.ValuedItem | Src/Solaire/XML/Format.cpp:48-81 | the text a valued item writes is the element tag with its `type` and `value` attributes written as the attribute writer writes them |
| XmlWriter.EmptyContainers | Src/Solaire/XML/Format.cpp:97-111 | an empty array and an empty object are both written as `<name/>`, the same text as an empty element |
| XmlWriter.WriteValue | Src/Solaire/XML/Format.cpp:307-322 | writing a top-level value succeeds exactly when it is an array or an object; a refused value writes nothing |
| XmlWriter.WriteObject | Src/Solaire/XML/Format.cpp:104-191 | the text starts with `<name`, and it is `<name/>` exactly when the object is empty; the two passes are stated by `ScalarsBeforeNested`, `AttributePassFilter` and `TagPassFilter` |
| XmlWriter.EntryAttribute | Src/Solaire/XML/Format.cpp:121-168 | the attribute pass writes something for an entry exactly when it is a scalar; the text is stated by `EntryAttributeAsAttribute` |
| XmlWriter.EntryTag | Src/Solaire/XML/Format.cpp:173-184 | the element pass writes nothing for an entry exactly when it is a scalar |
| XmlWriter.Partition | Src/Solaire/XML/Format.cpp:119-184 | the entries written as attributes and those written as nested tags together are a rearrangement of the object's entries |
| XmlWriter.AttributePassFilter | Src/Solaire/XML/Format.cpp:119-168 | the attribute pass writes the scalar entries, in order, and nothing for array or object entries |
| XmlWriter.TagPassFilter | Src/Solaire/XML/Format.cpp:172-184 | the element pass writes the array and object entries, in order, and nothing for scalars |
| XmlWriter.AttributesAppend | Src/Solaire/XML/Format.cpp:119-168 | the attribute pass over two runs of entries is the two passes one after the other |
| XmlWriter.TagsAppend | Src/Solaire/XML/Format.cpp:172-184 | the element pass over two runs of entries is the two passes one after the other |
| XmlWriter.ScalarsBeforeNested | Src/Solaire/XML/Format.cpp:104-191 | an object is written exactly as the object whose scalar entries all come before its array and object entries |
| XmlWriter.ObjectAttributesAsList | Src/Solaire/XML/Format.cpp:119-168 | the attribute pass writes the same text as an element's attribute list with one attribute per scalar entry, where `null`, `true` and `false` are spelled out |
| XmlWriter.ScalarAttributesAsList | Src/Solaire/XML/Format.cpp:119-168 | the same correspondence for a list of scalar entries, one entry at a time |
| XmlWriter.EntryAttributeAsAttribute | Src/Solaire/XML/Format.cpp:123-164 | one scalar entry is written as the attribute writer writes its name and text, followed by a space |
| XmlWriter.WriteAttribute | Src/Solaire/XML/Format.cpp:349-352 | the text is three characters longer than the name and value together, with `=` right after the name and a closing quote at the end; `XmlRoundTrip.AttributeTextPieces` places every piece |
| XmlWriter.AttributeList | Src/Solaire/XML/Format.cpp:480-486 | the attribute list is empty exactly when there are no attributes |
| XmlWriter.OpenTag | Src/Solaire/XML/Format.cpp:477-486 | the opening tag starts with `<name` |
| XmlWriter.WriteElement | Src/Solaire/XML/Format.cpp:476-510 | the verdict is true exactly when the element has no body or no children; the text of each case is stated by `WriteElementCases` |
| XmlWriter.WriteElementCases | Src/Solaire/XML/Format.cpp:476-510 | writing fails exactly when there are both a body and children; an empty element self-closes; otherwise the text is the opening tag followed by `></name>` or by `>` alone, so the body and children are never written |
| XmlBridge.BodyToGenericValue | Src/Solaire/XML/Format.cpp:193-222 | the result is always `Null`, a boolean, a double, a character or a string |
| XmlBridge.BodyClassification | Src/Solaire/XML/Format.cpp:193-222 | each outcome holds exactly when its condition holds: `""`/`null` gives `Null`, `true`/`false` gives a boolean, number-shaped text gives a double, one character gives `Char`, anything else gives `Str` |
| XmlBridge.NumericFromMeansAll | Src/Solaire/XML/Format.cpp:204-213 | the scan loop's flag stays true exactly when every scanned character is a digit, `.`, `e` or `E` |
| XmlBridge.OneNumberCharIsDouble | Src/Solaire/XML/Format.cpp:204-218 | a single digit, `.`, `e`, `E` or `-` is classified as a double and never as a character |
| XmlBridge.ElementToGenericValue | Src/Solaire/XML/Format.cpp:224-292 | the result is `Null` exactly when the element has a body or has neither attributes nor children, and an object has one entry per attribute and child; `ObjectLayout` and `NeverArray` state the rest |
| XmlBridge.AttributeEntries | Src/Solaire/XML/Format.cpp:259-261 | one entry per attribute, in order, named after it and holding its value classified as a scalar |
| XmlBridge.ElementNullCases | Src/Solaire/XML/Format.cpp:232-291 | an element converts to `Null` exactly when it has a body or has neither attributes nor children; every other element converts to an object |
| XmlBridge.ObjectLayout | Src/Solaire/XML/Format.cpp:255-268 | an object holds one entry per attribute, classified as a scalar, then one per child, converted recursively, each group in order |
| XmlBridge.NeverArray | Src/Solaire/XML/Format.cpp:237-253 | the list of seen names is never filled, so no value anywhere in a converted tree is an array |
| XmlBridge.DuplicateNamesGiveObject | Src/Solaire/XML/Format.cpp:237-268 | two attributes with the same name still give an object holding both entries |
| XmlBridge.BodyOnlyIsDiscarded | Src/Solaire/XML/Format.cpp:285-291 | an element with only a body converts to `Null` |
| XmlReader.ReadValue | Src/Solaire/XML/Format.cpp:303-305 | the value read is the conversion of the self-closed element the start tag gives; any other successful read is `Null`; every success is `Null` or an object of `Null` entries |
| XmlReader.SelfClosedConvertsToNulls | Src/Solaire/XML/Format.cpp:224-268 | an element with no body, no children and empty attribute values converts to `Null` or to an object of `Null` entries |
| XmlReader.ReadAttribute | Src/Solaire/XML/Format.cpp:324-347 | the attribute read and the cursor after it are those the attribute scan gives |
| XmlReaderSpec.AttributeScan | Src/Solaire/XML/Format.cpp:324-347 | the value read is always empty, and the cursor stays in the input and moves at least two characters unless it reaches the end |
| XmlReaderSpec.AttributeScanFound | Src/Solaire/XML/Format.cpp:324-347 | when `=`, the quote after it and the closing quote are all found, the name is the text up to `=` followed by the quoted text, and the cursor is past the closing quote |
| XmlReader.AppendUntil | Src/Solaire/XML/Format.cpp:330-345 | the loop succeeds exactly when the stop character occurs, and it appends every character before it |
| XmlReaderSpec.FindCharAt | Src/Solaire/XML/Format.cpp:330-345 | the index searched for is the only one with no stop character before it and the stop character (or the end) at it |
| XmlRoundTrip.ReadWrittenAttribute | Src/Solaire/XML/Format.cpp:324-352 | a written attribute with no `=` in its name and no `"` in its value is read in full, back as the name followed by the value, with an empty value |
| XmlRoundTrip.ScanWrittenAttribute | Src/Solaire/XML/Format.cpp:324-352 | the same, for a written attribute found anywhere in a larger text |
| XmlReader.ReadElement | Src/Solaire/XML/Format.cpp:354-474 | a self-closed start tag gives its element; a failed one gives the default element; an opened one gives the default element whenever it succeeds; a success moves the cursor forward within the input |
| XmlReader.ReadStartTag | Src/Solaire/XML/Format.cpp:355-401 | the start tag read is the one the start-tag function describes |
| XmlReader.ReadAttributes | Src/Solaire/XML/Format.cpp:381-400 | the attribute loop gives the outcome of the loop function |
| XmlReader.AttributeRound | Src/Solaire/XML/Format.cpp:382-399 | one round of the attribute loop gives the round function's result |
| XmlReader.ReadWhileSpace | Src/Solaire/XML/Format.cpp:383-386 | whitespace is skipped up to the next other character, which is read; the end of the input on the way is a failure |
| XmlReader.ReadTagName | Src/Solaire/XML/Format.cpp:370-378 | the name loop succeeds exactly when whitespace, `/` or `>` occurs, and the name is every character before it |
| XmlReaderSpec.FindNameStopAt | Src/Solaire/XML/Format.cpp:374-378 | the name ends at the only index with no whitespace, `/` or `>` before it and one of them (or the end) at it |
| XmlReaderSpec.StartTagName | Src/Solaire/XML/Format.cpp:374-378 | a tag name read never contains whitespace, `/` or `>` |
| XmlReaderSpec.StartTagNeedsAngle | Src/Solaire/XML/Format.cpp:366-368 | anything other than `<` after the leading whitespace fails at once |
| XmlReaderSpec.StartTag | Src/Solaire/XML/Format.cpp:354-401 | a start tag gets past its opening only at a `<` after the leading whitespace; its outcomes are stated by `StartTagEnds`, `StartTagNeedsAngle` and `StartTagEntersLoop` |
| XmlReaderSpec.TagLoop | Src/Solaire/XML/Format.cpp:381-400 | a self-closed outcome carries the tag's name, an empty body and no children, and an opened one keeps the name; where it ends is stated by `LoopEndsWell` |
| XmlReaderSpec.StartTagEntersLoop | Src/Solaire/XML/Format.cpp:366-400 | past `<` and a name ended within the input, the start tag is the attribute loop, starting on the character that ended the name |
| XmlReaderSpec.StartTagEnds | Src/Solaire/XML/Format.cpp:364-401 | where a start tag ends: a self-closed element has no body, no children, empty attribute values and a name with no whitespace, `/` or `>`, and it ends with `/>`; an opened tag has its `>` at the cursor |
| XmlReaderSpec.DecideKeeps | Src/Solaire/XML/Format.cpp:387-399 | a decision step keeps attribute values empty, moves the cursor forward and ends a tag only at `/>` or `>` |
| XmlReaderSpec.RoundKeepsAll | Src/Solaire/XML/Format.cpp:382-399 | the same for a whole round of the attribute loop |
| XmlReaderSpec.LoopEndsWell | Src/Solaire/XML/Format.cpp:381-400 | the attribute loop ends well: a self-closed tag ends with `/>` and an opened one at `>`, within the input |
| XmlReaderSpec.TagRound | Src/Solaire/XML/Format.cpp:382-399 | a round that goes on leaves a consistent cursor and strictly decreases the loop's measure, so the attribute loop terminates |
| XmlReaderSpec.TagDecide | Src/Solaire/XML/Format.cpp:387-399 | the same for the decision step of a round |
| XmlReader.ReadBody | Src/Solaire/XML/Format.cpp:403-433 | a body loop that returns gives the default element, with the cursor past the element's `<` and within the input |
| XmlReader.ReadEndTag | Src/Solaire/XML/Format.cpp:435-471 | the end tag always gives the default element, because the end name starts with `/` and the start name holds none |
| XmlRoundTrip.LoopOverWrittenList | Src/Solaire/XML/Format.cpp:381-400 | the attribute loop over a written attribute list reads every attribute back, with its value moved into its name, and ends the tag at the `>` or `/>` after the list |
| XmlRoundTrip.LoopOverWrittenAttribute | Src/Solaire/XML/Format.cpp:394-399 | one round over a written attribute reads it back and stops on the following space, having peeked at it |
| XmlRoundTrip.StartTagOverList | Src/Solaire/XML/Format.cpp:364-401 | a start tag in the writer's form, `<name`, a space, an attribute list and `>` or `/>`, is read back with the values moved into the names |
| XmlRoundTrip.BareStartTag | Src/Solaire/XML/Format.cpp:364-401 | `<name>` and `<name/>` are read back as that name alone |
| XmlRoundTrip.OpenTagReadsBack | Src/Solaire/XML/Format.cpp:477-486 | an opening tag as `writeElement` writes it is read back with the attribute values moved into the names |
| XmlRoundTrip.WrittenElementReadsBack | Src/Solaire/XML/Format.cpp:476-510 | a written empty element is read back as a self-closed element; any other written element is read back as an opened tag whose `>` closes the written opening tag |
| XmlRoundTrip.WrittenObjectReadsBack | Src/Solaire/XML/Format.cpp:104-191 | a written non-empty object is read back as an opened tag with the object's name and one attribute per scalar entry, named by the entry's name followed by its text |
| XmlRoundTrip.WrittenArrayReadsBack | Src/Solaire/XML/Format.cpp:37-102 | a written non-empty array is read back as an opened tag with the array's name and no attributes |
| XmlRoundTrip.EmptyContainersReadBackAsNull | Src/Solaire/XML/Format.cpp:97-111 | an empty array or object is read back as the empty element, which converts to `Null` |
| XmlRoundTrip.WrittenAttributesConvertToNulls | Src/Solaire/XML/Format.cpp:476-491 | a written empty element with attributes is read and converted to an object of `Null` entries named by each attribute's name followed by its value |

## Left out

- Streams and allocators are not modelled. Input is a string plus an index, and output is the string a writer appends.
- The `XmlFormat` destructor is not modelled: it does nothing.
- The try/catch and `std::cerr` logging in `writeValue` are not modelled. The modelled writers raise no exception.
- Converting text to a double is not modelled: it is the uninterpreted `DoubleOf(text)`.
- Decimal formatting of numbers when writing is a `Formatter` parameter of the writers. Its output is not constrained.
- `GenericObject::emplace` on duplicate keys is not modelled: an object is an ordered list that appends every entry.
- The library's containers and `GenericValue` internals are not modelled.
- The accessors and constructors of `Include/Solaire/XML/Attribute.hpp` are not modelled, because they have no bodies. Only its two fields are used.
- Text is a byte string. Each Dafny `char` of the model stands for one C++ `char`, which is one byte of the input or output. A character that takes several bytes in the stream's encoding is several characters here. For example, the classifier sees UTF-8 `é` as two characters and gives a string, not a `Char`. Byte values from 128 up are Dafny characters of the same code.
- `std::isspace` is fixed to the C locale: space, `\t`, `\n`, `\v`, `\f` and `\r`.
- The reader's `int32_t` sizes and the writer's `int32_t` sum of body size and child count are unbounded integers, so overflow on inputs of 2^31 characters or more is not modelled.
- `peek` at the end of the input has no defined result. A read that reaches it yields `PeekPastEnd` rather than a value.
- XmlReader.ReadBody: the body loop is bounded by a `fuel` number of rounds and yields `OutOfFuel` past it. With a non-advancing `peek` the source's loop can run forever (for example on `<a><b/></a>`, where the child is re-read one character earlier each time), so the model does not promise termination of the source.
- XmlReader.ReadElement: for a tag that ends with `>`, the model promises only that a successful result is the default element. It does not say where the cursor ends after the body loop beyond staying within the input and past the start.
- XmlReader.ReadBody: the body text and child elements that the loop accumulates are not returned, since every exit returns the default element.
