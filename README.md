# URI template expander

A model of the URI template expander of Cloudname/uritemplate (class
`UriTemplate`), after draft-gregorio-uritemplate-07, which became Appendix A of
RFC 6570. A template is scanned character by character: text is copied, each
`{…}` expression is expanded against a map of variables, and a `{` without a
later `}` is recorded in the expander's error record. An expression is an
optional operator followed by comma-separated names. It is expanded through a
fixed table of operator rows (`first`, `sep`, `named`, `ifemp`, `allow`).
Values are percent-encoded with the character classes of RFC 3986, sections
2.2 and 2.3, and the `%XX` form of section 2.1, as the code writes it.

Modules, one per part of the source:

- `CharClasses`: `isAlpha`, `isDigit`, `isUnreserved` and `isReserved`.
- `Operators`: the `params` table and `OperatorParams`.
- `PercentEncoding`: `pctEncode`, `encodeU` and `encodeU_AND_R`. Each loop is a method proved against a specification function.
- `PercentDecoding`: a decoder written as the encoders' partner. Its round trip shows that the encoders lose nothing.
- `VarList`: Java's `String.split(",")`.
- `Expressions`: `expandExpression`. Its loop is proved against `ExpressionSpec`, and lemmas state the joined shape of the output.
- `Template`: the scan. Its specification functions are `Expanded` and `ErrorAt`. The classes `ErrorState` and `UriTemplate` hold the error record and `expand`.
- `TemplateLaws`: how a template's output and error follow from its parts.
- `Vectors`: the expansions the project's unit tests expect, derived from the laws.
- `Sequences` and `Wrappers`: general helpers.

Quirks of the code that the model keeps:

- The scan does not stop at a `{` without a later `}`. It appends the rest of the template raw, records the error, and goes on scanning that same rest. So the rest is written raw and then written again by the scan of that rest (a `{` in it appends its own tail once more), and a later unclosed `{` overwrites the recorded position.
- `pctEncode` writes one `%` per character, followed by the `"%2X"` form of each UTF-8 byte. `"%2X"` pads with a space, so a byte below 0x10 becomes a space and one digit. Section 2.1 of RFC 3986 writes two hexadecimal digits; the code pads with a space, and the model follows the code.
- `isReserved` lists U+2019 (’) where RFC 3986 has the apostrophe.
- Names are not trimmed and carry no modifiers: `{x:3}` looks up the name `x:3`.

## Model

| member | source | states |
|---|---|---|
| CharClasses.ClassesAreCodeUnits | src/main/java/org/cloudname/uritemplate/UriTemplate.java:174-210 | every unreserved or reserved character is one UTF-16 code unit |
| CharClasses.ReservedIsListed | src/main/java/org/cloudname/uritemplate/UriTemplate.java:206-210 | the reserved test accepts exactly its 18 listed characters, U+2019 included and the ASCII apostrophe not |
| CharClasses.ClassesDisjoint | src/main/java/org/cloudname/uritemplate/UriTemplate.java:193-210 | no character is both unreserved and reserved; "%" is neither |
| Operators.OperatorKeys | src/main/java/org/cloudname/uritemplate/UriTemplate.java:241-251 | the table has the no-operator row and a row for exactly the seven characters "+./;?&#" |
| Operators.OperatorRows | src/main/java/org/cloudname/uritemplate/UriTemplate.java:243-250 | what each row holds: first, sep, named, ifemp and allow per operator; the no-operator row differs from "+" only in allow |
| PercentEncoding.Utf8 | src/main/java/org/cloudname/uritemplate/UriTemplate.java:161 | a code unit's UTF-8 bytes in their shortest form: 1 to 3 bytes, a lead byte announcing the length, continuation bytes 10xxxxxx; one byte exactly below 0x80, two exactly from 0x80 to 0x7FF |
| PercentEncoding.Hex2 | src/main/java/org/cloudname/uritemplate/UriTemplate.java:163 | "%2X" of a byte is two characters, the first a space exactly when the byte is below 0x10 |
| PercentEncoding.HexOfBytes | src/main/java/org/cloudname/uritemplate/UriTemplate.java:163 | the formatted bytes take two characters per byte, each a hex digit or the padding space |
| PercentEncoding.PctEncode | src/main/java/org/cloudname/uritemplate/UriTemplate.java:158-166 | the loop returns one "%" followed by "%2X" of every UTF-8 byte |
| PercentEncoding.PctEncodedShape | src/main/java/org/cloudname/uritemplate/UriTemplate.java:158-166 | an encoded character is 1 + 2n long for n bytes, starts with its only "%", then hex digits or spaces |
| PercentEncoding.PctEncodedAscii | src/main/java/org/cloudname/uritemplate/UriTemplate.java:158-166 | a character in 0x10-0x7F becomes exactly "%XX" of its value |
| PercentEncoding.PctEncodedControl | src/main/java/org/cloudname/uritemplate/UriTemplate.java:163 | a character below 0x10 becomes "%", a space and one digit |
| PercentEncoding.PctEncodedMultiByte | src/main/java/org/cloudname/uritemplate/UriTemplate.java:161-163 | a character beyond 0x7F gets one "%" for all its bytes, at least 5 characters |
| PercentEncoding.Encoded | src/main/java/org/cloudname/uritemplate/UriTemplate.java:126-150 | an encoded value is never shorter than the value |
| PercentEncoding.EncodeU | src/main/java/org/cloudname/uritemplate/UriTemplate.java:126-134 | the loop keeps unreserved characters and percent-encodes the rest, character by character (Encoded(U, input)) |
| PercentEncoding.EncodeUAndR | src/main/java/org/cloudname/uritemplate/UriTemplate.java:142-150 | the loop also keeps reserved characters (Encoded(UAndR, input)) |
| PercentEncoding.EncodedAppend | src/main/java/org/cloudname/uritemplate/UriTemplate.java:130-132 | encoding distributes over concatenation |
| PercentEncoding.EncodedCons | src/main/java/org/cloudname/uritemplate/UriTemplate.java:130-132 | encoding, seen from the first character |
| PercentEncoding.EncodedAllKept | src/main/java/org/cloudname/uritemplate/UriTemplate.java:126-150 | a value whose characters are all kept is written unchanged |
| PercentEncoding.EncodedGrows | src/main/java/org/cloudname/uritemplate/UriTemplate.java:126-150 | a value with a character that is not kept gets strictly longer |
| PercentEncoding.EncodedUnchangedIffKept | src/main/java/org/cloudname/uritemplate/UriTemplate.java:126-150 | a value is unchanged exactly when every character is kept, and otherwise strictly longer |
| PercentEncoding.EncodedCharacters | src/main/java/org/cloudname/uritemplate/UriTemplate.java:126-150 | every output character is kept by the class, a "%", or the padding space |
| PercentDecoding.FieldValueHex2 | src/main/java/org/cloudname/uritemplate/UriTemplate.java:163 | a "%2X" field, space-padded or not, reads back as its byte |
| PercentDecoding.Utf8RoundTrip | src/main/java/org/cloudname/uritemplate/UriTemplate.java:161 | the UTF-8 bytes of a code unit decode back to it |
| PercentDecoding.ReadBytesHexOfBytes | src/main/java/org/cloudname/uritemplate/UriTemplate.java:163 | as many fields as were formatted read back as the bytes, whatever follows |
| PercentDecoding.DecodePctEncoded | src/main/java/org/cloudname/uritemplate/UriTemplate.java:158-166 | decoding a percent-encoded character and a rest yields the character, then the decoded rest |
| PercentDecoding.DecodeEncodeChar | src/main/java/org/cloudname/uritemplate/UriTemplate.java:130-131 | the same for a character that is kept or encoded |
| PercentDecoding.DecodeEncoded | src/main/java/org/cloudname/uritemplate/UriTemplate.java:126-166 | decoding inverts both encoders on every string of code units |
| PercentDecoding.EncodedInjective | src/main/java/org/cloudname/uritemplate/UriTemplate.java:126-166 | two values with the same encoding are equal |
| VarList.SplitAll | src/main/java/org/cloudname/uritemplate/UriTemplate.java:86 | splitting on commas yields at least one piece |
| VarList.JoinSplitAll | src/main/java/org/cloudname/uritemplate/UriTemplate.java:86 | the pieces hold no comma and join back with commas into the string |
| VarList.SplitAllJoin | src/main/java/org/cloudname/uritemplate/UriTemplate.java:86 | splitting undoes joining comma-free pieces |
| VarList.DropTrailingEmpty | src/main/java/org/cloudname/uritemplate/UriTemplate.java:86 | a prefix ending in a non-empty piece, with only empty pieces removed |
| VarList.JavaSplitCharacterised | src/main/java/org/cloudname/uritemplate/UriTemplate.java:85-86 | split(","): a string without a comma comes back whole; otherwise the untrimmed pieces in order up to the last non-empty one; no piece holds a comma |
| VarList.JavaSplitJoin | src/main/java/org/cloudname/uritemplate/UriTemplate.java:86 | comma-free names whose last is not empty split back into exactly those names |
| Expressions.ExpandExpression | src/main/java/org/cloudname/uritemplate/UriTemplate.java:72-118 | the loop over names computes ExpressionSpec |
| Expressions.EncodeValue | src/main/java/org/cloudname/uritemplate/UriTemplate.java:112 | the row's allow picks encodeU or encodeU_AND_R |
| Expressions.ItemsEmptyIff | src/main/java/org/cloudname/uritemplate/UriTemplate.java:92-93 | there are no items exactly when no listed name is defined |
| Expressions.RenderVarsJoined | src/main/java/org/cloudname/uritemplate/UriTemplate.java:90-113 | the loop writes the defined names' items, first before the first one and sep before each later one |
| Expressions.ExpressionJoined | src/main/java/org/cloudname/uritemplate/UriTemplate.java:89-117 | an expression is its items joined; with no defined name it is empty, with no prefix; otherwise it starts with first |
| Expressions.OperatorSelection | src/main/java/org/cloudname/uritemplate/UriTemplate.java:73-86 | the first character is the operator exactly when it is one of "+./;?&#"; the names are the rest, else the whole body, split on commas |
| Template.IndexOf | src/main/java/org/cloudname/uritemplate/UriTemplate.java:44 | indexOf returns -1 or an index at or after from |
| Template.IndexOfFirst | src/main/java/org/cloudname/uritemplate/UriTemplate.java:44 | indexOf finds the first occurrence, and -1 exactly when there is none |
| Template.ErrorState.constructor | src/main/java/org/cloudname/uritemplate/UriTemplate.java:215-218 | a fresh record holds no error, no message, position 0 |
| Template.ErrorState.Set | src/main/java/org/cloudname/uritemplate/UriTemplate.java:225-229 | set records an error and overwrites message and position |
| Template.ErrorState.IsError | src/main/java/org/cloudname/uritemplate/UriTemplate.java:232 | returns the error flag |
| Template.ErrorState.GetAt | src/main/java/org/cloudname/uritemplate/UriTemplate.java:235 | returns the position |
| Template.UriTemplate.constructor | src/main/java/org/cloudname/uritemplate/UriTemplate.java:14-21 | stores the template with a fresh, clear error record |
| Template.UriTemplate.GetErrorState | src/main/java/org/cloudname/uritemplate/UriTemplate.java:23 | returns the shared error record |
| Template.UriTemplate.Expand | src/main/java/org/cloudname/uritemplate/UriTemplate.java:32-61 | the loop returns Expanded; with no unclosed "{" the record is left as it was (an earlier error persists); otherwise it holds "Expression not closed" at ErrorAt |
| TemplateLaws.ExpandFromIsScan | src/main/java/org/cloudname/uritemplate/UriTemplate.java:35-58 | the scan is the generic scan with expressions expanded by expandExpression |
| TemplateLaws.ScanAppend | src/main/java/org/cloudname/uritemplate/UriTemplate.java:33-60 | what the scan writes is appended to what was written before |
| TemplateLaws.ErrorFromLast | src/main/java/org/cloudname/uritemplate/UriTemplate.java:52-56 | a later error overwrites an earlier one |
| TemplateLaws.LiteralRun | src/main/java/org/cloudname/uritemplate/UriTemplate.java:37-41 | text without "{" is copied and records nothing |
| TemplateLaws.ScanShift | src/main/java/org/cloudname/uritemplate/UriTemplate.java:35-58 | scanning a suffix of a template writes what scanning it alone writes |
| TemplateLaws.ErrorShift | src/main/java/org/cloudname/uritemplate/UriTemplate.java:52-56 | errors of a suffix are recorded moved by the prefix's length |
| TemplateLaws.BraceFree | src/main/java/org/cloudname/uritemplate/UriTemplate.java:35-41 | a template without "{" expands to itself for any variables and records nothing |
| TemplateLaws.ClosedExpression | src/main/java/org/cloudname/uritemplate/UriTemplate.java:43-51 | text + "{" body "}" + rest expands to text, the expression's expansion, and the rest's expansion; an empty body is the only new way to throw; the rest's errors move by the prefix |
| TemplateLaws.UnclosedExpression | src/main/java/org/cloudname/uritemplate/UriTemplate.java:52-56 | text + "{" + tail with no "}" writes text, the raw tail, then the tail's own expansion; the error is at the index after "{" unless the tail records a later one |
| TemplateLaws.ErrorFromLastBrace | src/main/java/org/cloudname/uritemplate/UriTemplate.java:35-58 | the scan from any index records the position after the template's last "{" exactly when no "}" follows it |
| TemplateLaws.ErrorAtLastBrace | src/main/java/org/cloudname/uritemplate/UriTemplate.java:52-56 | expand records an error exactly when no "}" follows the last "{", at the index after it |
| TemplateLaws.NoEmptyPair | src/main/java/org/cloudname/uritemplate/UriTemplate.java:43-47 | with no "{}" pair in the template, the scan never hands an empty expression to expandExpression |
| Vectors.OneName | src/main/java/org/cloudname/uritemplate/UriTemplate.java:92-113 | one name expands to first and its item, or to nothing when undefined |
| Vectors.TwoNames | src/main/java/org/cloudname/uritemplate/UriTemplate.java:92-113 | two names: first before the first defined one, sep between two defined ones |
| Vectors.NoExpand | src/test/java/org/cloudname/uritemplate/UriTemplateTest.java:40-42 | a template without expressions comes back unchanged and no error is recorded |
| Vectors.NestedUnclosed | src/main/java/org/cloudname/uritemplate/UriTemplate.java:52-56 | "a{b{c" gives "ab{cbcc" with the error at 4: the tail is written raw, its own "{" appends its tail once more, and the later error overwrites the earlier one |
| Vectors.UnclosedUserid | src/test/java/org/cloudname/uritemplate/UriTemplateTest.java:46-53 | ".../users/{/userid" records its error at 30, and its tail is written twice |
| Vectors.JustOpened | src/test/java/org/cloudname/uritemplate/UriTemplateTest.java:57-64 | ".../users/{" records its error at 30 |
| Vectors.SimpleVar | src/test/java/org/cloudname/uritemplate/UriTemplateTest.java:69 | "{var}" gives "value" |
| Vectors.HelloEncoded | src/test/java/org/cloudname/uritemplate/UriTemplateTest.java:70 | "Hello World!" is encoded as "Hello%20World%21" |
| Vectors.SimpleHello | src/test/java/org/cloudname/uritemplate/UriTemplateTest.java:70 | "{hello}" gives "Hello%20World%21" |
| Vectors.SimpleHalf | src/test/java/org/cloudname/uritemplate/UriTemplateTest.java:71 | "{half}" gives "50%25" |
| Vectors.EmptyValue | src/test/java/org/cloudname/uritemplate/UriTemplateTest.java:72 | "O{empty}X" gives "OX" |
| Vectors.UndefinedValue | src/test/java/org/cloudname/uritemplate/UriTemplateTest.java:73 | "O{undef}X" gives "OX" |
| Vectors.SimpleList | src/test/java/org/cloudname/uritemplate/UriTemplateTest.java:74 | "{x,y}" gives "1024,768" |
| Vectors.QueryXEmpty | src/test/java/org/cloudname/uritemplate/UriTemplateTest.java:76 | "?{x,empty}" gives "?1024," |
| Vectors.QueryXUndef | src/test/java/org/cloudname/uritemplate/UriTemplateTest.java:77 | "?{x,undef}" gives "?1024" |
| Vectors.QueryUndefY | src/test/java/org/cloudname/uritemplate/UriTemplateTest.java:78 | "?{undef,y}" gives "?768" |
| Vectors.PlusExpand | src/test/java/org/cloudname/uritemplate/UriTemplateTest.java:83-86 | "{+segment}" keeps the "#" of "xyzzy#foobar", after any text without "{" |
| Vectors.DotExpand | src/test/java/org/cloudname/uritemplate/UriTemplateTest.java:91-95 | "{.userid,type}" gives ".12345.email" |
| Vectors.PathExpand | src/test/java/org/cloudname/uritemplate/UriTemplateTest.java:100-103 | "{/userid}" gives "/12345" |
| Vectors.PathMultiExpand | src/test/java/org/cloudname/uritemplate/UriTemplateTest.java:108-112 | "{/userid}/rights{/rightid}" gives "/12345/rights/67890" |
| Vectors.PathStyleExpand | src/test/java/org/cloudname/uritemplate/UriTemplateTest.java:117-121 | "{;userid,rightid}" gives ";userid=12345;rightid=67890" |
| Vectors.QueryExpand | src/test/java/org/cloudname/uritemplate/UriTemplateTest.java:126-130 | "{?userid,type}" gives "?userid=12345&type=email" |
| Vectors.QueryContinuation | src/test/java/org/cloudname/uritemplate/UriTemplateTest.java:135-139 | "{&userid,type}" gives "&userid=12345&type=email" |
| Vectors.FragmentExpand | src/test/java/org/cloudname/uritemplate/UriTemplateTest.java:144-148 | "{#userid,type}" gives "#12345,email" |

## Left out

- Characters are Dafny characters, which are Unicode scalar values. A Java `char` is modelled by a character below U+10000 (`IsCodeUnit`), and every value must consist of such characters (`ValuesAreBmp`). Surrogate code units and supplementary characters cannot be written in a value. This includes a lone surrogate, which `getBytes("UTF-8")` turns into "?". Indices and error positions count these characters, which for such strings are Java's code units.
- Template.UriTemplate.Expand: the template itself is not restricted to characters below U+10000. A template holding a supplementary character is accepted, and its indices and error positions then count Unicode characters, not Java's UTF-16 code units. For example, the position recorded for the template U+1F600 followed by "{" is 2, where Java records 3.
- A `null` map of variables: the map is total. `expand(null)` on a template without `{` is covered by `TemplateLaws.BraceFree`, which holds for every map. With an expression that lists a name, Java throws a NullPointerException; that case is not modelled. A `null` value is `None`.
- An empty expression `{}` makes `expandExpression` throw (`charAt(0)`). Instead, `Expand` requires that the scan meets none (`NoEmptyExpression`), and `TemplateLaws.NoEmptyPair` gives a simple sufficient condition.
- `encodeU` and `encodeU_AND_R` return `null` for a `null` input. They are only called with defined values, so that branch is left out.
- The `UnsupportedEncodingException` handler in `pctEncode` cannot be reached and is left out.
- Java's `int` indices: templates longer than 2^31 - 1 characters are not considered.
- `StringBuilder` appends are modelled as sequence concatenation.
- The static `HashMap` of operator rows is modelled as a function of `Option<char>`.
- The message of the error record has no getter in the source. It is kept as the field `msg`.
- `extractVars`, called by the unit tests, is not part of this model: it is not defined in the source.
- `TemplateLaws.ScanFrom` and `TemplateLaws.ExpressionOf` give an empty output for an empty expression body. This is only a proof device: the laws use them where the scan meets no empty expression.
- Vectors: the three-name list `{x,hello,y}` is not worked out as a vector. `Expressions.ExpressionJoined` covers it.
- Vectors.PlusExpand, Vectors.DotExpand, Vectors.PathExpand, Vectors.PathMultiExpand, Vectors.PathStyleExpand, Vectors.QueryExpand, Vectors.QueryContinuation, Vectors.FragmentExpand: stated for any text before the expression that holds no "{", rather than for the tests' "http://www.example.com/..." prefixes.
