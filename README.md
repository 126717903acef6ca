# EMLParser.NET header scanner, modelled in Dafny

This project models the header scanner of EMLParser.NET. It covers two classes.

`EmailMessage` reads an EML text line by line through a `StringReader`:
- it builds one `EmailHeader` per header line, joining folded continuation lines (lines that start with a space or a tab);
- it stops at the first empty line;
- it takes the MIME boundary from the `boundary` parameter of each `Content-Type` header;
- it then reads the header-body separator line.

`EmailHeader` holds a name and a value. It also holds the parameters of the value (its "fields"). These are built on demand by tokenising the value on spaces and ';', splitting each token at its first '=' and stripping double quotes. The result is cached behind a dirty flag that the `Value` setter raises.

Modules:
- `Results`: `Option` (a .NET `null` is `None`) and `Result` (every exception is one `Fail` outcome).
- `Text`: the .NET string operations the scanner relies on, with the library's edge cases:
  - `String.Trim` over the `char.IsWhiteSpace` set;
  - `Split` with a count of 2 and `RemoveEmptyEntries`;
  - `Split` on ' ' and ';' with `RemoveEmptyEntries`;
  - `Replace`.
- `Reader`: `StringReader.ReadLine` and `Peek` over an in-memory string. A line ends at LF, CR or CRLF, and `null` comes back at the end of input. The class is proved against the function `ReadLineOf`.
- `Header`: the field parser as functions (`ParseFields`, `FieldsOf`), and the class `EmailHeader`. Its `BuildFields` refills the dictionary token by token, proved against those functions.
- `Message`: `ScanHeader` and `HeaderBlock` state what `ParseHeader` and the header loop of `ParseEML` do with the unread input. The class `EmailMessage` implements them with the source's loops and is proved against them.

## Model

| member | source | states |
|---|---|---|
| Text.Trim | EMLParser/Models/EmailMessage.cs:85 | the trimmed value is no longer than the input and neither starts nor ends with white space |
| Text.TrimPadded | EMLParser/Models/EmailHeader.cs:64 | trimming removes exactly the white-space padding around a trimmed string |
| Text.TrimIdempotent | EMLParser/Models/EmailMessage.cs:85 | trimming a trimmed value changes nothing |
| Text.SplitFirst | EMLParser/Models/EmailMessage.cs:84 | at most two pieces, none empty; the first holds no separator and the second does not start with one; `SplitFirstSkip` and `SplitFirstJoin` fix the pieces on every input with a separator after a first piece |
| Text.SplitFirstEmpty | EMLParser/Models/EmailHeader.cs:99-100 | the split gives no piece exactly when the string is made only of separators |
| Text.SplitFirstSkip | EMLParser/Models/EmailHeader.cs:99-100 | separators in front of a string are skipped: they never make a piece, and the pieces are those of the string without them |
| Text.SplitFirstJoin | EMLParser/Models/EmailMessage.cs:84 | a non-empty text without the separator, the separator, any further run of separators and a rest not starting with one split back into the text and the rest (the text alone when the rest is empty): the separators after the first piece are dropped |
| Text.SplitFirstWhole | EMLParser/Models/EmailHeader.cs:103-105 | a non-empty string without the separator is one piece |
| Text.Tokens | EMLParser/Models/EmailHeader.cs:89-90 | every token is non-empty and holds neither ' ' nor ';' |
| Text.TokensCover | EMLParser/Models/EmailHeader.cs:89-90 | the tokens joined are the value with every ' ' and ';' removed: nothing else is lost or reordered |
| Text.TokensNonEmpty | EMLParser/Models/EmailHeader.cs:89-91 | a value holding a character other than ' ' and ';' has at least one token |
| Text.TokensOfJoined | EMLParser/Models/EmailHeader.cs:89-90 | tokens joined by any non-empty gap of spaces and ';' are split back into the same tokens |
| Text.RemoveAll | EMLParser/Models/EmailHeader.cs:111 | no double quote is left, nothing grows, and a string without quotes is unchanged |
| Text.RemoveAllConcat | EMLParser/Models/EmailHeader.cs:111 | removing the quotes from two strings joined is removing them from each: every other character is kept, in order |
| Text.RemoveAllChar | EMLParser/Models/EmailHeader.cs:111 | a single character is dropped exactly when it is the removed one; with `RemoveAllConcat` this fixes the result on every string |
| Reader.ReadLineOf | EMLParser/Models/EmailMessage.cs:78 | `null` exactly at the end of input; otherwise a line without CR or LF, and the input shrinks |
| Reader.ReadLineOfSplits | EMLParser/Models/EmailMessage.cs:78 | the input is the line, then a terminator (CRLF, CR, LF, or none only at the end), then the rest; a CR read alone is not followed by LF |
| Reader.ReadLineOfTerminated | EMLParser/Models/EmailMessage.cs:78 | the inverse: a line without CR or LF followed by a terminator and the rest is read back as that line, stopping right after the terminator |
| Reader.PeekOf | EMLParser/Models/EmailMessage.cs:112 | -1 exactly at the end of input, otherwise the next character's code |
| Reader.StringReader.constructor | EMLParser/Models/EmailMessage.cs:36 | the cursor starts at the beginning of the text |
| Reader.StringReader.Peek | EMLParser/Models/EmailMessage.cs:112 | -1 exactly at the end of input, otherwise the character at the cursor; the cursor does not move |
| Reader.StringReader.ReadLine | EMLParser/Models/EmailMessage.cs:92 | at the end of input `null` and no move; otherwise the line and the new cursor are those of `ReadLineOf` on the unread input |
| Header.Unquote | EMLParser/Models/EmailHeader.cs:110-111 | a value starting with '"' is left with no '"'; a value without '"' is unchanged |
| Header.UnquoteQuoted | EMLParser/Models/EmailHeader.cs:110-111 | a quoted value without inner quotes loses exactly its two quotes |
| Header.ParseToken | EMLParser/Models/EmailHeader.cs:99-111 | a token fails (`field[1]` out of range) exactly when it is made only of '='; otherwise its key is non-empty and holds no '=' |
| Header.ParseTokenPair | EMLParser/Models/EmailHeader.cs:99-114 | `key=value` maps the key to the value, with every '"' removed when the value starts with '"'; further '=' after the first are skipped (`key==v` is `key=v`), and `key=` maps the key to null |
| Header.ParseTokenNoValue | EMLParser/Models/EmailHeader.cs:99-105 | `key=` maps the key to null, as the bare token `key` does |
| Header.ParseTokenLeading | EMLParser/Models/EmailHeader.cs:99-100 | '=' in front of a token are skipped: `=v` parses as `v` |
| Header.ParseTokenBare | EMLParser/Models/EmailHeader.cs:103-105 | a token without '=' maps itself to null |
| Header.ParseTokens | EMLParser/Models/EmailHeader.cs:97-100 | one parse per token, in order: the i-th parse is that of the i-th token |
| Header.AddEntries | EMLParser/Models/EmailHeader.cs:97-115 | the `foreach` never yields null fields; entries already in the dictionary are kept with their values (`Dictionary.Add` never overwrites), and each token adds at most one entry |
| Header.ParseFields | EMLParser/Models/EmailHeader.cs:83-94 | no fields when the value holds no '='; no fields exactly when there is no '=' or exactly one token |
| Header.ParseFieldsComplete | EMLParser/Models/EmailHeader.cs:97-115 | the build completes exactly when there is a '=', more than one token, and every token parses with a key of its own; then the dictionary holds one entry per token, key to value, and no other key |
| Header.AddEntriesFromEmpty | EMLParser/Models/EmailHeader.cs:97-115 | the `foreach` from an empty dictionary completes exactly when the keys are distinct and every token parses, and then describes the tokens |
| Header.FieldsOf | EMLParser/Models/EmailHeader.cs:147-150 | the getter gives null for a value without '='; non-null fields come only from a value with '=' and more than one token |
| Header.DuplicateKeyThrows | EMLParser/Models/EmailHeader.cs:104-114 | two tokens with one key make the build throw (`Dictionary.Add`); the later one does not overwrite |
| Header.TypeAndParameter | EMLParser/Models/EmailHeader.cs:89-115 | `type; key=value` gives exactly two fields: the type mapped to null and the key mapped to its unquoted value |
| Header.TypeAndEmptyParameter | EMLParser/Models/EmailHeader.cs:89-115 | `type; key=` gives exactly two fields, the type and the key, both mapped to null |
| Header.Appended | EMLParser/Models/EmailHeader.cs:58-65 | the old value is kept as a prefix of the new one |
| Header.EmailHeader.constructor | EMLParser/Models/EmailHeader.cs:18-23 | empty name and value, flag down, fields null |
| Header.EmailHeader.WithValue | EMLParser/Models/EmailHeader.cs:30-33 | name and value set, the flag raised by the `Value` setter |
| Header.EmailHeader.FromArray | EMLParser/Models/EmailHeader.cs:41-50 | throws exactly for more than two items or none; the first item is the name; the value is the second item or "" when there is none; the flag is raised only by a second item |
| Header.EmailHeader.SetValue | EMLParser/Models/EmailHeader.cs:136-142 | the value is replaced and the flag always raised; nothing else changes |
| Header.EmailHeader.AppendValue | EMLParser/Models/EmailHeader.cs:58-65 | throws exactly on an empty value, changing nothing; otherwise the value becomes the old value, a space if it ended with ';', and the trimmed text; the flag is raised |
| Header.EmailHeader.BuildFields | EMLParser/Models/EmailHeader.cs:70-119 | with the flag down nothing changes; otherwise no fields leave the flag raised, a complete build stores the dictionary of `ParseFields` and lowers the flag, and a throw keeps the entries added so far with the flag raised; the cache invariant is kept |
| Header.EmailHeader.AddTokens | EMLParser/Models/EmailHeader.cs:97-115 | the loop over the tokens completes with the dictionary of `AddEntries`, or throws with the entries it had added |
| Header.EmailHeader.GetFields | EMLParser/Models/EmailHeader.cs:147-150 | the getter returns the fields of the current value, whether cached or rebuilt, and throws when the build throws |
| Message.Folded | EMLParser/Models/EmailMessage.cs:111-114 | the next line continues the header exactly when the unread input starts with a space or a tab |
| Message.Unfold | EMLParser/Models/EmailMessage.cs:88-99 | continuation lines never end the block; the header keeps its name, the input shrinks, and reading stops where the next line does not start with a space or a tab |
| Message.ScanHeader | EMLParser/Models/EmailMessage.cs:73-103 | every step that does not throw consumes input; a parsed header ends before a line that does not continue it; `ScanHeaderBlank`, `ScanHeaderAnyLine`, `ScanHeaderNoColon`, `ScanHeaderColonsOnly` and `ScanHeaderLeadingColons` state what it makes of each kind of line |
| Message.BoundaryOf | EMLParser/Models/EmailMessage.cs:46-54 | a `Content-Type` is accepted exactly when its fields build, are not null and hold `boundary`; a value without '=' is rejected |
| Message.BoundaryOfParameter | EMLParser/Models/EmailMessage.cs:46-54 | `type; boundary=value` is accepted with the unquoted value as boundary, stored without a "--" prefix |
| Message.BoundaryOfEmptyParameter | EMLParser/Models/EmailMessage.cs:46-54 | `type; boundary=` is accepted, and the boundary becomes null |
| Message.MultipartBoundary | EMLParser/Models/EmailMessage.cs:54 | `multipart/alternative; boundary="XYZ"` gives the boundary `XYZ` |
| Message.HeaderBlock | EMLParser/Models/EmailMessage.cs:41-56 | the header loop never drops headers read before, and when it ends at a blank line it has consumed input; `BlockBoundary` and `RenderedBlock` state what it reads |
| Message.BoundaryAfter | EMLParser/Models/EmailMessage.cs:46-55 | the boundary stays what it was or is the boundary of one of the `Content-Type` headers; `BoundaryAfterLast` says which |
| Message.ParseEmlFrom | EMLParser/Models/EmailMessage.cs:35-64 | `ParseEML` returns normally only when the header block ended at a blank line |
| Message.ParseEmlOf | EMLParser/Models/EmailMessage.cs:27-29 | as written, the empty text is rejected, and any accepted text holds at least two characters (the blank line and the separator read after it) |
| Message.ParseEmlIntended | EMLParser/Models/EmailMessage.cs:58-61 | with the blank line taken as the separator, the headers and boundary are those of the code as written, and every message it accepts is accepted |
| Message.BoundaryAfterLast | EMLParser/Models/EmailMessage.cs:46-55 | the boundary is that of the last `Content-Type` header |
| Message.BoundaryAfterNone | EMLParser/Models/EmailMessage.cs:46-55 | headers other than `Content-Type` leave the boundary unchanged |
| Message.ScanHeaderLine | EMLParser/Models/EmailMessage.cs:78-89 | a line written by `ToString` and ended by LF or CRLF is read back as the same name and value |
| Message.ScanBlank | EMLParser/Models/EmailMessage.cs:78-80 | the blank line ends the block and is consumed, whether ended by LF, CRLF or a lone CR (at the end of input there is no line and `ParseHeader` throws; see `ScanHeaderBlank`) |
| Message.ScanHeaderBlank | EMLParser/Models/EmailMessage.cs:77-80 | at the end of input `ParseHeader` throws (`line.Length` on null); it returns null exactly when the line it reads is empty, and then stops right after that line |
| Message.ScanHeaderAnyLine | EMLParser/Models/EmailMessage.cs:82-85 | any line `name:rest` is split at its first ':' into the name and the trimmed rest, the ':' right after the first being skipped; without a continuation line that is the header |
| Message.ScanHeaderNoColon | EMLParser/Models/EmailMessage.cs:82-85 | a line without ':' is a header with that name and an empty value; a continuation line after it throws |
| Message.ScanHeaderColonsOnly | EMLParser/Models/EmailMessage.cs:82-84 | a line made only of ':' throws, since the split gives no name (`header[0]`) |
| Message.ScanHeaderLeadingColons | EMLParser/Models/EmailMessage.cs:82-84 | ':' at the start of a non-blank line are skipped: the line reads as it would without them |
| Message.BlockParsed | EMLParser/Models/EmailMessage.cs:41-55 | each header is added before its `Content-Type` is inspected; a rejected one throws, an accepted one replaces the boundary |
| Message.RenderedBlock | EMLParser/Models/EmailMessage.cs:41-56 | headers rendered one per line and a blank line, all ended by LF or all by CRLF, are read back in order, duplicates kept, with the boundary of the last `Content-Type`, and reading stops right after the blank line |
| Message.BlockBoundary | EMLParser/Models/EmailMessage.cs:41-56 | for any input, the headers read extend those before; when the block ends at a blank line every new `Content-Type` was accepted and the boundary is that of the last one |
| Message.ContentTypeRejected | EMLParser/Models/EmailMessage.cs:46-51 | a `Content-Type` without fields or without `boundary` is added, then `ParseEML` throws |
| Message.Fold | EMLParser/Models/EmailMessage.cs:92-99 | appending continuation lines keeps the first line's value as a prefix |
| Message.UnfoldLines | EMLParser/Models/EmailMessage.cs:92-99 | lines starting with a space or a tab, ended by LF or CRLF, are trimmed and appended in order, and the header ends before the first line that does not |
| Message.ScanFoldedHeader | EMLParser/Models/EmailMessage.cs:83-99 | a folded header reads back as one header whose value is the first line's value with the continuation lines appended |
| Message.FoldOnEmptyValue | EMLParser/Models/EmailMessage.cs:92-94 | a continuation line after an empty value throws in `AppendValue` |
| Message.ParseEmlSecondSeparator | EMLParser/Models/EmailMessage.cs:58-61 | as written, rendered headers (LF or CRLF line ends) are accepted exactly when the line after the blank line is empty too |
| Message.SeparatorReadTwice | EMLParser/Models/EmailMessage.cs:58-61 | as written, `Subject: Hi`, a blank line and `Hello` is rejected; with the blank line as the separator it is accepted |
| Message.ParseEmlRoundTrip | EMLParser/Models/EmailMessage.cs:40-61 | with the blank line as the separator, rendered headers (LF or CRLF line ends) are read back in order with the boundary of the last `Content-Type`, whatever body follows |
| Message.MultipartMessage | EMLParser/Models/EmailMessage.cs:35-61 | a multipart/alternative header block is read back with boundary `XYZ`; as written, only when a second blank line follows |
| Message.ParseEmlIntendedOk | EMLParser/Models/EmailMessage.cs:35-61 | success exactly when the block ends at a blank line; then every `Content-Type` was accepted and the boundary is the last one's |
| Message.EmailMessage.constructor | EMLParser/Models/EmailMessage.cs:11-21 | no headers and the boundary "" |
| Message.EmailMessage.FromEml | EMLParser/Models/EmailMessage.cs:27-29 | the constructor succeeds exactly when `ParseEML` returns normally, with its headers and boundary |
| Message.EmailMessage.IsNextCharWhitespace | EMLParser/Models/EmailMessage.cs:111-114 | true exactly when a next character exists and is a space or a tab; the cursor does not move |
| Message.EmailMessage.ParseHeader | EMLParser/Models/EmailMessage.cs:73-103 | throws, returns null or returns a new header exactly as `ScanHeader` says, leaving the cursor where it says |
| Message.EmailMessage.ParseEml | EMLParser/Models/EmailMessage.cs:35-64 | the headers, the boundary and the normal return are those of `ParseEmlFrom` |
| Message.EmailMessage.NextHeader | EMLParser/Models/EmailMessage.cs:41-56 | one turn of the header loop advances the header block exactly as `HeaderBlock` says |
| Message.EmailMessage.TakeBoundary | EMLParser/Models/EmailMessage.cs:46-55 | the `Content-Type` branch succeeds exactly as `BoundaryOf` says, and then stores its boundary; otherwise the boundary is unchanged |

## Behaviour of the code

The model keeps these behaviours of the code as they are:
- `BuildFields` adds fields with `Dictionary.Add`, so two tokens with one key throw rather than overwrite (EMLParser/Models/EmailHeader.cs:104, 114). Only '"' is stripped from a value (lines 110-111).
- A line without ':' is a header with an empty value, not an error (EMLParser/Models/EmailHeader.cs:47-49; `Message.ScanHeaderNoColon`). A line made only of ':' throws (`header[0]`; `Message.ScanHeaderColonsOnly`).
- `Split` with `RemoveEmptyEntries` skips runs of separators: `Name::x` is the header `Name` with value `x`, `key==v` is `key=v`, and `key=` maps the key to null, so a `Content-Type` with `boundary=` stores a null boundary (`Text.SplitFirstSkip`, `Text.SplitFirstJoin`, `Header.ParseTokenNoValue`, `Message.BoundaryOfEmptyParameter`).
- The boundary is stored as the parameter's value, without a "--" prefix (EMLParser/Models/EmailMessage.cs:54).
- `AppendValue` throws on a continuation line after an empty value, because it reads the last character of "" (EMLParser/Models/EmailHeader.cs:60).
- Input that ends right after the blank line throws, because the separator read at EMLParser/Models/EmailMessage.cs:59 gives `null`.

## Left out

- EMLParser/EMLParser.cs (`ParseFile`) is not part of this model: it only reads a file.
- EMLExample/Program.cs is not part of this model: it is a console demonstration.
- EMLParser/Models/EmailBody.cs and the `Bodies` list are not part of this model. `ParseEML` stops at a TODO (EMLParser/Models/EmailMessage.cs:63) and never parses a body.
- Exception types and messages are not modelled. Every exception, including the null dereferences, is one failure outcome.
- The order in which a .NET `Dictionary` enumerates its entries is not modelled: the fields are a map.
- The `Name` and `Headers` properties and the protected `Fields` setter are plain field accesses. They are modelled as fields.
- `System.IO.StringReader` itself is not part of this model. It is modelled by `Reader.StringReader` with the behaviour of `ReadLine` and `Peek`.
- Strings are modelled as Dafny strings, which are sequences of Unicode scalar values; a .NET `string` is a sequence of UTF-16 code units, so `Peek` on a character outside the Basic Multilingual Plane gives a different code here. No result of the scanner changes: no surrogate is a space, a tab, white space, a line break or a separator.
- Aliasing of the dictionary is not modelled. `BuildFields` clears and refills the same `Dictionary` object a caller may still hold, but the model stores a map value.
- Header.EmailHeader.ToString has no contract of its own. What it promises is stated by `Message.ScanHeaderLine`, which reads its output back.
- Message.EmailMessage.ParseEml leaves the headers and boundary it had reached when an exception ends parsing. The constructor then discards the object, so `FromEml` returns only `Fail`.

## Findings

| source | as written | input that shows it | evidently intended | confidence | as-written member | corrected member |
|---|---|---|---|---|---|---|
| EMLParser/Models/EmailMessage.cs:59-61 | `ParseHeader` has already consumed the blank line that ends the headers (lines 78-80). `ParseEML` then reads one more line and throws unless it is empty, so any message whose body starts right after the blank line is rejected. | `"Subject: Hi\r\n\r\nHello"` | the blank line consumed by `ParseHeader` is the header-body separator, and any body may follow it (`Message.ParseEmlIntended`) | not executed | Message.SeparatorReadTwice | Message.ParseEmlRoundTrip |
