# Azure Cognitive Search memory record, modelled in Dafny

This project models `AzureCognitiveSearchMemoryRecord`, the record adapter in
Semantic Kernel's Azure Cognitive Search memory connector. The adapter maps
Semantic Kernel's `MemoryRecord` / `MemoryRecordMetadata` to and from the
document shape of the search index.

The index key is the record id, encoded reversibly. The id's UTF-8 bytes
(RFC 3629) are written in standard Base64 (section 4 of RFC 4648). Reading a
key back decodes it. When the key is not valid Base64, it is returned
unchanged.

Files:

- `wrappers.dfy`: `Option`, which models C# nullable strings and the success
  or fallback outcome of decoding.
- `utf8.dfy`: `Encoding.UTF8.GetBytes` and `GetString` over Dafny strings. A
  Dafny `char` is a Unicode scalar value. Decoding never fails: each maximal
  ill-formed subpart becomes one U+FFFD, as section 3.9 of the Unicode
  Standard recommends and .NET does. The file proves both round trips and that
  the encodings are exactly the well-formed byte strings.
- `base64.dfy`: `Convert.ToBase64String` and `Convert.FromBase64String`. The
  codec has two layers: bytes to 6-bit values (arithmetic only) and 6-bit
  values to alphabet characters. The file also gives an independent definition
  of well-formed Base64 and proves that the decoder accepts exactly that.
- `memory.dfy`: the fields of `MemoryRecordMetadata` and `MemoryRecord` that
  the adapter uses.
- `search_record.dfy`: the adapter. It holds the index field names,
  `EncodeId`/`DecodeId`, the two id-taking constructors,
  `ToMemoryRecordMetadata`, `FromMemoryRecord`, `ToMemoryRecord`, and lemmas
  relating the write path to the read path.

Every operation is a pure function. Embedding elements have an opaque type
parameter `F`. The adapter copies vectors and never inspects them.

## Where the code and its documentation differ (the model follows the code)

- `EncodeId`'s doc comment (lines 185-187) calls the encoding URL-safe. The
  code calls `Convert.ToBase64String`, which uses the standard alphabet with
  `+` and `/`. Neither character is allowed in a search-index key.
  `EncodeIdCanLeaveKeyCharset` shows that the id `"~~~"` is stored as `"fn5+"`.
  The model keeps the standard alphabet.
- Writing a memory and reading it back does not give back every field.
  `FromMemoryRecord` always stores an empty external source name (line 163).
  `WriteThenRead` states exactly what comes back. `WriteThenReadExact` shows
  that the round trip is exact when the name was already empty.
- Keys that were never encoded read back unchanged only when they are not
  valid Base64. A raw key such as `"abcd"` is valid Base64, so `DecodeId`
  decodes it into different text (`DecodeIdMisreadsRaw`).
- `DecodeId` falls back to its argument only when Base64 decoding throws.
  Valid Base64 whose bytes are not UTF-8 does not fall back: `GetString`
  replaces the bad bytes with U+FFFD (`DecodeIdSubstitutes`).
- `Convert.FromBase64String` ignores spaces, tabs, CR and LF anywhere in its
  input. So an input of only blanks decodes to the empty id (`DecodeIdBlank`).
  The length test that can trigger the fallback counts characters other than
  whitespace.
- The decoder does not check the unused low bits of the last digit before
  `=`. This follows the .NET decoder. As a result, several keys can decode to
  the same id. Only `EncodeId`'s own output is guaranteed to round-trip.

## Model

| member | source | states |
|---|---|---|
| `AzureCognitiveSearchMemoryRecord.FieldNamesDistinct` | dotnet/src/Connectors/Connectors.Memory.AzureCognitiveSearch/AzureCognitiveSearchMemoryRecord.cs:17-44 | the seven index field names ("id", "content", "contentVector", "url", "filepath", "AdditionalMetadata", "IsReference") are pairwise distinct, so a document has one JSON member per field |
| `AzureCognitiveSearchMemoryRecord.EncodeId` | dotnet/src/Connectors/Connectors.Memory.AzureCognitiveSearch/AzureCognitiveSearchMemoryRecord.cs:191-202 | every key decodes back to its id; its length is 4·⌈n/3⌉ for an id whose UTF-8 form has n bytes; it is well-formed Base64 built from A-Z a-z 0-9 + / with `=` only in the last two places |
| `AzureCognitiveSearchMemoryRecord.TryDecodeId` | dotnet/src/Connectors/Connectors.Memory.AzureCognitiveSearch/AzureCognitiveSearchMemoryRecord.cs:211-215 | the `try` branch succeeds if and only if its argument is well-formed Base64 (the independent definition `Base64.WellFormed`) |
| `AzureCognitiveSearchMemoryRecord.DecodeId` | dotnet/src/Connectors/Connectors.Memory.AzureCognitiveSearch/AzureCognitiveSearchMemoryRecord.cs:209-220 | text that is not well-formed Base64 is returned unchanged; well-formed text becomes the UTF-8 decoding of its bytes |
| `AzureCognitiveSearchMemoryRecord.EncodeIdInjective` | dotnet/src/Connectors/Connectors.Memory.AzureCognitiveSearch/AzureCognitiveSearchMemoryRecord.cs:191-220 | distinct ids are stored under distinct keys |
| `AzureCognitiveSearchMemoryRecord.EncodeIdChangesId` | dotnet/src/Connectors/Connectors.Memory.AzureCognitiveSearch/AzureCognitiveSearchMemoryRecord.cs:191-197 | a non-empty id is never stored as itself (the empty id encodes to the empty key) |
| `AzureCognitiveSearchMemoryRecord.DecodeIdKeepsMisaligned` | dotnet/src/Connectors/Connectors.Memory.AzureCognitiveSearch/AzureCognitiveSearchMemoryRecord.cs:211-219 | text whose length, ignoring whitespace, is not a multiple of four is returned unchanged |
| `AzureCognitiveSearchMemoryRecord.DecodeIdKeepsForeign` | dotnet/src/Connectors/Connectors.Memory.AzureCognitiveSearch/AzureCognitiveSearchMemoryRecord.cs:211-219 | text with a character outside the alphabet, other than `=` and whitespace, is returned unchanged |
| `AzureCognitiveSearchMemoryRecord.DecodeIdSubstitutes` | dotnet/src/Connectors/Connectors.Memory.AzureCognitiveSearch/AzureCognitiveSearchMemoryRecord.cs:213-214 | "/w==" (the lone byte FF) reads back as U+FFFD rather than falling back |
| `AzureCognitiveSearchMemoryRecord.DecodeIdBlank` | dotnet/src/Connectors/Connectors.Memory.AzureCognitiveSearch/AzureCognitiveSearchMemoryRecord.cs:211-215 | every key made only of spaces, tabs, CR and LF (the empty key included) is valid Base64 for no bytes and reads back as the empty id |
| `AzureCognitiveSearchMemoryRecord.DecodeIdMisreadsRaw` | dotnet/src/Connectors/Connectors.Memory.AzureCognitiveSearch/AzureCognitiveSearchMemoryRecord.cs:211-215 | a raw key that happens to be valid Base64 is not kept: "abcd" is the bytes 69 B7 1D and reads back as "i", U+FFFD, U+001D |
| `AzureCognitiveSearchMemoryRecord.EncodeIdNearlyKeySafe` | dotnet/src/Connectors/Connectors.Memory.AzureCognitiveSearch/AzureCognitiveSearchMemoryRecord.cs:185-196 | every key character is a letter, a digit, `_`, `-`, `=`, or one of `+` and `/` |
| `AzureCognitiveSearchMemoryRecord.EncodeIdCanLeaveKeyCharset` | dotnet/src/Connectors/Connectors.Memory.AzureCognitiveSearch/AzureCognitiveSearchMemoryRecord.cs:185-196 | the id "~~~" is stored as "fn5+", whose last character the index key character set excludes |
| `AzureCognitiveSearchMemoryRecord.Empty` | dotnet/src/Connectors/Connectors.Memory.AzureCognitiveSearch/AzureCognitiveSearchMemoryRecord.cs:51-99 | the parameterless constructor: id, text, description, additional metadata and external source name at their initializer "" (the nullable ones non-null), the flag false and the embedding empty |
| `AzureCognitiveSearchMemoryRecord.EmptyReadsBlank` | dotnet/src/Connectors/Connectors.Memory.AzureCognitiveSearch/AzureCognitiveSearchMemoryRecord.cs:51-99 | a document built by the parameterless constructor reads back as metadata whose every string is empty and whose flag is false |
| `AzureCognitiveSearchMemoryRecord.WithId` | dotnet/src/Connectors/Connectors.Memory.AzureCognitiveSearch/AzureCognitiveSearchMemoryRecord.cs:105-108 | the stored id is exactly `EncodeId(id)`, so it is well-formed Base64 that decodes to the given id; every other property keeps the value of the parameterless constructor |
| `AzureCognitiveSearchMemoryRecord.Create` | dotnet/src/Connectors/Connectors.Memory.AzureCognitiveSearch/AzureCognitiveSearchMemoryRecord.cs:120-136 | the stored id is exactly `EncodeId(id)` and decodes to the given id; text, external source name, flag, embedding, description and additional metadata are stored as given, with nulls kept; description and additional metadata default to null, as at lines 126-127 |
| `AzureCognitiveSearchMemoryRecord.ToMemoryRecordMetadata` | dotnet/src/Connectors/Connectors.Memory.AzureCognitiveSearch/AzureCognitiveSearchMemoryRecord.cs:142-151 | the id is decoded; null text, description and additional metadata become ""; the other values are kept; the flag and the external source name are copied |
| `AzureCognitiveSearchMemoryRecord.FromMemoryRecord` | dotnet/src/Connectors/Connectors.Memory.AzureCognitiveSearch/AzureCognitiveSearchMemoryRecord.cs:158-169 | the external source name is always "", whatever the metadata holds; the stored id is exactly `EncodeId` of the memory's id and decodes back to it; the other fields and the embedding are carried over |
| `AzureCognitiveSearchMemoryRecord.ToMemoryRecord` | dotnet/src/Connectors/Connectors.Memory.AzureCognitiveSearch/AzureCognitiveSearchMemoryRecord.cs:176-182 | the key is the still-encoded id and the metadata id is its decoding; the embedding is the stored one when requested, and empty otherwise; `withEmbeddings` defaults to true, as at line 176 |
| `AzureCognitiveSearchMemoryRecord.DefaultArguments` | dotnet/src/Connectors/Connectors.Memory.AzureCognitiveSearch/AzureCognitiveSearchMemoryRecord.cs:120-182 | `ToMemoryRecord()` without an argument includes the embedding; the full constructor without its last two arguments stores null description and null additional metadata |
| `AzureCognitiveSearchMemoryRecord.MetadataOfCreate` | dotnet/src/Connectors/Connectors.Memory.AzureCognitiveSearch/AzureCognitiveSearchMemoryRecord.cs:120-151 | reading back what the full constructor stored gives the original id and fields, with null description and additional metadata read as "" |
| `AzureCognitiveSearchMemoryRecord.WriteThenRead` | dotnet/src/Connectors/Connectors.Memory.AzureCognitiveSearch/AzureCognitiveSearchMemoryRecord.cs:158-182 | writing a memory and reading it back gives its metadata with the external source name cleared, the embedding when requested, and the encoded id as key |
| `AzureCognitiveSearchMemoryRecord.WriteThenReadExact` | dotnet/src/Connectors/Connectors.Memory.AzureCognitiveSearch/AzureCognitiveSearchMemoryRecord.cs:158-182 | a memory with an empty external source name comes back with identical metadata and embedding |
| `AzureCognitiveSearchMemoryRecord.ReadThenWrite` | dotnet/src/Connectors/Connectors.Memory.AzureCognitiveSearch/AzureCognitiveSearchMemoryRecord.cs:142-182 | reading a document whose key came from `EncodeId` and writing it back reproduces it, except that nulls become "" and the external source name is cleared |
| `Utf8.Encode` | dotnet/src/Connectors/Connectors.Memory.AzureCognitiveSearch/AzureCognitiveSearchMemoryRecord.cs:195 | `GetBytes` gives between one and four bytes per character; its partners `Utf8.DecodeEncode` and `Utf8.EncodeDecode` make it the exact inverse of `Utf8.Decode` on well-formed bytes |
| `Utf8.Decode` | dotnet/src/Connectors/Connectors.Memory.AzureCognitiveSearch/AzureCognitiveSearchMemoryRecord.cs:214 | `GetString` never fails and gives at most one character per byte; `Utf8.DecodeEncode` and `Utf8.EncodeDecode` relate it to `Utf8.Encode` |
| `Utf8.DecodeEncode` | dotnet/src/Connectors/Connectors.Memory.AzureCognitiveSearch/AzureCognitiveSearchMemoryRecord.cs:195 | the UTF-8 form of any string is well-formed and decodes back to the string |
| `Utf8.EncodeDecode` | dotnet/src/Connectors/Connectors.Memory.AzureCognitiveSearch/AzureCognitiveSearchMemoryRecord.cs:214 | well-formed bytes are the encoding of what they decode to, so the encodings are exactly the well-formed byte strings |
| `Utf8.DecodeFirst` | dotnet/src/Connectors/Connectors.Memory.AzureCognitiveSearch/AzureCognitiveSearchMemoryRecord.cs:214 | a well-formed start consumes exactly its sequence length; any other start yields U+FFFD and consumes at most three bytes |
| `Base64.Encode` | dotnet/src/Connectors/Connectors.Memory.AzureCognitiveSearch/AzureCognitiveSearchMemoryRecord.cs:196 | the encoding of n bytes has 4·⌈n/3⌉ characters |
| `Base64.EncodeShape` | dotnet/src/Connectors/Connectors.Memory.AzureCognitiveSearch/AzureCognitiveSearchMemoryRecord.cs:196 | the encoding is alphabet digits followed by exactly (3 − n mod 3) mod 3 `=` |
| `Base64.FromSextetsToSextets` | dotnet/src/Connectors/Connectors.Memory.AzureCognitiveSearch/AzureCognitiveSearchMemoryRecord.cs:196 | regrouping 6-bit values into bytes undoes the split of bytes into 6-bit values |
| `Base64.DecodeEncode` | dotnet/src/Connectors/Connectors.Memory.AzureCognitiveSearch/AzureCognitiveSearchMemoryRecord.cs:196-213 | decoding an encoding gives back the bytes |
| `Base64.EncodeWellFormed` | dotnet/src/Connectors/Connectors.Memory.AzureCognitiveSearch/AzureCognitiveSearchMemoryRecord.cs:196 | every encoding is well-formed Base64 |
| `Base64.EncodeInjective` | dotnet/src/Connectors/Connectors.Memory.AzureCognitiveSearch/AzureCognitiveSearchMemoryRecord.cs:196 | distinct byte strings have distinct encodings |
| `Base64.Strip` | dotnet/src/Connectors/Connectors.Memory.AzureCognitiveSearch/AzureCognitiveSearchMemoryRecord.cs:213 | the text the decoder reads has no whitespace and keeps every other character of the input, adding none |
| `Base64.StripChar` | dotnet/src/Connectors/Connectors.Memory.AzureCognitiveSearch/AzureCognitiveSearchMemoryRecord.cs:213 | a single character survives whitespace removal exactly when it is not a space, tab, CR or LF |
| `Base64.StripAppend` | dotnet/src/Connectors/Connectors.Memory.AzureCognitiveSearch/AzureCognitiveSearchMemoryRecord.cs:213 | whitespace removal works character by character and keeps the order of what it keeps: stripping a concatenation is the concatenation of the stripped parts |
| `Base64.Decode` | dotnet/src/Connectors/Connectors.Memory.AzureCognitiveSearch/AzureCognitiveSearchMemoryRecord.cs:213 | on success, decoding 4k characters (ignoring whitespace) that end in p `=` gives 3k − p bytes |
| `Base64.DecodeSucceedsIff` | dotnet/src/Connectors/Connectors.Memory.AzureCognitiveSearch/AzureCognitiveSearchMemoryRecord.cs:213-219 | decoding succeeds if and only if the text is well-formed Base64 |
| `Base64.DecodeRejectsLength` | dotnet/src/Connectors/Connectors.Memory.AzureCognitiveSearch/AzureCognitiveSearchMemoryRecord.cs:213-219 | a length, ignoring whitespace, that is not a multiple of four is rejected |
| `Base64.DecodeRejectsForeign` | dotnet/src/Connectors/Connectors.Memory.AzureCognitiveSearch/AzureCognitiveSearchMemoryRecord.cs:213-219 | a character that is not a digit, `=` or whitespace is rejected |

## Left out

- Null ids. `EncodeId`'s `catch` (lines 198-201) returns a null `realId`
  unchanged. The model's ids are never null, and for them nothing in the `try`
  block throws, so that branch is not modelled.
- Lone UTF-16 surrogates. A Dafny `char` is a Unicode scalar value, so ids
  cannot hold them. `GetBytes` would silently replace them.
- Ids whose Base64 form would exceed .NET's maximum string length. With
  unbounded sequences, `ToBase64String` never throws for these.
- JSON serialisation through `[JsonPropertyName]` and `ReadOnlyMemoryConverter`
  (lines 50-91). This is library machinery. Only the field-name constants are
  kept.
- Embedding contents. They are floating point and never inspected here. The
  element type is the opaque parameter `F`, and the default
  `ReadOnlyMemory<float>` is the empty sequence.
- The public property setters. Callers of the C# class can assign any
  property. The model's record is immutable, and an assignment is a datatype
  update.
- `MemoryRecord`'s timestamp and the rest of `MemoryRecord` and
  `MemoryRecordMetadata`. Their source is not part of this model. Only the
  fields the adapter reads or writes are kept, and the key is a non-null
  string.
- The search pipeline (collection listing, limit, relevance threshold,
  collection-not-found). It lives in `AzureCognitiveSearchMemoryStore`, which is
  not part of this model. The sample program `dotnet/samples/AzureAIStudioIndex/Program.cs`
  only calls it, and otherwise reads environment variables, calls network
  services and writes to the console.
