/** The Azure Cognitive Search document shape of a memory record and its
    conversions to and from Semantic Kernel's `MemoryRecord`.

    The document key is the record id, encoded as UTF-8 and then as standard
    Base64.  Decoding falls back to the stored text unchanged only when that
    text is not valid Base64: a key that was never encoded but happens to be
    valid Base64 (such as "abcd") is decoded into different text. */
module AzureCognitiveSearchMemoryRecord {
  import opened Wrappers
  import opened Memory
  import Utf8
  import Base64

  // ---------------------------------------------------------------------------
  // Index schema: the fixed field names of the search index

  const IdField: string := "id"
  const TextField: string := "content"
  const EmbeddingField: string := "contentVector"
  const ExternalSourceNameField: string := "url"
  const DescriptionField: string := "filepath"
  const AdditionalMetadataField: string := "AdditionalMetadata"
  const IsReferenceField: string := "IsReference"

  /** The document's fields, in declaration order. */
  datatype Field = Id | Text | Embedding | ExternalSourceName | Description | AdditionalMetadata | IsReference

  /** The index field each document field is stored under. */
  function FieldName(f: Field): (name: string)
  {
    match f
    case Id => IdField
    case Text => TextField
    case Embedding => EmbeddingField
    case ExternalSourceName => ExternalSourceNameField
    case Description => DescriptionField
    case AdditionalMetadata => AdditionalMetadataField
    case IsReference => IsReferenceField
  }

  /** No two fields share an index field name, so a document's JSON object
      has one member per field. */
  lemma FieldNamesDistinct(f: Field, g: Field)
    requires f != g
    ensures FieldName(f) != FieldName(g)
  {
  }

  // ---------------------------------------------------------------------------
  // The document

  /** An index document.  `text`, `description` and `additionalMetadata` are
      nullable in the source (`None` models null); the id holds the encoded key. */
  datatype Record<F> = Record(
    id: string,
    text: Option<string>,
    embedding: seq<F>,
    description: Option<string>,
    additionalMetadata: Option<string>,
    externalSourceName: string,
    isReference: bool)

  /** The parameterless constructor: every property at its initializer, the
      embedding at its default (empty). */
  function Empty<F>(): (r: Record<F>)
    ensures r.id == "" && r.externalSourceName == "" && !r.isReference
    ensures r.text == Some("") && r.description == Some("") && r.additionalMetadata == Some("")
    ensures r.embedding == []
  {
    Record("", Some(""), [], Some(""), Some(""), "", false)
  }

  // ---------------------------------------------------------------------------
  // Id encoding

  /** `EncodeId`: the UTF-8 bytes of the id rendered as standard Base64.  Every
      key it produces decodes back to the id, and is a well-formed Base64 text
      of A-Z, a-z, 0-9, '+' and '/' with at most two trailing '='. */
  function EncodeId(realId: string): (r: string)
    ensures DecodeId(r) == realId
    ensures |r| == 4 * ((|Utf8.Encode(realId)| + 2) / 3)
    ensures Base64.WellFormed(r)
    ensures forall i | 0 <= i < |r| :: Base64.IsDigit(r[i]) || (r[i] == Base64.Pad && |r| - 2 <= i)
  {
    var bytes := Utf8.Encode(realId);
    KeyDecodes(realId);
    Base64.EncodeWellFormed(bytes);
    KeyShape(bytes);
    Base64.Encode(bytes)
  }

  /** The round trip behind `EncodeId`: both codecs undo themselves. */
  lemma KeyDecodes(realId: string)
    ensures DecodeId(Base64.Encode(Utf8.Encode(realId))) == realId
  {
    var bytes := Utf8.Encode(realId);
    Utf8.DecodeEncode(realId);
    Base64.DecodeEncode(bytes);
    Base64.EncodeWellFormed(bytes);
  }

  /** Every character of an encoding is a digit, or '=' in one of the last two places. */
  lemma KeyShape(bytes: seq<Utf8.byte>)
    ensures var r := Base64.Encode(bytes);
      forall i | 0 <= i < |r| :: Base64.IsDigit(r[i]) || (r[i] == Base64.Pad && |r| - 2 <= i)
  {
    var r := Base64.Encode(bytes);
    var p := Base64.PadCount(|bytes|);
    Base64.EncodeShape(bytes);
    forall i | 0 <= i < |r|
      ensures Base64.IsDigit(r[i]) || (r[i] == Base64.Pad && |r| - 2 <= i)
    {
      if i < |r| - p {
        assert r[..|r| - p][i] == r[i];
      }
    }
  }

  /** The `try` branch of `DecodeId`: `None` exactly where
      `Convert.FromBase64String` throws.  Bytes that are not well-formed UTF-8
      do not throw; `Encoding.UTF8.GetString` substitutes U+FFFD for them. */
  function TryDecodeId(encodedId: string): (r: Option<string>)
    ensures r.Some? <==> Base64.WellFormed(encodedId)
  {
    Base64.DecodeSucceedsIff(encodedId);
    match Base64.Decode(encodedId)
    case None => None
    case Some(bytes) => Some(Utf8.Decode(bytes))
  }

  /** `DecodeId`: the decoded id, or the argument itself when it is not Base64. */
  function DecodeId(encodedId: string): (r: string)
    ensures !Base64.WellFormed(encodedId) ==> r == encodedId
    ensures Base64.WellFormed(encodedId) ==> r == Utf8.Decode(Base64.Decode(encodedId).value)
  {
    TryDecodeId(encodedId).GetOr(encodedId)
  }

  /** Distinct ids are stored under distinct keys. */
  lemma EncodeIdInjective(a: string, b: string)
    requires a != b
    ensures EncodeId(a) != EncodeId(b)
  {
  }

  /** A non-empty id is never stored as itself. */
  lemma EncodeIdChangesId(realId: string)
    requires realId != ""
    ensures EncodeId(realId) != realId
  {
    var n := |Utf8.Encode(realId)|;
    assert 4 * ((n + 2) / 3) > n;
  }

  /** Text whose length, ignoring whitespace, is not a multiple of four comes back unchanged. */
  lemma DecodeIdKeepsMisaligned(encodedId: string)
    requires |Base64.Strip(encodedId)| % 4 != 0
    ensures DecodeId(encodedId) == encodedId
  {
  }

  /** Text holding a character outside the Base64 alphabet (other than '='
      and whitespace) comes back unchanged. */
  lemma DecodeIdKeepsForeign(encodedId: string, i: nat)
    requires i < |encodedId|
    requires !Base64.IsDigit(encodedId[i]) && encodedId[i] != Base64.Pad && !Base64.IsWhitespace(encodedId[i])
    ensures DecodeId(encodedId) == encodedId
  {
    Base64.DecodeRejectsForeign(encodedId, i);
    Base64.DecodeSucceedsIff(encodedId);
  }

  /** Valid Base64 whose bytes are not UTF-8 is not a fallback case: "/w=="
      is the single byte FF, which reads back as U+FFFD. */
  lemma DecodeIdSubstitutes()
    ensures DecodeId("/w==") == [Utf8.Replacement]
  {
    DecodeSlashW();
    assert Utf8.Decode([0xFF]) == [Utf8.Replacement];
  }

  lemma DecodeSlashW()
    ensures Base64.Decode("/w==") == Some([0xFF])
  {
    assert Base64.ToSextets([0xFF]) == [63, 48];
    assert Base64.Digits([63, 48]) == "/w";
    assert Base64.Encode([0xFF]) == "/w==";
    Base64.DecodeEncode([0xFF]);
  }

  /** `Convert.FromBase64String` ignores whitespace, so a key made only of
      blanks is valid Base64 for no bytes and reads back as the empty id. */
  lemma DecodeIdBlank(encodedId: string)
    requires forall i | 0 <= i < |encodedId| :: Base64.IsWhitespace(encodedId[i])
    ensures DecodeId(encodedId) == ""
  {
    assert Base64.Strip(encodedId) == "";
    assert Base64.Decode(encodedId) == Some([]);
  }

  /** A raw key that was never encoded but is valid Base64 does not read back
      as itself: "abcd" is the bytes 69 B7 1D, and the stray continuation
      byte B7 becomes U+FFFD. */
  lemma DecodeIdMisreadsRaw()
    ensures DecodeId("abcd") == "i\U{FFFD}\U{1D}"
  {
    DecodeAbcd();
    var b: seq<Utf8.byte> := [0x69, 0xB7, 0x1D];
    assert Utf8.DecodeFirst(b) == ('i', 1);
    assert Utf8.DecodeFirst(b[1..]) == (Utf8.Replacement, 1);
    assert Utf8.Decode(b[2..]) == "\U{1D}";
    assert Utf8.Decode(b) == "i\U{FFFD}\U{1D}";
  }

  lemma DecodeAbcd()
    ensures Base64.Decode("abcd") == Some([0x69, 0xB7, 0x1D])
  {
    assert Base64.ToSextets([0x69, 0xB7, 0x1D]) == [26, 27, 28, 29];
    assert Base64.Digits([26, 27, 28, 29]) == "abcd";
    assert Base64.Encode([0x69, 0xB7, 0x1D]) == "abcd";
    Base64.DecodeEncode([0x69, 0xB7, 0x1D]);
  }

  // ---------------------------------------------------------------------------
  // The index key character set

  /** Characters a search-index document key may hold: letters, digits,
      underscore, dash and equal sign. */
  predicate IsKeyChar(c: char)
  {
    'A' <= c <= 'Z' || 'a' <= c <= 'z' || '0' <= c <= '9' || c == '_' || c == '-' || c == '='
  }

  /** Every character of an encoded id is a key character, '+' or '/'. */
  lemma EncodeIdNearlyKeySafe(realId: string)
    ensures forall i | 0 <= i < |EncodeId(realId)| :: IsKeyChar(EncodeId(realId)[i]) || EncodeId(realId)[i] in "+/"
  {
  }

  /** The standard alphabet can put a character outside the key character
      set into a key: the id "~~~" (bytes 7E 7E 7E) is stored as "fn5+". */
  lemma EncodeIdCanLeaveKeyCharset()
    ensures EncodeId("~~~") == "fn5+"
    ensures !IsKeyChar(EncodeId("~~~")[3])
  {
    var bytes := Utf8.Encode("~~~");
    assert bytes == [0x7E, 0x7E, 0x7E];
    assert Base64.ToSextets(bytes) == [31, 39, 57, 62];
    assert Base64.Digits([31, 39, 57, 62]) == "fn5+";
  }

  // ---------------------------------------------------------------------------
  // Constructors

  /** The constructor taking only an id: the id is stored encoded and every
      other property keeps its initializer. */
  function WithId<F>(id: string): (r: Record<F>)
    ensures DecodeId(r.id) == id
    ensures Base64.WellFormed(r.id)
    ensures r.(id := "") == Empty()
    ensures r.id == EncodeId(id)
  {
    Empty().(id := EncodeId(id))
  }

  /** The constructor taking every property: the id is stored encoded, every
      other argument is stored as given (a null description or additional
      metadata stays null). */
  function Create<F>(
    id: string, text: string, externalSourceName: string, isReference: bool,
    embedding: seq<F>, description: Option<string> := None, additionalMetadata: Option<string> := None): (r: Record<F>)
    ensures DecodeId(r.id) == id
    ensures Base64.WellFormed(r.id)
    ensures r.text == Some(text) && r.externalSourceName == externalSourceName
    ensures r.isReference == isReference && r.embedding == embedding
    ensures r.description == description && r.additionalMetadata == additionalMetadata
    ensures r.id == EncodeId(id)
  {
    Record(EncodeId(id), Some(text), embedding, description, additionalMetadata, externalSourceName, isReference)
  }

  // ---------------------------------------------------------------------------
  // Conversions

  /** `ToMemoryRecordMetadata`: the decoded id; null text, description and
      additional metadata read as ""; the flag and the external source as stored. */
  function ToMemoryRecordMetadata<F>(r: Record<F>): (m: MemoryRecordMetadata)
    ensures m.id == DecodeId(r.id)
    ensures m.isReference == r.isReference && m.externalSourceName == r.externalSourceName
    ensures r.text.Some? ==> m.text == r.text.value
    ensures r.text.None? ==> m.text == ""
    ensures r.description.Some? ==> m.description == r.description.value
    ensures r.description.None? ==> m.description == ""
    ensures r.additionalMetadata.Some? ==> m.additionalMetadata == r.additionalMetadata.value
    ensures r.additionalMetadata.None? ==> m.additionalMetadata == ""
  {
    MemoryRecordMetadata(
      isReference := r.isReference,
      externalSourceName := r.externalSourceName,
      id := DecodeId(r.id),
      description := r.description.GetOr(""),
      text := r.text.GetOr(""),
      additionalMetadata := r.additionalMetadata.GetOr(""))
  }

  /** `FromMemoryRecord`: the write path.  The external source name is always
      left empty, whatever the metadata holds; everything else is carried over,
      the id encoded. */
  function FromMemoryRecord<F>(record: MemoryRecord<F>): (r: Record<F>)
    ensures r.externalSourceName == ""
    ensures DecodeId(r.id) == record.metadata.id
    ensures r.text == Some(record.metadata.text) && r.isReference == record.metadata.isReference
    ensures r.description == Some(record.metadata.description)
    ensures r.additionalMetadata == Some(record.metadata.additionalMetadata)
    ensures r.embedding == record.embedding
    ensures r.id == EncodeId(record.metadata.id)
  {
    Create(
      id := record.metadata.id,
      text := record.metadata.text,
      externalSourceName := "",
      isReference := record.metadata.isReference,
      description := Some(record.metadata.description),
      additionalMetadata := Some(record.metadata.additionalMetadata),
      embedding := record.embedding)
  }

  /** `ToMemoryRecord`: the read path.  The key is the stored (still encoded)
      id; the embedding is carried over only when asked for, otherwise it is
      the default, empty. */
  function ToMemoryRecord<F>(r: Record<F>, withEmbeddings: bool := true): (m: MemoryRecord<F>)
    ensures m.key == r.id
    ensures m.metadata.id == DecodeId(m.key)
    ensures m.metadata == ToMemoryRecordMetadata(r)
    ensures withEmbeddings ==> m.embedding == r.embedding
    ensures !withEmbeddings ==> m.embedding == []
  {
    MemoryRecord(ToMemoryRecordMetadata(r), if withEmbeddings then r.embedding else [], r.id)
  }

  /** The source's default arguments: `ToMemoryRecord()` includes the
      embedding, and the full constructor called without the last two
      arguments stores a null description and null additional metadata. */
  lemma DefaultArguments<F>(r: Record<F>, id: string, text: string, externalSourceName: string, isReference: bool, embedding: seq<F>)
    ensures ToMemoryRecord(r).embedding == r.embedding
    ensures Create(id, text, externalSourceName, isReference, embedding).description == None
    ensures Create(id, text, externalSourceName, isReference, embedding).additionalMetadata == None
  {
  }

  // ---------------------------------------------------------------------------
  // Round trips through the index

  /** Reading back what the full constructor stored gives the original id and
      fields, with null description and additional metadata read as "". */
  lemma MetadataOfCreate<F>(
    id: string, text: string, externalSourceName: string, isReference: bool,
    embedding: seq<F>, description: Option<string>, additionalMetadata: Option<string>)
    ensures ToMemoryRecordMetadata(Create(id, text, externalSourceName, isReference, embedding, description, additionalMetadata))
         == MemoryRecordMetadata(isReference, externalSourceName, id, description.GetOr(""), text, additionalMetadata.GetOr(""))
  {
  }

  /** A document built by the parameterless constructor reads back as a
      memory whose every string is empty and which is not a reference. */
  lemma EmptyReadsBlank<F>()
    ensures ToMemoryRecordMetadata(Empty<F>()) == MemoryRecordMetadata(false, "", "", "", "", "")
  {
    assert Base64.Strip("") == "";
  }

  /** Writing a memory and reading it back: the metadata returns with its
      external source name cleared, the embedding returns when asked for, and
      the key is the encoded id. */
  lemma WriteThenRead<F>(record: MemoryRecord<F>, withEmbeddings: bool)
    ensures ToMemoryRecord(FromMemoryRecord(record), withEmbeddings)
         == MemoryRecord(
              record.metadata.(externalSourceName := ""),
              if withEmbeddings then record.embedding else [],
              EncodeId(record.metadata.id))
  {
  }

  /** A memory with no external source name survives the round trip with its
      metadata and embedding exactly as written. */
  lemma WriteThenReadExact<F>(record: MemoryRecord<F>)
    requires record.metadata.externalSourceName == ""
    ensures ToMemoryRecord(FromMemoryRecord(record), true).metadata == record.metadata
    ensures ToMemoryRecord(FromMemoryRecord(record), true).embedding == record.embedding
  {
    WriteThenRead(record, true);
  }

  /** Reading any document whose key came from `EncodeId` and writing it back
      reproduces it, up to the null-to-"" normalisation and the cleared
      external source name. */
  lemma ReadThenWrite<F>(doc: Record<F>, realId: string)
    ensures var r := doc.(id := EncodeId(realId));
      FromMemoryRecord(ToMemoryRecord(r, true))
         == r.(text := Some(r.text.GetOr("")),
               description := Some(r.description.GetOr("")),
               additionalMetadata := Some(r.additionalMetadata.GetOr("")),
               externalSourceName := "")
  {
  }
}
