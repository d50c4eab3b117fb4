/**
  * The chunked credential store: a manifest entry is the commit point, chunks belong to generations,
  * and superseded generations are listed as obsolete until their chunks are gone.
  *
  * `Credentials` holds the formats and what loading means; `CredentialStore` holds the operations.
  */
module Credentials {
  import opened Wrappers
  import opened Bytes
  import opened Maps

  const CREDENTIAL_VERSION: U32 := 1
  const STORAGE_VERSION: U32 := 1
  const CHUNK_SIZE: nat := 2048
  const MAX_CHUNKS: nat := 4096
  const MAX_OBSOLETE: nat := 16
  const GENERATION_LENGTH: nat := 32

  datatype Credential =
    | Password(username: string, password: string)
    | Oidc(refreshToken: string, userId: string, username: string)

  datatype Envelope = Envelope(version: U32, credential: Credential)

  datatype ChunkSet = ChunkSet(generation: string, chunks: U32)

  datatype CurrentSet = CurrentSet(generation: string, chunks: U32, length: nat, digest: seq<Byte>)
  {
    function AsChunkSet(): ChunkSet {
      ChunkSet(generation, chunks)
    }
  }

  datatype Manifest = Manifest(version: U32, current: CurrentSet, obsolete: seq<ChunkSet>)

  datatype Error = StoreFailed | InvalidFormat | TooManyStale | TooLarge | MetadataTooLarge | NoRandomness | NotDeleted

  /** The serialisers and the digest, which come from libraries. */
  datatype Codec = Codec(
    encodeManifest: Manifest -> seq<Byte>,
    decodeManifest: seq<Byte> -> Option<Manifest>,
    encodeEnvelope: Envelope -> seq<Byte>,
    decodeEnvelope: seq<Byte> -> Option<Envelope>,
    digest: seq<Byte> -> seq<Byte>)
  {
    ghost predicate RoundTrips() {
      && (forall m :: decodeManifest(encodeManifest(m)) == Some(m))
      && (forall e :: decodeEnvelope(encodeEnvelope(e)) == Some(e))
    }
  }

  // ----- manifests

  predicate ValidGeneration(g: string) {
    |g| == GENERATION_LENGTH && forall c <- g :: '0' <= c <= '9' || 'a' <= c <= 'f'
  }

  predicate ValidSet(generation: string, chunks: U32) {
    ValidGeneration(generation) && 0 < chunks <= MAX_CHUNKS
  }

  function ChunkCount(length: nat): nat {
    (length + CHUNK_SIZE - 1) / CHUNK_SIZE
  }

  predicate DistinctGenerations(m: Manifest) {
    && (forall i | 0 <= i < |m.obsolete| :: m.obsolete[i].generation != m.current.generation)
    && (forall i, j | 0 <= i < j < |m.obsolete| :: m.obsolete[i].generation != m.obsolete[j].generation)
  }

  /** What the manifest check accepts. */
  predicate ValidManifest(m: Manifest) {
    && m.version == STORAGE_VERSION
    && ValidSet(m.current.generation, m.current.chunks)
    && m.current.length > 0
    && ChunkCount(m.current.length) == m.current.chunks
    && |m.obsolete| <= MAX_OBSOLETE
    && (forall s <- m.obsolete :: ValidSet(s.generation, s.chunks))
    && DistinctGenerations(m)
  }

  function DecodeManifest(codec: Codec, bytes: seq<Byte>): (r: Result<Manifest, Error>)
    ensures r.Ok? ==> ValidManifest(r.value)
  {
    match codec.decodeManifest(bytes)
    case None => Err(InvalidFormat)
    case Some(m) => if ValidManifest(m) then Ok(m) else Err(InvalidFormat)
  }

  function EncodeManifest(codec: Codec, m: Manifest): Result<seq<Byte>, Error> {
    var bytes := codec.encodeManifest(m);
    if |bytes| > CHUNK_SIZE then Err(MetadataTooLarge) else Ok(bytes)
  }

  // ----- entries of one account

  /** An account has one manifest entry and chunk entries named by generation and index. */
  datatype Slot = ManifestSlot | ChunkSlot(generation: string, index: nat)

  type Entries = map<Slot, seq<Byte>>

  /** The joined chunks 0..count of a generation, if all are there and none is too large. */
  function Gathered(entries: Entries, generation: string, count: nat): Option<seq<Byte>> {
    if count == 0 then Some([]) else
      var slot := ChunkSlot(generation, count - 1);
      match Gathered(entries, generation, count - 1)
      case None => None
      case Some(front) =>
        if slot in entries && |entries[slot]| <= CHUNK_SIZE then Some(front + entries[slot]) else None
  }

  /** What loading answers when every read succeeds. */
  function Loaded(codec: Codec, entries: Entries): Result<Option<Credential>, Error> {
    if ManifestSlot !in entries then Ok(None) else
      match DecodeManifest(codec, entries[ManifestSlot])
      case Err(e) => Err(e)
      case Ok(m) => LoadedCurrent(codec, entries, m.current)
  }

  function LoadedCurrent(codec: Codec, entries: Entries, current: CurrentSet): Result<Option<Credential>, Error> {
    match Gathered(entries, current.generation, current.chunks)
    case None => Err(InvalidFormat)
    case Some(bytes) =>
      if |bytes| != current.length || codec.digest(bytes) != current.digest then Err(InvalidFormat) else
        match codec.decodeEnvelope(bytes)
        case None => Err(InvalidFormat)
        case Some(envelope) =>
          if envelope.version != CREDENTIAL_VERSION then Err(InvalidFormat) else Ok(Some(envelope.credential))
  }

  /** The first `count` chunks of the generation, each present and no larger than 2048 bytes, laid end to end. */
  ghost predicate JoinsTo(entries: Entries, generation: string, count: nat, bytes: seq<Byte>) {
    exists ends: seq<nat> ::
      && |ends| == count + 1 && ends[0] == 0 && ends[count] == |bytes|
      && (forall i: nat | i < count :: ChunkAt(entries, generation, i, bytes, ends[i], ends[i + 1]))
  }

  predicate ChunkAt(entries: Entries, generation: string, i: nat, bytes: seq<Byte>, from: nat, to: nat) {
    && from <= to <= |bytes| && to - from <= 2048
    && ChunkSlot(generation, i) in entries && entries[ChunkSlot(generation, i)] == bytes[from..to]
  }

  lemma {:induction false} GatheredJoins(entries: Entries, generation: string, count: nat)
    requires Gathered(entries, generation, count).Some?
    ensures JoinsTo(entries, generation, count, Gathered(entries, generation, count).value)
  {
    var bytes := Gathered(entries, generation, count).value;
    if count == 0 {
      assert [0][0] == 0 && |[0]| == 1;
    } else {
      var front := Gathered(entries, generation, count - 1).value;
      GatheredJoins(entries, generation, count - 1);
      var ends: seq<nat> :| |ends| == count && ends[0] == 0 && ends[count - 1] == |front| &&
        (forall i: nat | i < count - 1 :: ChunkAt(entries, generation, i, front, ends[i], ends[i + 1]));
      var all := ends + [|bytes|];
      forall i: nat | i < count ensures ChunkAt(entries, generation, i, bytes, all[i], all[i + 1]) {
        if i < count - 1 {
          assert ChunkAt(entries, generation, i, front, ends[i], ends[i + 1]);
          assert bytes[ends[i]..ends[i + 1]] == front[ends[i]..ends[i + 1]];
        } else {
          assert bytes[|front|..] == entries[ChunkSlot(generation, i)];
          assert bytes[|front|..|bytes|] == bytes[|front|..];
        }
      }
    }
  }

  /** What the stored bytes of a credential satisfy. */
  ghost predicate Backs(codec: Codec, entries: Entries, m: Manifest, bytes: seq<Byte>, credential: Credential) {
    && JoinsTo(entries, m.current.generation, m.current.chunks, bytes)
    && |bytes| == m.current.length && codec.digest(bytes) == m.current.digest
    && codec.decodeEnvelope(bytes) == Some(Envelope(1, credential))
  }

  /**
    * Loading gives nothing exactly when there is no manifest entry, and a credential only if a sound manifest names
    * chunks whose bytes have its length and digest and hold that credential.
    */
  lemma LoadedMeans(codec: Codec, entries: Entries)
    ensures Loaded(codec, entries) == Ok(None) <==> ManifestSlot !in entries
    ensures Loaded(codec, entries).Ok? && Loaded(codec, entries).value.Some? ==>
              exists m, bytes :: HasManifest(codec, entries, m)
                                 && Backs(codec, entries, m, bytes, Loaded(codec, entries).value.value)
  {
    if Loaded(codec, entries).Ok? && Loaded(codec, entries).value.Some? {
      var m := DecodeManifest(codec, entries[ManifestSlot]).value;
      GatheredJoins(entries, m.current.generation, m.current.chunks);
      var bytes := Gathered(entries, m.current.generation, m.current.chunks).value;
      assert HasManifest(codec, entries, m) && Backs(codec, entries, m, bytes, Loaded(codec, entries).value.value);
    }
  }

  /** A lower-case hexadecimal digit. */
  predicate HexDigit(c: char) {
    c in {'0', '1', '2', '3', '4', '5', '6', '7', '8', '9', 'a', 'b', 'c', 'd', 'e', 'f'}
  }

  predicate SoundSet(generation: string, chunks: nat) {
    |generation| == 32 && (forall i | 0 <= i < 32 :: HexDigit(generation[i])) && 1 <= chunks <= 4096
  }

  lemma SetIsSound(generation: string, chunks: U32)
    ensures ValidSet(generation, chunks) <==> SoundSet(generation, chunks)
  {
    assert forall i | 0 <= i < |generation| :: generation[i] in generation;
  }

  /** The manifests that pass, in numbers: at most sixteen obsolete sets, and no generation named twice. */
  lemma SoundManifests(m: Manifest)
    ensures ValidManifest(m) <==>
            && m.version == 1 && SoundSet(m.current.generation, m.current.chunks)
            && 2048 * (m.current.chunks as int - 1) < m.current.length <= 2048 * m.current.chunks as int
            && |m.obsolete| <= 16
            && (forall i | 0 <= i < |m.obsolete| :: SoundSet(m.obsolete[i].generation, m.obsolete[i].chunks))
            && (forall i | 0 <= i < |m.obsolete| :: m.obsolete[i].generation != m.current.generation)
            && (forall i, j | 0 <= i < j < |m.obsolete| :: m.obsolete[i].generation != m.obsolete[j].generation)
  {
    SetIsSound(m.current.generation, m.current.chunks);
    forall s | s in m.obsolete ensures ValidSet(s.generation, s.chunks) <==> SoundSet(s.generation, s.chunks) {
      SetIsSound(s.generation, s.chunks);
    }
    assert forall i | 0 <= i < |m.obsolete| :: m.obsolete[i] in m.obsolete;
  }

  // ----- frames

  /** `a` and `b` differ at most in chunks of the given generations. */
  ghost predicate OnlyChunksOf(generations: set<string>, a: Entries, b: Entries) {
    && SameAt(a, b, ManifestSlot)
    && (forall g, i | g !in generations :: SameAt(a, b, ChunkSlot(g, i)))
  }

  ghost predicate HasManifest(codec: Codec, entries: Entries, m: Manifest) {
    ManifestSlot in entries && DecodeManifest(codec, entries[ManifestSlot]) == Ok(m)
  }

  ghost predicate Spares(codec: Codec, entries: Entries, generations: set<string>) {
    forall m | HasManifest(codec, entries, m) :: m.current.generation !in generations
  }

  lemma {:induction false} GatheredSame(a: Entries, b: Entries, generation: string, count: nat)
    requires forall i: nat | i < count :: SameAt(a, b, ChunkSlot(generation, i))
    ensures Gathered(a, generation, count) == Gathered(b, generation, count)
  {
    if count > 0 {
      GatheredSame(a, b, generation, count - 1);
      assert SameAt(a, b, ChunkSlot(generation, count - 1));
    }
  }

  /** Loading does not depend on chunks of generations other than the manifest's current one. */
  lemma LoadedSame(codec: Codec, a: Entries, b: Entries, generations: set<string>)
    requires OnlyChunksOf(generations, a, b) && Spares(codec, a, generations)
    ensures Loaded(codec, a) == Loaded(codec, b)
  {
    if ManifestSlot in a && DecodeManifest(codec, a[ManifestSlot]).Ok? {
      var m := DecodeManifest(codec, a[ManifestSlot]).value;
      assert HasManifest(codec, a, m);
      GatheredSame(a, b, m.current.generation, m.current.chunks);
    }
  }

  // ----- accounting for chunks

  predicate NamedBy(m: Manifest, generation: string, index: nat) {
    || (generation == m.current.generation && index < m.current.chunks)
    || Lists(m.obsolete, generation, index)
  }

  predicate Lists(sets: seq<ChunkSet>, generation: string, index: nat) {
    exists s <- sets :: s.generation == generation && index < s.chunks
  }

  /** Every stored chunk is named by a readable manifest, so that some later cleanup can find it. */
  ghost predicate Tidy(codec: Codec, entries: Entries) {
    && (ManifestSlot in entries ==> DecodeManifest(codec, entries[ManifestSlot]).Ok?)
    && (forall g, i | ChunkSlot(g, i) in entries ::
          ManifestSlot in entries && NamedBy(DecodeManifest(codec, entries[ManifestSlot]).value, g, i))
  }

  // ----- chunking

  function Piece(bytes: seq<Byte>, i: nat): (r: seq<Byte>)
    requires i < ChunkCount(|bytes|)
    ensures |r| <= CHUNK_SIZE
  {
    bytes[i * CHUNK_SIZE..Cut(|bytes|, i + 1)]
  }

  /** Where the first `i` pieces of `length` bytes end. */
  function Cut(length: nat, i: nat): nat {
    if i * CHUNK_SIZE <= length then i * CHUNK_SIZE else length
  }

  /** Chunks that hold the pieces of `bytes` join to `bytes`. */
  lemma {:induction false} GatheredPieces(entries: Entries, generation: string, bytes: seq<Byte>, count: nat)
    requires count <= ChunkCount(|bytes|)
    requires forall i: nat | i < count ::
               ChunkSlot(generation, i) in entries && entries[ChunkSlot(generation, i)] == Piece(bytes, i)
    ensures Gathered(entries, generation, count) == Some(bytes[..Cut(|bytes|, count)])
  {
    if count > 0 {
      GatheredPieces(entries, generation, bytes, count - 1);
      var slot := ChunkSlot(generation, count - 1);
      assert slot in entries && entries[slot] == Piece(bytes, count - 1);
      assert bytes[..Cut(|bytes|, count - 1)] + Piece(bytes, count - 1) == bytes[..Cut(|bytes|, count)];
    }
  }

  /** A manifest over stored pieces of an envelope loads its credential. */
  lemma StoredCredentialLoads(codec: Codec, entries: Entries, m: Manifest, credential: Credential)
    requires codec.RoundTrips() && HasManifest(codec, entries, m)
    requires var bytes := codec.encodeEnvelope(Envelope(CREDENTIAL_VERSION, credential));
             && m.current.length == |bytes|
             && m.current.digest == codec.digest(bytes)
             && (forall i: nat | i < m.current.chunks ::
                   i < ChunkCount(|bytes|) && ChunkSlot(m.current.generation, i) in entries
                   && entries[ChunkSlot(m.current.generation, i)] == Piece(bytes, i))
    ensures Loaded(codec, entries) == Ok(Some(credential))
  {
    var bytes := codec.encodeEnvelope(Envelope(CREDENTIAL_VERSION, credential));
    GatheredPieces(entries, m.current.generation, bytes, m.current.chunks);
    assert Cut(|bytes|, m.current.chunks) == |bytes|;
    assert bytes[..|bytes|] == bytes;
  }
}
