/**
 * Capsule header checks, the FMP payload version search and the drop-box file
 * name filter (NucCapsuleParse.c).
 */
module CapsuleParse {
  import opened Bytes

  const CAPSULE_MIN_HEADER := 28
  const PERSIST_ACROSS_RESET := 0x1_0000
  const PAYLOAD_SIGNATURE := 0x3153_534D
  const PAYLOAD_MIN_HEADER := 16
  const PAYLOAD_MAX_HEADER := 4096
  const PAYLOAD_SEARCH_LIMIT := 0x1_0000

  datatype Guid = Guid(data1: U32, data2: U16, data3: U16, data4: seq<Byte>)

  const FMP_CAPSULE_GUID :=
    Guid(0x6dcb_d5ed, 0xe82d, 0x4c44, [0xbd, 0xa1, 0x71, 0x94, 0x19, 0x9a, 0xd9, 0x2a])

  datatype HeaderCheck =
    | Accepted(imageSize: U32, flags: U32)
    | BadBufferSize
    | Unsupported

  method IsFmpCapsule(guid: Guid) returns (r: bool)
    requires |guid.data4| == 8
    ensures r <==> guid == FMP_CAPSULE_GUID
  {
    if guid.data1 != FMP_CAPSULE_GUID.data1 ||
       guid.data2 != FMP_CAPSULE_GUID.data2 ||
       guid.data3 != FMP_CAPSULE_GUID.data3
    {
      return false;
    }
    for index := 0 to 8
      invariant forall i :: 0 <= i < index ==> guid.data4[i] == FMP_CAPSULE_GUID.data4[i]
    {
      if guid.data4[index] != FMP_CAPSULE_GUID.data4[index] {
        return false;
      }
    }
    assert guid.data4 == FMP_CAPSULE_GUID.data4;
    return true;
  }

  /** A 28-byte capsule header in memory order (section 23.3 of UEFI 2.10). */
  function EncodeHeader(guid: Guid, headerSize: U32, flags: U32, imageSize: U32): (s: seq<Byte>)
    requires |guid.data4| == 8
    ensures |s| == CAPSULE_MIN_HEADER
  {
    PutLe32(guid.data1) +
    [guid.data2 % 0x100, guid.data2 / 0x100, guid.data3 % 0x100, guid.data3 / 0x100] +
    guid.data4 +
    PutLe32(headerSize) + PutLe32(flags) + PutLe32(imageSize)
  }

  predicate Persists(flags: U32) {
    flags / PERSIST_ACROSS_RESET % 2 == 1
  }

  /** What the header check must answer for a buffer of len bytes carrying these fields. */
  function HeaderVerdict(len: nat, guid: Guid, headerSize: U32, flags: U32, imageSize: U32): HeaderCheck {
    if guid != FMP_CAPSULE_GUID || Persists(flags) then Unsupported
    else if CAPSULE_MIN_HEADER <= headerSize <= imageSize <= len then Accepted(imageSize, flags)
    else BadBufferSize
  }

  /** The header fields read out of a buffer that is long enough to hold them. */
  function GuidOf(s: seq<Byte>): (g: Guid)
    requires |s| >= CAPSULE_MIN_HEADER
    ensures |g.data4| == 8
  {
    Guid(Le32(s, 0), Le16(s[4], s[5]), Le16(s[6], s[7]), s[8..16])
  }

  function HeaderOf(s: seq<Byte>): HeaderCheck {
    if |s| < CAPSULE_MIN_HEADER then BadBufferSize
    else HeaderVerdict(|s|, GuidOf(s), Le32(s, 16), Le32(s, 20), Le32(s, 24))
  }

  method ValidateHeader(buf: seq<Byte>) returns (r: HeaderCheck)
    ensures r == HeaderOf(buf)
    ensures r.Accepted? ==> CAPSULE_MIN_HEADER <= Le32(buf, 16) <= r.imageSize <= |buf|
  {
    if |buf| < CAPSULE_MIN_HEADER {
      return BadBufferSize;
    }
    var data4: seq<Byte> := [];
    for index := 0 to 8
      invariant data4 == buf[8..8 + index]
    {
      data4 := data4 + [buf[8 + index]];
    }
    var guid := Guid(Le32(buf, 0), Le16(buf[4], buf[5]), Le16(buf[6], buf[7]), data4);
    var isFmp := IsFmpCapsule(guid);
    if !isFmp {
      return Unsupported;
    }
    var headerSize := Le32(buf, 16);
    var flags := Le32(buf, 20);
    var imageSize := Le32(buf, 24);
    if flags / PERSIST_ACROSS_RESET % 2 == 1 {
      return Unsupported;
    }
    if headerSize < CAPSULE_MIN_HEADER || headerSize > |buf| {
      return BadBufferSize;
    }
    if imageSize < headerSize || imageSize > |buf| {
      return BadBufferSize;
    }
    return Accepted(imageSize, flags);
  }

  /** The header check decodes every encoded header, whatever the fields and whatever follows. */
  lemma HeaderRoundTrip(guid: Guid, headerSize: U32, flags: U32, imageSize: U32, rest: seq<Byte>)
    requires |guid.data4| == 8
    ensures HeaderOf(EncodeHeader(guid, headerSize, flags, imageSize) + rest) ==
            HeaderVerdict(CAPSULE_MIN_HEADER + |rest|, guid, headerSize, flags, imageSize)
  {
    var h := EncodeHeader(guid, headerSize, flags, imageSize);
    var s := h + rest;
    var ids := [guid.data2 % 0x100, guid.data2 / 0x100, guid.data3 % 0x100, guid.data3 / 0x100];
    assert s[0..4] == PutLe32(guid.data1);
    Le32Congruent(s, 0, PutLe32(guid.data1), 0);
    assert s[4..8] == ids;
    assert s[4] == s[4..8][0] && s[5] == s[4..8][1] && s[6] == s[4..8][2] && s[7] == s[4..8][3];
    assert s[8..16] == guid.data4;
    assert s[16..20] == PutLe32(headerSize);
    Le32Congruent(s, 16, PutLe32(headerSize), 0);
    assert s[20..24] == PutLe32(flags);
    Le32Congruent(s, 20, PutLe32(flags), 0);
    assert s[24..28] == PutLe32(imageSize);
    Le32Congruent(s, 24, PutLe32(imageSize), 0);
    assert GuidOf(s) == guid;
  }

  /** The GUID 6dcbd5ed-e82d-4c44-bda1-7194199ad92a as it lies in memory. */
  const FMP_CAPSULE_BYTES: seq<Byte> :=
    [0xed, 0xd5, 0xcb, 0x6d, 0x2d, 0xe8, 0x44, 0x4c, 0xbd, 0xa1, 0x71, 0x94, 0x19, 0x9a, 0xd9, 0x2a]

  lemma GuidInMemory(s: seq<Byte>)
    requires |s| >= 28
    ensures GuidOf(s) == FMP_CAPSULE_GUID <==> s[..16] == FMP_CAPSULE_BYTES
  {
    var g, b := s[..16], FMP_CAPSULE_BYTES;
    assert g[8..] == s[8..16];
    assert b[8..] == FMP_CAPSULE_GUID.data4;
    GuidWords(s);
    assert s[0] == g[0] && s[1] == g[1] && s[2] == g[2] && s[3] == g[3];
    assert s[4] == g[4] && s[5] == g[5] && s[6] == g[6] && s[7] == g[7];
    assert g == [s[0], s[1], s[2], s[3], s[4], s[5], s[6], s[7]] + g[8..];
    assert b == [b[0], b[1], b[2], b[3], b[4], b[5], b[6], b[7]] + b[8..];
  }

  lemma GuidWords(s: seq<Byte>)
    requires |s| >= 28
    ensures Le32(s, 0) == 0x6dcb_d5ed <==> s[0] == 0xed && s[1] == 0xd5 && s[2] == 0xcb && s[3] == 0x6d
    ensures Le16(s[4], s[5]) == 0xe82d <==> s[4] == 0x2d && s[5] == 0xe8
    ensures Le16(s[6], s[7]) == 0x4c44 <==> s[6] == 0x44 && s[7] == 0x4c
  {
  }

  /**
   * A buffer is accepted exactly when it starts with the FMP capsule GUID, its flags do
   * not ask to persist across a reset (bit 16), and its sizes fit into each other.
   */
  lemma AcceptedExactly(s: seq<Byte>)
    ensures HeaderOf(s).Accepted? <==>
            && |s| >= 28 && s[..16] == FMP_CAPSULE_BYTES && Le32(s, 20) / 0x1_0000 % 2 == 0
            && 28 <= Le32(s, 16) <= Le32(s, 24) <= |s|
  {
    hide Le32;
    if |s| >= 28 {
      GuidInMemory(s);
    }
  }

  // ----- the payload version search

  function SearchLimit(s: seq<Byte>): nat {
    if |s| < PAYLOAD_SEARCH_LIMIT then |s| else PAYLOAD_SEARCH_LIMIT
  }

  /** An FMP payload header the firmware would believe starts at offset o. */
  predicate PlausibleAt(s: seq<Byte>, o: nat) {
    && o + PAYLOAD_MIN_HEADER <= SearchLimit(s)
    && Le32(s, o) == PAYLOAD_SIGNATURE
    && PAYLOAD_MIN_HEADER <= Le32(s, o + 4) < PAYLOAD_MAX_HEADER
    && o + Le32(s, o + 4) < |s|
  }

  ghost predicate FirstPlausible(s: seq<Byte>, o: nat) {
    PlausibleAt(s, o) && forall p: nat :: p < o ==> !PlausibleAt(s, p)
  }

  /** The version a capsule declares: that of the first plausible payload header, if any. */
  ghost function PayloadVersion(s: seq<Byte>): Option<U32> {
    if o: nat :| FirstPlausible(s, o) then Some(Le32(s, o + 8)) else None
  }

  lemma PayloadVersionAt(s: seq<Byte>, o: nat)
    requires FirstPlausible(s, o)
    ensures PayloadVersion(s) == Some(Le32(s, o + 8))
  {
    forall q: nat | FirstPlausible(s, q)
      ensures q == o
    {
      assert PlausibleAt(s, q) && PlausibleAt(s, o);
    }
  }

  method GetPayloadVersion(buf: seq<Byte>) returns (r: Option<U32>)
    ensures r == PayloadVersion(buf)
    ensures r.None? <==> forall o: nat :: !PlausibleAt(buf, o)
  {
    if |buf| < PAYLOAD_MIN_HEADER {
      return None;
    }
    var limit := if |buf| < PAYLOAD_SEARCH_LIMIT then |buf| else PAYLOAD_SEARCH_LIMIT;
    var offset := 0;
    while offset + PAYLOAD_MIN_HEADER <= limit
      invariant offset <= limit
      invariant forall p: nat :: p < offset ==> !PlausibleAt(buf, p)
    {
      if Le32(buf, offset) == PAYLOAD_SIGNATURE {
        var headerSize := Le32(buf, offset + 4);
        if !(headerSize < PAYLOAD_MIN_HEADER ||
             headerSize >= PAYLOAD_MAX_HEADER ||
             offset + headerSize >= |buf|)
        {
          assert PlausibleAt(buf, offset);
          PayloadVersionAt(buf, offset);
          return Some(Le32(buf, offset + 8));
        }
      }
      offset := offset + 1;
    }
    return None;
  }

  /** FMP_PAYLOAD_HEADER: signature, header size, firmware version, lowest supported version. */
  function EncodePayloadHeader(headerSize: U32, version: U32, lsv: U32): (s: seq<Byte>)
    ensures |s| == PAYLOAD_MIN_HEADER
  {
    PutLe32(PAYLOAD_SIGNATURE) + PutLe32(headerSize) + PutLe32(version) + PutLe32(lsv)
  }

  lemma PayloadHeaderFields(p: seq<Byte>, headerSize: U32, version: U32, lsv: U32, rest: seq<Byte>)
    ensures var s := p + EncodePayloadHeader(headerSize, version, lsv) + rest;
            && Le32(s, |p|) == PAYLOAD_SIGNATURE
            && Le32(s, |p| + 4) == headerSize
            && Le32(s, |p| + 8) == version
  {
    var h := EncodePayloadHeader(headerSize, version, lsv);
    var s := p + h + rest;
    assert s[|p|..|p| + 16] == h;
    assert s[|p|..|p| + 4] == h[0..4] == PutLe32(PAYLOAD_SIGNATURE);
    Le32Congruent(s, |p|, PutLe32(PAYLOAD_SIGNATURE), 0);
    assert s[|p| + 4..|p| + 8] == h[4..8] == PutLe32(headerSize);
    Le32Congruent(s, |p| + 4, PutLe32(headerSize), 0);
    assert s[|p| + 8..|p| + 12] == h[8..12] == PutLe32(version);
    Le32Congruent(s, |p| + 8, PutLe32(version), 0);
  }

  /** A capsule body: an authentication blob, a payload header, the rest. */
  function Packed(blob: seq<Byte>, headerSize: U32, version: U32, lsv: U32, rest: seq<Byte>): seq<Byte> {
    blob + EncodePayloadHeader(headerSize, version, lsv) + rest
  }

  /**
   * What a packer can look for: a signature inside the blob, with a header size behind it
   * that is believable in a body of the given length. Only the signature of the real
   * header can be read along with the blob, so neither its sizes nor its version matter.
   */
  predicate HidesAt(blob: seq<Byte>, total: nat, p: nat) {
    var b := blob + PutLe32(PAYLOAD_SIGNATURE);
    && p + 4 <= |blob|
    && p + PAYLOAD_MIN_HEADER <= total && p + PAYLOAD_MIN_HEADER <= PAYLOAD_SEARCH_LIMIT
    && Le32(b, p) == PAYLOAD_SIGNATURE
    && PAYLOAD_MIN_HEADER <= Le32(b, p + 4) < PAYLOAD_MAX_HEADER
    && p + Le32(b, p + 4) < total
  }

  ghost predicate HidesNothing(blob: seq<Byte>, total: nat) {
    forall p: nat :: !HidesAt(blob, total, p)
  }

  lemma SignatureBytes(s: seq<Byte>, p: nat)
    requires p + 4 <= |s| && Le32(s, p) == PAYLOAD_SIGNATURE
    ensures s[p] == 0x4D && s[p + 1] == 0x53 && s[p + 2] == 0x53 && s[p + 3] == 0x31
  {
  }

  /** Inside the blob, a header is plausible exactly where the packer's test sees one. */
  lemma PlausibleInBlob(blob: seq<Byte>, headerSize: U32, version: U32, lsv: U32, rest: seq<Byte>, p: nat)
    requires p < |blob|
    ensures var s := Packed(blob, headerSize, version, lsv, rest);
            PlausibleAt(s, p) <==> HidesAt(blob, |s|, p)
  {
    var s := Packed(blob, headerSize, version, lsv, rest);
    var b := blob + PutLe32(PAYLOAD_SIGNATURE);
    assert s[..|b|] == b;
    if p + 4 <= |blob| {
      assert s[p..p + 4] == b[p..p + 4] && s[p + 4..p + 8] == b[p + 4..p + 8] by {
        assert s[p..p + 4] == s[..|b|][p..p + 4] && s[p + 4..p + 8] == s[..|b|][p + 4..p + 8];
      }
      Le32Congruent(s, p, b, p);
      Le32Congruent(s, p + 4, b, p + 4);
    } else {
      assert s[|blob|] == 0x4D by { assert s[|blob|] == b[|blob|]; }
      if Le32(s, p) == PAYLOAD_SIGNATURE {
        SignatureBytes(s, p);
      }
    }
  }

  /** A header the search does not settle on leaves its version without influence. */
  lemma VersionHasNoSay(blob: seq<Byte>, headerSize: U32, v: U32, u: U32, lsv: U32, rest: seq<Byte>, o: nat)
    requires FirstPlausible(Packed(blob, headerSize, v, lsv, rest), o) && o < |blob|
    ensures PayloadVersion(Packed(blob, headerSize, u, lsv, rest)) == PayloadVersion(Packed(blob, headerSize, v, lsv, rest))
  {
    var s, t := Packed(blob, headerSize, v, lsv, rest), Packed(blob, headerSize, u, lsv, rest);
    assert PlausibleAt(s, o);
    PlausibleInBlob(blob, headerSize, v, lsv, rest, o);
    forall p: nat | p <= o ensures PlausibleAt(t, p) <==> PlausibleAt(s, p) {
      PlausibleInBlob(blob, headerSize, v, lsv, rest, p);
      PlausibleInBlob(blob, headerSize, u, lsv, rest, p);
    }
    assert FirstPlausible(t, o);
    var n := |blob| + 8;
    assert s[..n] == blob + (PutLe32(PAYLOAD_SIGNATURE) + PutLe32(headerSize)) == t[..n];
    assert s[o + 8..o + 12] == s[..n][o + 8..o + 12] && t[o + 8..o + 12] == t[..n][o + 8..o + 12];
    Le32Congruent(s, o + 8, t, o + 8);
    PayloadVersionAt(s, o);
    PayloadVersionAt(t, o);
  }

  /**
   * A legal payload header behind an authentication blob gives its version to the search,
   * whatever that version is, if and only if it lies inside the search window and the
   * packer's test finds nothing in the blob.
   */
  lemma VersionRoundTrip(blob: seq<Byte>, headerSize: U32, lsv: U32, rest: seq<Byte>)
    requires PAYLOAD_MIN_HEADER <= headerSize < PAYLOAD_MAX_HEADER
    requires headerSize < PAYLOAD_MIN_HEADER + |rest|
    ensures (forall v: U32 :: PayloadVersion(Packed(blob, headerSize, v, lsv, rest)) == Some(v)) <==>
            && |blob| + PAYLOAD_MIN_HEADER <= PAYLOAD_SEARCH_LIMIT
            && HidesNothing(blob, |blob| + PAYLOAD_MIN_HEADER + |rest|)
  {
    hide Packed;
    if |blob| + PAYLOAD_MIN_HEADER <= PAYLOAD_SEARCH_LIMIT && HidesNothing(blob, |blob| + PAYLOAD_MIN_HEADER + |rest|) {
      forall v: U32 ensures PayloadVersion(Packed(blob, headerSize, v, lsv, rest)) == Some(v) {
        FoundBehindBlob(blob, headerSize, v, lsv, rest);
      }
    } else {
      MissedBehindBlob(blob, headerSize, lsv, rest);
      assert PayloadVersion(Packed(blob, headerSize, 0, lsv, rest)) == PayloadVersion(Packed(blob, headerSize, 1, lsv, rest));
    }
  }

  lemma FoundBehindBlob(blob: seq<Byte>, headerSize: U32, version: U32, lsv: U32, rest: seq<Byte>)
    requires PAYLOAD_MIN_HEADER <= headerSize < PAYLOAD_MAX_HEADER
    requires headerSize < PAYLOAD_MIN_HEADER + |rest|
    requires |blob| + PAYLOAD_MIN_HEADER <= PAYLOAD_SEARCH_LIMIT
    requires HidesNothing(blob, |blob| + PAYLOAD_MIN_HEADER + |rest|)
    ensures PayloadVersion(Packed(blob, headerSize, version, lsv, rest)) == Some(version)
  {
    hide HidesAt, Le32;
    var s := Packed(blob, headerSize, version, lsv, rest);
    var total := |blob| + PAYLOAD_MIN_HEADER + |rest|;
    assert |s| == total;
    PayloadHeaderFields(blob, headerSize, version, lsv, rest);
    forall p: nat | p < |blob| ensures !PlausibleAt(s, p) {
      PlausibleInBlob(blob, headerSize, version, lsv, rest, p);
      assert !HidesAt(blob, total, p);
    }
    PayloadVersionAt(s, |blob|);
  }

  lemma MissedBehindBlob(blob: seq<Byte>, headerSize: U32, lsv: U32, rest: seq<Byte>)
    requires |blob| + PAYLOAD_MIN_HEADER > PAYLOAD_SEARCH_LIMIT ||
             !HidesNothing(blob, |blob| + PAYLOAD_MIN_HEADER + |rest|)
    ensures PayloadVersion(Packed(blob, headerSize, 0, lsv, rest))
         == PayloadVersion(Packed(blob, headerSize, 1, lsv, rest))
  {
    hide HidesAt, Le32;
    var s, t := Packed(blob, headerSize, 0, lsv, rest), Packed(blob, headerSize, 1, lsv, rest);
    if o: nat :| FirstPlausible(s, o) {
      FirstInBlob(blob, headerSize, 0, lsv, rest, o);
      VersionHasNoSay(blob, headerSize, 0, 1, lsv, rest, o);
    } else if o: nat :| FirstPlausible(t, o) {
      FirstInBlob(blob, headerSize, 1, lsv, rest, o);
      VersionHasNoSay(blob, headerSize, 1, 0, lsv, rest, o);
    }
  }

  lemma FirstInBlob(blob: seq<Byte>, headerSize: U32, version: U32, lsv: U32, rest: seq<Byte>, o: nat)
    requires |blob| + PAYLOAD_MIN_HEADER > PAYLOAD_SEARCH_LIMIT ||
             !HidesNothing(blob, |blob| + PAYLOAD_MIN_HEADER + |rest|)
    requires FirstPlausible(Packed(blob, headerSize, version, lsv, rest), o)
    ensures o < |blob|
  {
    hide Le32;
    var total := |blob| + PAYLOAD_MIN_HEADER + |rest|;
    if !HidesNothing(blob, total) {
      var p: nat :| HidesAt(blob, total, p);
      PlausibleInBlob(blob, headerSize, version, lsv, rest, p);
    }
  }

  /** A blob without the signature's first byte hides nothing. */
  lemma NothingHidden(blob: seq<Byte>, total: nat, p: nat)
    requires 0x4D !in blob
    ensures !HidesAt(blob, total, p)
  {
    if HidesAt(blob, total, p) {
      var b := blob + PutLe32(PAYLOAD_SIGNATURE);
      SignatureBytes(b, p);
    }
  }

  /** A smallest well-formed capsule of a version. */
  function Capsule(version: U32): seq<Byte> {
    Packed(EncodeHeader(FMP_CAPSULE_GUID, 28, 0, 46), 16, version, 0, [0, 0])
  }

  lemma CapsuleIsSound(version: U32)
    ensures |Capsule(version)| == 46 && HeaderOf(Capsule(version)).Accepted?
    ensures PayloadVersion(Capsule(version)) == Some(version)
  {
    hide PutLe32, Le32, EncodeHeader, EncodePayloadHeader, HidesAt, HeaderOf, PayloadVersion;
    var h := EncodeHeader(FMP_CAPSULE_GUID, 28, 0, 46);
    var rest := EncodePayloadHeader(16, version, 0) + [0, 0];
    HeaderRoundTrip(FMP_CAPSULE_GUID, 28, 0, 46, rest);
    assert Capsule(version) == h + rest;
    HeaderHasNoM();
    forall p: nat ensures !HidesAt(h, 46, p) {
      NothingHidden(h, 46, p);
    }
    FoundBehindBlob(h, 16, version, 0, [0, 0]);
  }

  lemma HeaderHasNoM()
    ensures 0x4D !in EncodeHeader(FMP_CAPSULE_GUID, 28, 0, 46)
  {
    assert 0x4D !in PutLe32(28) && 0x4D !in PutLe32(0) && 0x4D !in PutLe32(46);
    assert 0x4D !in PutLe32(FMP_CAPSULE_GUID.data1) && 0x4D !in FMP_CAPSULE_GUID.data4;
  }

  /**
   * The blob must be judged together with what follows it: eight bytes that hold no
   * plausible header on their own become one in front of a real header, and the
   * search then answers with a word of that header instead of its version.
   */
  lemma BlobAloneIsNotEnough()
    ensures var blob := PutLe32(PAYLOAD_SIGNATURE) + PutLe32(16);
            var s := blob + EncodePayloadHeader(16, 7, 0) + [0, 0];
            && PayloadVersion(blob) == None
            && PayloadVersion(s) == Some(PAYLOAD_SIGNATURE)
  {
    var blob := PutLe32(PAYLOAD_SIGNATURE) + PutLe32(16);
    var h := EncodePayloadHeader(16, 7, 0);
    var s := blob + h + [0, 0];
    assert forall o: nat :: !PlausibleAt(blob, o);
    assert s[0..4] == PutLe32(PAYLOAD_SIGNATURE);
    Le32Congruent(s, 0, PutLe32(PAYLOAD_SIGNATURE), 0);
    assert s[4..8] == PutLe32(16);
    Le32Congruent(s, 4, PutLe32(16), 0);
    assert s[8..12] == PutLe32(PAYLOAD_SIGNATURE);
    Le32Congruent(s, 8, PutLe32(PAYLOAD_SIGNATURE), 0);
    assert PlausibleAt(s, 0);
    PayloadVersionAt(s, 0);
  }

  // ----- the file name filter

  function Lower(c: char): char {
    if 'A' <= c <= 'Z' then c - 'A' + 'a' else c
  }

  const EXTENSION := ".cap"

  /** A drop-box name that ends in ".cap", in any mix of case. */
  predicate EndsInCap(name: string) {
    && |name| >= 4
    && forall i :: 0 <= i < 4 ==> Lower(name[|name| - 4 + i]) == EXTENSION[i]
  }

  /** For example. */
  lemma CandidateNames(stem: string)
    ensures EndsInCap(stem + ".cap") && EndsInCap(stem + ".CAP") && EndsInCap(stem + ".Cap")
    ensures !EndsInCap(stem + ".bin") && !EndsInCap(stem + ".cap.tmp") && !EndsInCap("cap")
  {
    var t, u := stem + ".cap.tmp", stem + ".bin";
    assert Lower(t[|t| - 4 + 1]) != EXTENSION[1];
    assert Lower(u[|u| - 4 + 1]) != EXTENSION[1];
  }

  method IsCandidateFile(name: string) returns (r: bool)
    ensures r <==> EndsInCap(name)
  {
    var len := |name|;
    if len == 1 && name[0] == '.' {
      return false;
    }
    if len == 2 && name[0] == '.' && name[1] == '.' {
      return false;
    }
    if len < 4 {
      return false;
    }
    for index := 0 to 4
      invariant forall i :: 0 <= i < index ==> Lower(name[len - 4 + i]) == EXTENSION[i]
    {
      var c := name[len - 4 + index];
      if 'A' <= c <= 'Z' {
        c := c - 'A' + 'a';
      }
      if c != EXTENSION[index] {
        return false;
      }
    }
    return true;
  }
}
