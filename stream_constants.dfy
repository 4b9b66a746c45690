/** The static stream catalog of `cdf/streams/constants.py`: the follow-mask
    decoder, the dataset-name -> file-prefix table, the prefix -> column table,
    and the content-type tables. */
module StreamConstants {
  import opened PyText

  // ---------------------------------------------------------------------------
  // Follow-mask decoder

  /** Python's `a & b` for a non-negative `a` and any integer `b` (Python
      integers are two's complement of unbounded width, so the lowest bit of
      `b` is `b % 2` and shifting right is floor division by 2). */
  function BitAnd(a: nat, b: int): (r: nat)
    ensures r <= a
    ensures a % 2 == 0 ==> r % 2 == 0
  {
    if a == 0 then 0
    else 2 * BitAnd(a / 2, b / 2) + (if a % 2 == 1 && b % 2 == 1 then 1 else 0)
  }

  /** `bitmask & mask == bitmask`: every bit required by `bitmask` is set in `value`. */
  predicate HasBits(bitmask: nat, value: int) {
    BitAnd(bitmask, value) == bitmask
  }

  /** `FOLLOW_MASKS`, in the order written; the first entry that matches wins. */
  const FollowMasks: seq<(nat, string)> := [
    (0, "follow"),
    (8, "config_nofollow"),
    (4, "robots_nofollow"),
    (2, "meta_nofollow"),
    (1, "link_nofollow")
  ]

  /** The loop of `follow_mask`: the position of the first entry of `table`
      whose bits are all set in `value`, or None when the loop runs out. */
  function FirstMatch(table: seq<(nat, string)>, value: int): (r: Option<nat>)
    ensures r.None? <==> forall i :: 0 <= i < |table| ==> !HasBits(table[i].0, value)
    ensures r.Some? ==> r.value < |table| && HasBits(table[r.value].0, value)
    ensures r.Some? ==> forall j :: 0 <= j < r.value ==> !HasBits(table[j].0, value)
  {
    if table == [] then None
    else if HasBits(table[0].0, value) then Some(0)
    else
      match FirstMatch(table[1..], value)
      case None => None
      case Some(i) => Some(i + 1)
  }

  /** `follow_mask(val)` once `int(val)` has produced `value`: the label of the
      first matching entry, or None (Python's implicit `return None`). */
  function FollowMask(value: int): (r: Option<string>)
    ensures r.None? <==> forall i :: 0 <= i < |FollowMasks| ==> !HasBits(FollowMasks[i].0, value)
    ensures r.Some? ==> exists i :: 0 <= i < |FollowMasks| && r.value == FollowMasks[i].1 &&
                                    HasBits(FollowMasks[i].0, value) &&
                                    (forall j :: 0 <= j < i ==> !HasBits(FollowMasks[j].0, value))
  {
    match FirstMatch(FollowMasks, value)
    case None => None
    case Some(i) => Some(FollowMasks[i].1)
  }

  /** Whatever the table holds after it, an entry requiring no bits placed first
      is the match for every value. */
  lemma ZeroMaskFirstWins(table: seq<(nat, string)>, value: int)
    requires table != [] && table[0].0 == 0
    ensures FirstMatch(table, value) == Some(0)
  {
  }

  /** As written, every integer (zero and negatives included) decodes to "follow". */
  lemma FollowMaskIsAlwaysFollow(value: int)
    ensures FollowMask(value) == Some("follow")
  {
    ZeroMaskFirstWins(FollowMasks, value);
  }

  /** The four nofollow entries are never returned, and neither is the
      fall-through None. */
  lemma NofollowEntriesUnreachable(value: int)
    ensures FollowMask(value) != None
    ensures forall i :: 1 <= i < |FollowMasks| ==> FollowMask(value) != Some(FollowMasks[i].1)
  {
    FollowMaskIsAlwaysFollow(value);
  }

  function Pow2(k: nat): (p: nat)
    ensures p >= 1
  {
    if k == 0 then 1 else 2 * Pow2(k - 1)
  }

  /** Bit `k` of `value` in two's complement. */
  predicate BitSet(value: int, k: nat)
    decreases k
  {
    if k == 0 then value % 2 == 1 else BitSet(value / 2, k - 1)
  }

  /** What a one-bit entry tests: `2^k & v == 2^k` exactly when bit k of v is
      set. So 8, 4, 2 and 1 would test bits 3, 2, 1 and 0 if they were reached. */
  lemma {:induction false} SingleBitMask(k: nat, value: int)
    ensures HasBits(Pow2(k), value) <==> BitSet(value, k)
  {
    if k > 0 {
      SingleBitMask(k - 1, value / 2);
      assert Pow2(k) / 2 == Pow2(k - 1) && Pow2(k) % 2 == 0;
    }
  }

  /** Zero has no bit set. */
  lemma {:induction false} ZeroNoBits(k: nat)
    ensures !BitSet(0, k)
  {
    if k > 0 {
      ZeroNoBits(k - 1);
    }
  }

  /** `a & b` has bit k set exactly when both `a` and `b` have it: the result
      never has a bit the mask lacks, and keeps every mask bit the value has. */
  lemma {:induction false} BitAndBit(a: nat, b: int, k: nat)
    ensures BitSet(BitAnd(a, b), k) <==> BitSet(a, k) && BitSet(b, k)
  {
    if a == 0 {
      ZeroNoBits(k);
    } else if k > 0 {
      BitAndBit(a / 2, b / 2, k - 1);
      assert BitAnd(a, b) / 2 == BitAnd(a / 2, b / 2);
    }
  }

  /** The nofollow masks are the bits 3, 2, 1, 0 in table order. */
  lemma NofollowMasksAreSingleBits()
    ensures FollowMasks[1].0 == Pow2(3) && FollowMasks[2].0 == Pow2(2)
    ensures FollowMasks[3].0 == Pow2(1) && FollowMasks[4].0 == Pow2(0)
  {
  }

  // ---------------------------------------------------------------------------
  // Column decoders

  /** The decode callables that appear in the column tables. */
  datatype Decoder = IntDecoder | StrDecoder | FollowMaskDecoder

  datatype Value = IntValue(i: int) | StrValue(s: string) | LabelValue(term: Option<string>)

  /** Applying a column's callable to the text of a field: `int(text)`,
      `str(text)` or `follow_mask(text)`. */
  function Decode(decoder: Decoder, text: string): (r: Result<Value>)
    ensures r.Err? <==> decoder != StrDecoder && ParseInt(text).None?
    ensures r.Err? ==> r.error == ValueError
    ensures decoder == StrDecoder ==> r == Ok(StrValue(text))
  {
    match decoder
    case StrDecoder => Ok(StrValue(text))
    case IntDecoder =>
      (match ParseInt(text)
       case None => Err(ValueError)
       case Some(i) => Ok(IntValue(i)))
    case FollowMaskDecoder =>
      (match ParseInt(text)
       case None => Err(ValueError)
       case Some(i) => Ok(LabelValue(FollowMask(i))))
  }

  /** An integer column decodes the text `str(i)` back to `i`. */
  lemma DecodeIntRoundTrip(i: int)
    ensures Decode(IntDecoder, IntToString(i)) == Ok(IntValue(i))
  {
    ParseIntToString(i);
  }

  /** A `follow` column decodes every integer text to "follow", and rejects
      text that is not an integer. */
  lemma DecodeFollowColumn(text: string)
    ensures ParseInt(text).Some? ==> Decode(FollowMaskDecoder, text) == Ok(LabelValue(Some("follow")))
    ensures ParseInt(text).None? ==> Decode(FollowMaskDecoder, text) == Err(ValueError)
  {
    if ParseInt(text).Some? {
      FollowMaskIsAlwaysFollow(ParseInt(text).value);
    }
  }

  // ---------------------------------------------------------------------------
  // Catalog tables

  /** `STREAMS_FILES`: dataset name -> file prefix. */
  const StreamsFiles: map<string, string> := map[
    "urlids" := "patterns",
    "urlinfos" := "infos",
    "urlcontents" := "contents",
    "urllinks" := "outlinks",
    "urlinlinks" := "inlinks",
    "url_properties" := "properties"
  ]

  datatype Field = Field(name: string, decoder: Decoder)

  /** `STREAMS_HEADERS`: upper-cased prefix -> ordered columns. */
  const StreamsHeaders: map<string, seq<Field>> := map[
    "PATTERNS" := [
      Field("id", IntDecoder),
      Field("protocol", StrDecoder),
      Field("host", StrDecoder),
      Field("path", StrDecoder),
      Field("query_string", StrDecoder)
    ],
    "INFOS" := [
      Field("id", IntDecoder),
      Field("infos_mask", IntDecoder),
      Field("content_type", StrDecoder),
      Field("depth", IntDecoder),
      Field("date_crawled", IntDecoder),
      Field("http_code", IntDecoder),
      Field("byte_size", IntDecoder),
      Field("delay1", IntDecoder),
      Field("delay2", IntDecoder)
    ],
    "CONTENTS" := [
      Field("id", IntDecoder),
      Field("content_type", IntDecoder),
      Field("hash", StrDecoder),
      Field("txt", StrDecoder)
    ],
    "OUTLINKS" := [
      Field("id", IntDecoder),
      Field("link_type", StrDecoder),
      Field("follow", FollowMaskDecoder),
      Field("dst_url_id", IntDecoder),
      Field("external_url", StrDecoder)
    ],
    "INLINKS" := [
      Field("id", IntDecoder),
      Field("link_type", StrDecoder),
      Field("follow", FollowMaskDecoder),
      Field("src_url_id", IntDecoder)
    ],
    "PROPERTIES" := [
      Field("id", IntDecoder),
      Field("resource_type", StrDecoder)
    ]
  ]

  /** `CONTENT_TYPE_INDEX`. */
  const ContentTypeIndex: map<int, string> := map[1 := "title", 2 := "h1", 3 := "h2", 4 := "description"]

  /** `MANDATORY_CONTENT_TYPES`. */
  const MandatoryContentTypes: seq<string> := ["title", "h1", "description"]

  function UpperChar(c: char): char {
    if 'a' <= c <= 'z' then (c as int - 32) as char else c
  }

  /** `str.upper()` on ASCII text. */
  function Upper(s: string): string {
    seq(|s|, i requires 0 <= i < |s| => UpperChar(s[i]))
  }

  /** `STREAMS_FILES` has six entries. */
  lemma StreamsFilesCount()
    ensures |StreamsFiles| == 6
  {
    assert StreamsFiles.Keys == {"urlids", "urlinfos", "urlcontents", "urllinks", "urlinlinks", "url_properties"};
  }

  /** Each dataset's prefix, upper-cased, names a column table. */
  lemma PrefixesHaveHeaders()
    ensures forall name :: name in StreamsFiles ==> Upper(StreamsFiles[name]) in StreamsHeaders
  {
    assert forall name :: name in StreamsFiles ==>
      StreamsFiles[name] in {"patterns", "infos", "contents", "outlinks", "inlinks", "properties"};
    assert Upper("patterns") == "PATTERNS";
    assert Upper("infos") == "INFOS";
    assert Upper("contents") == "CONTENTS";
    assert Upper("outlinks") == "OUTLINKS";
    assert Upper("inlinks") == "INLINKS";
    assert Upper("properties") == "PROPERTIES";
  }

  /** Every column table starts with the integer `id` column, and its column
      names are pairwise distinct. */
  lemma HeadersWellFormed()
    ensures forall p :: p in StreamsHeaders ==> |StreamsHeaders[p]| >= 1 && StreamsHeaders[p][0] == Field("id", IntDecoder)
    ensures forall p, i, j :: p in StreamsHeaders && 0 <= i < j < |StreamsHeaders[p]| ==>
              StreamsHeaders[p][i].name != StreamsHeaders[p][j].name
  {
  }

  /** Only OUTLINKS and INLINKS decode a column with `follow_mask`, and in both
      it is the column `follow` at position 2. */
  lemma FollowMaskColumns()
    ensures forall p, i :: p in StreamsHeaders && 0 <= i < |StreamsHeaders[p]| ==>
              (StreamsHeaders[p][i].decoder == FollowMaskDecoder <==>
                 (p == "OUTLINKS" || p == "INLINKS") && i == 2)
    ensures StreamsHeaders["OUTLINKS"][2].name == "follow" && StreamsHeaders["INLINKS"][2].name == "follow"
  {
  }

  /** Content types are indexed 1 to 4, and every mandatory one is indexed. */
  lemma ContentTypesIndexed()
    ensures ContentTypeIndex.Keys == {1, 2, 3, 4}
    ensures forall name :: name in MandatoryContentTypes ==> name in ContentTypeIndex.Values
  {
  }
}
