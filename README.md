# Crawl-data stream catalog, release versioning and LevelDB batch writes

This project models three pieces of the crawl-data-format package in Dafny and
proves properties of them:

- **The stream catalog** (`cdf/streams/constants.py`). `follow_mask` turns the
  integer `follow` column of the link streams into a label: it scans
  `FOLLOW_MASKS` in order and returns the label of the first
  `(bitmask, label)` entry where `bitmask & value == bitmask`. The module also
  holds the static tables:
  - dataset name to file prefix;
  - upper-cased prefix to ordered `(column, decode callable)` schema;
  - content-type index;
  - mandatory content types.
- **The release script** (`packaging/release.py`):
  - reads the current `major.minor.micro` version;
  - derives the dev number from the `git describe` label;
  - builds the official version `major.minor.(micro+1)` and the dev version
    `major.(minor+1).devN`;
  - rewrites the `VERSION = '…'` line of the package's `__init__.py`;
  - refuses to run unless exactly one of `--devel` and `--official` is given.
- **`LevelDB.batch_write`** (`cdf/utils/kvstore/leveldb.py`). It puts every
  `(str(k), str(v))` pair of a stream into a write batch. It commits the batch
  after the pair at index `count` when `count != 0 and count % batch_size == 0`,
  and it writes the batch that is still open at the end.

Module layout:

- `PyText` (`py_text.dfy`) holds the Python built-ins the code relies on:
  - `str()` of an integer;
  - `int()` of text;
  - `strip`;
  - `split` on one character;
  - `join`.

  A failing `int()` is `None` of `Option`; its callers turn it into
  `Err(ValueError)` of `Result`, the form every other exception takes.
- `StreamConstants` (`stream_constants.dfy`) holds the follow-mask decoder and
  the catalog tables.
- `Release` (`release.dfy`) holds the release script. The current
  `__version__`, the `git describe` label and the lines of `__init__.py` are
  parameters.
- `KvStore` (`kv_store.dfy`) models `batch_write` as a method of the class
  `LevelDB`. The class's `log` field lists the batches committed through
  `Write`, oldest first. The method's loop appends to the log, and its
  contract ties the new log to a closed form, `WrittenBatches`. The lemmas
  about `WrittenBatches` give its partition, its count and its batch sizes.

`FOLLOW_MASKS` is modelled in the order it is written, with `(0, "follow")`
first. Because `0 & v == 0` for every `v`, the decoder labels every integer
"follow", and the four nofollow entries are never returned. The model proves
this as the behaviour of the code. It does not reorder the table.

## Model

| member | source | states |
|---|---|---|
| StreamConstants.BitAnd | cdf/streams/constants.py:14 | `bitmask & value` is at most the mask, and even when the mask is even |
| StreamConstants.BitAndBit | cdf/streams/constants.py:14 | bit k of `bitmask & value` (two's complement) is set exactly when bit k is set in both the mask and the value |
| StreamConstants.FirstMatch | cdf/streams/constants.py:13-15 | the scan finds nothing exactly when no entry's bits are all set in the value; otherwise it returns an entry whose bits are set, and no earlier entry's bits are |
| StreamConstants.FollowMask | cdf/streams/constants.py:11-15 | `follow_mask` returns None exactly when no entry's bits are all set in the value; otherwise the label of an entry whose bits are all set, with no earlier entry's bits all set |
| StreamConstants.ZeroMaskFirstWins | cdf/streams/constants.py:1-3 | an entry requiring no bits, placed first, is the match for every value, whatever follows it |
| StreamConstants.FollowMaskIsAlwaysFollow | cdf/streams/constants.py:2-15 | `follow_mask` returns "follow" for every integer, zero and negatives included |
| StreamConstants.NofollowEntriesUnreachable | cdf/streams/constants.py:2-15 | `follow_mask` never falls through to None and never returns one of the four nofollow labels |
| StreamConstants.SingleBitMask | cdf/streams/constants.py:14 | a mask 2^k is fully set in a value exactly when bit k of the value (two's complement) is set |
| StreamConstants.NofollowMasksAreSingleBits | cdf/streams/constants.py:4-7 | the nofollow masks 8, 4, 2, 1 are the single bits 3, 2, 1, 0, in table order |
| StreamConstants.Decode | cdf/streams/constants.py:12 | an `int` or `follow_mask` column raises ValueError exactly when `int()` rejects the field text; a `str` column returns the text unchanged |
| StreamConstants.DecodeIntRoundTrip | cdf/streams/constants.py:29 | an `int` column decodes the text `str(i)` back to `i` |
| StreamConstants.DecodeFollowColumn | cdf/streams/constants.py:55 | a `follow` field decodes to "follow" when its text is an integer, and to ValueError otherwise |
| StreamConstants.StreamsFilesCount | cdf/streams/constants.py:18-25 | six datasets are catalogued |
| StreamConstants.PrefixesHaveHeaders | cdf/streams/constants.py:18-69 | every dataset's file prefix, upper-cased, names a column schema |
| StreamConstants.HeadersWellFormed | cdf/streams/constants.py:27-69 | every schema starts with the integer `id` column, and no schema repeats a column name |
| StreamConstants.FollowMaskColumns | cdf/streams/constants.py:52-64 | `follow_mask` decodes exactly one column in all the schemas: `follow`, at position 2 of OUTLINKS and of INLINKS |
| StreamConstants.ContentTypesIndexed | cdf/streams/constants.py:71-78 | content types are indexed 1 to 4, and every mandatory content type has an index |
| PyText.ParseIntToString | packaging/release.py:22 | `int(str(i)) == i` for every integer |
| PyText.ParseIntRejects | packaging/release.py:22 | a text with a character that is not a digit, whitespace or a sign raises ValueError in `int()` |
| PyText.SplitJoin | packaging/release.py:64 | splitting a dot-join gives back the parts when no part holds a dot |
| PyText.JoinSplit | packaging/release.py:40 | joining the pieces of a split gives back the text |
| Release.LastReleaseVersion | packaging/release.py:19-22 | the version reads as a list exactly when every dot-separated part is an integer text: one value per part, in order; otherwise ValueError |
| Release.ParseChunks | packaging/release.py:22 | the list comprehension succeeds exactly when every chunk is an integer text; on success the result has one value per chunk, in order; otherwise it raises ValueError |
| Release.ReleaseParts | packaging/release.py:19-22 | unpacking into `major, minor, micro` succeeds exactly when the version has three dot-separated parts, all integers |
| Release.DevNumber | packaging/release.py:25-46 | a label that does not split into three dash-separated chunks gives 0; a three-chunk label gives its middle chunk as an integer, or ValueError when that chunk is not one |
| Release.DevNumberOfDescribe | packaging/release.py:33-43 | the label `tag-count-sha` yields `count` |
| Release.DevNumberOnTag | packaging/release.py:39-45 | the bare tag printed on a tagged commit yields 0 |
| Release.DevSuffix | packaging/release.py:49-52 | the suffix exists exactly when the dev number does; it is "dev" followed by `str` of the dev number, and holds no dot |
| Release.DevVersion | packaging/release.py:55-65 | a dev version exists exactly when the current version has three integer parts and the dev number parses; otherwise ValueError |
| Release.DevVersionShape | packaging/release.py:55-65 | the dev version splits into `major`, `minor + 1` and `devN`, and it cannot be read back as a release version |
| Release.ReleaseVersion | packaging/release.py:68-75 | an official version exists exactly when the current version has three integer parts; otherwise ValueError |
| Release.ReleaseVersionShape | packaging/release.py:68-75 | the official version splits into `str(major)`, `str(minor)` and `str(micro + 1)` |
| Release.ParseJoinedParts | packaging/release.py:72-74 | three integers joined with dots read back as those three integers |
| Release.ReleaseVersionRoundTrip | packaging/release.py:68-75 | the official version reads back as `[major, minor, micro + 1]`: only micro changes |
| Release.VersionLineMatchesIff | packaging/release.py:87 | a line `VERSION = '<v>'…` is recognised exactly when `<v>'` starts with a number triple followed by a quote |
| Release.ReleaseLineMatches | packaging/release.py:87-92 | the line written for an official version `a.b.c` is recognised by the pattern on the next run |
| Release.DevLineNotMatched | packaging/release.py:87-92 | the line written for a dev version `a.b.devN` is not recognised by the pattern |
| Release.SetVersionAsWritten | packaging/release.py:90-94 | the loop prints, line after line, the version line for a recognised line and `print line` otherwise |
| Release.AsWrittenAddsNewlines | packaging/release.py:93-94 | as written, a file with no version line grows by one character per line |
| Release.AsWrittenDoublesLineEnd | packaging/release.py:94 | as written, the one-line file "import os\n" comes back as "import os\n\n" |
| Release.SetVersion | packaging/release.py:90-94 | corrected loop: a recognised line becomes the version line, and every other line is kept unchanged |
| Release.RewriteWithoutMatchKeepsFile | packaging/release.py:90-94 | corrected: a file with no version line is left byte for byte unchanged |
| Release.RewriteIdempotent | packaging/release.py:87-94 | corrected: setting any version twice equals setting it once, official and dev versions alike |
| Release.ChooseRelease | packaging/release.py:185-189 | ValueError exactly when both flags or neither are given; otherwise the official release exactly when `--official` is given |
| Release.EntryPoint | packaging/release.py:185-194 | a run plans a release exactly when one flag is given and its version can be computed; it rewrites `__init__.py` exactly when not a dry run; the version is the official one for `--official` and the dev one for `--devel` |
| KvStore.Stringify | cdf/utils/kvstore/leveldb.py:39 | one `(str(k), str(v))` pair per stream item, in stream order |
| KvStore.CommitsAfterAbs | cdf/utils/kvstore/leveldb.py:40 | a negative batch size commits at the same counts as its absolute value |
| KvStore.BatchWriteOutcome | cdf/utils/kvstore/leveldb.py:38-46 | ZeroDivisionError exactly when the batch size is 0 and the stream has two pairs or more; otherwise the committed batches put every pair exactly once, in order |
| KvStore.WrittenFlatten | cdf/utils/kvstore/leveldb.py:38-46 | the committed batches, concatenated, are the stream's pairs |
| KvStore.WrittenCount | cdf/utils/kvstore/leveldb.py:38-46 | an empty stream makes one (empty) write; n >= 1 pairs make 1 + (n - 1) div \|batch_size\| writes |
| KvStore.WrittenSizes | cdf/utils/kvstore/leveldb.py:38-46 | with s = \|batch_size\| and more than s pairs: the first batch holds s + 1 pairs, each later intermediate batch s, and the final write (n - 1) mod s |
| KvStore.WrittenStep | cdf/utils/kvstore/leveldb.py:39-42 | putting one more pair extends the open batch, which is committed right after it exactly when the commit condition holds for its index |
| KvStore.FirstBatchOversized | cdf/utils/kvstore/leveldb.py:40-42 | as written, s + 1 pairs go out as one batch of s + 1 pairs followed by an empty write |
| KvStore.IntendedBatches | cdf/utils/kvstore/leveldb.py:33 | corrected grouping: every batch but the final write holds exactly `batch_size` pairs, the final one fewer, and every pair goes out once, in order |
| KvStore.LevelDB.BatchWrite | cdf/utils/kvstore/leveldb.py:26-46 | the log grows by exactly the batches `BatchWriteOutcome` gives, or stays unchanged on ZeroDivisionError; on success the puts grow by the stream's pairs |
| KvStore.LevelDB.BatchWriteBySize | cdf/utils/kvstore/leveldb.py:26-46 | corrected commit rule: the log grows by the stream's pairs cut into groups of `batch_size` |

## Left out

- `int()` (PyText.ParseInt) accepts surrounding whitespace, an optional sign and decimal digits. Python 2's `int()` also skips whitespace between the sign and the digits (`int("- 5") == -5`); ParseInt rejects that spelling.
- `follow_mask` is modelled on text (through `Decode`) and on integers (`FollowMask`). Arguments of other types are not modelled, such as a float that `int()` truncates (`follow_mask(3.7)`).
- Exception messages are not modelled, only their kind. This includes the message at packaging/release.py:189, which says "can choose" where it means "can't".
- The process calls in the release script are not modelled: `git describe`, the `git add/commit/tag/push` commands and the `setup.py sdist upload` call. The `git describe` label and the current `__version__` are parameters.
- The dry-run listing of those commands is not modelled, nor the "Creating cdf …" messages. `get_init_filepath` is not modelled either. The plan records only whether `__init__.py` is rewritten.
- The in-place file mechanism of `fileinput` is not modelled. `set_version` is modelled on the file's lines, each with its line terminator, and returns the new text or lines.
- Argument parsing is not modelled. The three flags are booleans.
- Release.EntryPoint: does not model the order of side effects within a release, because those effects are outside the model.
- `LevelDB.open`, `close`, `iterator`, `put`, `get` and `__del__` are not part of this model, nor the base class's `_check`, `destroy` and `path`. They pass straight through to the third-party `leveldb` binding. The store is seen only through the batches committed to it. Key ordering, overwriting and lookups by the storage engine are not modelled.
- The debug logging in `batch_write` is not modelled.
- `kv_stream` is modelled as a finite sequence. Lazy or infinite iterables, and exceptions raised by the iterable or by `str()`, are not modelled. `str()` of keys and values is a parameter.
- `constants.DEFAULT_BATCH_SIZE` of the key-value store is not part of this model. The batch size is always an argument.
- The stream-definition, persistence and dataset classes that use the catalog are not part of this model. Their tests exercise code that is not shown here.

## Findings

| source | as written | input that shows it | evidently intended | confidence | as-written member | corrected member |
|---|---|---|---|---|---|---|
| packaging/release.py:93-94 | `print line` writes each line `fileinput` yields, which already ends in a newline, plus a newline of its own | a file holding the line "import os\n" becomes "import os\n\n"; every line that is not the version line gains a blank line | lines other than the version line are copied unchanged, e.g. by `print line,` | not executed | Release.AsWrittenDoublesLineEnd | Release.RewriteWithoutMatchKeepsFile |
| cdf/utils/kvstore/leveldb.py:40 | the commit test `count != 0 and count % batch_size == 0` runs after the pair at index `count` is put, so the first commit happens at index `batch_size` | with `batch_size` 2 and 3 pairs, one batch of 3 pairs is written, followed by an empty batch | each batch holds `batch_size` pairs ("size of each write batch"), i.e. commit when `(count + 1) % batch_size == 0` | not executed | KvStore.FirstBatchOversized | KvStore.LevelDB.BatchWriteBySize |
