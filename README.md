# NetHash in Dafny

NetHash extends the SHA-256 digest of a string with eight bytes taken from a
walk through a pinned IPFS snapshot of Wikipedia. The digest is cut into
sixteen big-endian 16-bit chunks. Chunk 0 picks one of eight snapshot
identifiers (CIDs). Each of the eight rounds then does the following:

- it fetches the current page;
- it harvests the two bytes at an offset given by an odd chunk;
- in rounds 0 to 6, it follows the link picked by the next even chunk.

An index of 0 means only the first href is examined. When the page has fewer
accepted links than the index, the last accepted link is followed.
Each harvested 16-bit value `h` is folded to one byte `(h >> 8) ^ (h & 0xff)`.
The 40-byte result is the eight folded bytes followed by the digest.

This project models that traversal engine (`src/nethash.c`), the
command-line switch parser (`src/flag.c`) and the hexadecimal decoding and
comparison of the regression harness (`src/test.c`).

- `bits.dfy`, module `Bits`: C's `&`, `|` and `^` on naturals, bit by bit.
  It also holds the lemmas that turn shift-or into arithmetic.
- `nethash.dfy`, module `NetHash`:
  - `strstr`, `nethash_clean_href`, `nethash_create_url` and
    `nethash_extract_two_bytes`;
  - the link-selection loop of `nethash_extract_href`;
  - the response buffer of `nethash_write_memory_callback`, as a class;
  - `nethash_query_ipfs`, with the network as an oracle;
  - `nethash_compute`, twice. `NetHash`/`After` is a functional state
    machine that states what the result is. The method `Compute` follows the
    C loop over the chunk array, the raw buffer and the output buffer, and is
    proved equal to it.
- `flag.dfy`, module `Flag`: `flag_parse_args` as a class over the two
  globals. A pure fold `Scan` states its meaning.
- `test.dfy`, module `HashTest`: `hex_to_int`, the byte decoding of the `RUN`
  macro, and its comparison loop, both as written and as evidently intended.

The outside world enters through the `Network` datatype:

- `fetch(url)` yields the body received, a failed transfer, or no curl handle.
  A failed transfer is either a curl error or a failed `realloc` in the write
  callback.
- `links(text)` yields the `//a/@href` values of a document in document
  order. It yields `None` when libxml2 cannot parse the document.

Compute's input is the digest, not the string. SHA-256 is not part of this model.

Some behaviour of the code is worth stating outright:

- An index beyond the accepted links keeps the last accepted link. Only a
  page with no accepted link sends the walk back to the root page
  (`OutOfRangeIndexKeepsLastLink`, `NoValidLinkReturnsToRoot`).
- The comment at src/nethash.c:274 says the AND with the harvested value can
  push the link index past its limit. It cannot, since `x & y <= x`: after a
  reduction modulo 2000 the index stays below 2000 (`ModerationBounds`).
- The rejected patterns (`http://`, `https://`, `/ipfs/`, `#`) are rejected
  wherever they occur in the href, not only at its start. `../A/` anywhere
  strips the first five characters.
- A parse failure does not abort. The status of `nethash_extract_href` is
  ignored, and the next URL becomes the root page followed by the current URL.
  A missing curl handle has the same effect and harvests nothing
  (`NoHandleKeepsHarvest`).
- The clamp moves only offsets strictly beyond `strlen` to `strlen - 2`.
  - An offset of `strlen - 1` reads the terminating NUL as its low byte.
  - An offset equal to `strlen` reads the NUL, then the byte after it.
    That byte is the next body byte when the body holds a NUL. When it does
    not, the read falls outside the buffer.

  Reads outside the buffer are undefined behaviour in C. The model stops
  such a walk with an explicit `ReadOutOfBounds` outcome
  (`ReadableUnlessPastTerminator`).

## Model

| member | source | states |
|---|---|---|
| `Bits.And` | src/nethash.c:276 | `a & b` is at most each operand |
| `Bits.Or` | src/nethash.c:225 | C's bitwise OR on naturals, bit by bit; a definition with no contract, whose meaning `OrLow`, `OrByte` and `OrNibble` state |
| `Bits.Xor` | src/nethash.c:304 | C's bitwise XOR on naturals, bit by bit; a definition with no contract, whose meaning `XorBound` and `XorByte` state |
| `Bits.OrLow` | src/nethash.c:225 | shifting `hi` left by k bits and OR-ing in `lo` gives `hi * 2^k + lo` when `lo` has at most k bits |
| `Bits.OrByte` | src/nethash.c:225 | shifting `hi` left by 8 and OR-ing in a byte `lo` gives the big-endian pair `256 * hi + lo` |
| `Bits.OrNibble` | src/test.c:23 | shifting `hi` left by 4 and OR-ing in a nibble `lo` gives `16 * hi + lo` |
| `Bits.XorBound` | src/nethash.c:304 | XOR of two k-bit values is a k-bit value |
| `Bits.XorByte` | src/nethash.c:304 | the folded raw byte fits in `unsigned char` |
| `NetHash.StrStr` | src/nethash.c:51-57 | the result is the first occurrence; there is none exactly when the needle occurs nowhere |
| `NetHash.CleanHref` | src/nethash.c:50-64 | -1 exactly when one of the four patterns occurs; otherwise the href minus five characters when `../A/` occurs, else the href unchanged |
| `NetHash.CleanedLinkIsSafe` | src/nethash.c:50-64 | an accepted link is a suffix of its source and contains none of the rejected patterns |
| `NetHash.CreateUrl` | src/nethash.c:66-73 | the URL is the root page of the CID followed by the href, or by nothing for NULL |
| `NetHash.StrLen` | src/nethash.c:76 | the length up to the first NUL: no NUL before it and a NUL at it when inside the buffer |
| `NetHash.ReadableUnlessPastTerminator` | src/nethash.c:75-80 | for a C string of length at least 2, every offset is read inside the buffer except `strlen` when the body has no NUL |
| `NetHash.ExtractTwoBytes` | src/nethash.c:75-81 | the big-endian pair at the offset, the low byte being the NUL at `strlen - 1`, and the pair at `strlen - 2` for an offset beyond `strlen` |
| `NetHash.ValidLinks` | src/nethash.c:108-117 | the accepted links are no more than the hrefs and none contains a rejected pattern |
| `NetHash.ValidLinksStep` | src/nethash.c:113-117 | examining one more href appends its cleaned form exactly when it is accepted |
| `NetHash.FirstValidLink` | src/nethash.c:113-117 | an accepted first href is the first accepted link |
| `NetHash.ValidLinksPrefix` | src/nethash.c:108-117 | the accepted links of a prefix of the page are a prefix of its accepted links |
| `NetHash.Selected` | src/nethash.c:106-126 | the selected link is always one of the page's accepted links |
| `NetHash.SelectedNone` | src/nethash.c:119-126 | no link (NULL) exactly when the page has no accepted link, or the index is 0 and the first href is rejected |
| `NetHash.HrefAfterExtract` | src/nethash.c:119-126 | a definition with no contract: `href_data` after the selection, the selected link or NULL; `ExtractHref` is proved against it |
| `NetHash.SelectionLoopStep` | src/nethash.c:113-117 | one iteration keeps the count of accepted links and the buffer holding the last of them |
| `NetHash.SelectionLoopExit` | src/nethash.c:119-126 | both ways out of the loop (the end of the list or the `break`) leave the selected link in the buffer |
| `NetHash.ExtractHref` | src/nethash.c:83-132 | status -1 and the buffer untouched when parsing fails; otherwise status 0 and `href_data` is the selected link, or NULL |
| `NetHash.Response.constructor` | src/nethash.c:158-160 | an empty body in a one-byte buffer with no error |
| `NetHash.Response.Write` | src/nethash.c:134-151 | on success the body grows by the `size * nmemb` bytes and stays NUL-terminated; on a failed `realloc` nothing changes but the error flag, and 0 is returned |
| `NetHash.QueryIpfs` | src/nethash.c:153-192 | agrees with `Queried`: -1 on a failed transfer, nothing harvested without a handle, `href_data` untouched when no link is wanted |
| `NetHash.Queried` | src/nethash.c:153-192 | a definition with no contract: the outcome of one query on the oracle; `QueryIpfs` is proved against it and `NoHandleKeepsHarvest` and `NextUrl` use it |
| `NetHash.Chunks` | src/nethash.c:223-227 | sixteen chunks, chunk j being `256 * d[2j] + d[2j+1]` |
| `NetHash.SplitDigest` | src/nethash.c:223-227 | the chunk loop fills the array with `Chunks` of the digest |
| `NetHash.CidTableShape` | src/nethash.c:231-240 | every pinned identifier starts with "ba" |
| `NetHash.Cid` | src/nethash.c:246 | the chosen identifier is an entry of the table |
| `NetHash.CidSelection` | src/nethash.c:246-249 | chunk 0 modulo 8 picks the identifier, and the initial harvested value is 0x6261, never 0 |
| `NetHash.Seed` | src/nethash.c:249 | a definition with no contract: the initial harvested value, `cid[0] << 8` OR-ed with `cid[1]`; `CidSelection` states it is 0x6261 |
| `NetHash.Start` | src/nethash.c:249-256 | a definition with no contract: the state before round 0 (root page URL, seed harvest, no raw byte); `TraversalShape` states its shape |
| `NetHash.ModerationBounds` | src/nethash.c:264-277 | on the main page the offset is below 20000 and the link index below 235; later the offset is the raw chunk and the index is below 2000 and at most the harvested value |
| `NetHash.ByteOffset` | src/nethash.c:264-270 | a definition with no contract: the odd chunk, reduced modulo 20000 on the main page; `ModerationBounds` states its bounds |
| `NetHash.LinkIndex` | src/nethash.c:264-277 | a definition with no contract: the even chunk, modulo 235 on the main page, else modulo 2000 and AND-ed with the harvest; `ModerationBounds` states its bounds |
| `NetHash.Fold` | src/nethash.c:304 | a definition with no contract: `(h >> 8) ^ (h & 0xff)`; `XorByte` states it fits a byte and `RawWrittenOnce` places it |
| `NetHash.Moderate` | src/nethash.c:261-277 | the moderated offset and link index of iteration `i`; without a link round the index keeps its previous value |
| `NetHash.Step` | src/nethash.c:259-305 | a round appends one folded byte, keeps the URL in the last round and otherwise leaves it on the snapshot's root; a stopped round has no hash |
| `NetHash.After` | src/nethash.c:194-325 | a definition with no contract: the state after a number of rounds; `TraversalShape`, `StopIsFinal` and `RawWrittenOnce` state its properties |
| `NetHash.NetHash` | src/nethash.c:194-325 | a definition with no contract: the outcome after eight rounds; `Completed`, `OutputLayout` and `FetchFailureAborts` state it and `Compute` is proved equal to it |
| `NetHash.TraversalShape` | src/nethash.c:252-305 | while running, one raw byte per round has been written and the URL starts with the root page |
| `NetHash.RawWrittenOnce` | src/nethash.c:304 | raw byte j is the fold of the value harvested in round j and is never rewritten |
| `NetHash.StopIsFinal` | src/nethash.c:283-284 | once a round fails, the computation returns that failure |
| `NetHash.FetchFailureAborts` | src/nethash.c:176-178 | a failed transfer in any round makes the whole computation return -1 |
| `NetHash.Completed` | src/nethash.c:307-309 | a walk through all eight rounds yields its raw bytes followed by the digest |
| `NetHash.OutputLayout` | src/nethash.c:304-309 | the hash has 40 bytes: byte j is the fold of round j's harvest and bytes 8..39 are the digest |
| `NetHash.NextUrl` | src/nethash.c:288-301 | in a link round the next URL is the root page followed by the selected link, or the bare root page |
| `NetHash.NoValidLinkReturnsToRoot` | src/nethash.c:286-293 | a page without an accepted link sends the walk back to the root page |
| `NetHash.OutOfRangeIndexKeepsLastLink` | src/nethash.c:114-119 | an index beyond the accepted links follows the last accepted link |
| `NetHash.NoHandleKeepsHarvest` | src/nethash.c:163-165 | without a curl handle the harvested value is unchanged and the root page is prefixed to the current URL |
| `NetHash.RoundStep` | src/nethash.c:259-305 | one loop iteration with the moderated counts is the state machine's round |
| `NetHash.PlayRound` | src/nethash.c:260-302 | the loop body up to the raw write advances `After` by one round or returns the failure |
| `NetHash.Assemble` | src/nethash.c:308-309 | the output is the raw buffer followed by the digest |
| `NetHash.Compute` | src/nethash.c:194-325 | returns what `NetHash` says; on success the output buffer holds the hash, otherwise it is untouched |
| `Flag.Arguments` | src/flag.c:9 | a string is examined exactly when it is some `argv[i]` with `i >= 1`; argument k is `argv[k + 1]`, so `argv[0]` never is |
| `Flag.ArgEffect` | src/flag.c:11-16 | a definition with no contract: one argument turns on `-a` or `-v` when equal to it; `ScanMeaning` states the effect of many |
| `Flag.Scan` | src/flag.c:9-17 | a definition with no contract: the arguments examined in order; `ScanMeaning`, `ScanOrderFree`, `ScanIdempotent` and `ScanNeverClears` state its properties |
| `Flag.ScanMeaning` | src/flag.c:9-17 | a switch ends up on exactly when it was on or some argument equals "-a" (respectively "-v") |
| `Flag.ParsedMeaning` | src/flag.c:4-17 | from the initial state, `flag__assert` is set exactly when some `argv[i]`, i >= 1, is "-a", likewise `flag__verbose` and "-v" |
| `Flag.ScanOrderFree` | src/flag.c:9-17 | the order of the arguments does not matter |
| `Flag.ScanIdempotent` | src/flag.c:11-16 | parsing the same arguments twice is the same as once |
| `Flag.ScanNeverClears` | src/flag.c:11-16 | a switch once set stays set |
| `Flag.OtherArgumentsIgnored` | src/flag.c:11-16 | arguments other than exactly "-a" and "-v", such as "-av", change nothing |
| `Flag.Flags.constructor` | src/flag.c:4-5 | both switches start off |
| `Flag.Flags.ParseArgs` | src/flag.c:7-18 | the new switches are the scan of `argv[1..]` from the old ones: on when on before or named by an argument |
| `HashTest.HexToInt` | src/test.c:9-17 | a value below 16 exactly for a hex digit of either case, and 255 for any other character |
| `HashTest.HexDigitRoundTrip` | src/test.c:10-15 | lower- and upper-case digits of n decode to n |
| `HashTest.HexDigitSpelling` | src/test.c:10-15 | every digit is the lower- or upper-case spelling of its value |
| `HashTest.NibblePair` | src/test.c:23 | two nibbles joined by shift-or fit in a byte, so the cast to `unsigned char` keeps them |
| `HashTest.DecodePair` | src/test.c:23 | a definition with no contract: the shift-or of two decoded digits cast to `unsigned char`; `DecodeDigits` and `DecodeHexByte` state its value |
| `HashTest.DecodeDigits` | src/test.c:23 | two digits decode to `16 * high + low` |
| `HashTest.DecodeHexByte` | src/test.c:23 | the lower-case hex of a byte decodes back to that byte |
| `HashTest.RunCompare` | src/test.c:22-25 | as written: passes exactly when bytes 0..19 match the first 40 hex characters |
| `HashTest.TailNeverCompared` | src/test.c:22 | as written, an output agreeing with the expected one on bytes 0..19 passes whatever its bytes 20..39 are |
| `HashTest.WrongOutputPasses` | src/test.c:22 | forty zero bytes pass against the hex of a different 40-byte output |
| `HashTest.RunCompareAll` | src/test.c:22-25 | corrected: passes exactly when all 40 bytes match the 80 hex characters |
| `HashTest.FullCompareExact` | src/test.c:22-25 | the corrected comparison against the hex of an expected output passes exactly when the output equals it |

## Left out

- SHA-256 (`sha256_compute`, src/sha256.c): `Compute` takes the 32-byte digest as input. The `sha256_length == 32` assertion and the chunk loop's bound are taken as 32.
- The libcurl transfer is the `fetch` oracle: global init, the handle options, the 10-second connect timeout and headers.
- The libxml2 parse and the `//a/@href` XPath query are the `links` oracle.
  - The query's two other failure returns (no XPath context, no result object) are folded into `None`, like a parse failure.
  - The `XML_ATTRIBUTE_NODE` test is left out: every result of `//a/@href` is an attribute node.
  - An href with no text is left out as well.
- Verbose logging (`LOG`, `LOG_ERROR`, the hash printing) and the `flag__assert` assertions are left out: they do not change the result.
- `malloc`/`free`, the leaks on the -1 paths, and the 2000-byte `MEMORY_LIMIT` URL buffer are left out. A URL longer than 2000 bytes overflows that buffer; the model's URLs are unbounded strings.
- `Response.Write` keeps `size * nmemb` unbounded. The `size_t` overflow of that product and of `realloc`'s size is not modelled.
- `ExtractTwoBytes` only covers reads inside the buffer. Reads the source makes outside it (undefined behaviour) become the `ReadOutOfBounds` outcome; the model does not guess a value.
- `ExtractHref` ends its selection loop with a flag in the loop condition, where the source uses `break`. The state on exit is the same.
- Hrefs, URLs and identifiers are `string`s; each `char` stands for one byte of the C text, so the `links` oracle yields the href's UTF-8 bytes one character each. `CleanHref` dropping five characters is the source's `src + 5`, five bytes; Unicode text as such is not modelled.
- `Compute` keeps `memory` and `href_data` as one string. The source's pointer aliasing between the two buffers is not modelled. The temporary copy used to rebuild the URL is not modelled either.
- The regression vectors of src/test.c depend on live network content, so they are not modelled. Neither are its `main`, its timing or `t_run_test`. The example program is not part of this model.

## Findings

| source | as written | input that shows it | evidently intended | confidence | as-written member | corrected member |
|---|---|---|---|---|---|---|
| src/test.c:22 | the `RUN` loop runs `i` over the expectation's hex characters with `i < NETHASH_SIZE` (40) and `i += 2`, so it compares only output bytes 0..19 | an output of forty zero bytes against the hex text of forty bytes whose last byte is 1: the test passes | `i < 2 * NETHASH_SIZE`, comparing all 40 bytes against the 80 hex characters | not executed | `HashTest.RunCompare` with `HashTest.TailNeverCompared` and `HashTest.WrongOutputPasses` | `HashTest.RunCompareAll` with `HashTest.FullCompareExact` |
