/** The NetHash traversal engine: a SHA-256 digest steers an eight-round walk
    through a pinned IPFS snapshot of Wikipedia, harvesting two bytes per page.
    The network fetch and the HTML parse are oracles held in a `Network`. */
module NetHash {
  import opened Bits

  datatype Option<T> = None | Some(value: T)

  // ---------------------------------------------------------------------------
  // Substring search (the C library's strstr)

  /** `needle` occurs in `hay` starting at position `i`. */
  predicate OccursAt(hay: string, needle: string, i: nat)
  {
    i + |needle| <= |hay| && hay[i..i + |needle|] == needle
  }

  ghost predicate Occurs(hay: string, needle: string)
  {
    exists i: nat :: OccursAt(hay, needle, i)
  }

  /** Position of the first occurrence of `needle` in `hay`, if any. */
  function StrStr(hay: string, needle: string): (r: Option<nat>)
    ensures r.Some? ==> OccursAt(hay, needle, r.value)
    ensures r.Some? ==> forall i: nat :: i < r.value ==> !OccursAt(hay, needle, i)
    ensures r.None? <==> !Occurs(hay, needle)
    decreases |hay|
  {
    if |needle| > |hay| then None
    else if hay[..|needle|] == needle then
      assert OccursAt(hay, needle, 0);
      Some(0)
    else
      var rest := StrStr(hay[1..], needle);
      assert forall i: nat :: OccursAt(hay, needle, i + 1) <==> OccursAt(hay[1..], needle, i) by {
        forall i: nat ensures OccursAt(hay, needle, i + 1) <==> OccursAt(hay[1..], needle, i) {
          if i + 1 + |needle| <= |hay| {
            assert hay[1..][i..i + |needle|] == hay[i + 1..i + 1 + |needle|];
          }
        }
      }
      assert !OccursAt(hay, needle, 0);
      match rest
      case None =>
        assert !Occurs(hay, needle) by {
          forall i: nat ensures !OccursAt(hay, needle, i) {
            if i > 0 {
              assert !OccursAt(hay[1..], needle, i - 1);
            }
          }
        }
        None
      case Some(i) =>
        assert forall m: nat :: m < i + 1 ==> !OccursAt(hay, needle, m) by {
          forall m: nat | m < i + 1 ensures !OccursAt(hay, needle, m) {
            if m > 0 {
              assert !OccursAt(hay[1..], needle, m - 1);
            }
          }
        }
        Some(i + 1)
  }

  // ---------------------------------------------------------------------------
  // nethash_clean_href

  /** A link is rejected when one of these appears ANYWHERE in it. */
  ghost predicate Rejected(href: string)
  {
    Occurs(href, "http://") || Occurs(href, "https://") || Occurs(href, "/ipfs/") || Occurs(href, "#")
  }

  /** Filters and normalises one href; `None` is the C function's -1. */
  function CleanHref(src: string): (r: Option<string>)
    ensures r.None? <==> Rejected(src)
    ensures r.Some? && Occurs(src, "../A/") ==> |src| >= 5 && r.value == src[5..]
    ensures r.Some? && !Occurs(src, "../A/") ==> r.value == src
  {
    if StrStr(src, "http://").Some? || StrStr(src, "https://").Some?
       || StrStr(src, "/ipfs/").Some? || StrStr(src, "#").Some? then
      None
    else if StrStr(src, "../A/").Some? then
      Some(src[5..])
    else
      Some(src)
  }

  /** An occurrence inside a suffix is an occurrence in the whole string. */
  lemma OccursInSuffix(s: string, k: nat, needle: string)
    requires k <= |s| && Occurs(s[k..], needle)
    ensures Occurs(s, needle)
  {
    var i: nat :| OccursAt(s[k..], needle, i);
    assert s[k..][i..i + |needle|] == s[k + i..k + i + |needle|];
    assert OccursAt(s, needle, k + i);
  }

  /** An accepted link is a suffix of its source and contains none of the
      rejected patterns, so the URL built from it stays on the wiki root. */
  lemma {:induction false} CleanedLinkIsSafe(src: string)
    requires CleanHref(src).Some?
    ensures var d := CleanHref(src).value;
      |d| <= |src| && d == src[|src| - |d|..] && !Rejected(d)
  {
    var d := CleanHref(src).value;
    var k := |src| - |d|;
    assert d == src[k..];
    forall p | p in ["http://", "https://", "/ipfs/", "#"] ensures !Occurs(d, p) {
      if Occurs(d, p) {
        OccursInSuffix(src, k, p);
      }
    }
  }

  // ---------------------------------------------------------------------------
  // nethash_create_url

  /** The root page of a snapshot: the URL every traversal starts from. */
  function Root(cid: string): string
  {
    "https://ipfs.io/ipfs/" + cid + "/wiki/"
  }

  /** `sprintf(url, DOMAIN "ipfs/%s/wiki/%s", cid, href)`, or the root when
      `href` is NULL. */
  function CreateUrl(cid: string, href: Option<string>): (url: string)
    ensures |Root(cid)| <= |url| && url[..|Root(cid)|] == Root(cid)
    ensures url[|Root(cid)|..] == (if href.Some? then href.value else "")
  {
    var domain := "https://ipfs.io/";
    match href
    case None => domain + "ipfs/" + cid + "/wiki/"
    case Some(h) => domain + "ipfs/" + cid + "/wiki/" + h
  }

  // ---------------------------------------------------------------------------
  // nethash_extract_two_bytes

  /** strlen: the length of the C-string view of `s`, up to its first NUL. */
  function StrLen(s: seq<byte>): (n: nat)
    ensures n <= |s|
    ensures forall i :: 0 <= i < n ==> s[i] != 0
    ensures n < |s| ==> s[n] == 0
  {
    if |s| == 0 || s[0] == 0 then 0 else 1 + StrLen(s[1..])
  }

  /** What a C string function sees of a received body. */
  function CString(body: seq<byte>): seq<byte>
  {
    body[..StrLen(body)]
  }

  /** The buffer the write callback leaves behind: the body and a NUL. */
  function Memory(body: seq<byte>): seq<byte>
  {
    body + [0]
  }

  /** Both bytes the C code reads lie inside `Memory(body)`. Outside it the
      source has undefined behaviour. */
  predicate Readable(body: seq<byte>, offset: nat)
  {
    var n := StrLen(body);
    if offset > n then n >= 2 else offset + 1 <= |body|
  }

  /** For a body whose C string has at least two characters, the only offset
      that reads outside the buffer is the string length itself when the body
      holds no NUL: that read goes one past the terminator. */
  lemma ReadableUnlessPastTerminator(body: seq<byte>, offset: nat)
    requires StrLen(body) >= 2
    ensures Readable(body, offset) <==> !(offset == StrLen(body) == |body|)
  {
  }

  /** The big-endian pair at `offset`, or at strlen - 2 when `offset` lies
      strictly beyond strlen. */
  function ExtractTwoBytes(body: seq<byte>, offset: nat): (r: uint16)
    requires Readable(body, offset)
    ensures offset + 2 <= StrLen(body) ==> r == body[offset] as int * 256 + body[offset + 1]
    ensures offset + 1 == StrLen(body) ==> r == body[offset] as int * 256
    ensures offset == StrLen(body) ==> r == Memory(body)[offset + 1]
    ensures offset > StrLen(body) ==>
      r == body[StrLen(body) - 2] as int * 256 + body[StrLen(body) - 1]
  {
    var n := StrLen(body);
    var start := if offset > n then n - 2 else offset;
    var m := Memory(body);
    OrByte(m[start], m[start + 1]);
    Or(m[start] as int * 256, m[start + 1])
  }

  // ---------------------------------------------------------------------------
  // nethash_extract_href: choosing the link to follow

  /** The accepted links of a page, cleaned, in document order. */
  function ValidLinks(hrefs: seq<string>): (r: seq<string>)
    ensures |r| <= |hrefs|
    ensures forall d :: d in r ==> !Rejected(d)
    decreases |hrefs|
  {
    if |hrefs| == 0 then []
    else
      var init := ValidLinks(hrefs[..|hrefs| - 1]);
      var last := hrefs[|hrefs| - 1];
      match CleanHref(last)
      case None => init
      case Some(d) =>
        CleanedLinkIsSafe(last);
        init + [d]
  }

  /** Accepted links of one more href: the earlier ones, then this one if accepted. */
  lemma ValidLinksStep(hrefs: seq<string>, i: nat)
    requires i < |hrefs|
    ensures CleanHref(hrefs[i]).None? ==> ValidLinks(hrefs[..i + 1]) == ValidLinks(hrefs[..i])
    ensures CleanHref(hrefs[i]).Some? ==>
      ValidLinks(hrefs[..i + 1]) == ValidLinks(hrefs[..i]) + [CleanHref(hrefs[i]).value]
  {
    assert hrefs[..i + 1][..i] == hrefs[..i];
  }

  /** When the first href is accepted, its cleaned form is the first accepted link. */
  lemma FirstValidLink(hrefs: seq<string>)
    requires hrefs != [] && CleanHref(hrefs[0]).Some?
    ensures ValidLinks(hrefs) != [] && ValidLinks(hrefs)[0] == CleanHref(hrefs[0]).value
  {
    ValidLinksStep(hrefs, 0);
    assert hrefs[..0] == [];
    ValidLinksPrefix(hrefs, 1);
  }

  /** The accepted links of a prefix of the page are a prefix of its accepted links. */
  lemma {:induction false} ValidLinksPrefix(hrefs: seq<string>, i: nat)
    requires i <= |hrefs|
    ensures ValidLinks(hrefs[..i]) <= ValidLinks(hrefs)
    decreases |hrefs| - i
  {
    if i < |hrefs| {
      var init := hrefs[..|hrefs| - 1];
      assert init[..i] == hrefs[..i];
      ValidLinksPrefix(init, i);
    } else {
      assert hrefs[..i] == hrefs;
    }
  }

  /** The link the selection loop settles on for the moderated index `k`:
      with k == 0 only the first href is examined; otherwise the k-th accepted
      link, or the last accepted one when there are fewer than k. */
  function Selected(hrefs: seq<string>, k: nat): (r: Option<string>)
    ensures r.Some? ==> r.value in ValidLinks(hrefs)
  {
    var valid := ValidLinks(hrefs);
    if k == 0 then
      if |hrefs| == 0 then None
      else if CleanHref(hrefs[0]).None? then None
      else
        FirstValidLink(hrefs);
        CleanHref(hrefs[0])
    else if |valid| == 0 then None
    else if k <= |valid| then Some(valid[k - 1])
    else Some(valid[|valid| - 1])
  }

  /** No link is chosen exactly when the page has no accepted link, or when
      k == 0 and its first href is rejected. */
  lemma {:induction false} SelectedNone(hrefs: seq<string>, k: nat)
    ensures Selected(hrefs, k).None? <==>
      ValidLinks(hrefs) == [] || (k == 0 && (hrefs == [] || CleanHref(hrefs[0]).None?))
  {
    if k == 0 && hrefs != [] && CleanHref(hrefs[0]).Some? {
      FirstValidLink(hrefs);
    }
  }

  /** What `href_data` designates after `nethash_extract_href`: the URL buffer
      untouched when parsing fails, NULL (`None`) when no link was accepted,
      otherwise the buffer holding the selected link. */
  function HrefAfterExtract(parsed: Option<seq<string>>, memory: string, k: nat): Option<string>
  {
    match parsed
    case None => Some(memory)
    case Some(hrefs) => Selected(hrefs, k)
  }

  /** Where the selection loop can stop: after the whole list, or by its
      `break` once the count of accepted links reaches k (after one href when
      k == 0). Either way the buffer holds `Selected`. */
  lemma {:induction false} SelectionLoopExit(nodes: seq<string>, k: nat, i: nat, count: nat, buffer: string)
    requires i <= |nodes|
    requires count == |ValidLinks(nodes[..i])|
    requires count > 0 ==> buffer == ValidLinks(nodes[..i])[count - 1]
    requires || (i == |nodes| && (k > 0 ==> count < k) && (k == 0 ==> i == 0))
             || (count >= k && (k > 0 ==> count == k) && (k == 0 ==> i == 1))
    ensures (if count == 0 then None else Some(buffer)) == Selected(nodes, k)
  {
    ValidLinksPrefix(nodes, i);
    if i == |nodes| {
      assert nodes[..i] == nodes;
    }
    if k == 0 && i == 1 {
      ValidLinksStep(nodes, 0);
      assert nodes[..0] == [];
    }
  }

  /** One iteration of the selection loop keeps the count of accepted links
      and the buffer holding the last of them. */
  lemma SelectionLoopStep(nodes: seq<string>, i: nat, count: nat, buffer: string)
    requires i < |nodes| && count == |ValidLinks(nodes[..i])|
    requires count > 0 ==> buffer == ValidLinks(nodes[..i])[count - 1]
    ensures var r := CleanHref(nodes[i]);
      var count' := if r.Some? then count + 1 else count;
      var buffer' := if r.Some? then r.value else buffer;
      count' == |ValidLinks(nodes[..i + 1])| &&
      (count' > 0 ==> buffer' == ValidLinks(nodes[..i + 1])[count' - 1])
  {
    ValidLinksStep(nodes, i);
  }

  /** `nethash_extract_href` after the HTML parse: `parsed` is the ordered list
      of `//a/@href` values, or `None` when parsing failed. `memory` is the
      URL buffer the accepted links are copied into. */
  method ExtractHref(parsed: Option<seq<string>>, memory: string, hrefCount: nat)
    returns (hrefData: Option<string>, status: int)
    ensures status == (if parsed.None? then -1 else 0)
    ensures hrefData == HrefAfterExtract(parsed, memory, hrefCount)
  {
    if parsed.None? {
      return Some(memory), -1;
    }
    var nodes := parsed.value;
    var buffer := memory;
    var validHrefCount := 0;
    var i := 0;
    var stopped := false;
    while i < |nodes| && !stopped
      invariant 0 <= i <= |nodes|
      invariant validHrefCount == |ValidLinks(nodes[..i])|
      invariant validHrefCount > 0 ==> buffer == ValidLinks(nodes[..i])[validHrefCount - 1]
      invariant !stopped ==> (hrefCount > 0 ==> validHrefCount < hrefCount) && (hrefCount == 0 ==> i == 0)
      invariant stopped ==> validHrefCount >= hrefCount && (hrefCount > 0 ==> validHrefCount == hrefCount)
                            && (hrefCount == 0 ==> i == 1)
    {
      var r := CleanHref(nodes[i]);
      SelectionLoopStep(nodes, i, validHrefCount, buffer);
      if r.Some? {
        validHrefCount := validHrefCount + 1;
        buffer := r.value;
      }
      i := i + 1;
      // the `break` once enough links were accepted
      stopped := validHrefCount >= hrefCount;
    }
    SelectionLoopExit(nodes, hrefCount, i, validHrefCount, buffer);
    hrefData := if validHrefCount == 0 then None else Some(buffer);
    status := 0;
  }

  // ---------------------------------------------------------------------------
  // nethash_write_memory_callback

  /** `struct nethash_ipfs_response`: the growing body buffer of one fetch. */
  class Response {
    var memory: seq<byte>
    var size: nat
    var error: int

    ghost predicate Valid()
      reads this
    {
      |memory| == size + 1
    }

    /** The bytes received so far. */
    ghost function Body(): seq<byte>
      reads this
      requires Valid()
    {
      memory[..size]
    }

    /** `malloc(1)` with size 0: the one byte is uninitialised, so it is a parameter. */
    constructor (uninitialised: byte)
      ensures Valid() && Body() == [] && memory == [uninitialised] && error == 0
    {
      memory := [uninitialised];
      size := 0;
      error := 0;
    }

    /** Appends `itemSize * count` bytes; `reallocOk` tells whether the
        reallocation succeeded. */
    method Write(contents: seq<byte>, itemSize: nat, count: nat, reallocOk: bool)
      returns (written: nat)
      requires Valid() && |contents| == itemSize * count
      modifies this
      ensures Valid()
      ensures reallocOk ==> written == |contents| && size == old(size) + |contents|
      ensures reallocOk ==> Body() == old(Body()) + contents && memory == Memory(Body())
      ensures reallocOk ==> error == old(error)
      ensures !reallocOk ==> written == 0 && error == 1
      ensures !reallocOk ==> memory == old(memory) && size == old(size)
    {
      var realsize := itemSize * count;
      if !reallocOk {
        error := 1;
        return 0;
      }
      memory := memory[..size] + contents + [0];
      size := size + realsize;
      written := realsize;
    }
  }

  // ---------------------------------------------------------------------------
  // nethash_compute: digest chunks, content identifier, moderation

  const CidSize := 8
  const Rounds: nat := 8
  const MaxMainPageCharacters := 20000
  const MaxMainPageLinks := 235
  const MaxPageLinks := 2000

  /** The eight pinned snapshot identifiers. Each is written as two literals
      so that `CidTableShape` can read its first characters, which `Cid` and
      `Seed` rely on. */
  const Cids: seq<string> := [
    "bafybeiaysi4s6lnjev27ln5icwm6t" + "ueaw2vdykrtjkwiphwekaywqhcjze",
    "bafybeieuutdavvf55sh3jktq2dpi2" + "hkle6dtmebe7uklod3ramihyf3xa4",
    "bafybeib66xujztkiq7lqbupfz6arz" + "hlncwagva35dx54nj7ipyoqpyozhy",
    "bafybeih4a6ylafdki6ailjrdvmr7o" + "4fbbeceeeuty4v3qyyouiz5koqlpi",
    "bafybeiazgazbrj6qprr4y5hx277u4" + "g2r5nzgo3jnxkhqx56doxdqrzms6y",
    "bafybeibiqlrnmws6psog7rl5ofeci" + "3ontraitllw6wyyswnhxbwdkmw4ka",
    "bafybeiezqkklnjkqywshh4lg65xbl" + "az2scbbdgzip4vkbrc4gn37horokq",
    "bafybeicpnshmz7lhp5vcowscty4v4" + "br33cjv22nhhqestavb2mww6zbswm"
  ]

  /** The digest cut into big-endian 16-bit chunks, `(d[i] << 8) | d[i + 1]`. */
  function Chunks(digest: seq<byte>): (chunks: seq<uint16>)
    ensures |chunks| == |digest| / 2
    ensures forall j :: 0 <= j < |chunks| ==>
      chunks[j] == digest[2 * j] as int * 256 + digest[2 * j + 1]
    decreases |digest|
  {
    if |digest| < 2 then []
    else
      OrByte(digest[0], digest[1]);
      [Or(digest[0] as int * 256, digest[1])] + Chunks(digest[2..])
  }

  /** Every table entry starts with "ba". */
  lemma CidTableShape(i: nat)
    requires i < CidSize
    ensures |Cids[i]| >= 2 && Cids[i][0] == 'b' && Cids[i][1] == 'a'
  {
  }

  /** The identifier chosen by the first chunk. */
  function Cid(digest: seq<byte>): (cid: string)
    requires |digest| == 32
    ensures cid in Cids && |cid| >= 2 && cid[0] == 'b' && cid[1] == 'a'
  {
    var index := Chunks(digest)[0] % CidSize;
    CidTableShape(index);
    Cids[index]
  }

  /** The initial harvested value `(cid[0] << 8) | cid[1]`. */
  function Seed(cid: string): uint16
    requires |cid| >= 2 && cid[0] == 'b' && cid[1] == 'a'
  {
    OrByte('b' as int, 'a' as int);
    Or(cid[0] as int * 256, cid[1] as int)
  }

  /** Chunk 0 picks a table entry, and the seed it gives is never zero:
      it is 0x6261 ("ba") for every entry. */
  lemma {:induction false} CidSelection(digest: seq<byte>)
    requires |digest| == 32
    ensures 0 <= Chunks(digest)[0] % CidSize < CidSize
    ensures Cid(digest) == Cids[Chunks(digest)[0] % CidSize]
    ensures Seed(Cid(digest)) == 0x6261 != 0
  {
    OrByte('b' as int, 'a' as int);
  }

  /** `two_bytes_count` of a round: reduced modulo 20000 on the main page
      (the first round, `i == 1`) only. */
  function ByteOffset(mainPage: bool, chunk: uint16): nat
  {
    if mainPage then chunk % MaxMainPageCharacters else chunk
  }

  /** `href_count` of a round that selects a link: modulo 235 on the main page,
      later modulo 2000 and then ANDed with the harvested value. */
  function LinkIndex(mainPage: bool, chunk: uint16, harvested: uint16): nat
  {
    if mainPage then chunk % MaxMainPageLinks
    else And(chunk % MaxPageLinks, harvested)
  }

  /** The moderation bounds. Although the source comments that the AND may push
      the index beyond its limit, `x & y <= x` keeps it below 2000. */
  lemma ModerationBounds(mainPage: bool, chunk: uint16, harvested: uint16)
    ensures mainPage ==> ByteOffset(mainPage, chunk) < 20000 && LinkIndex(mainPage, chunk, harvested) < 235
    ensures !mainPage ==> ByteOffset(mainPage, chunk) == chunk
    ensures !mainPage ==> LinkIndex(mainPage, chunk, harvested) <= chunk % 2000 < 2000
    ensures !mainPage ==> LinkIndex(mainPage, chunk, harvested) <= harvested
  {
  }

  /** The raw byte of a round: `(h >> 8) ^ (h & 0xff)`. */
  function Fold(harvested: uint16): byte
  {
    XorByte(harvested / 256, harvested % 256);
    Xor(harvested / 256, harvested % 256)
  }

  // ---------------------------------------------------------------------------
  // nethash_query_ipfs with the transport and the parser as oracles

  /** What one transfer yields: the received body, a failed transfer
      (a curl error or an allocation failure in the callback), or no handle
      at all (`curl_easy_init` returned NULL). */
  datatype FetchResult = Fetched(body: seq<byte>) | FetchFailed | NoHandle

  /** The outside world: the fetch of a URL, and the `//a/@href` values of a
      document in document order (`None` when the HTML parse fails). */
  datatype Network = Network(fetch: string -> FetchResult, links: seq<byte> -> Option<seq<string>>)

  /** The effect of one query on `query_data`: the new harvested value and
      what `href_data` designates; or the -1 return; or a read outside the
      received buffer. */
  datatype Visit = Visited(harvested: uint16, hrefData: Option<string>) | VisitFailed | VisitOutOfBounds

  function Queried(net: Network, url: string, offset: nat, getHref: bool, hrefCount: nat, harvested: uint16): Visit
  {
    match net.fetch(url)
    case FetchFailed => VisitFailed
    case NoHandle => Visited(harvested, Some(url))
    case Fetched(body) =>
      if !Readable(body, offset) then VisitOutOfBounds
      else
        var hrefData := if getHref then HrefAfterExtract(net.links(CString(body)), url, hrefCount) else Some(url);
        Visited(ExtractTwoBytes(body, offset), hrefData)
  }

  /** `nethash_query_ipfs`: fetch the current URL, harvest two bytes and, when
      asked, select the next link. */
  method QueryIpfs(net: Network, url: string, offset: nat, getHref: bool, hrefCount: nat, harvested: uint16)
    returns (visit: Visit)
    ensures visit == Queried(net, url, offset, getHref, hrefCount, harvested)
    ensures visit.Visited? && !getHref ==> visit.hrefData == Some(url)
    ensures visit.Visited? && net.fetch(url).NoHandle? ==> visit.harvested == harvested
  {
    var response := net.fetch(url);
    match response
    case FetchFailed =>
      visit := VisitFailed;
    case NoHandle =>
      visit := Visited(harvested, Some(url));
    case Fetched(body) =>
      if !Readable(body, offset) {
        return VisitOutOfBounds;
      }
      var twoBytes := ExtractTwoBytes(body, offset);
      var hrefData := Some(url);
      if getHref {
        // The status of the extraction is ignored, as in the source.
        var parseStatus;
        hrefData, parseStatus := ExtractHref(net.links(CString(body)), url, hrefCount);
      }
      visit := Visited(twoBytes, hrefData);
  }

  // ---------------------------------------------------------------------------
  // nethash_compute: the eight rounds

  /** The state carried between rounds: the URL buffer, the harvested value
      `two_bytes_data` and the raw bytes written so far. */
  datatype Traversal = Traversal(url: string, harvested: uint16, raw: seq<byte>)

  /** The result of a whole computation: the 40-byte hash; the -1 return of a
      failed fetch; or a read outside a received buffer, where the source's
      behaviour is undefined. */
  datatype Outcome = Hashed(hash: seq<byte>) | FetchError | ReadOutOfBounds

  datatype Progress = Running(state: Traversal) | Stopped(outcome: Outcome)

  /** The initial state: the root page of `cid` and the seed value. */
  function Start(cid: string): Traversal
    requires |cid| >= 2 && cid[0] == 'b' && cid[1] == 'a'
  {
    Traversal(CreateUrl(cid, None), Seed(cid), [])
  }

  /** Round `round` (the loop's `i == 2 * round + 1`, `j == round`). */
  function Step(cid: string, chunks: seq<uint16>, round: nat, st: Traversal, net: Network): (p: Progress)
    requires |chunks| == 16 && round < 8
    ensures p.Stopped? ==> !p.outcome.Hashed?
    ensures p.Running? ==> p.state.raw == st.raw + [Fold(p.state.harvested)]
    ensures p.Running? && round == 7 ==> p.state.url == st.url
    ensures p.Running? && round < 7 ==>
      |Root(cid)| <= |p.state.url| && p.state.url[..|Root(cid)|] == Root(cid)
  {
    var getHref := round < 7;
    var offset := ByteOffset(round == 0, chunks[2 * round + 1]);
    var hrefCount := if getHref then LinkIndex(round == 0, chunks[2 * round + 2], st.harvested) else 0;
    match Queried(net, st.url, offset, getHref, hrefCount, st.harvested)
    case VisitFailed => Stopped(FetchError)
    case VisitOutOfBounds => Stopped(ReadOutOfBounds)
    case Visited(h, hrefData) =>
      var url := if getHref then CreateUrl(cid, hrefData) else st.url;
      Running(Traversal(url, h, st.raw + [Fold(h)]))
  }

  /** The state after the first `rounds` rounds, or how the computation stopped. */
  function After(digest: seq<byte>, net: Network, rounds: nat): Progress
    requires |digest| == 32 && rounds <= 8
  {
    if rounds == 0 then Running(Start(Cid(digest)))
    else
      match After(digest, net, rounds - 1)
      case Running(st) => Step(Cid(digest), Chunks(digest), rounds - 1, st, net)
      case Stopped(o) => Stopped(o)
  }

  /** The result of `nethash_compute` on a digest, given the network. */
  function NetHash(digest: seq<byte>, net: Network): Outcome
    requires |digest| == 32
  {
    match After(digest, net, Rounds)
    case Running(st) => Hashed(st.raw + digest)
    case Stopped(o) => o
  }

  /** While running, one raw byte has been written per round, and the URL is
      always on the root page of the chosen snapshot. */
  lemma {:induction false} TraversalShape(digest: seq<byte>, net: Network, rounds: nat)
    requires |digest| == 32 && rounds <= 8
    ensures After(digest, net, rounds).Running? ==>
      var st := After(digest, net, rounds).state;
      |st.raw| == rounds && |Root(Cid(digest))| <= |st.url| &&
      st.url[..|Root(Cid(digest))|] == Root(Cid(digest))
    ensures After(digest, net, rounds).Stopped? ==> !After(digest, net, rounds).outcome.Hashed?
  {
    if rounds > 0 {
      TraversalShape(digest, net, rounds - 1);
    }
  }

  /** The value harvested in round `round`, if the walk got that far. */
  function HarvestedIn(digest: seq<byte>, net: Network, round: nat): Option<uint16>
    requires |digest| == 32 && round < 8
  {
    match After(digest, net, round + 1)
    case Running(st) => Some(st.harvested)
    case Stopped(_) => None
  }

  /** Raw byte `j` is written once, in round `j`, from the value harvested in
      that round, and is never rewritten afterwards. */
  lemma {:induction false} RawWrittenOnce(digest: seq<byte>, net: Network, rounds: nat, j: nat)
    requires |digest| == 32 && j < rounds <= 8
    requires After(digest, net, rounds).Running?
    ensures HarvestedIn(digest, net, j).Some?
    ensures |After(digest, net, rounds).state.raw| == rounds
    ensures After(digest, net, rounds).state.raw[j] == Fold(HarvestedIn(digest, net, j).value)
  {
    TraversalShape(digest, net, rounds);
    TraversalShape(digest, net, rounds - 1);
    if j < rounds - 1 {
      RawWrittenOnce(digest, net, rounds - 1, j);
    }
  }

  /** Once stopped, the computation stays stopped with the same outcome. */
  lemma {:induction false} StopIsFinal(digest: seq<byte>, net: Network, rounds: nat)
    requires |digest| == 32 && rounds <= 8
    requires After(digest, net, rounds).Stopped?
    ensures After(digest, net, Rounds) == After(digest, net, rounds)
    ensures NetHash(digest, net) == After(digest, net, rounds).outcome
    decreases 8 - rounds
  {
    if rounds < 8 {
      StopIsFinal(digest, net, rounds + 1);
    }
  }

  /** A walk that completes all rounds yields its raw bytes followed by the digest. */
  lemma Completed(digest: seq<byte>, net: Network, st: Traversal)
    requires |digest| == 32 && After(digest, net, Rounds) == Running(st)
    ensures NetHash(digest, net) == Hashed(st.raw + digest)
  {
  }

  /** The output: the eight raw bytes, one per round, then the digest. */
  lemma {:induction false} OutputLayout(digest: seq<byte>, net: Network)
    requires |digest| == 32 && NetHash(digest, net).Hashed?
    ensures |NetHash(digest, net).hash| == 40
    ensures NetHash(digest, net).hash[8..] == digest
    ensures forall j :: 0 <= j < 8 ==>
      (HarvestedIn(digest, net, j).Some? && NetHash(digest, net).hash[j] == Fold(HarvestedIn(digest, net, j).value))
  {
    TraversalShape(digest, net, 8);
    var st := After(digest, net, 8).state;
    var hash := NetHash(digest, net).hash;
    assert hash == st.raw + digest;
    assert hash[8..] == digest;
    forall j | 0 <= j < 8
      ensures HarvestedIn(digest, net, j).Some? && hash[j] == Fold(HarvestedIn(digest, net, j).value)
    {
      RawWrittenOnce(digest, net, 8, j);
      assert hash[j] == st.raw[j];
    }
  }

  /** A failed fetch in any round makes the whole computation fail. */
  lemma FetchFailureAborts(digest: seq<byte>, net: Network, rounds: nat)
    requires |digest| == 32 && rounds < 8 && After(digest, net, rounds).Running?
    requires net.fetch(After(digest, net, rounds).state.url).FetchFailed?
    ensures NetHash(digest, net) == FetchError
  {
    var st := After(digest, net, rounds).state;
    assert Step(Cid(digest), Chunks(digest), rounds, st, net) == Stopped(FetchError);
    StopIsFinal(digest, net, rounds + 1);
  }

  /** In a round that selects a link, the next URL is the root page followed by
      the selected link; it is the bare root page when no link was selected. */
  lemma NextUrl(cid: string, chunks: seq<uint16>, round: nat, st: Traversal, net: Network, body: seq<byte>, hrefs: seq<string>)
    requires |chunks| == 16 && round < 7
    requires net.fetch(st.url) == Fetched(body) && Readable(body, ByteOffset(round == 0, chunks[2 * round + 1]))
    requires net.links(CString(body)) == Some(hrefs)
    ensures var k := LinkIndex(round == 0, chunks[2 * round + 2], st.harvested);
      var p := Step(cid, chunks, round, st, net);
      p.Running? &&
      p.state.url == Root(cid) + (if Selected(hrefs, k).Some? then Selected(hrefs, k).value else "")
  {
    var k := LinkIndex(round == 0, chunks[2 * round + 2], st.harvested);
    var offset := ByteOffset(round == 0, chunks[2 * round + 1]);
    assert Queried(net, st.url, offset, true, k, st.harvested) == Visited(ExtractTwoBytes(body, offset), Selected(hrefs, k));
    var url := Step(cid, chunks, round, st, net).state.url;
    var tail := if Selected(hrefs, k).Some? then Selected(hrefs, k).value else "";
    assert url == url[..|Root(cid)|] + url[|Root(cid)|..];
    assert url[|Root(cid)|..] == tail;
  }

  /** A page without an accepted link sends the walk back to the root page. */
  lemma NoValidLinkReturnsToRoot(cid: string, chunks: seq<uint16>, round: nat, st: Traversal, net: Network, body: seq<byte>, hrefs: seq<string>)
    requires |chunks| == 16 && round < 7
    requires net.fetch(st.url) == Fetched(body) && Readable(body, ByteOffset(round == 0, chunks[2 * round + 1]))
    requires net.links(CString(body)) == Some(hrefs) && ValidLinks(hrefs) == []
    ensures Step(cid, chunks, round, st, net) ==
      Running(Traversal(Root(cid), ExtractTwoBytes(body, ByteOffset(round == 0, chunks[2 * round + 1])), st.raw + [Fold(ExtractTwoBytes(body, ByteOffset(round == 0, chunks[2 * round + 1])))]))
  {
    NextUrl(cid, chunks, round, st, net, body, hrefs);
    SelectedNone(hrefs, LinkIndex(round == 0, chunks[2 * round + 2], st.harvested));
  }

  /** An index beyond the accepted links keeps the LAST accepted link; the walk
      does not fall back to the root page. */
  lemma OutOfRangeIndexKeepsLastLink(cid: string, chunks: seq<uint16>, round: nat, st: Traversal, net: Network, body: seq<byte>, hrefs: seq<string>)
    requires |chunks| == 16 && round < 7
    requires net.fetch(st.url) == Fetched(body) && Readable(body, ByteOffset(round == 0, chunks[2 * round + 1]))
    requires net.links(CString(body)) == Some(hrefs)
    requires 0 < |ValidLinks(hrefs)| < LinkIndex(round == 0, chunks[2 * round + 2], st.harvested)
    ensures Step(cid, chunks, round, st, net).Running?
    ensures Step(cid, chunks, round, st, net).state.url == Root(cid) + ValidLinks(hrefs)[|ValidLinks(hrefs)| - 1]
  {
    NextUrl(cid, chunks, round, st, net, body, hrefs);
  }

  /** A page whose transfer could not even start (no curl handle) harvests
      nothing; a link round then prefixes the root page to the current URL. */
  lemma NoHandleKeepsHarvest(cid: string, chunks: seq<uint16>, round: nat, st: Traversal, net: Network)
    requires |chunks| == 16 && round < 8 && net.fetch(st.url).NoHandle?
    ensures var p := Step(cid, chunks, round, st, net);
      p.Running? && p.state.harvested == st.harvested &&
      p.state.url == (if round < 7 then Root(cid) + st.url else st.url)
  {
    var p := Step(cid, chunks, round, st, net);
    if round < 7 {
      assert p.state.url == p.state.url[..|Root(cid)|] + p.state.url[|Root(cid)|..];
    }
  }

  /** One round of the loop, as `After` sees it: the moderated offset and
      link index go into the query, and its result decides the next state. */
  lemma RoundStep(digest: seq<byte>, net: Network, j: nat, st: Traversal, getHref: bool,
                  offset: nat, hrefCount: nat, visit: Visit)
    requires |digest| == 32 && j < 8 && After(digest, net, j) == Running(st)
    requires getHref == (j < 7)
    requires offset == ByteOffset(j == 0, Chunks(digest)[2 * j + 1])
    requires getHref ==> hrefCount == LinkIndex(j == 0, Chunks(digest)[2 * j + 2], st.harvested)
    requires visit == Queried(net, st.url, offset, getHref, hrefCount, st.harvested)
    ensures visit.VisitFailed? ==> After(digest, net, j + 1) == Stopped(FetchError)
    ensures visit.VisitOutOfBounds? ==> After(digest, net, j + 1) == Stopped(ReadOutOfBounds)
    ensures visit.Visited? ==>
      (After(digest, net, j + 1) ==
       Running(Traversal(if getHref then CreateUrl(Cid(digest), visit.hrefData) else st.url,
                         visit.harvested, st.raw + [Fold(visit.harvested)])))
  {
    if !getHref {
      assert Queried(net, st.url, offset, getHref, hrefCount, st.harvested)
          == Queried(net, st.url, offset, getHref, 0, st.harvested);
    }
  }

  datatype Status = Success | Failure | UndefinedRead

  function StatusOf(o: Outcome): Status
  {
    match o
    case Hashed(_) => Success
    case FetchError => Failure
    case ReadOutOfBounds => UndefinedRead
  }

  /** The chunk loop of `nethash_compute`: `chunks[j] = (d[i] << 8) | d[i + 1]`. */
  method SplitDigest(digest: seq<byte>) returns (chunks: array<uint16>)
    requires |digest| == 32
    ensures fresh(chunks) && chunks[..] == Chunks(digest)
  {
    chunks := new uint16[16];
    var i, j := 0, 0;
    while i < |digest|
      invariant 0 <= j <= 16 && i == 2 * j
      invariant forall m :: 0 <= m < j ==> chunks[m] == Chunks(digest)[m]
    {
      OrByte(digest[i], digest[i + 1]);
      chunks[j] := Or(digest[i] as int * 256, digest[i + 1]);
      i, j := i + 2, j + 1;
    }
  }

  /** The moderation at the head of iteration `i` of the round loop: the new
      `two_bytes_count` and `href_count`. Without a link to select, the link
      index keeps its previous value. */
  method Moderate(chunks: array<uint16>, i: nat, getHref: bool, previous: nat, twoBytesData: uint16)
    returns (twoBytesCount: nat, hrefCount: nat)
    requires chunks.Length == 16 && i < 16 && (getHref ==> i < 15)
    ensures twoBytesCount == ByteOffset(i == 1, chunks[i])
    ensures getHref ==> hrefCount == LinkIndex(i == 1, chunks[i + 1], twoBytesData)
    ensures !getHref && i != 1 ==> hrefCount == previous
  {
    twoBytesCount := chunks[i];
    hrefCount := previous;
    if getHref {
      hrefCount := chunks[i + 1];
    }
    if i == 1 {
      twoBytesCount := twoBytesCount % MaxMainPageCharacters;
      hrefCount := hrefCount % MaxMainPageLinks;
    } else if getHref {
      hrefCount := hrefCount % MaxPageLinks;
      hrefCount := And(hrefCount, twoBytesData);
    }
  }

  /** The two `memcpy` calls that build the final hash. */
  method Assemble(raw: array<byte>, digest: seq<byte>, out: array<byte>)
    requires raw.Length == 8 && |digest| == 32 && out.Length == 40 && raw != out
    modifies out
    ensures out[..] == raw[..] + digest
  {
    forall k | 0 <= k < 8 {
      out[k] := raw[k];
    }
    forall k | 8 <= k < 40 {
      out[k] := digest[k - 8];
    }
  }

  /** The body of the round loop up to the write of the raw byte: moderate the
      chunk pair of iteration `i`, visit the current page and, when the page
      was read, take the harvested value and (in a link round) the next URL.
      What the round means for the whole computation is stated against `After`. */
  method PlayRound(digest: seq<byte>, net: Network, chunks: array<uint16>, cid: string, i: nat,
                   getHref: bool, previous: nat, memory: string, twoBytesData: uint16, ghost raw: seq<byte>)
    returns (hrefCount: nat, visit: Visit, nextMemory: string, nextData: uint16)
    requires |digest| == 32 && chunks.Length == 16 && chunks[..] == Chunks(digest) && cid == Cid(digest)
    requires i % 2 == 1 && i < 16 && getHref == (i < 15)
    requires After(digest, net, i / 2) == Running(Traversal(memory, twoBytesData, raw))
    ensures visit.VisitFailed? ==> NetHash(digest, net) == FetchError
    ensures visit.VisitOutOfBounds? ==> NetHash(digest, net) == ReadOutOfBounds
    ensures visit.Visited? ==> nextData == visit.harvested
    ensures visit.Visited? ==> nextMemory == if getHref then CreateUrl(cid, visit.hrefData) else memory
    ensures visit.Visited? ==>
      After(digest, net, i / 2 + 1) == Running(Traversal(nextMemory, nextData, raw + [Fold(nextData)]))
  {
    var j := i / 2;
    assert i == 2 * j + 1;
    var twoBytesCount;
    twoBytesCount, hrefCount := Moderate(chunks, i, getHref, previous, twoBytesData);
    assert chunks[i] == Chunks(digest)[2 * j + 1];
    assert getHref ==> chunks[i + 1] == Chunks(digest)[2 * j + 2];
    visit := QueryIpfs(net, memory, twoBytesCount, getHref, hrefCount, twoBytesData);
    RoundStep(digest, net, j, Traversal(memory, twoBytesData, raw), getHref, twoBytesCount, hrefCount, visit);
    nextMemory, nextData := memory, twoBytesData;
    match visit
    case VisitFailed =>
      StopIsFinal(digest, net, j + 1);
    case VisitOutOfBounds =>
      StopIsFinal(digest, net, j + 1);
    case Visited(h, hrefData) =>
      nextData := h;
      if getHref {
        nextMemory := CreateUrl(cid, hrefData);
      }
  }

  /** `nethash_compute` on an already computed digest. `out` is the caller's
      `nethash_buffer`; it is written only on success. */
  method Compute(digest: seq<byte>, net: Network, out: array<byte>) returns (status: Status)
    requires |digest| == 32 && out.Length == 40
    modifies out
    ensures status == StatusOf(NetHash(digest, net))
    ensures status == Success ==> out[..] == NetHash(digest, net).hash
    ensures status != Success ==> out[..] == old(out[..])
  {
    var chunks := SplitDigest(digest);

    var cid := Cids[chunks[0] % CidSize];
    assert cid == Cid(digest);
    var twoBytesData := Seed(cid);
    var memory := CreateUrl(cid, None);
    var getHref := true;
    var hrefCount: nat := 0;
    var raw := new byte[8];

    var i, j := 1, 0;
    while i < 16
      modifies raw
      invariant 0 <= j <= 8 && i == 2 * j + 1
      invariant chunks.Length == 16 && chunks[..] == Chunks(digest)
      invariant getHref <==> j < 8
      invariant After(digest, net, j) == Running(Traversal(memory, twoBytesData, raw[..j]))
    {
      if i >= 15 {
        getHref := false;
      }
      assert i / 2 == j;
      var visit;
      hrefCount, visit, memory, twoBytesData :=
        PlayRound(digest, net, chunks, cid, i, getHref, hrefCount, memory, twoBytesData, raw[..j]);
      if visit.VisitFailed? {
        return Failure;
      } else if visit.VisitOutOfBounds? {
        return UndefinedRead;
      }
      ghost var written := raw[..j];
      raw[j] := Fold(twoBytesData);
      assert raw[..j] == written;
      assert raw[..j + 1] == raw[..j] + [raw[j]];
      i, j := i + 2, j + 1;
    }

    assert raw[..] == raw[..8];
    Completed(digest, net, Traversal(memory, twoBytesData, raw[..]));
    Assemble(raw, digest, out);
    status := Success;
  }
}
