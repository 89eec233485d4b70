# Prompt-catalog moderation pipeline, modelled in Dafny

`generate.py` builds `public/prompts.json` in four steps:

1. It collects prompt records from two catalogs: JoestarMarket, which is paged 16 records at a time, and VmoranvMarket, which answers in one response.
2. It drops records whose content duplicates an earlier one once whitespace is removed.
3. It sends each record's title, author and content to a remote text-moderation service (Alibaba Cloud's signed RPC API) in 600-character chunks.
4. It keeps only the tags of surviving records that also pass moderation.

This project models that core and proves what it promises:

- `text.dfy`: `clean_text`, which deletes all whitespace.
- `chunking.dfy`: `_split_text`, which makes 600-character slices.
- `encoding.dfy`: `encode_a`, which is `quote_plus` over the UTF-8 bytes followed by three replacements. It is proved to be exactly RFC 3986 percent-encoding with the unreserved set of section 2.3 of RFC 3986 kept literal.
- `signing.dfy`: the sorted parameters, the canonical query and the string to sign.
- `json.dfy`: the few JSON values the code inspects.
- `moderation.dfy`: the verdict of `_check_single_text` and the aggregation in `check_text`.
- `pipeline.dfy`: the deduplicate/moderate/tag-filter loop of `__main__`.
- `fetchers.dfy`: record extraction and pagination in both `get_prompts`.
- `program.dfy`: the whole run.
- `wrappers.dfy` and `seqs.dfy`: `Option`/`Result` and sequence helpers.

Effects are replaced by inputs:

- Each HTTP exchange is an input: the JoestarMarket pages, the VmoranvMarket response, and a `respond` function from posted parameters to an outcome.
- HMAC-SHA1 with base64 is a `sign(key, stringToSign)` function.
- The timestamp, nonce and `json.dumps` payload of each moderation call are a `Call` value.
- The credentials read from the environment are optional strings.
- The pipeline is stated over any per-chunk `verdict: string -> bool`. `Moderation.ChunkVerdict` is the verdict that the signed request for each chunk produces. A verdict is a function, so two checks of the same text within a run agree (see "## Left out").
- An uncaught Python exception, which ends the run before the output file is opened, is an `Err(Crash)`.

The model follows the code, and some behaviour one might expect from this tool is not in it:

- Deduplication is only by cleaned content within one run. There is no content hash, no blacklist, no set of previously written records, and no merging of authors or tags across duplicates. The first occurrence wins even when it is rejected.
- A failed VmoranvMarket request is not benign. `_fetch_all` returns `None`, and `None.get` then raises, so the run ends without writing the file (`Program.Run`).
- Missing credentials do not stop the run. A missing secret raises `TypeError` at `None + "&"`, which is caught, so every non-empty text is rejected while the empty text still passes. A missing key id is signed as the text "None", and `requests` then leaves it out of the request.
- The output file is written even when no record survives.

## Model

| member | source | states |
|---|---|---|
| `Text.Words` | generate.py:220 | `str.split()` yields only non-empty, whitespace-free words |
| `Text.CleanTextSpec` | generate.py:219-220 | the cleaned text has no whitespace; it keeps the non-whitespace characters of the input in their original order; a character occurs in it iff it occurs in the input and is not whitespace; it equals the input iff the input has no whitespace |
| `Text.CleanTextRemovesSpaces` | generate.py:219-220 | `"".join(s.split())` is the input with every whitespace character deleted, one character at a time |
| `Text.CleanTextIdempotent` | generate.py:219-220 | cleaning twice is cleaning once |
| `Text.CleanTextAppend` | generate.py:219-220 | cleaning distributes over concatenation |
| `Chunking.SplitText` | generate.py:127-134 | the `for` loop that appends `content[i:i+600]` builds exactly `Chunks(content)`, which is `[]` for the empty text |
| `Chunking.ChunkSizes` | generate.py:127-134 | there are ceil(len/600) chunks; each has 1 to 600 characters; all but the last have exactly 600 |
| `Chunking.ChunkAt` | generate.py:132-133 | chunk k is the slice `[600k, min(600k+600, len))` of the input |
| `Chunking.ChunksConcat` | generate.py:127-134 | the chunks concatenate back to the input |
| `Encoding.Utf8RoundTrip` | generate.py:156 | the UTF-8 encoding that `quote_plus` applies decodes back to the text |
| `Encoding.PlusReplacement` | generate.py:156-157 | replacing `+` with `%20` in the `quote_plus` output gives plain percent-encoding of the bytes |
| `Encoding.StarReplacement` | generate.py:158 | the `*` replacement never changes anything, because `*` is already escaped |
| `Encoding.TildeReplacement` | generate.py:159 | the `%7E` replacement never changes anything, because `~` is already literal |
| `Encoding.EncodeAIsPercentEncoding` | generate.py:154-160 | `encode_a(s)` is the RFC 3986 percent-encoding of the UTF-8 bytes of `s`: unreserved bytes are literal, all others are `%XX` in upper-case hex |
| `Encoding.EncodeASpec` | generate.py:154-160 | the output has no `+`, no space and no `*`; it uses only unreserved characters, `%` and hex digits; it decodes back to the input; it distributes over concatenation |
| `Encoding.EncodeARoundTrip` | generate.py:154-160 | percent-decoding and then UTF-8-decoding the output of `encode_a` gives the input back |
| `Encoding.EncodeAInjective` | generate.py:154-160 | different texts encode differently |
| `Encoding.EncodeAOfChar` | generate.py:154-160 | A-Z, a-z, 0-9 and `-_.~` pass through unchanged; space becomes `%20`, `*` becomes `%2A` and `/` becomes `%2F` |
| `Encoding.EncodeAOfEscapedChar` | generate.py:154-160 | any other character becomes three characters per UTF-8 byte, the `%XX` escape of each byte in order |
| `Signing.SortByKeySpec` | generate.py:152 | `sorted(params_a.items())` is a permutation of the parameters, strictly ascending by key under Python's string order |
| `Signing.AscendingUnique` | generate.py:152 | only one strictly ascending arrangement exists, so the order is fully determined |
| `Signing.LessTotal` | generate.py:152 | Python's string order is total on distinct strings |
| `Signing.LessTransitive` | generate.py:152 | Python's string order is transitive |
| `Signing.CanonicalQuerySpec` | generate.py:152-164 | reading the canonical query back (split on `&` and `=`, decode each side) gives exactly the sorted parameters, as `encode_a(k)=encode_a(v)` pairs in ascending key order |
| `Signing.StringToSignSpec` | generate.py:165 | the string to sign is `POST&%2F&` followed by `encode_a(query)`, and that tail decodes back to the query |
| `Signing.RequestParamsDistinct` | generate.py:139-150 | the ten request keys are distinct, and none is `Signature` |
| `Signing.SignatureNotSigned` | generate.py:152-173 | `Signature` never appears among the signed parameters; it is added after signing |
| `Moderation.RiskLevel` | generate.py:176-186 | a network error or a non-200 status is an error; a level is read only from a 200 response whose JSON object holds `Data` |
| `Moderation.SingleVerdictSpec` | generate.py:176-193 | the single check fails closed. It passes only for a 200 JSON object holding `Data`. A network error, another status or a non-JSON body fails, and so does a `Data` that is not a dict (`.get` raises `AttributeError`, which is caught). If `Data` is a dict, the check fails exactly when the lower-cased `RiskLevel` (default `""`) is `"high"`, and a non-string level fails |
| `Moderation.LowerIsHigh` | generate.py:185-186 | a level is rejected exactly when it is some capitalisation of `high` |
| `Moderation.Without` | generate.py:142-175 | a parameter stays in the request iff its key is not the one dropped (`requests` leaves out a `None` key id) |
| `Moderation.CheckText` | generate.py:195-206 | `check_text` passes on empty text, and in every case passes exactly when every chunk of `_split_text(content)` passes |
| `Moderation.CheckTextSpec` | generate.py:195-206 | the `<= 600` shortcut agrees with splitting: the texts checked are exactly `_split_text(content)` (none for empty text, one for short text, ceil(len/600) in general), every one is checked, they concatenate to the text, and the text passes iff all of them pass |
| `Moderation.FailingChunkFailsText` | generate.py:204-206 | one failing chunk fails the whole text |
| `Moderation.MissingSecretFailsClosed` | generate.py:166-193 | without a secret key, a text passes iff it is empty |
| `Moderation.PostedSpec` | generate.py:136-193 | with a secret, `_check_single_text` (`CheckSingleText`) posts `Signature` = `sign(secret + "&", "POST&%2F&" + encode_a(canonical query))`. Apart from it, it posts exactly the ten request parameters, less `AccessKeyId` when that is unset. Its verdict is the verdict on the response to that request |
| `Moderation.ChunkVerdictSpec` | generate.py:136-193 | with a secret, a chunk passes exactly when the response to the request posted for it passes, and that request carries `Signature` = the signature of `POST&%2F&` + `encode_a` of the chunk call's canonical query, and otherwise exactly the chunk's call parameters less an unset `AccessKeyId`; without a secret no chunk passes |
| `Pipeline.GateChecksSpec` | generate.py:244-249 | moderation of title, author and content stops at the first failure. The texts checked are a non-empty prefix, all but the last passed, and the record passes iff all three were checked and passed |
| `Pipeline.CheckFields` | generate.py:238-249 | the inner loop's flag is the record's verdict, and it moderates exactly the gate's prefix of the cleaned title, author and content |
| `Pipeline.FilterTagsLoop` | generate.py:254-261 | the tag loop keeps exactly `FilterTags` and moderates every tag's cleaned form in order |
| `Pipeline.FilterTagsSubsequence` | generate.py:254-261 | the kept tags are an order-preserving subsequence of the original tags |
| `Pipeline.FilterTagsCopies` | generate.py:254-261 | every copy of a passing tag is kept, and no copy of a failing one: each tag occurs in the result as often as in the input, or not at all |
| `Pipeline.FilterTagsMembers` | generate.py:254-261 | a tag is kept, uncleaned, iff its cleaned form passes moderation |
| `Pipeline.Generate` | generate.py:228-263 | the main loop, with its `cleaned_prompts` set and `continue`s, writes exactly `Output(prompts)` and moderates exactly `Checked(prompts)` in order |
| `Pipeline.KeptSpec` | generate.py:228-263 | the positions written are strictly increasing, and a record is written iff it is the first with its cleaned content and passes moderation |
| `Pipeline.OutputSpec` | generate.py:228-263 | the output is the input's order-preserving subsequence of admitted records, each with its tags filtered |
| `Pipeline.DuplicateNeverWritten` | generate.py:233-236 | a later record with an earlier record's cleaned content is never written, even when the earlier one was rejected |
| `Pipeline.DuplicateSkipped` | generate.py:233-235 | a record whose cleaned content was already seen adds no output and makes no moderation call |
| `Pipeline.OutputContentsDistinct` | generate.py:228-263 | no two written records have the same cleaned content |
| `Pipeline.OutputRecordsPass` | generate.py:238-263 | every written record passed moderation of title, author and content. These three fields are those of a first-occurrence input record, and its tags are a subsequence of that record's tags whose cleaned forms pass |
| `Fetchers.JoestarItem` | generate.py:47-63 | an item that is not a dict is skipped; an item that does not raise yields a prompt exactly when it is a dict |
| `Fetchers.JoestarItemsSingle` | generate.py:47-63 | one item yields its prompt if it is a dict and nothing otherwise, or the crash it raises |
| `Fetchers.JoestarItemsAppend` | generate.py:47-63 | a page is extracted item by item in order: the prompts of `a + b` are those of `a` followed by those of `b`, and the first item that raises ends the run |
| `Fetchers.JoestarItemsSpec` | generate.py:47-63 | each dict item of a page yields one prompt; other items are skipped |
| `Fetchers.JoestarDefaults` | generate.py:51-56 | a missing title, content, owner, username or tags list gives `无标题`, `无内容`, `匿名用户` or no tags; a present title, content or username is the string stored there, the owner is a dict, and a tags list gives the `name` string of each tag dict, in order |
| `Fetchers.TagNames` | generate.py:56 | one name per tag, in order: each tag is a dict whose `name` is that string |
| `Fetchers.JoestarGetPrompts` | generate.py:35-69 | the paging loop requests `skip` = 0, 16, 32, … up to the last page fetched, and returns the prompts of every page before the first failed or empty one |
| `Fetchers.JoestarFromSpec` | generate.py:41-66 | collecting pages succeeds exactly when paging ends at an empty or failed page, not at one that raises. Its prompts are those of every earlier page, in page order, and a crash is the one the last page raised |
| `Fetchers.LastPageSpec` | generate.py:41-45 | paging stops at the first failed or empty page (or the first page that raises), and every earlier page was non-empty |
| `Fetchers.VmoranvItem` | generate.py:96-114 | an item that is not a published dict is skipped; an item that does not raise yields a prompt exactly when it is a published dict |
| `Fetchers.VmoranvItemsSingle` | generate.py:96-114 | one item yields its prompt if it is a published dict and nothing otherwise, or the crash it raises |
| `Fetchers.VmoranvItemsAppend` | generate.py:96-114 | the list is extracted item by item in order, and the first item that raises ends the run |
| `Fetchers.VmoranvItemsSpec` | generate.py:96-114 | only dict items with status `published` are kept, one prompt each |
| `Fetchers.VmoranvDefaults` | generate.py:103-107 | a missing title, content, author, name or tags gives `无标题`, `无内容`, `匿名用户` or no tags; a present title, content or name is the string stored there, the author is a dict, a tags list gives its strings in order and a tags dict its keys |
| `Fetchers.VmoranvRepeatedTagKey` | generate.py:103-107 | a published item whose tags dict repeats the key `x` yields the tags `["x"]` |
| `Json.KeysOf` | generate.py:255 | iterating a dict visits each stored key once: the keys visited are exactly those present, pairwise distinct |
| `Json.KeysOfDistinct` | generate.py:255 | without repeated keys the dict's keys are visited in the order they were written |
| `Json.KeysOfRepeated` | generate.py:255 | a key written again does not change the keys visited or their order |
| `Fetchers.VmoranvGetPrompts` | generate.py:86-117 | a failed request crashes the run with `AttributeError`; a response object without `data` gives no prompts |
| `Program.Run` | generate.py:212-263 | the run writes the moderated output of JoestarMarket's prompts followed by VmoranvMarket's. It crashes exactly when a fetcher does, and always when the VmoranvMarket request failed |

## Left out

- HTTP requests, `raise_for_status`, `response.json()` and `time.sleep`: network I/O. The responses are inputs, and a failed request is `None`.
- HMAC-SHA1 and base64 (generate.py:167-171): an uninterpreted `sign` function of the key and the string to sign.
- `datetime.now`, `uuid.uuid4` and `json.dumps` (generate.py:144-149): the opaque strings of a `Call`.
- `os.getenv` (generate.py:122-123): the credentials are optional strings. The endpoint URL is a constant of the request and is not modelled.
- The JSON file write and every `print` (generate.py:265-269 and throughout): output with no logic.
- Moderation.Lower: lower-cases ASCII only. No non-ASCII character lower-cases to a single `h`, `i` or `g`, so the comparison with `"high"` is unaffected.
- JSON numbers are integers only; no field the code reads is compared with a number.
- A JSON object keeps every member as written. A lookup takes the value of the key's last occurrence and iteration visits each key once, at its first occurrence, as the dict that `json.loads` builds does.
- Strings hold Unicode scalar values only. A Python `str` can hold a lone surrogate, as a JSON `"\ud800"` escape produces, and the model cannot represent one.
- The in-place `prompt["tags"] = compliant_tags` (generate.py:261) is modelled as a new record with filtered tags. Nothing reads the old record afterwards, so the aliasing cannot be observed.
- Fetchers.JoestarItem: a non-string title, author, content or tag is reported as a crash at extraction. Python raises `AttributeError` later, in `clean_text`. For title, author and content the run ends either way. For a tag, Python raises only if the record reaches the tag filter, so the model can crash on runs that Python completes.
- Fetchers.VmoranvItem: iterates the `tags` value and requires its elements to be strings at extraction. Python stores `prompt_data.get("tags", [])` unchanged (generate.py:107) and iterates it only in the tag filter (generate.py:255), for records that reach it. A published item whose tags are `null`, a number or a list holding non-strings therefore crashes the model even when Python would skip the record as a duplicate or a moderation failure and complete the run.
- Moderation.ChunkVerdict: each check of a text is a fresh signed call in the source, with a new timestamp and `uuid4` nonce (generate.py:144-146, 175), so two checks of the same text could get different answers. The model takes the verdict to be a function of the text, so repeated checks within a run agree: a title equal to the author, a repeated tag, one title in two records. `Pipeline.FilterTagsMembers`, `Pipeline.FilterTagsCopies` and every pipeline lemma rely on this.
- Fetchers.JoestarGetPrompts: pages are a finite sequence, and a request past its end counts as failed. A server that never returns an empty page would keep Python's loop running forever.
- The outer `except` of `check_text` (generate.py:207-209) cannot fire, because `_check_single_text` catches every exception. It is not modelled.
- Whitespace for `str.split()` is the fixed set of code points for which Python's `str.isspace` holds. Every proof about `clean_text` holds for any whitespace predicate.
