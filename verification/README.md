# SaveStateDupePatch: the book-size neutralisation policy in Dafny

SaveStateDupePatch is a Bukkit plugin. It stops a chunk-save duplication exploit. The exploit works by storing books with very large page text in containers. The plugin's single class, `Main`, has three event handlers and one helper:

- `getPayloadBytes` joins a book's pages in order, with no separator, and returns the byte length of the result.
- `onBookWrite` is the edit guard. When an edited book measures more than 28000 bytes, it overwrites every page with the placeholder `"Previously saved book content was too big!"` (42 characters). Otherwise it leaves the book as it is.
- `onContainerOpened` is the container sweep. It walks the slots of an opened inventory and skips empty ones. It overwrites every page of every book-and-quill and written book.
- `onBookMove` is the transfer guard. It overwrites every page of a book that a hopper or player moves.

The project is split into four modules:

- `Utf8` (`utf8.dfy`) is the byte encoding. It is UTF-8 as section 3 of RFC 3629 defines it, written out byte by byte, with a per-character decoding round trip.
- `Policy` (`policy.dfy`) holds the constants, the item kinds and items, and the measure. It defines the neutralisation (`Neutralize`), the edit guard's decision (`Enforce`) and what the sweep and the transfer guard do to one item (`RevertItem`, `RevertSlot`). It also holds the lemmas about all of these.
- `Handlers` (`handlers.dfy`) has the imperative side:
  - a `BookMeta` class whose `SetPage` overwrites one page, numbered from 1;
  - the builder loop of `getPayloadBytes`;
  - the `setPage(i + 1, …)` loop;
  - the three handlers. The container is an `array<Option<Item>>`, and `None` stands for a null slot.
- `Scenarios` (`scenarios.dfy`) has concrete situations: an oversized single page, three mid-sized pages, a mixed container, and re-submitting a neutralised book.

Neutralising a book keeps its page count and turns every page into the placeholder. Such a book measures exactly 42 bytes per page. So it is within the threshold only when it has at most 666 pages (`Policy.EnforceWithinThresholdIff`). Enforcing the policy a second time never changes the pages again, whatever the page count.

The plugin's own doc comments describe the container sweep and the transfer guard as reverting only big books: "reverting awkwardly large books to a reasonable size" (`Main.java:22`) and "revert any overloaded books" (`Main.java:58-59`, `Main.java:77-78`). The code at `Main.java:65-71` and `Main.java:82-87` overwrites every book, whatever its size. The model follows the code: `Handlers.OnContainerOpened` and `Handlers.OnBookMove` model it as written; see "## Findings".

## Model

| member | source | states |
|---|---|---|
| Utf8.EncodeChar | src/com/sasha/savestatedupepatch/Main.java:99 | one character encodes to 1–4 bytes, following the RFC 3629 ranges exactly (1 byte below 0x80 and that byte is the character, 2 below 0x800, 3 below 0x10000, else 4); every byte after the first is a continuation byte |
| Utf8.DecodeEncodeChar | src/com/sasha/savestatedupepatch/Main.java:99 | decoding a character's bytes gives back the character, so the encoding loses nothing |
| Utf8.EncodeAppend | src/com/sasha/savestatedupepatch/Main.java:97-99 | the encoding of a concatenation is the concatenation of the encodings |
| Utf8.EncodeLengthBounds | src/com/sasha/savestatedupepatch/Main.java:99 | a string's byte length is between its character count and four times it |
| Utf8.EncodeAsciiLength | src/com/sasha/savestatedupepatch/Main.java:99 | a string of characters below 0x80 has byte length equal to its character count |
| Policy.Enforce | src/com/sasha/savestatedupepatch/Main.java:48-53 | a book of at most 28000 bytes comes back identical; a larger one comes back with the same page count and every page the placeholder |
| Policy.RevertItem | src/com/sasha/savestatedupepatch/Main.java:65-71 | a book (of either book kind) keeps its kind and page count and every page becomes the placeholder, whatever its size; any other item is unchanged |
| Policy.RevertSlot | src/com/sasha/savestatedupepatch/Main.java:63-72 | an empty slot stays empty; an occupied slot holds its item after `RevertItem` |
| Policy.EnforceItem | src/com/sasha/savestatedupepatch/Main.java:57-59 | documented intent of sweep and transfer: non-books and books within the threshold are unchanged; an oversized book keeps kind and page count with every page the placeholder |
| Policy.EnforceSlot | src/com/sasha/savestatedupepatch/Main.java:57-64 | an empty slot stays empty; an occupied slot holds its item after `EnforceItem` |
| Policy.ConcatAppend | src/com/sasha/savestatedupepatch/Main.java:97-98 | joining two page lists and then appending gives the two joined texts one after the other |
| Policy.PayloadBytesIsSumOfPages | src/com/sasha/savestatedupepatch/Main.java:96-99 | the measured size equals the sum of the pages measured one by one (no bytes at seams), and an empty book measures 0 |
| Policy.PayloadBytesBounds | src/com/sasha/savestatedupepatch/Main.java:99 | the measured size is between the character count of the joined text and four times it |
| Policy.SplitPageKeepsSize | src/com/sasha/savestatedupepatch/Main.java:97-99 | splitting one page into two adjacent pages with the same joined text leaves the measured size unchanged |
| Policy.PlaceholderBytes | src/com/sasha/savestatedupepatch/Main.java:51 | the placeholder has 42 characters and 42 bytes |
| Policy.NeutralizedBytes | src/com/sasha/savestatedupepatch/Main.java:50-51 | a neutralised book measures exactly 42 bytes per page |
| Policy.NeutralizedWithinThresholdIff | src/com/sasha/savestatedupepatch/Main.java:48-51 | a neutralised book is within 28000 bytes if and only if it has at most 666 pages |
| Policy.NeutralizeIdempotent | src/com/sasha/savestatedupepatch/Main.java:50-51 | overwriting twice equals overwriting once; overwriting leaves pages unchanged exactly when all are already the placeholder |
| Policy.EnforceIdempotent | src/com/sasha/savestatedupepatch/Main.java:48-53 | enforcing the edit guard twice gives the same pages as once, for every page count |
| Policy.EnforceWithinThresholdIff | src/com/sasha/savestatedupepatch/Main.java:48-53 | after the edit guard a book is within the threshold if and only if it was already, or it has at most 666 pages |
| Policy.EnforceKeepsNeutralized | src/com/sasha/savestatedupepatch/Main.java:48 | a book whose pages are all the placeholder passes the edit guard unchanged |
| Policy.RevertAgreesWithEnforceIff | src/com/sasha/savestatedupepatch/Main.java:63-71 | the as-written sweep/transfer agrees with the size-checked policy if and only if the item is not a book, is oversized, or is already all placeholder |
| Policy.SmallBookIsRewritten | src/com/sasha/savestatedupepatch/Main.java:65-71 | a one-page written book "hi" measures 2 bytes, yet the sweep/transfer as written changes it, while the size-checked policy does not |
| Handlers.BookMeta.constructor | src/com/sasha/savestatedupepatch/Main.java:66 | a book meta fetched from an item holds exactly that item's pages |
| Handlers.BookMeta.SetPage | src/com/sasha/savestatedupepatch/Main.java:51 | page number `page` (from 1) becomes the text, i.e. index `page - 1`; all other pages and the count stay |
| Handlers.GetPayloadBytes | src/com/sasha/savestatedupepatch/Main.java:96-100 | the builder loop returns exactly the byte length of the in-order concatenation (`PayloadBytes`); an empty list gives 0 |
| Handlers.OverwriteEveryPage | src/com/sasha/savestatedupepatch/Main.java:50-52 | calling `setPage(i + 1, …)` for i in 0..n-1 keeps the page count and makes every page the placeholder: no page skipped, none added |
| Handlers.OnBookWrite | src/com/sasha/savestatedupepatch/Main.java:46-55 | the edited book is unchanged when it measures at most 28000 bytes; otherwise it keeps its page count and every page is the placeholder |
| Handlers.OnContainerOpened | src/com/sasha/savestatedupepatch/Main.java:61-74 | the slot count is kept; every slot afterwards is `RevertSlot` of the slot before: null slots and non-books untouched, every book all placeholder with its page count, whatever its size |
| Handlers.OnBookMove | src/com/sasha/savestatedupepatch/Main.java:80-89 | a non-book comes out unchanged; a book keeps kind and page count and every page is the placeholder, whatever its size |
| Handlers.OnContainerOpenedChecked | src/com/sasha/savestatedupepatch/Main.java:57-74 | corrected sweep: every slot afterwards is `EnforceSlot` of the slot before |
| Handlers.OnBookMoveChecked | src/com/sasha/savestatedupepatch/Main.java:76-89 | corrected transfer: non-books and books within the threshold unchanged; an oversized book keeps its page count and every page is the placeholder |
| Scenarios.OversizedSinglePage | src/com/sasha/savestatedupepatch/Main.java:48-53 | one page of 30000 ASCII characters becomes a single placeholder page |
| Scenarios.ThreeMidSizedPages | src/com/sasha/savestatedupepatch/Main.java:48 | three 5000-byte pages measure 15000 and pass the edit guard unchanged |
| Scenarios.MixedContainer | src/com/sasha/savestatedupepatch/Main.java:61-74 | running the sweep on a container holding a null slot, an oversized written book and a sword: the slot count stays 3, the null slot and the sword are untouched, the book becomes one placeholder page; the size-checked sweep gives the same |
| Scenarios.ResubmittedPlaceholder | src/com/sasha/savestatedupepatch/Main.java:48-53 | an oversized book of at most 666 pages is neutralised to within the threshold, and re-submitting it changes nothing |

## Left out

- `onEnable` and `onDisable` (`Main.java:30-40`) are left out. They only print to the console and register the listener with the server.
- Event dispatch, the `EventPriority.HIGHEST` ordering and the server's chunk and NBT serialisation are left out. They belong to Bukkit and the game server, which are not part of this model.
- The clone-versus-reference behaviour of `getNewBookMeta` and `getItemMeta` is left out. So are the write-back calls `setNewBookMeta` and `setItemMeta`. Every write-back is modelled as a direct replacement of the item's pages: in place on the `BookMeta` object for the edit guard, and on the container slot for the sweep.
- Handlers.OnBookMove returns the updated item. The model assumes that the write-back at `Main.java:87` reaches the moved item; whether the host hands out the moved stack or a copy of it is left out.
- Handlers.OnContainerOpened writes each updated item back into its slot as a value. So two slots can never share one `ItemStack` object in the model.
- The `(BookMeta)` casts are left out. Book kinds always carry pages, and other kinds are never inspected.
- The Bukkit material enum is reduced to the two book kinds plus `Other`.
- Handlers.BookMeta.SetPage requires a valid page number. The host throws on an invalid one, but the plugin only ever passes 1..n. Any page-length truncation the host applies is left out; the 42-character placeholder is far below any such limit.
- The platform default charset is fixed to UTF-8. A Dafny `char` is a Unicode scalar value, so lone UTF-16 surrogates are not modelled. Java would encode each of them as one replacement byte.
- `getPayloadBytes` returns a Java `int`. The model uses an unbounded `nat`. A byte array's length is always within `int`, so nothing wraps.
- Metadata other than page text is not measured, exactly as in the plugin: title, author, display name and enchantments are not part of the model.

## Findings

| source | as written | input that shows it | evidently intended | confidence | as-written member | corrected member |
|---|---|---|---|---|---|---|
| src/com/sasha/savestatedupepatch/Main.java:63-71 | the container sweep overwrites every page of every book in the container, with no size check | a container holding a written book with the single page "hi" (2 bytes): its page becomes the placeholder (`Policy.SmallBookIsRewritten`, `Policy.RevertAgreesWithEnforceIff`) | the doc comment at lines 58-59 says "revert any overloaded books": apply the edit guard's 28000-byte check, as `onBookWrite` does | medium; not executed | Handlers.OnContainerOpened | Handlers.OnContainerOpenedChecked |
| src/com/sasha/savestatedupepatch/Main.java:82-87 | the transfer guard overwrites every page of every moved book, with no size check | a hopper moving a written book with the single page "hi": its page becomes the placeholder (`Policy.SmallBookIsRewritten`) | the doc comment at lines 77-78 says "revert any overloaded books upon movement": apply the 28000-byte check | medium; not executed | Handlers.OnBookMove | Handlers.OnBookMoveChecked |
