# quick_learner text core, modelled in Dafny

quick_learner is a single-run script (`main.py`). It takes a YouTube URL, fetches
the video's English transcript, has a language model translate it and format it
as markdown, and uploads the result to a Notion database as one or more pages.
This project models the part of that script that is plain text processing and
proves properties of it:

- **Video identifier extraction** (`VideoId`). The model follows
  `extract_youtube_video_id`. The identifier is read after the first `v=` up to
  the first `&`, or else it is the text after the first `youtu.be/`. Any other
  URL is rejected with `InvalidYouTubeUrl`.
- **Transcript text** (`Transcript`). This is the single-space join of the
  transcript entries' texts.
- **Chunker** (`Chunker`). `split_text` cuts the text into slices of at most
  `max_length` characters (2000 by default), at fixed offsets.
- **Block converter** (`Blocks`). `markdown_to_notion_blocks` turns each
  `'\n'`-separated line into at most one block, using the first prefix rule that
  matches: `# `, `## `, `### `, `- ` or `1. `. A blank line is skipped and any
  other line becomes a paragraph. It is a `method` with a loop, proved against
  the function `BlocksOf`.
- **Page assembly and upload** (`Upload`). In `upload_to_notion`, empty content
  is replaced by `"No content available"`. Each chunk becomes one page titled
  `"{title} - Part {n}"`, holding that chunk's blocks. Each creation call may
  fail without stopping the others. The Notion page store is the class
  `NotionPages`, and its `Create` may succeed or fail. The loop is the method
  `UploadToNotion`, proved against the list of planned pages `PlannedPages`.
- **Python string operations** (`PyStrings`). These are the operations the
  script is built from, stated on `seq<char>`: `in`, `startswith`, `split`,
  `join`, `strip` and `str(n)`.

The code is modelled as written, including two consequences of its use of `split`:

- Because the code is `split("v=")[1].split("&")[0]`, the identifier stops at a
  `&` and also at a second `v=` (`VideoId.IsWatchId`).
- Because the code is `split("youtu.be/")[1]`, the identifier read after
  `youtu.be/` stops at a second `youtu.be/` (`VideoId.ExtractShortUrl`).

## Model

| member | source | states |
|---|---|---|
| PyStrings.Contains | main.py:25-28 | `sep in s`: some position holds `sep`. A definition; its relation to the search is stated in IndexOfSpec and SplitCount. |
| PyStrings.StartsWith | main.py:84-116 | `s.startswith(p)`: the first `|p|` characters are `p`. A definition, used by LineToBlock. |
| PyStrings.Split | main.py:81 | `s.split(sep)` for a non-empty separator, with at least one piece. It is also used at main.py:26 and main.py:28. Its other contracts are in SplitJoin, SplitPartsFree, SplitCount, SplitAt, SplitHead and SplitNone. |
| PyStrings.Join | main.py:37 | `sep.join(parts)`. Its contracts are in SplitJoin and JoinSplit. |
| PyStrings.Strip | main.py:124 | `s.strip()`: `rstrip` of `lstrip`. Its contracts are in StripLeading, StripTrailing and StripEmptyIffBlank. |
| PyStrings.IndexOfSpec | main.py:25-28 | The search finds the leftmost occurrence of the separator. It finds none exactly when the separator does not occur (`sep in s` is false). |
| PyStrings.SplitJoin | main.py:26 | Joining the pieces of `s.split(sep)` with `sep` gives back `s`. |
| PyStrings.JoinSplit | main.py:37 | Splitting what was joined with a one-character separator gives back the parts, when no part holds that character. |
| PyStrings.SplitPartsFree | main.py:81 | No piece of a split contains the separator. |
| PyStrings.SplitCount | main.py:25-28 | A split has two or more pieces exactly when the separator occurs. This is why `split(...)[1]` exists in both branches of the URL parser. |
| PyStrings.SplitAt | main.py:26 | Splitting at the leftmost occurrence gives the text before it, followed by the split of the rest. |
| PyStrings.SplitHead | main.py:26 | The first piece is a prefix free of the separator. It ends at the end of the string or at the separator's first occurrence. |
| PyStrings.SplitNone | main.py:81 | A string with no separator splits into itself alone. |
| PyStrings.StripLeading | main.py:124 | The result is a suffix of the input. What was dropped is all whitespace, and the result does not start with whitespace. |
| PyStrings.StripTrailing | main.py:124 | The result is a prefix of the input. What was dropped is all whitespace, and the result does not end with whitespace. |
| PyStrings.StripEmptyIffBlank | main.py:124 | `line.strip() == ''` holds exactly when every character is Python whitespace. |
| PyStrings.NatToString | main.py:156 | `str(n)` is non-empty and all decimal digits, with a leading `0` only for zero. |
| PyStrings.DecimalValueOfNatToString | main.py:156 | Reading `str(n)` back as a decimal number gives `n`. |
| PyStrings.NatToStringInjective | main.py:156 | Different part numbers print differently. |
| VideoId.ExtractVideoId | main.py:21-30 | It fails (the `ValueError`) exactly when the URL holds neither `v=` nor `youtu.be/`. |
| VideoId.ExtractWatchUrl | main.py:25-26 | With the first `v=` at `i`, it succeeds with the text right after it. That text holds no `&` and no `v=`, and it ends at the end of the URL, at a `&` or at the next `v=`. Nothing is assumed about `youtu.be/`, so the `v=` rule takes priority. |
| VideoId.WatchIdUnique | main.py:26 | At most one text is an identifier (`IsWatchId`) read from a given position. |
| VideoId.ExtractWatchUrlIff | main.py:25-26 | With the first `v=` at `i`, the result is `Ok(id)` if and only if `id` is the identifier read after position `i + 2`. |
| VideoId.ExtractShortUrl | main.py:27-28 | With no `v=` and the first `youtu.be/` at `i`, it succeeds with the text after it, free of `youtu.be/`. That text runs to the end of the URL or to the next `youtu.be/`. |
| VideoId.WatchUrlOfId | main.py:25-26 | `{page}v={id}&{tail}` yields `id` whatever `tail` is, provided `page` holds no `v` and `id` holds no `v` or `&`. |
| VideoId.ShortUrlOfId | main.py:27-28 | `https://youtu.be/{id}` yields `id` when `id` holds no `v` and no `y`. |
| VideoId.WatchUrlExample | main.py:25-26 | `https://www.youtube.com/watch?v=ABC123&t=5` yields `ABC123`. |
| VideoId.ShortUrlExample | main.py:27-28 | `https://youtu.be/XYZ789` yields `XYZ789`. |
| VideoId.WatchMarkerWinsExample | main.py:25-28 | `https://youtu.be/XYZ?v=ABC` yields `ABC`: the `v=` rule is tried first. |
| VideoId.InvalidUrlExample | main.py:29-30 | `https://example.com` is rejected with `InvalidYouTubeUrl`. |
| Transcript.TranscriptText | main.py:37 | `' '.join` of the entries' texts. Its contracts are in TranscriptEntriesRecoverable and TranscriptExample. |
| Transcript.TranscriptEntriesRecoverable | main.py:37 | Entries without spaces are read back by splitting the joined text at its spaces. |
| Transcript.TranscriptExample | main.py:37 | The entries `Hello` and `world` make `Hello world`. |
| Chunker.SplitText | main.py:70-74 | `split_text(text, max_length)`: the slices at offsets `0, m, 2m, …` below `len(text)`. Its contracts are in SplitTextRoundTrip, SplitTextShape, SplitTextAt and ShortTextOneChunk. |
| Chunker.SplitTextRoundTrip | main.py:70-74 | Concatenating the chunks gives back the text. |
| Chunker.SplitTextShape | main.py:70-74 | Every chunk but the last has exactly `max_length` characters, and the last has 1 to `max_length`. There are ceil(len / max_length) chunks, and none exactly for the empty text. |
| Chunker.SplitTextAt | main.py:74 | Chunk `k` is the slice `text[k*m : min((k+1)*m, len)]` and starts inside the text. |
| Chunker.ShortTextOneChunk | main.py:74 | A non-empty text of at most `max_length` characters is a single chunk, the text itself. |
| Blocks.LineToBlock | main.py:84-133 | The block for one line, by the first matching rule, or none for a skipped line. Its contracts are in SkippedIffBlank, RenderLineToBlock, LineToBlockRender, ParaLine and OtherNumeralIsPara. |
| Blocks.BlocksOf | main.py:76-134 | What `markdown_to_notion_blocks(text)` returns: the blocks of the `'\n'`-separated lines, in order. Its contracts are in RenderBlocksOfLines, BlocksAtMostLines, BlocksOfLinesAppend and the examples. MarkdownToBlocks is proved equal to it. |
| Blocks.MarkdownToBlocks | main.py:76-134 | The loop returns `BlocksOf(text)`: the blocks of the `'\n'`-separated lines, in order. |
| Blocks.SkippedIffBlank | main.py:84-125 | A line yields no block exactly when no prefix rule matches it and it is blank. The code checks prefixes before blankness, but the order has no effect: a line yields no block exactly when it is blank. |
| Blocks.PrefixedNotBlank | main.py:84-125 | A line that a prefix rule claims is never blank, because every prefix starts with `#`, `-` or `1`. |
| Blocks.RenderLineToBlock | main.py:84-133 | A line that yields a block is that block's prefix followed by its text, so nothing is lost. |
| Blocks.LineToBlockRender | main.py:84-133 | Each block kind is read back from its own prefix plus text, so the first matching rule is the block's own rule. A paragraph needs a non-blank line that no prefix claims. |
| Blocks.ParaLine | main.py:124-133 | A non-blank line that no prefix claims becomes a paragraph holding the whole line. |
| Blocks.OtherNumeralIsPara | main.py:116-133 | A line starting with a digit other than `1` followed by `. ` is a paragraph holding the whole line: only `1. ` makes a numbered item. |
| Blocks.RenderBlocksOfLines | main.py:81-134 | Rendering the blocks gives exactly the lines that were not skipped, in order. |
| Blocks.BlocksAtMostLines | main.py:83-134 | There is at most one block per line. |
| Blocks.BlocksOfLinesAppend | main.py:83-134 | The blocks of two consecutive groups of lines are the blocks of each group, in order. |
| Blocks.EmptyTextNoBlocks | main.py:81 | The empty text is one blank line and yields no blocks. |
| Blocks.SingleLine | main.py:81 | A text without a line break yields the blocks of that one line. |
| Blocks.PrefixedLine | main.py:84-123 | A heading, bullet or numbered block whose text has no line break is read back from its rendered line as that one block. |
| Blocks.SingleParaLine | main.py:124-133 | A single line not starting with `#`, `-`, `1` or whitespace is one paragraph. |
| Blocks.BlankLine | main.py:124-125 | A whitespace-only line yields no block. |
| Blocks.TwoLines | main.py:81-134 | Two lines joined by `'\n'` yield the blocks of each, in order. |
| Blocks.TwoBlockLines | main.py:81-134 | Two non-paragraph blocks rendered on consecutive lines are read back as those two blocks. |
| Blocks.HeadingExample | main.py:84-91 | `# Title` yields `[H1("Title")]`. |
| Blocks.NumberedExample | main.py:116-123 | `1. First` yields `[Numbered("First")]`. |
| Blocks.SecondNumeralExample | main.py:116-133 | `2. Second` yields `[Para("2. Second")]`. |
| Blocks.EmptyBulletExample | main.py:108-115 | `- ` is not blank, and the bullet rule takes it: it yields an empty bullet. |
| Blocks.BlankLineExample | main.py:124-125 | Spaces and a tab yield no block. |
| Blocks.TwoLineExample | main.py:81-134 | `# Title\n- point one` yields `[H1("Title"), Bullet("point one")]`. |
| Upload.PartTitle | main.py:156 | `f"{title} - Part {idx + 1}"`. Its contract is in PartTitleInjective. |
| Upload.PartPage | main.py:148-162 | The page for chunk `idx`: the database, part title `idx + 1` and the chunk's blocks. Its contracts are in PagesOfAt and PlannedPagesShape. |
| Upload.PlannedPages | main.py:140-162 | The pages `upload_to_notion(title, content)` asks to create, in order. Its contracts are in PlannedPagesShape, PlannedTitlesDistinct, ShortContentOnePage and EmptyContentPage. UploadToNotion is proved to request exactly these pages. |
| Upload.UploadTitle | main.py:183 | `f"Translation of {video_id}"`, the title `main` passes. It is used in EndToEndExample and EndToEndUpload. |
| Upload.CreatedPages | main.py:164-168 | The model's own record of which planned pages were created: the pages whose report says `Created`, in order. UploadToNotion states the store gains exactly these. |
| Upload.PageBody | main.py:140-141 | The content chunked is never empty, and it is the content itself whenever that is non-empty. |
| Upload.PagesOf | main.py:146-162 | One page per chunk. |
| Upload.PagesOfAt | main.py:146-162 | Page `i` is part `i + 1` and holds the blocks of chunk `i`. |
| Upload.PlannedPagesShape | main.py:140-162 | There is at least one page, one per chunk of the (defaulted) content, and ceil(len / 2000) of them. The chunks join back to the content. Page `i` is titled `"{title} - Part {i+1}"` and holds the blocks of chunk `i`. |
| Upload.PlannedTitlesDistinct | main.py:156 | No two pages of one upload share a title. |
| Upload.PartTitleInjective | main.py:156 | Equal part titles mean equal part numbers. |
| Upload.ShortContentOnePage | main.py:140-162 | Content of 1 to 2000 characters becomes the single page `"{title} - Part 1"` with the content's blocks. |
| Upload.PlaceholderParagraph | main.py:141 | The placeholder text is a single paragraph. |
| Upload.EmptyContentPage | main.py:140-162 | Empty content becomes one page `"{title} - Part 1"` holding the paragraph `No content available`. |
| Upload.TwoLinePage | main.py:140-162 | Two short non-paragraph blocks on consecutive lines make one page holding those two blocks. |
| Upload.EndToEndExample | main.py:183 | Uploading `# Title\n- point one` under `Translation of {id}` plans one page, `Translation of {id} - Part 1`, holding a heading and a bullet. |
| Upload.NotionPages.constructor | main.py:19 | A new page store has received no creation calls and holds no pages. |
| Upload.NotionPages.Create | main.py:164-168 | Every call is logged as a request for the given page, whatever its outcome. The call either adds exactly that page to the store or leaves the store unchanged. |
| Upload.UploadPart | main.py:146-168 | One iteration builds the page for chunk `idx` (part `idx + 1`, holding the chunk's blocks). Exactly one creation call is made, for that page, and the store gains the page exactly when it is reported created. |
| Upload.UploadToNotion | main.py:136-168 | The creation calls made are exactly the planned pages, one per chunk, in order, whatever the earlier calls' outcomes, so a failed chunk does not stop the later ones. There is one report per planned page, and a created report carries its page's title. The store gains exactly the planned pages reported created, in order. |
| Upload.EndToEndUpload | main.py:136-168 | Uploading `# Title\n- point one` under `Translation of {id}` makes exactly one creation call, for `Translation of {id} - Part 1` holding a heading and a bullet, and gives one report. |

## Left out

- Environment and clients (main.py:8-19): loading `.env` and the API keys is left out. The database identifier `DATABASE_ID` is a parameter, `databaseId`.
- The transcript fetch `YouTubeTranscriptApi.get_transcript` (main.py:36) is a remote call. Its entries' texts are a parameter of `Transcript.TranscriptText`.
- `translate_and_format_text` (main.py:40-68) is a remote language-model call. It returns the stripped reply text (main.py:64), or `None` after printing the error (main.py:66-68). It is outside this model.
- `main` (main.py:170-192) is left out: the reading of the URL with `input`, the top-level `try`/`except` that prints every error, and the choice not to upload when translation gave nothing. The title it passes is modelled as `Upload.UploadTitle`.
- The messages printed after each creation call (main.py:166-168) are left out. Each outcome is a `Report` instead.
- The Notion request's JSON shape (`object`, `type`, `rich_text`, `parent`, `properties`) is left out. A block is the datatype `Blocks.Block` holding its text, and a page request is `Upload.Page`.
- Why a creation call fails is left out: `NotionPages.Create` fails or succeeds nondeterministically.
- A chunk length of zero or less is excluded: the chunker takes `max_length` as a natural number and requires it to be positive. In Python, `range` raises `ValueError` for a step of 0, and a negative step gives an empty range, so `split_text` returns `[]`. The only caller uses 2000.
- Whitespace for `strip()` is Python's `str.isspace` set, written out. A Dafny `char` is a Unicode scalar value, so the lone surrogates a Python `str` can hold are not modelled, and there is no normalisation.
