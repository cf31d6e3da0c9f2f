# telegram_audio_bot — a Dafny model of its filename, link and file-lookup logic

The bot (`bot.py`) receives a chat message, checks that it looks like a
YouTube link, has `yt_dlp` download the audio as MP3 into `downloads/`, finds
the downloaded file, renames it to a filesystem-safe name and sends it back.
Three pieces of that are logic of the bot's own, and this project models
them and proves what they guarantee:

- **`sanitize_filename`** (`sanitize.dfy`, module `Sanitize`). After
  transliteration, the title goes through three rewrites: every character
  outside `[\w\s-]` is deleted, surrounding whitespace is stripped, and every
  run of `-`/whitespace becomes one `_`. The transliteration is a parameter
  `translit: string -> string`. The regular-expression classes `\w` and `\s`
  are the two predicates of a `CharClass`. The proofs use only three facts
  about them (`CharClass.Valid`): they are disjoint, `_` is a word
  character, and `-` is neither. `AsciiClasses` shows that the real classes,
  restricted to ASCII, meet these facts.
- **The link test** of `handle_message` (`link_filter.dfy`, module
  `LinkFilter`). A message is accepted when it contains `youtube.com` or
  `youtu.be`. Python's substring operator is modelled as a left-to-right
  scan, `Occurs`, and proved equal to "some contiguous slice equals the
  pattern".
- **Locating the downloaded file** in `download_audio` (`downloads.dfy`,
  module `Downloads`). The output directory is a class `OutputDir` holding
  whether the directory exists and its listing. `MakeDirs` creates it when
  missing. `Resolve` works with `expected` (the title plus `.mp3`) and `safe`
  (the sanitised title plus `.mp3`). If `expected` is listed, it is renamed
  to `safe` and the path of `safe` is returned. Otherwise the first `.mp3`
  entry in listing order is returned. Otherwise the result is
  `NotFound`, the model of `FileNotFoundError`. `FirstMp3` is the loop that
  finds that first entry.

`seqs.dfy` (module `Seqs`) holds the sequence helpers the three share:
selecting elements by a predicate, prefix and suffix tests, dropping a
leading or trailing run, and removing an element.

Facts about `bot.py` that the model makes explicit:

- `bot.py` sends the downloaded file whole; there is no segmentation of the
  audio anywhere in it.
- There is no fallback name: `NormalizeEmptyIff` proves that the name is
  empty exactly when the transliterated title holds no word character and
  no `-`. Then `safe` is just `.mp3`.
- `\w` keeps `_` and non-ASCII letters and digits, so the name is not
  limited to ASCII letters and digits. It can also begin or end with `_`,
  because stripping comes before the replacement and `-` is not whitespace
  (" -Hi" becomes "_Hi").

## Model

| member | source | states |
|---|---|---|
| `Sanitize.Filter` | bot.py:27 | after the deletion every character is a word character, whitespace or `-`; a character of the input survives exactly when it is one of those; the result is no longer than the input |
| `Sanitize.Strip` | bot.py:27 | the result is a slice of the input with only whitespace outside it, begins and ends with a non-whitespace character, is empty exactly when the input is all whitespace, and is the input itself when the input has no whitespace at its ends |
| `Sanitize.Collapse` | bot.py:29 | the result is no longer than the input, is empty exactly when the input is, and each of its characters is `_` or a character of the input that is neither `-` nor whitespace; `CollapseWord`, `CollapseRun` and `CollapseNoSep` fix it on every split into words and runs |
| `Sanitize.CollapseRun` | bot.py:29 | a maximal run of `-`/whitespace after a separator-free word becomes exactly one `_`, and the replacement continues after the run |
| `Sanitize.CollapseWord` | bot.py:29 | characters outside `[-\s]` are copied one by one, whatever follows them |
| `Sanitize.Normalize` | bot.py:27-29 | the three rewrites in the source's order; the result is no longer than the transliterated title, and `NormalizeWordChars`, `NormalizeErase`, `NormalizeIdempotent` and `NormalizeEmptyIff` state what it produces |
| `Sanitize.SanitizeFilename` | bot.py:23-30 | the name has only word characters (no whitespace, no `-`), is no longer than the transliterated title, and is empty exactly when that title has no word character and no `-` |
| `Sanitize.NormalizeWordChars` | bot.py:27-29 | every character of the name is a word character |
| `Sanitize.StripKeepsLetters` | bot.py:27 | stripping keeps every letter and digit (every `\w` character but `_`, that is every `str.isalnum()` character), in order |
| `Sanitize.CollapseErase` | bot.py:29 | on filtered input, erasing every `_` from the collapsed string leaves exactly the input's `str.isalnum()` characters (letters, digits and other numeric characters), in order |
| `Sanitize.NormalizeErase` | bot.py:27-29 | erasing every `_` from the name gives exactly the `str.isalnum()` characters (letters, digits and other numeric characters) of the transliterated title in their order; the name adds nothing but underscores |
| `Sanitize.CollapseNoSep` | bot.py:29 | a string with no `-` and no whitespace is left unchanged by the run replacement |
| `Sanitize.NormalizeIdempotent` | bot.py:27-29 | the three rewrites applied to their own output return it unchanged |
| `Sanitize.WordCharsFixed` | bot.py:27-29 | a string of word characters only passes the three rewrites unchanged |
| `Sanitize.NormalizeEmptyIff` | bot.py:27-30 | the name is empty exactly when the transliterated title has no word character and no `-`; there is no fallback name |
| `Sanitize.AsciiClasses` | bot.py:27-29 | Python's `\w` and `\s` on ASCII are disjoint, include `_` among word characters and exclude `-` from both |
| `LinkFilter.Occurs` | bot.py:88 | Python's `in` on strings as a left-to-right scan; `OccursIff` proves it equal to "a contiguous slice equals the pattern" |
| `LinkFilter.Accepted` | bot.py:88 | the message contains `youtube.com` or `youtu.be`; `AcceptedIff` and `AcceptedExtend` state its meaning |
| `LinkFilter.OccursIff` | bot.py:88 | Python's substring test holds exactly when the pattern is a contiguous slice of the text |
| `LinkFilter.AcceptedIff` | bot.py:88 | a message is accepted exactly when `youtube.com` or `youtu.be` is a contiguous slice of it |
| `LinkFilter.OccursExtend` | bot.py:88 | an occurrence survives any text added before and after |
| `LinkFilter.AcceptedExtend` | bot.py:88 | an accepted message stays accepted whatever is written before or after it |
| `Downloads.Join` | bot.py:57-58 | `os.path.join` of a directory and a name ends with the name and, unless the name is absolute, starts with the directory |
| `Downloads.AfterRename` | bot.py:68 | after the rename the new name is listed, the old one is gone unless the two are equal, no other entry changes, renaming to itself changes nothing, and a listing without duplicates keeps none |
| `Downloads.AfterRenameCount` | bot.py:68 | on a listing without duplicates, renaming to a different name leaves one entry fewer when the new name already existed and the same number otherwise |
| `Downloads.OutputDir.MakeDirs` | bot.py:34-35 | afterwards the directory exists and its listing is what it was |
| `Downloads.OutputDir.FirstMp3` | bot.py:70-72 | returns the position of the first listed entry ending in `.mp3`, or nothing exactly when no entry does |
| `Downloads.OutputDir.Rename` | bot.py:68 | the listing becomes the listing after the rename; existence and duplicate-freedom are kept |
| `Downloads.OutputDir.Resolve` | bot.py:57-77 | if `expected` is listed, returns the path of `safe` and the listing is the one after renaming `expected` to `safe`; otherwise nothing changes, and it returns the path of the first `.mp3` entry when there is one, and reports the expected path missing exactly when there is none |

## Left out

- The Telegram side: the `/start` reply, the handler registration, polling
  and the async replies (bot.py:79-108). They are protocol I/O through a
  library that is not part of this model.
- The `yt_dlp` download and the FFmpeg conversion options (bot.py:37-48).
  They are an external tool and network I/O. `Resolve` starts from the
  listing the download left behind.
- The transliteration table of `translit` (bot.py:25). It is a foreign
  library call and stays a parameter.
- Python's Unicode tables for `\w` and `\s`. The model relies on the three
  facts in `CharClass.Valid` only; `AsciiClasses` gives the classes on ASCII.
- Logging, `load_dotenv` and reading `TELEGRAM_TOKEN` (bot.py:10-20, 50, 54,
  61-63, 67, 71). They carry no behaviour.
- Opening, sending and deleting the file (bot.py:92-94), and the error reply
  (bot.py:95-96). These are file and network I/O.
- `Downloads.OutputDir.Resolve`: tests `expected` as an entry name of the
  directory. A title containing `/` makes `os.path.exists` look into
  another directory, which the model does not capture.
- `Downloads.OutputDir.Resolve`: the source lists the directory twice
  (bot.py:70 and 72); the model scans one listing once, so a change to the
  directory between the two calls is not captured.
- `Downloads.AfterRename`: follows `os.rename` and `os.path.join` on POSIX,
  where a rename silently replaces an existing entry of the new name. The
  `OSError`s of `os.rename` (bot.py:68) and `os.makedirs` (bot.py:35) are
  not modelled. These are: `FileExistsError` on Windows when `safe` is
  already there (a leftover of an earlier failed send, since bot.py:94
  removes the file only after sending), a directory named `safe`, and a
  permission error. Each ends in the error reply of bot.py:95-96, an
  outcome `Resolve` does not produce.
- `Downloads.AfterRename`: the position of the new name in the listing is
  up to the file system; the model appends it.
- Concurrent requests sharing `downloads/`. The model handles one request.
