# Invoice chatbot — a Dafny model of its deterministic core

The script `invoice_chatbot.py` reads a directory of invoice images, sends each image
to a vision model, and parses the model's reply as JSON. It then
runs a console chat in which every question is sent to a chat model together with the
whole parsed data set and today's date. The only logic in it that does not belong to the
model service, the file system or the console is the following:

- selection of the image files from the directory listing by extension (`image_files.dfy`);
- the clean-up of the model's reply, `text.strip().replace('```json', '').replace('```', '')`
  (`fences.dfy`, built on the Python string operations in `pystr.dfy`);
- the loop that appends each parsed reply and skips a file whose processing raised
  (`extraction.dfy`);
- the chat loop with its `exit` sentinel (`session.dfy`);
- the entry point, which starts the chat only when something was parsed (`program.dfy`).

Everything the script hands to a library or a service is a parameter of the model:
the directory listing is a `seq<string>`; opening an image, calling the vision model and
reading the reply is a function `respond: string -> Option<string>` of the file name;
`json.loads` is a function `parse: string -> Option<V>`, with the parsed value's type `V`
left abstract because the script never looks inside it; the console input is a finite
`seq<string>` of lines; the chat model is a function `ask` of a `Prompt` (date, data,
question); today's date is a string parameter. `None` stands for an exception.
`Options.Option` is the shared optional type.

String operations follow Python's semantics on ASCII: `lower()` maps `A`–`Z` only;
`strip()` removes the ASCII characters Python counts as whitespace (space, 9–13 and
28–31); `replace()` scans left to right and replaces non-overlapping occurrences.

## Model

| member | source | states |
|---|---|---|
| `ImageFiles.IsImageName` | invoice_chatbot.py:36 | the selection test is `lower()` followed by `endswith` on the three extensions; every name it accepts has at least four characters, ends in `g` or `G`, and has a dot in fourth- or fifth-last place |
| `ImageFiles.SelectImages` | invoice_chatbot.py:36 | a name is in the selection exactly when it is in the listing and its lower-cased form ends in `.png`, `.jpg` or `.jpeg`; the selection is a subsequence of the listing (same relative order) and no longer than it |
| `ImageFiles.SelectImagesConcat` | invoice_chatbot.py:36 | selecting from a concatenation is concatenating the selections, so the filter keeps listing order and treats each name on its own |
| `ImageFiles.SelectImagesSingle` | invoice_chatbot.py:36 | a one-name listing keeps its name exactly when it is an image name |
| `ImageFiles.IsImageNameIgnoresCase` | invoice_chatbot.py:36 | a name and its lower-cased form are selected alike |
| `ImageFiles.KeptExamples` | invoice_chatbot.py:36 | `A.JPEG` and `b.Png` are selected |
| `ImageFiles.DroppedExamples` | invoice_chatbot.py:36 | `a.gif`, a bare `jpg` and `x.jpg.txt` are not selected |
| `PyStr.Lower` | invoice_chatbot.py:36 | `lower()` keeps the length and lowers each character in place |
| `PyStr.TrimLeft` | invoice_chatbot.py:65 | the result is the suffix of the input after all its leading whitespace and starts with no whitespace |
| `PyStr.TrimRight` | invoice_chatbot.py:65 | the result is the prefix of the input before all its trailing whitespace and ends with no whitespace |
| `PyStr.Strip` | invoice_chatbot.py:65 | `strip()` returns a slice of the input with only whitespace before and after it, and the slice neither starts nor ends with whitespace |
| `PyStr.StripChars` | invoice_chatbot.py:65 | `strip()` introduces no character that was not in the input |
| `PyStr.Replace` | invoice_chatbot.py:65 | `replace()` with a non-empty pattern, leftmost and non-overlapping; a replacement no longer than the pattern never lengthens the text, and one no shorter never shortens it |
| `PyStr.ReplaceAbsent` | invoice_chatbot.py:65 | `replace()` of a pattern that does not occur returns the input unchanged |
| `PyStr.DeleteKeepsChars` | invoice_chatbot.py:65 | replacing a pattern by the empty string introduces no new character |
| `Fences.StripFences` | invoice_chatbot.py:65 | the two `replace` calls leave neither ```` ``` ```` nor ```` ```json ````, including fences the first replacement forms by joining backticks, and never lengthen the text |
| `Fences.Clean` | invoice_chatbot.py:65 | the text given to `json.loads` is the stripped reply with the fences deleted; it never contains ```` ``` ```` or ```` ```json ```` and is never longer than the reply |
| `Fences.DeleteFenceLeavesNone` | invoice_chatbot.py:65 | after `.replace('```', '')` no ```` ``` ```` is left in the text, whatever the input |
| `Fences.JoinedFenceRemoved` | invoice_chatbot.py:65 | on ```` `` ```` + ```` ```json ```` + `` ` `` the first replacement forms a new ```` ``` ````, which the second removes, leaving the empty string |
| `Fences.StripFencesIdempotent` | invoice_chatbot.py:65 | the two replacements applied a second time change nothing |
| `Fences.CleanWithoutBackticks` | invoice_chatbot.py:65 | a reply with no backtick is only stripped |
| `Fences.CleanKeepsChars` | invoice_chatbot.py:65 | every character of the cleaned text occurs in the reply |
| `Fences.CleanFencedBody` | invoice_chatbot.py:65 | a backtick-free body between ```` ```json ```` and ```` ``` ```` cleans to exactly that body: stripping happens before the fences are deleted, so the whitespace the fences enclosed is kept |
| `Fences.CleanKeepsInnerWhitespace` | invoice_chatbot.py:65 | an instance: ```` ```json\n{}\n``` ```` cleans to `\n{}\n`, newlines included |
| `Fences.CleanNotIdempotent` | invoice_chatbot.py:65 | so the whole clean-up, strip included, is not idempotent: cleaning that reply twice gives `{}` |
| `Extraction.Step` | invoice_chatbot.py:57-72 | the `try` body for one file: a file yields a value only when the model call returned a reply, and that value is what `json.loads` returned on a text that holds neither ```` ``` ```` nor ```` ```json ```` and is no longer than the reply |
| `Extraction.Contribution` | invoice_chatbot.py:69-72 | one file adds at most one entry: nothing exactly when its step raised, otherwise the value the step returned |
| `Extraction.Collected` | invoice_chatbot.py:56-74 | the accumulated list has at most one entry per selected file |
| `Extraction.ParseInvoicesFromImages` | invoice_chatbot.py:35-74 | the returned list is the per-file results of the selected files, in file order: a file whose step (open, model call, clean-up, `json.loads`) returns a value adds that value, a file whose step raises adds nothing; its length is at most the number of selected files |
| `Extraction.CollectedConcat` | invoice_chatbot.py:56-69 | the result for a batch is the result for its first part followed by the result for the rest |
| `Extraction.FailureSkipped` | invoice_chatbot.py:56-72 | a file whose step raises adds nothing and the files after it are still processed |
| `Extraction.SuccessAppended` | invoice_chatbot.py:62-69 | the value a file's step returns is appended unchanged, between the results of the files before and after it |
| `Extraction.CollectedMembers` | invoice_chatbot.py:56-74 | a value is in the result exactly when some selected file's step returned it |
| `Extraction.CollectedEmpty` | invoice_chatbot.py:56-74 | the result is empty exactly when every selected file's step raised |
| `Extraction.CollectedAll` | invoice_chatbot.py:56-74 | when no step raises, the result has one entry per file and entry `i` is file `i`'s value |
| `Session.IsExit` | invoice_chatbot.py:97 | the sentinel test holds exactly when the lower-cased question equals `exit`, with no trimming |
| `Session.FirstExit` | invoice_chatbot.py:95-99 | the index of the first sentinel line: every line before it is not a sentinel, the line at it is one, or it is the number of lines when there is none |
| `Session.FirstExitFound` | invoice_chatbot.py:95-99 | the loop meets a sentinel before running out of lines exactly when some line is a sentinel |
| `Session.SentinelExamples` | invoice_chatbot.py:97 | `exit`, `EXIT` and `Exit` end the chat; ` exit`, `exit ` and `quit` do not |
| `Session.StartChatbot` | invoice_chatbot.py:93-120 | exactly the lines before the first sentinel are asked, in order, each with that line as the question and the same date and data; the sentinel line itself is never asked; the session ends with goodbye exactly when a first sentinel exists among the lines, and otherwise at end of input |
| `Program.RunScript` | invoice_chatbot.py:128-135 | the warning branch is taken exactly when the parsed list is empty, which by `CollectedEmpty` is when every selected image failed; otherwise the chat runs over that parsed list with the turns `StartChatbot` promises, and ends with goodbye exactly when some line is the sentinel |

## Left out

- Loading the API key, the missing-key `ValueError`, `genai.configure` and the creation of the two `GenerativeModel` handles (invoice_chatbot.py:12-19, 40, 90): configuration and network; the model service is the opaque `respond` and `ask` functions.
- `os.listdir`, `Path` joining, `Image.open` and `tqdm`: file-system and progress I/O; the listing is an input sequence and opening an image is part of `respond`.
- `json.loads`: a library parser, kept as the opaque `parse`.
- The prompt texts, `json.dumps` of the data into the chat prompt, `print` and `input`: console output and template text; a prompt is modelled by its varying parts only (`Session.Prompt`).
- `datetime.date.today()`: the clock; the date is a parameter, read once before the chat loop as in the script.
- The model service is not deterministic, but `respond` and `ask` are functions, so the model assumes that a file or a prompt gets one fixed reply.
- `PyStr.Lower`: does not model Unicode case mapping; only `A`–`Z` are lowered.
- `PyStr.Strip`: does not model the non-ASCII characters Python also counts as whitespace (for example U+0085, U+00A0, U+2000–U+200A).
- `PyStr.Replace`: the empty-pattern case of Python's `replace()` is not modelled; the script only replaces the non-empty constants ```` ```json ```` and ```` ``` ````.
- Exceptions other than those the script catches per file or per turn (for example the `EOFError` of `input()` at end of input) are not modelled as exceptions: running out of lines is the `EndOfInput` ending.
