# ulauncher-lmgen in Dafny

A model of the two pieces of logic in `main.py` of the ulauncher-lmgen
launcher extension. The extension sends a typed prompt to a local
text-generation service and shows the returned completions as copyable
result items.

- `wrap_text(text, max_w)` is the greedy word wrapper that formats each
  completion. `Text` models the Python string operations it uses:
  `split()`, `strip()` and `join`, with whitespace taken to be exactly
  the code points `str.isspace` accepts. `Wrap` models the wrapper at two
  levels:
  - `WrapLines`/`WrapText` is the loop as written, with its
    `current_line` string.
  - `Groups` is the same greedy decision made on groups of words.
  - `GreedyLayout` says declaratively what a greedy grouping is.
  
  The lemmas prove that the loop computes the greedy grouping and that
  the greedy grouping is unique. From that they prove word preservation,
  idempotence, the line-length bound, where empty lines can occur, and
  greediness.
- `KeywordQueryEventListener.on_event` is the handler for one keyword
  query. `Handler` models it as a pure function. It takes the typed
  argument, the HTTP request as a function `post` from request body to
  transport outcome, and the wrap width. It returns the list of result
  items: the placeholder, the request-failure item, the parse-failure
  item, or one "Assistant" item per completion.

`Scenarios` writes the output down in full for families of inputs:
- three words whose second line reaches `max_w + 1` characters;
- a first word longer than `max_w`, which gives an empty first line;
- words that fit on one line, which come back as one line (and exactly
  those stay on one line);
- one fitting completion, from the typed prompt to the item shown.

The wrapper behaves as the code does, not as a wrapper might be expected
to behave:
- The fit test `len(current_line + word) <= max_w` does not count the
  space that is then added. Lines after the first can therefore be
  `max_w + 1` characters long.
- While the first line fills, `current_line` carries a leading space, so
  the first line never exceeds `max_w`.
- A first word longer than `max_w` produces an empty first line.

## Model

| member | source | states |
|---|---|---|
| Text.Split | main.py:17 | `str.split()`: every piece is a non-empty word without whitespace, and the pieces concatenated are exactly the non-whitespace characters of the text, in order |
| Text.Strip | main.py:24-26 | `str.strip()`: the result neither starts nor ends with whitespace, is no longer than the input and keeps all its non-whitespace characters |
| Text.StripIsSlice | main.py:24-26 | `strip()` returns a slice of its input with only whitespace before and after it |
| Text.StripCharacterised | main.py:24-26 | a string is the `strip()` of `s` exactly when it is a slice of `s` with only whitespace around it and it neither starts nor ends with whitespace; inner whitespace is kept |
| Text.SplitJoinWords | main.py:22 | words joined by single spaces split back into exactly the same words |
| Text.SplitJoinLines | main.py:27 | splitting lines joined with `'\n'` gives the words of each line in line order: the newline only separates words |
| Text.StripJoinedWords | main.py:22-25 | `strip()` removes the leading space of the first line's `current_line` and leaves a line of space-joined words unchanged |
| Wrap.WrapTextLoop | main.py:16-27 | the `for` loop with its `lines`/`current_line` variables computes `wrap_text`, and splitting its output gives back the input's words |
| Wrap.Place | main.py:21-25 | one loop step places the word after the words placed so far: the grouping flattens to them plus the word |
| Wrap.PlaceKeepsGreedy | main.py:21-25 | one loop step keeps the grouping greedy: only the first group may be empty, every grown group passed the test, every new group's first word failed it |
| Wrap.Layout | main.py:20-25 | the loop over the words places every word, in order, after the words already grouped |
| Wrap.LayoutKeepsGreedy | main.py:20-25 | the loop over the words keeps the grouping greedy |
| Wrap.Groups | main.py:18-26 | the greedy grouping of the words is a `GreedyLayout` of exactly those words |
| Wrap.WrapLinesIsGroups | main.py:18-26 | the string loop (leading space on the first line, `strip()` on close) yields exactly the greedy groups, each joined by single spaces |
| Wrap.GreedyLayoutUnique | main.py:20-25 | any grouping of the words that meets the greedy conditions is the one the loop computes |
| Wrap.WrapLinesIsGreedy | main.py:16-26 | the output lines are the space-joined groups of a greedy layout of the words, and every greedy layout of the words joins to exactly these lines |
| Wrap.LinesKeepWords | main.py:17-26 | no word is dropped, duplicated or reordered: the words of the lines, line by line, are the input words |
| Wrap.WrapTextKeepsWords | main.py:16-27 | splitting the wrapped text on whitespace gives exactly the words of the input |
| Wrap.WrapTextIdempotent | main.py:16-27 | wrapping already wrapped text with the same width returns it unchanged |
| Wrap.LinesAreJoinedWords | main.py:20-26 | every line is its own words joined by single spaces |
| Wrap.EmptyLines | main.py:19-26 | at least one line; a line is empty exactly when it is the first and there are no words or the first word is longer than `max_w` |
| Wrap.LineLengthBound | main.py:21-25 | the first line is empty or at most `max_w` long; a later line is at most `max_w + 1` long unless it is a single word |
| Wrap.LinesAreGreedy | main.py:21-24 | every line but the last was closed because the next line's first word failed the test as the code measures it |
| Handler.Prompt | main.py:51-54 | nothing is typed exactly when the argument is absent or the empty string; otherwise the argument is the prompt |
| Handler.MapChoices | main.py:100-116 | if every completion yields text, one "Assistant" item per completion in order, holding its wrapped text; otherwise the error of the first failing completion and no items |
| Handler.RenderResponse | main.py:100-125 | a delivered response gives one "Assistant" item per completion, each describing and copying the same wrapped text; otherwise (all or nothing) exactly one parse-failure item titled with the rendered response and copying the error of the first completion that failed; every item has the extension icon |
| Handler.OnEvent | main.py:46-125 | no argument or an empty one gives only the placeholder with no action, whatever the transport; otherwise one request with the prompt, `max_new_tokens` 46, `auto_max_new_tokens` false and `max_tokens_second` 0; a transport failure `e` gives the single item "Request failed: " + e that copies e; every item has the extension icon |
| Scenarios.SecondLineLines | main.py:20-26 | words `a`, `b`, `c` where `b` fails the test against the first line and `b + c` passes it give the lines `a` and `b c`, one character longer than `b` and `c` together |
| Scenarios.SecondLineReachesBoundPlusOne | main.py:16-27 | the same three words as text wrap to `a`, a newline, then `b c` |
| Scenarios.LongFirstWordLines | main.py:20-26 | a first word longer than `max_w` gives the lines "", the word, and the next word |
| Scenarios.LongFirstWordEmptyFirstLine | main.py:16-27 | as text, the result starts with a newline |
| Scenarios.OneLineExactlyWhenFits | main.py:20-26 | non-empty words stay on one line exactly when their space-joined length is at most `max_w`, and that line is their join |
| Scenarios.FittingTextOneLine | main.py:16-27 | text whose words, joined by single spaces, fit in `max_w` comes back as that join: whitespace runs collapse to one space and the ends are trimmed |
| Scenarios.OneCompletion | main.py:51-107 | a non-empty prompt answered by one completion that fits the width shows one "Assistant" item that describes and copies the completion unchanged |

## Left out

- HTTP transport (`requests.post`, main.py:76): network I/O. The model takes it as the function parameter `post` from request body to outcome. The endpoint URL (main.py:47) only matters to the transport.
- JSON decoding and the `['results'][0]['text']` path (main.py:95-96): foreign library calls. A delivered response is given as its `str()` rendering plus the completions under that path. Each completion either yields its text or fails with an error message. As written, line 96 calls `.json()` a second time on the already decoded dict. It also looks up `'results'` outside any `try`. Either failure would escape the handler instead of producing an item. The model does not reproduce that crash. In the code, a response without the expected keys therefore raises at main.py:96 instead of reaching the parse-failure item.
- `line_wrap` (main.py:104): the name is never defined. As written, every completion that yields text raises `NameError` inside the `try`, and the handler shows the parse-failure item. The model takes the wrap width as the explicit parameter `width` instead.
- Logging (main.py:49-123), including the best-effort result logging at lines 118-123: it has no effect on the returned items.
- The ulauncher classes (`Extension`, `EventListener`, `subscribe`, `run`, `RenderResultListAction`; main.py:2-8, 30-38, 128-129) belong to the host framework. Items are a plain datatype, and the list stands for `RenderResultListAction(items)`.
- Python's `str()` of exceptions and of the decoded response is not modelled. The strings arrive as inputs: `Failed(error)`, `BadChoice(error)` and `Response.shown`.
- `split()` and `strip()` are modelled for the fixed set of code points `str.isspace` accepts. Unicode normalisation and encodings play no part.
- Text.Strip: its own contract does not say which characters are removed. The exact slice is stated separately by `Text.StripCharacterised`, so that the many proofs that only call `Strip` do not carry the extra quantifiers.
