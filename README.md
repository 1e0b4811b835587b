# edit++ core, modelled in Dafny

This project models five pieces of logic from edit++, a terminal text editor written
in Rust, and proves what each one promises:

- **The LSP client** (`src/lsp.rs`). The client talks to a language server over the
  server's stdin and stdout.
  - Every outgoing JSON-RPC message is framed as `Content-Length: N`, a blank line,
    then the body.
  - Requests take ids from a counter that starts at 1. The sending half of each
    request's reply channel is kept in a pending table under that id until a response
    with the id arrives. The receiving half goes back to the caller.
  - Incoming frames are read header line by header line, then exactly `N` bytes of
    body are read.
  - A server message is classified as a response (a `u64` id and a `result`), else as
    a notification. A completion reply is either a bare array of items or a list
    object.
  - The client is the class `Lsp.LspClient`. Its stdin is the byte sequence written
    so far and its stdout the byte sequence not yet read. The JSON serialiser and
    parser are opaque functions given to its constructor.
- **Path normalisation and the project root** (`src/path.rs`).
  - `normalize` folds the components of an absolute path. `.` is dropped, `..` pops
    one component but never the root, and repeated or trailing separators vanish.
  - `find_project_root` walks up from a directory to the nearest one holding
    `Cargo.toml`. The file system is given as the set of existing file paths.
- **The file tree** (`src/bin/edit/draw_filetree.rs`).
  - The tree is flattened into a pre-order listing of visible rows with their depths.
  - `toggle_expanded` flips the first node whose path matches.
  - Each row's label starts with an indentation and an expand/collapse marker.
- **The "Go to line" box** (`src/bin/edit/draw_editor.rs`). `line[:column]`, both
  counted from 1, is parsed into a 0-based point with saturating arithmetic on
  `isize`.
- **Syntax highlighting** (`src/syntax.rs`).
  - A highlighter's events (start of a highlight, end of one, a source range) are
    folded with a stack into `(range, highlight)` spans.
  - The table of supported languages is searched by language and by name.

Modules and files:

| module | file | concern |
|---|---|---|
| `Wrappers` | `wrappers.dfy` | `Option` and `Result` |
| `Strings` | `strings.dfy` | `str::trim` (ASCII whitespace), `split_once`, `" ".repeat(n)` |
| `Decimal` | `decimal.dfy` | `Display` of integers and `str::parse` for `usize` and `isize`, with Rust's error kinds |
| `Json` | `json.dfy` | `serde_json::Value`, and the field access of serde's derived deserialisers |
| `LspFraming` | `lsp_framing.dfy` | the frame writer, the header/body reader as a function of the byte stream, and its round trip |
| `LspMessages` | `lsp_messages.dfy` | request and notification objects, the `ServerMessage` rule, notifications, completion replies |
| `Lsp` | `lsp_client.dfy` | `LspClient`: counter, pending table, stdin and stdout |
| `Paths` | `paths.dfy` | components, `normalize`, `find_project_root` |
| `FileTree` | `filetree.dfy` | `FileTreeNode`, flattening, `toggle_expanded`, the row prefix |
| `GotoPoint` | `goto.dfy` | `validate_goto_point` |
| `Syntax` | `syntax.dfy` | `SupportedLanguage`, the config lookups, the highlight-stack fold |

## Model

| member | source | states |
|---|---|---|
| Lsp.LspClient.constructor | src/lsp.rs:64-70 | A new client has counter 1, no pending requests, no answers and nothing written to stdin. The client invariant holds. |
| Lsp.LspClient.SendMessage | src/lsp.rs:73-82 | If stdin accepts writes, exactly the frame of the serialised message is appended to stdin: header first, then body. Otherwise the result is a write error and nothing is written. |
| Lsp.LspClient.SendRequest | src/lsp.rs:84-103 | The request takes the current counter value as its id, and the counter grows by one. That id was neither pending nor answered, and it joins the pending table. The request object written carries that id. The invariant is kept: every id below the counter is pending or answered, stdin is the frames of all sent messages, and request ids are strictly increasing. |
| Lsp.LspClient.SendNotification | src/lsp.rs:105-112 | The counter and the pending table are unchanged. The framed notification object, which has no id, is appended to stdin. The invariant is kept. |
| Lsp.LspClient.Initialize | src/lsp.rs:114-136 | Sends one `initialize` request under the next id, which becomes pending. |
| Lsp.LspClient.DidOpen | src/lsp.rs:138-147 | Sends one `textDocument/didOpen` notification with the document as a `rust` text at version 1. The counter and pending table are unchanged. |
| Lsp.LspClient.DidChange | src/lsp.rs:149-163 | Sends one `textDocument/didChange` notification carrying the whole new text as a single change. |
| Lsp.LspClient.Completion | src/lsp.rs:165-194 | Sends one `textDocument/completion` request under the next id. The result is the items of the reply: none when the reply channel closed, and an error when the reply is neither shape. |
| Lsp.LspClient.HandleClientMessage | src/lsp.rs:241-257 | A change message sends exactly its `didChange` notification and answers nothing; the counter and pending table are unchanged. A completion message sends exactly one completion request under the next id, which joins the pending table. It yields a completion response exactly when the reply had items. Write and decode errors are passed on. |
| Lsp.LspClient.HandleServerMessage | src/lsp.rs:221-239 | The pending table and the result are those of `Dispatch`. A delivered response records its result under its id. The id invariant is kept. |
| Lsp.LspClient.ReadLine | src/lsp.rs:279 | Consumes stdout up to and including the first LF, or everything when there is none. |
| Lsp.LspClient.ReadExact | src/lsp.rs:292-293 | With enough bytes it returns exactly the next `n` and consumes them. Otherwise it fails and the stream is used up. |
| Lsp.LspClient.ReadHeaderLine | src/lsp.rs:278-288 | One turn of the header loop. End of stream is reported only on an empty stream. Otherwise the line's role matches one step of `ReadHeaders`. |
| Lsp.LspClient.ReadMessage | src/lsp.rs:273-301 | Returns the next message and leaves the rest of stdout, exactly as `NextMessage` on the old stream. This includes the allocation panic for a declared length above `isize::MAX`. |
| Lsp.LspClient.ReadContent | src/lsp.rs:291-300 | With a length above `isize::MAX`, the buffer allocation panics (`CapacityOverflow`) and nothing is read. With any other length, that many bytes are read and decoded. Without one, nothing is read and the result is `None`. |
| Lsp.ServerReadsSent | src/lsp.rs:73-111 | Reading frame after frame from the bytes the client has written gives back the serialised bodies of the messages it sent, in order. |
| Lsp.ResponseReadBack | src/lsp.rs:273-301 | A framed response object with a `u64` id, followed by anything, reads back as that response. Exactly the frame is consumed. |
| Lsp.DispatchResponse | src/lsp.rs:227-233 | A response is delivered exactly when its id is pending, and that id, and only that id, leaves the table. A second response with the same id is unknown, and the result is still `Ok`. |
| Lsp.DispatchNotification | src/lsp.rs:234-236 | A notification leaves the table unchanged. It fails only for a `window/logMessage` whose parameters do not decode. |
| Lsp.IdTableIssue | src/lsp.rs:89-100 | The next id is neither pending nor answered. Issuing it keeps every id below the counter pending or answered, and never both. |
| Lsp.IdTableDispatch | src/lsp.rs:227-233 | Handling any server message keeps that id table invariant. |
| Lsp.RequestLogRequest | src/lsp.rs:89-97 | Appending a request with the current counter value keeps the sent requests' ids strictly increasing and below the incremented counter. |
| Lsp.RequestLogNotification | src/lsp.rs:105-110 | Appending a notification, which carries no id, keeps the sent requests' ids strictly increasing and below the unchanged counter. |
| LspFraming.FrameLines | src/lsp.rs:76-79 | A frame is the ASCII bytes of `Content-Length: `, the decimal byte length of the body and CR LF, then a further CR LF, then the body. |
| LspFraming.LineLength | src/lsp.rs:279 | `read_line`'s extent: up to and including the first LF, or the whole rest. It is never empty on a non-empty stream. |
| LspFraming.LineLengthOfLine | src/lsp.rs:279 | A line ending in its only LF is read whole, whatever follows it. |
| LspFraming.ClassifyHeaderMeaning | src/lsp.rs:282-288 | A line is blank exactly when its trimmed text is empty. It sets or fails the length exactly when its trimmed text starts with `Content-Length: `. The length is the `usize` parse of the rest, and a failed parse is an error. |
| LspFraming.BlankLineKind | src/lsp.rs:282-283 | The line CR LF ends the header block. |
| LspFraming.LengthLine | src/lsp.rs:285-287 | The header line the writer produces is read as that exact length. |
| LspFraming.ReadHeaders | src/lsp.rs:277-289 | What is left after the header loop is a suffix of the input, and strictly shorter when the input is not empty. |
| LspFraming.ReadHeadersStep | src/lsp.rs:277-289 | Reading a header block is one line's step followed by the rest. A blank line reads the body, a length line replaces the length, a bad length is an error, and any other line is ignored. |
| LspFraming.ReadHeadersMeaning | src/lsp.rs:277-300 | The whole reader stated on lines. With no stopping line, i.e. end of stream before a blank line, the result is `Ok(None)`. A bad length is an error. After the blank line, the last `Content-Length` before it decides the body, and with none no body is read. |
| LspFraming.FrameRoundTrip | src/lsp.rs:273-301 | Reading a frame from the writer's frame of any body, followed by anything, returns exactly that body and leaves exactly what followed. The body is at most `isize::MAX` bytes, as every Rust `Vec` is. |
| LspFraming.OversizeLength | src/lsp.rs:287-292 | A header declaring more than `isize::MAX` but at most `usize::MAX` bytes passes the `usize` parse. The buffer allocation then panics, and nothing after the header block is read. |
| LspFraming.FramesReadBack | src/lsp.rs:273-301 | Reading successive frames from a concatenation of frames gives back every body in order. |
| LspMessages.OutboundIds | src/lsp.rs:92-110 | A request object carries its id; a notification object carries none. |
| LspMessages.Classify | src/lsp.rs:37-42 | The response shape, a `u64` `id` with a `result`, is tried first. Otherwise the notification shape, a string `method` with `params`, is tried. A message of neither shape is rejected. |
| LspMessages.ClassifyNotification | src/lsp.rs:41 | Accepts exactly an object with a string `method` and a `params` field, and keeps both. |
| LspMessages.ClassifyResponseObject | src/lsp.rs:40 | A JSON-RPC response object is classified as the response with its id and result. |
| LspMessages.ClassifyServerRequest | src/lsp.rs:37-42 | A request from the server has an id but no `result`, so it falls through to the notification shape, as does a notification. |
| LspMessages.DecodeLogMessage | src/lsp.rs:263 | An object decodes exactly when it has a `type` that is an `i32` number and a `message` that is a string, and gives those two. An array decodes exactly when it holds exactly those two values in that order. Any other value is rejected. |
| LspMessages.LogMessageRead | src/lsp.rs:260-265 | A `window/logMessage` reads back as its type and text. This holds for an object with any further keys and for the two-element array of its fields. An object missing `type` or `message` is an error. |
| LspMessages.DecodeItems | src/lsp.rs:185-186 | A sequence of items decodes exactly when each one does, to the items in the same order. |
| LspMessages.CompletionFromArray | src/lsp.rs:188 | An array reply yields its items in order. |
| LspMessages.CompletionFromList | src/lsp.rs:189 | A list reply yields the same items as the bare array of its `items`, whatever its incompleteness flag and other fields. |
| LspMessages.CompletionRejects | src/lsp.rs:185-186 | A reply that is neither an array nor an object is an error. |
| Json.ExtraFieldsIgnored | src/lsp.rs:263 | A derived struct ignores keys it does not declare: adding or replacing one leaves the fields read unchanged. |
| Json.PositionalForm | src/lsp.rs:185-189 | A derived struct reads an object and the array of that object's field values, in declaration order, to the same fields. |
| Strings.TrimSpec | src/lsp.rs:282 | `trim` removes exactly the leading and trailing whitespace. It gives a slice of the input with no whitespace at either end. |
| Strings.TrimOfSpaces | src/lsp.rs:282 | A line of whitespace only, such as CR LF, trims to the empty text. |
| Strings.TrimOfPaddedText | src/lsp.rs:285 | Text followed by line-ending whitespace trims back to the text. |
| Strings.SplitOnceSpec | src/bin/edit/draw_editor.rs:432 | `split_once` succeeds exactly when the separator occurs. The pieces rebuild the input around its first occurrence. |
| Strings.Repeat | src/bin/edit/draw_filetree.rs:34 | `n` copies of one character. |
| Decimal.Show | src/lsp.rs:77 | Decimal `Display` of a number is a non-empty digit string whose value is that number, with no leading zero except for 0 itself. |
| Decimal.ParseUnsignedOk | src/lsp.rs:287 | `parse::<usize>` succeeds exactly on an optional `+` followed by at least one digit, with a value within the bound. |
| Decimal.ParseUnsignedBound | src/lsp.rs:287 | A successful unsigned parse is within the bound. |
| Decimal.ParseSignedBound | src/bin/edit/draw_editor.rs:436 | A successful signed parse is within the type's range. |
| Decimal.ParseUnsignedShow | src/lsp.rs:287 | The unsigned parse reads back what `Display` wrote. |
| Decimal.ParseSignedShow | src/bin/edit/draw_editor.rs:436 | The signed parse reads back what `Display` wrote. |
| Paths.Normalize | src/path.rs:11-45 | The loop over components computes `Normalized`: the fold of the path's components, rendered. |
| Paths.ComponentsParsed | src/path.rs:15 | The components of a path hold a root only first and `.` only first. Every normal name is non-empty, is not `.` or `..`, and has no separator. An absolute path starts with the root. |
| Paths.FoldNormal | src/path.rs:15-42 | The fold yields only the root and normal names, keeps `root_len` equal to the length of the root, and keeps the root of an absolute path. |
| Paths.FoldOfNormal | src/path.rs:15-42 | Components already in normal form pass through the fold unchanged. |
| Paths.ParentCancels | src/path.rs:23-38 | A normal component followed by `..` leaves the result as if neither were there. |
| Paths.ParentAtRoot | src/path.rs:25-29 | At the root, `..` changes nothing: the root is never popped. |
| Paths.SeparatorsVanish | src/path.rs:22 | An empty piece (from repeated or trailing separators) or a `.` piece contributes no component. |
| Paths.ParentPiece | src/path.rs:23 | A `..` piece after a name becomes a parent component right after that name. |
| Paths.PiecesComponents | src/path.rs:15 | The components of `/` followed by pieces are the root, then the pieces' components. |
| Paths.ComponentsRender | src/path.rs:11-45 | Rendering components in normal form and splitting the text again gives the same components. |
| Paths.NormalizedShape | src/path.rs:18-21 | The result is in normal form: the root, then normal names only. For an absolute path it starts with the root and its text starts with `/`. |
| Paths.NormalizeFixesNormalForm | src/path.rs:15-42 | An already normal path is returned unchanged. |
| Paths.NormalizeIdempotent | src/path.rs:11-45 | Normalising twice is the same as normalising once. |
| Paths.FindProjectRoot | src/path.rs:49-59 | The upward loop returns the first directory, from the start upwards, that holds `Cargo.toml`, or `None`. |
| Paths.AncestorsSpec | src/path.rs:55 | The directories visited start at the start path. Each is the previous one popped, and the last cannot be popped. |
| Paths.FirstRootSpec | src/path.rs:51-58 | The result is the first visited directory holding `Cargo.toml`, with none before it. It is `None` exactly when no visited directory holds one. |
| Paths.RootAtStart | src/path.rs:52-53 | A start directory holding `Cargo.toml` is its own project root. |
| Paths.RootFromChild | src/path.rs:103-123 | From a child `src` directory the root is found one level up when the root holds `Cargo.toml`. The result is `None` when no ancestor of the child's parent holds one. |
| FileTree.FlattenRecursive | src/bin/edit/draw_filetree.rs:85-96 | Appends to the accumulator exactly the node's rows: the node at its depth, then, when expanded, its children's rows one level deeper. |
| FileTree.FlattenTree | src/bin/edit/draw_filetree.rs:77-83 | The listing is the roots' rows at depth 0, root after root. |
| FileTree.NodeRowsDepth | src/bin/edit/draw_filetree.rs:90-93 | A node's first row is the node itself, and every row after it is deeper. |
| FileTree.ForestRowsDepth | src/bin/edit/draw_filetree.rs:80 | No row of a forest listed at depth `d` is shallower than `d`. |
| FileTree.ForestRoots | src/bin/edit/draw_filetree.rs:79-81 | The rows at the listing's own depth are exactly the roots, in input order. |
| FileTree.ListingBlocks | src/bin/edit/draw_filetree.rs:85-96 | Pre-order: every row is immediately followed by that node's own rows, after which the listing returns to its depth or shallower. |
| FileTree.ExpandedShowsChildren | src/bin/edit/draw_filetree.rs:91-95 | Right after an expanded node come its children's rows one level deeper. The rows at that depth are exactly its children, in order. |
| FileTree.CollapsedHidesChildren | src/bin/edit/draw_filetree.rs:91 | A collapsed node is followed by no deeper row, so none of its descendants is shown. |
| FileTree.ToggleExpanded | src/bin/edit/draw_filetree.rs:98-109 | The search loop with early return computes `Toggle`: the tree with the first matching node flipped, and whether one matched. |
| FileTree.ToggleLabels | src/bin/edit/draw_filetree.rs:98-106 | A node is found exactly when some node of the tree, collapsed subtrees included, has the path. Then only the first match in pre-order is flipped. |
| FileTree.ToggleMiss | src/bin/edit/draw_filetree.rs:108 | When nothing matches, the tree is unchanged. |
| FileTree.ToggleShape | src/bin/edit/draw_filetree.rs:100-107 | Paths, directory flags and the child structure are never changed. |
| FileTree.ToggleTwice | src/bin/edit/draw_filetree.rs:101 | Toggling the same path twice restores the tree. The second toggle finds a node exactly when the first did. |
| FileTree.RowPrefix | src/bin/edit/draw_filetree.rs:34-43 | `2*depth` spaces, then `- ` for an expanded directory, `+ ` for a collapsed one, or two spaces for a file. |
| FileTree.PrefixDetermines | src/bin/edit/draw_filetree.rs:34-43 | The prefix determines the depth and whether the node is a directory, and for a directory whether it is expanded. |
| GotoPoint.SaturatingDecrement | src/bin/edit/draw_editor.rs:436 | `saturating_sub(1)` on `isize`: one less, except at `isize::MIN`, which stays. |
| GotoPoint.ValidateGotoPoint | src/bin/edit/draw_editor.rs:430-439 | The loop over the column text and the line text computes `GotoTarget`. It stops at the first part that fails to parse. |
| GotoPoint.PartsSpec | src/bin/edit/draw_editor.rs:432 | The line text is everything before the first `:` and the column text everything after it. Without a `:` the column text is `0`. |
| GotoPoint.GotoRoundTrip | src/bin/edit/draw_editor.rs:430-439 | Any point typed as its 1-based `line:column` is parsed back to that 0-based point. |
| GotoPoint.GotoLineOnly | src/bin/edit/draw_editor.rs:432 | A line number alone gives that line, with column `-1` (the text `0` made 0-based). |
| GotoPoint.GotoSecondColon | src/bin/edit/draw_editor.rs:436 | A second `:` ends up in the column text, and the result is an error. |
| GotoPoint.GotoEmptyParts | src/bin/edit/draw_editor.rs:436 | An empty column text or an empty input is rejected as empty. |
| GotoPoint.GotoEmptyLine | src/bin/edit/draw_editor.rs:436 | An empty line text before a good column is rejected as empty, after the column has parsed. |
| Syntax.NamesDistinct | src/syntax.rs:14-22 | The names `rust`, `cpp` and `python` are pairwise distinct: equal names mean equal languages. |
| Syntax.ToHighlightConfig | src/syntax.rs:33-87 | A language's configuration carries the language's own name and the 18 highlight names. |
| Syntax.FindByLanguage | src/syntax.rs:132-137 | `find` by language succeeds exactly when some entry has the language, and returns the first such entry's config. |
| Syntax.FindByName | src/syntax.rs:142-147 | `find` by name succeeds exactly when some entry's language has the name, and returns the first such entry's config. |
| Syntax.LookupAlwaysSucceeds | src/syntax.rs:132-137 | The table built by `Syntax::new` has an entry for every language. The lookup's `unwrap` never fails, and it returns that language's configuration. |
| Syntax.InjectionLookup | src/syntax.rs:142-147 | An injected language is found exactly when its name is `rust`, `cpp` or `python`. The config found carries the requested name. |
| Syntax.InjectionOwnName | src/syntax.rs:142-147 | Looking up a configuration's own language name finds that configuration. |
| Syntax.StartEndCancel | src/syntax.rs:154-161 | A start immediately closed by an end leaves the stack as it was, whatever was open before it. |
| Syntax.HighlightSpans | src/syntax.rs:139-162 | The loop over the events, with the stack as a local, computes `Spans`. |
| Syntax.SpansFollowSources | src/syntax.rs:149-162 | Exactly one span is produced per source event: the spans' ranges are the source ranges, in input order. |
| Syntax.SpansPrefix | src/syntax.rs:149-162 | More events only add spans after the ones already produced. |
| Syntax.SourceHighlight | src/syntax.rs:150-153 | A source event's span has its range and the highlight on top of the stack its preceding events left. |
| Syntax.StackRelative | src/syntax.rs:154-161 | A group of events that never ends more highlights than it started acts on top of whatever stack precedes it, leaving a stack as deep as its net depth. |
| Syntax.BalancedRestores | src/syntax.rs:154-161 | A balanced group of starts and ends restores the stack. |
| Syntax.InnermostWins | src/syntax.rs:150-157 | A source after a start and a balanced group is highlighted with that start's highlight. |
| Syntax.UnopenedIsDefault | src/syntax.rs:152 | Ends with nothing open leave the stack empty, so the next source gets `Highlight(0)`. |
| Syntax.EndsLeaveEmpty | src/syntax.rs:158-161 | Any number of ends on an empty stack leaves it empty. |

## Left out

- Spawning `rust-analyzer` and piping its stdio (`LspClient::new`) is left out. The server is given as the bytes of its stdout and a flag saying whether its stdin accepts writes.
- `tokio` is left out: the `select!` loop of `run`, `tokio::spawn` in `initialize`, and the channels. The client is sequential. The reply that `completion` awaits is a parameter, with `None` for a closed channel. Whether that reply ever arrives is not modelled: `read_message` is not polled while `completion` waits.
- The code does not release pending requests when the server's output ends, and the model does not either.
- JSON text is not modelled. Serialisation is an opaque function given to the client, and UTF-8 decoding plus `serde_json::from_str` is an opaque partial function. Numbers are integers.
- `Lsp.LspClient.ReadHeaderLine`: header bytes become characters one by one, so `read_line`'s UTF-8 validation and its error are not modelled. Trimming removes ASCII whitespace only, not all Unicode whitespace.
- `Lsp.LspClient.Initialize`: the `InitializeParams` value (process id, current directory) comes from the environment and is a parameter.
- `Lsp.LspClient.HandleClientMessage`: a failing `response_tx.send` of the completion items to the editor is not modelled. The response is returned instead.
- `LspMessages.DecodeItem`: a completion item is checked only for its string `label`. serde's rejection of an item whose optional fields are ill-typed (such as `"detail": 5`) is not modelled, and neither is the positional array form of an item.
- `Lsp.LspClient.HandleServerMessage`: a failing `tx.send` to a dropped receiver is not modelled. A delivered result is always recorded in `answers`.
- `Lsp.LspClient.ReadContent`: `vec![0; content_length]` panics with a capacity overflow for a length above `isize::MAX`. The model treats this panic as the read outcome `CapacityOverflow`. No body of that size can be written, because a Rust `Vec` never holds more than `isize::MAX` bytes. So the round-trip lemmas (`LspFraming.FrameRoundTrip`, `LspFraming.FramesReadBack`, `Lsp.ServerReadsSent`, `Lsp.ResponseReadBack`) require bodies of at most `isize::MAX` bytes.
- `Lsp.LspClient.SendRequest`: the `u64` counter is unbounded, so wrap-around after `u64::MAX` requests is not modelled. Partial writes and a failing `flush` are one write error.
- The `lsp_types` structures are reduced to the fields the code reads: completion items keep their `label` and their JSON. `Position` keeps its two `u32` fields, bounded by `u32::MAX`.
- Logging (`debug!`, `warn!`, `error!`) is left out.
- Windows prefixes and UNC paths in `normalize` are left out. Separators are `/` only, and `.` is a component only at the start of a relative path.
- `Paths.Normalize`: `root_len` is counted in components rather than bytes, which is the same boundary on Unix.
- `Paths.FindProjectRoot`: returns the directory rendered from its components. Byte-for-byte this differs from the start path's original spelling (such as `//a/./b`), but it is equal as a `PathBuf`, which compares components.
- The literal test pairs of `path.rs` (such as `/a/b/../c` to `/a/c`) are not each restated. The general lemmas above cover each rule they exercise.
- `build_file_tree`, `path.is_dir()` on activation, `file_name().to_string_lossy()`, and all drawing, selection and list-item code of the file tree and the editor are left out. They are file system and UI work.
- `FileTree.ToggleExpanded`: the tree is a value and the method returns the new forest. Update in place through `&mut` is not modelled. Rust's exclusive borrow rules out aliasing, so nothing else observes the change.
- `GotoPoint.ValidateGotoPoint`: `CoordType` is not part of this model. It is taken to be a 64-bit `isize`.
- The tree-sitter parser, the `Highlighter` and `HighlightConfiguration` internals, including the effect of `configure`, are left out. Their event stream is the input of the fold, and a configuration is its language name plus its highlight names.
- `Range<usize>` is a pair of start and end.
- The panics of `highlight` are not modelled: the `unwrap` of the highlighter's result and of each event. The event stream is taken to be free of errors.
- Text outside every highlight gets `Highlight(0)`, the index of the first configured name, `attribute`. The model keeps this behaviour: see `Syntax.UnopenedIsDefault`.

## Findings

None.
