# uWSGI server-side includes: a verified model of the SSI parser

This project models the core of uWSGI's `ssi` plugin (`plugins/ssi/ssi.c`)
in Dafny and proves properties of the model. The plugin scans a document for
server-side-include directives of the form `<!--#name key="value" ...-->`.
It splits each directive body into a command name and up to eight
`key="value"` arguments, looks the name up in a registry of commands, and
runs the command it finds. The only command shipped is `echo`, which returns
the value of the request variable named by its `var` argument.

The model is layered the way the C file is:

| file | module | C counterpart |
|---|---|---|
| `bytes.dfy` | `Bytes` | bytes, `isspace`, spans (pointer + length pairs) |
| `registry.dfy` | `CommandRegistry` | the `uwsgi_ssi_commands` list, `uwsgi_ssi_get_cmd`, `uwsgi_register_ssi_command`, `uwsgi_ssi_init` |
| `args.dfy` | `Args` | `uwsgi_ssi_parse_args` and its `argv[UWSGI_SSI_MAX_ARGS]` array |
| `echo.dfy` | `EchoCommand` | `uwsgi_ssi_get_arg`, `ssi_cmd_echo` |
| `command.dfy` | `CommandParser` | `uwsgi_ssi_parse_command` |
| `scanner.dfy` | `Scanner` | `uwsgi_ssi_parse` |
| `scan_properties.dfy` | `ScannerProperties` | properties of the scanner over whole documents |
| `properties.dfy` | `DirectiveProperties` | end-to-end properties of directives, from the document to the fragment |

Each C loop is a Dafny `method` with a `while` loop and its invariants. The
method is proved equal to a recursive specification function. The
properties are then proved as lemmas about that function:

- `Args.ParseArgs` is tied to `Args.Tokenize`;
- `Scanner.Parse` is tied to `Scanner.Process`;
- the whitespace loops of `CommandParser` are tied to `LeadingSpaces`,
  `TrailingSpaces` and `FirstSpace`;
- the lookup loops are tied to `Find`, `Lookup` and `FindArg`.

The document is a sequence of bytes. A C pointer into it, with a length, is
a `Span` (start index and length). The registry's linked list is a sequence
field of the class `Registry`, which `Register` reassigns. The argument
array is a Dafny `array<Arg>` that `ParseArgs` fills in place.

Handlers run inside the command parser. `echo` is modelled in full. A
handler registered by other code is a parameter of the model
(`ExternalHandlers`), a function of the document, the arguments and the
request variables. The request variables are a map from names to values.

The main end-to-end properties:

- **Every body is bracketed.** In any document, every body handed to the
  command parser lies right after a `<!--#` and right before a `-->`
  (`Scanner.Scan`, through the invariant `Scanner.Framed`).
- **Document round trip.** Take a document made of directives, each
  written as text, `<!--#`, a body and `-->`, and followed by closing text.
  Each text must leave the automaton idle: it opens no directive and does
  not end inside a partial `<!--`. HTML markup such as `<p>` qualifies.
  Each body must hold no `-->` and must not end in `-`. The closing text
  must open no directive. Such a document yields exactly the directives'
  bodies, in order (`ScannerProperties.ScanRendered`). A directive left
  open at the end of the document is never dispatched
  (`ScannerProperties.ScanUnclosed`).
- **Argument round trip.** Pairs written as `key="value"` separated by spaces
  tokenize back to the same pairs, capped at eight (`Args.TokenizeRender`).
- **Command outcome.** `CommandParser.Command` gives the outcome of a body.
  No name is looked up exactly when the body has no whitespace between two
  non-whitespace bytes (`CommandParser.CommandInert`). Otherwise the name
  looked up is the first whitespace-delimited word
  (`CommandParser.CommandName`). A name the registry does not hold runs
  nothing either: the outcome is `Unknown`. A registered name's handler gets
  the rest of the trimmed body (`CommandParser.CommandRegion`).
- **Lone calls.** For a lone call `<!--#name k="v" ...-->`, the outcome is
  given by the registry and the written pairs (`DirectiveProperties.LoneCall`).
  `<!--#echo var="v"-->` yields the variable's value
  (`DirectiveProperties.EchoLone`).

## Model

| member | source | states |
|---|---|---|
| CommandRegistry.Find | plugins/ssi/ssi.c:28-37 | the index found holds an entry with exactly that name and no earlier entry has it; None exactly when no entry has the name |
| CommandRegistry.Lookup | plugins/ssi/ssi.c:28-37 | finds an entry exactly when one with that name is registered, and the one returned is a registered entry with that name |
| CommandRegistry.Registered | plugins/ssi/ssi.c:39-62 | the list after registering a name: the old list, extended by at most one entry; extended exactly when the name was absent, and then by that name with the handler given, at the tail; the name is found afterwards |
| CommandRegistry.Registry.constructor | plugins/ssi/ssi.c:26 | the command list starts empty |
| CommandRegistry.Registry.GetCmd | plugins/ssi/ssi.c:28-37 | the list walk returns the first entry whose name equals the one asked for, or none |
| CommandRegistry.Registry.Register | plugins/ssi/ssi.c:39-62 | a name already registered leaves the list unchanged; otherwise the entry is appended at the tail; either way the entry returned is what a lookup of the name now finds |
| CommandRegistry.Init | plugins/ssi/ssi.c:333-336 | after plugin initialisation exactly one command is registered: `echo` with the echo handler |
| CommandRegistry.FindAppend | plugins/ssi/ssi.c:28-37 | appending an entry does not change where an already present name is found; an absent name is found at the new entry exactly when that entry carries it |
| CommandRegistry.FindFirst | plugins/ssi/ssi.c:28-37 | the first entry carrying a name is the one the walk stops at |
| CommandRegistry.FirstRegistrationWins | plugins/ssi/ssi.c:41-47 | registering a name a second time, with any handler, changes nothing: the first handler stays in force |
| CommandRegistry.LookupRegistered | plugins/ssi/ssi.c:39-62 | after registration the name is always found |
| CommandRegistry.LookupOther | plugins/ssi/ssi.c:39-62 | registering one name does not change what any other name finds |
| CommandRegistry.RegisteredUnique | plugins/ssi/ssi.c:39-62 | registration keeps names in the list pairwise distinct |
| CommandRegistry.InitialLookup | plugins/ssi/ssi.c:333-336 | after initialisation `echo` finds the echo handler and every other name finds nothing |
| Args.Step | plugins/ssi/ssi.c:72-118 | one byte of the tokenizer never lets the recorded pairs reach the array capacity while it goes on |
| Args.ArgsFrom | plugins/ssi/ssi.c:72-119 | the tokenizer records at most UWSGI_SSI_MAX_ARGS pairs |
| Args.Tokenize | plugins/ssi/ssi.c:64-122 | every recorded key and value lies inside the document |
| Args.ParseArgs | plugins/ssi/ssi.c:64-122 | the loop fills `argv[0..argc)` with exactly the pairs of the specification, and `argc` never exceeds UWSGI_SSI_MAX_ARGS |
| Args.CloseKeepsInv | plugins/ssi/ssi.c:90-102 | a closing quote records the pair `key="value"` (an empty value as the empty span at the quote), after all earlier ones, and resets key and value |
| Args.ArgsFromShape | plugins/ssi/ssi.c:72-119 | every pair recorded from a state of the loop is literally `key="value"` inside the region, and the pairs are in order of appearance without overlap |
| Args.TokenizeShape | plugins/ssi/ssi.c:64-122 | at most MAX_ARGS pairs, each literally `key="value"` inside the region with no `=` after the key's first byte and no `"` in the value, in order without overlap |
| Args.TokenizeRender | plugins/ssi/ssi.c:64-122 | pairs written as `key="value"` separated by single spaces tokenize back to the same keys and values, the first MAX_ARGS of them |
| Args.ArgsFromKeeps | plugins/ssi/ssi.c:90-98 | pairs already recorded are never dropped or changed: the result extends them |
| Args.TokenizePrefix | plugins/ssi/ssi.c:72-119 | after fewer than MAX_ARGS rendered pairs, the tokenizer has recorded exactly those pairs and goes on from the byte after them |
| Args.SpaceRun | plugins/ssi/ssi.c:111-116 | after a recorded pair, a whitespace run of any length, ended by a non-whitespace byte, acts as a single space: that byte starts the next key |
| Args.StopAfter | plugins/ssi/ssi.c:82-89 | a byte other than `"` after `key=` ends tokenizing with the pairs recorded so far |
| Args.FirstKeyRun | plugins/ssi/ssi.c:68-80 | the first key starts at the region start and takes in every byte up to the first `=`, after which the tokenizer waits for a quote |
| Args.FirstStops | plugins/ssi/ssi.c:82-89 | a first pair `key=` followed by a byte that is not a quote records nothing |
| Args.FirstUnclosed | plugins/ssi/ssi.c:90-110 | a first pair `key="...` whose closing quote is missing records nothing |
| Args.TokenizeStops | plugins/ssi/ssi.c:82-89 | any number of pairs below the cap (none included) followed by `key=` and a byte that is not a quote tokenize to exactly those pairs: the malformed pair and everything after it are dropped |
| Args.TokenizeDropsUnclosed | plugins/ssi/ssi.c:90-110 | a value whose closing quote is missing is never recorded: any number of pairs below the cap (none included) followed by `key="...` tokenize to exactly those pairs |
| EchoCommand.FindArg | plugins/ssi/ssi.c:295-306 | the index found holds the key asked for and no earlier pair has it; None exactly when no pair has the key |
| EchoCommand.ArgValue | plugins/ssi/ssi.c:295-306 | the value `uwsgi_ssi_get_arg` returns, when there is one, is a non-empty span inside the document (NULL is None) |
| EchoCommand.ArgValueFirst | plugins/ssi/ssi.c:295-306 | a value comes back exactly when the first pair with the key has a non-empty value, and it is that value's span; a `key=""` pair, recorded with a NULL value pointer, gives none |
| EchoCommand.GetArg | plugins/ssi/ssi.c:295-306 | the loop returns what the lookup specifies: the first matching pair's value span, or none when no pair has the key or its value pointer is NULL |
| EchoCommand.EchoLooksUp | plugins/ssi/ssi.c:308-331 | echo is the lookup of `var` followed by a variable lookup: nothing without a `var` value, otherwise the named variable's value when it is set and non-empty |
| EchoCommand.FirstVarIsFind | plugins/ssi/ssi.c:312 | the `var` argument echo reads is the first pair whose key is `var` |
| EchoCommand.EchoOutput | plugins/ssi/ssi.c:308-331 | a fragment exactly when the first `var` pair has a non-empty name and that variable is set to a non-empty value; the fragment is that value |
| EchoCommand.Echo | plugins/ssi/ssi.c:308-331 | the handler returns the fragment the specification gives for its arguments |
| EchoCommand.EchoFirstVarWins | plugins/ssi/ssi.c:312 | pairs after a `var` pair never change what echo yields |
| CommandParser.LeadingSpaces | plugins/ssi/ssi.c:129-137 | the count is the length of the whitespace run that opens the range |
| CommandParser.TrailingSpaces | plugins/ssi/ssi.c:140-147 | the count is the length of the whitespace run that closes the range, never taking in its first byte |
| CommandParser.FirstSpace | plugins/ssi/ssi.c:156-162 | the count is the length of the non-whitespace run that opens the range |
| CommandParser.Trim | plugins/ssi/ssi.c:129-147 | no command exactly when the body is all whitespace; otherwise a non-empty span inside the body, preceded and followed only by whitespace, whose first and last bytes are not whitespace |
| CommandParser.SkipSpaces | plugins/ssi/ssi.c:129-137 | the lstrip loop stops at the first non-whitespace byte |
| CommandParser.StripTrailing | plugins/ssi/ssi.c:140-147 | the rstrip loop counts the trailing whitespace, never index 0 |
| CommandParser.TrailingUnique | plugins/ssi/ssi.c:140-147 | any count that covers only trailing whitespace and stops at a non-whitespace byte is the rstrip count |
| CommandParser.NameLength | plugins/ssi/ssi.c:156-162 | the loop measures the name and sets `found` exactly when a whitespace byte ends it inside the command |
| CommandParser.TrimBody | plugins/ssi/ssi.c:129-147 | both strip loops together yield the trimmed command |
| CommandParser.ParseCommand | plugins/ssi/ssi.c:124-200 | parsing a body gives exactly `Command`: nothing, an unknown name, or one run of the handler |
| CommandParser.ParseTrimmed | plugins/ssi/ssi.c:151-198 | the part after trimming gives `Trimmed`: nothing without whitespace after the name, otherwise `Named` |
| CommandParser.RunHandler | plugins/ssi/ssi.c:173-198 | the tail of the C function gives `Run`: the handler runs on the region after the name and its whitespace, with the pairs Tokenize records there |
| CommandParser.CallHandler | plugins/ssi/ssi.c:194-198 | the fragment is what the registered handler (echo or an external one) makes of the recorded pairs |
| CommandParser.CommandInert | plugins/ssi/ssi.c:156-166 | no name is looked up exactly when the body has no whitespace byte between two non-whitespace bytes |
| CommandParser.NamedLookup | plugins/ssi/ssi.c:168-198 | `Named`, once a name is split off, gives an outcome that names it: `Unknown` exactly when the registry does not hold the name, otherwise `Invoked` with the handler the registry holds for it |
| CommandParser.CommandName | plugins/ssi/ssi.c:151-171 | in `Command`, the name looked up is the non-empty non-whitespace run that opens the trimmed body and is followed by whitespace; unknown exactly when the registry lacks it, otherwise its registered handler runs |
| CommandParser.TrimmedName | plugins/ssi/ssi.c:151-171 | in `Trimmed`, on a trimmed command, the name starts at its first byte and stops before its end |
| CommandParser.NamedRun | plugins/ssi/ssi.c:170-194 | a name the registry holds runs the handler registered under it |
| CommandParser.RunRegion | plugins/ssi/ssi.c:173-198 | `Run` runs the handler given once: its region starts at the first non-whitespace byte after the name and ends at the end of the command, the arguments are the pairs Tokenize records there, and the fragment is the handler's result on them |
| CommandParser.CommandRegion | plugins/ssi/ssi.c:173-198 | a handler that runs gets the region from the first non-whitespace byte after the name to the end of the trimmed body, tokenized |
| CommandParser.NamedRegion | plugins/ssi/ssi.c:173-194 | a named command whose end is not whitespace runs its handler on the region that reaches that end |
| Scanner.ScanFrom | plugins/ssi/ssi.c:209-274 | every body the automaton dispatches lies inside the document |
| Scanner.AdvanceDispatch | plugins/ssi/ssi.c:210-273 | one step of the automaton, `Advance` (the `switch` on `status`): a body is dispatched only on the `>` of `-->`, and it is the span counted so far; a body opens only on the `#` of `<!--#`, right after it; an open body keeps its start and its count never shrinks |
| Scanner.ScanStep | plugins/ssi/ssi.c:209-274 | one byte keeps the relation between the counted body and the position, and a dispatched body comes before all later ones |
| Scanner.Scan | plugins/ssi/ssi.c:202-275 | in any document, every body handed to the command parser lies inside the document, right after a `<!--#` and right before a `-->` |
| Scanner.FramedStep | plugins/ssi/ssi.c:209-274 | each state records what was just read (a partial `<!--#`, the `<!--#` before the body, the held-back dashes), every byte keeps that record, and a dispatch happens only on the `>` of a `-->` |
| Scanner.ScanFramed | plugins/ssi/ssi.c:209-274 | from any state consistent with the bytes read, every body dispatched is framed by `<!--#` and `-->` |
| Scanner.ProcessStep | plugins/ssi/ssi.c:259-265 | the outcome for a body closed at a byte comes before the outcomes of later bytes |
| Scanner.Feed | plugins/ssi/ssi.c:210-273 | the `switch` moves the state and dispatches a body exactly as the step function `Advance` does |
| Scanner.ParseByte | plugins/ssi/ssi.c:209-274 | one pass of the loop yields the outcomes for the current byte, ahead of those for the rest of the document |
| Scanner.Parse | plugins/ssi/ssi.c:202-275 | the loop collects exactly `Process`: one outcome per closed directive, in document order |
| ScannerProperties.ProcessFromScan | plugins/ssi/ssi.c:209-274 | `ProcessFrom`, processing from any state, applies the command parser to each scanned body, one outcome per body, in order |
| ScannerProperties.ProcessScan | plugins/ssi/ssi.c:202-275 | `Process`: the outcomes are the command parser's verdicts on the scanned bodies, one each, in order |
| ScannerProperties.PlainRun | plugins/ssi/ssi.c:211-215 | outside a directive, bytes without `<` dispatch nothing and leave the automaton idle |
| ScannerProperties.OpenerRun | plugins/ssi/ssi.c:211-239 | `<!--#` read while idle opens a body that starts right after the `#` |
| ScannerProperties.BodyRun | plugins/ssi/ssi.c:240-270 | inside a body, bytes that hold no `-->` and do not end in `-` are all counted, dashes included |
| ScannerProperties.OpenRun | plugins/ssi/ssi.c:240-270 | a body holding no `-->` up to the end of the document is never dispatched, whatever its last bytes |
| ScannerProperties.CloserRun | plugins/ssi/ssi.c:259-265 | `-->` in a body dispatches exactly the bytes counted since the `#` and returns to idle |
| ScannerProperties.NoCloseRun | plugins/ssi/ssi.c:240-270 | a body that never meets `>` is never dispatched |
| ScannerProperties.NoHashRun | plugins/ssi/ssi.c:234-239 | without a `#` ahead, no new directive is ever dispatched |
| ScannerProperties.DriftRun | plugins/ssi/ssi.c:211-239 | text that opens no directive dispatches nothing and leaves the opener automaton in the state Drift computes, whatever the byte positions |
| ScannerProperties.SettledRun | plugins/ssi/ssi.c:211-239 | text after which the automaton is idle again dispatches nothing |
| ScannerProperties.LtFreeSettles | plugins/ssi/ssi.c:211-215 | text without `<` never leaves idle |
| ScannerProperties.NoGtNoCloser | plugins/ssi/ssi.c:259-265 | bytes without `>` hold no `-->` |
| ScannerProperties.TextOpenerRun | plugins/ssi/ssi.c:211-239 | text that leaves the automaton idle, `<p>` say, followed by `<!--#` opens a body right after the `#` |
| ScannerProperties.BodyThenCloser | plugins/ssi/ssi.c:240-270 | a clean body followed by `-->` is dispatched whole, and the automaton ends idle |
| ScannerProperties.DirectiveRun | plugins/ssi/ssi.c:209-274 | one clean directive read from idle dispatches exactly its body and ends idle after its `-->` |
| ScannerProperties.RenderedRun | plugins/ssi/ssi.c:209-274 | a run of clean rendered directives dispatches exactly their bodies, in order, and ends idle |
| ScannerProperties.TailRun | plugins/ssi/ssi.c:211-239 | trailing text that opens no directive dispatches nothing |
| ScannerProperties.UnclosedRun | plugins/ssi/ssi.c:240-270 | text and an opener whose body runs to the end of the document without `-->` dispatch nothing |
| ScannerProperties.BodySpansAt | plugins/ssi/ssi.c:240-249 | the body spans of a rendered run lie where its bodies were written, byte for byte |
| ScannerProperties.ScanRendered | plugins/ssi/ssi.c:202-275 | a document of directives, each after text that leaves the automaton idle and each with a body holding no `-->` and not ending in `-`, then text that opens no directive, dispatches exactly one span per directive, in order, each holding that directive's body |
| ScannerProperties.ScanUnclosed | plugins/ssi/ssi.c:240-274 | a directive still open at the end of the document, its body holding no `-->`, is never dispatched; the closed ones before it are |
| ScannerProperties.HtmlAroundDirective | plugins/ssi/ssi.c:202-275 | in `<p><!--#echo var="x"--></p>` the HTML tags open nothing and the one body dispatched is `echo var="x"` |
| ScannerProperties.NoHashNoDirective | plugins/ssi/ssi.c:234-239 | a document without `#` dispatches nothing |
| ScannerProperties.DoubleLtNotOpener | plugins/ssi/ssi.c:216-221 | in `<<!--#...` the second `<` is swallowed by the mismatch, so no directive opens |
| ScannerProperties.ThirdDashAbsorbed | plugins/ssi/ssi.c:259-269 | in `<!--#a--->b-->` the third dash is counted as body and the first `-->` does not close: the body is `a--->b` |
| DirectiveProperties.LoneScan | plugins/ssi/ssi.c:202-275 | a document holding one directive, its body holding no `-->` and not ending in `-`, dispatches exactly its body |
| DirectiveProperties.LoneProcess | plugins/ssi/ssi.c:259-265 | a lone directive yields exactly one outcome, the command parser's verdict on its body |
| DirectiveProperties.LoneWordInert | plugins/ssi/ssi.c:156-166 | a directive of one word runs nothing, registered or not: a name needs whitespace after it |
| DirectiveProperties.EchoAloneInert | plugins/ssi/ssi.c:156-166 | `<!--#echo-->` leads to nothing, whatever is registered |
| DirectiveProperties.NameAt | plugins/ssi/ssi.c:151-171 | a body opening with a word, whitespace and a non-whitespace byte looks up exactly that word |
| DirectiveProperties.RegionAt | plugins/ssi/ssi.c:173-192 | such a body ending in non-whitespace hands everything after the whitespace byte to the tokenizer |
| DirectiveProperties.PairsAt | plugins/ssi/ssi.c:173-198 | a body of a name, one space and rendered pairs hands the handler those pairs, the first MAX_ARGS of them |
| DirectiveProperties.CallName | plugins/ssi/ssi.c:151-171 | in a lone call the name looked up is the whole name written |
| DirectiveProperties.CallRegion | plugins/ssi/ssi.c:173-198 | in a lone call a handler that runs gets the pairs written after the name |
| DirectiveProperties.LoneCall | plugins/ssi/ssi.c:124-275 | a lone call yields one outcome: an unregistered name is reported unknown; a registered one runs its handler once on the written pairs (at most MAX_ARGS), and the fragment is the handler's result |
| DirectiveProperties.EchoLone | plugins/ssi/ssi.c:308-336 | with only `echo` registered, `<!--#echo var="v" ...-->` yields the value of request variable `v`, and nothing when `v` is empty, unset or set to the empty value |
| DirectiveProperties.NinthVarIgnored | plugins/ssi/ssi.c:96-98 | a `var` written as the ninth pair is never read: echo yields nothing when none of the first eight is a `var` |
| DirectiveProperties.EchoUnclosedValue | plugins/ssi/ssi.c:90-110 | in `<!--#echo var="v-->` the value's closing quote is missing, so echo runs with no arguments and yields nothing |
| DirectiveProperties.DashedNameUnknown | plugins/ssi/ssi.c:250-258 | in `<!--#ec--ho var="X"-->` the dashes are given back to the body, so the name looked up is `ec--ho`, which is not registered |

## Left out

- `uwsgi_ssi_request` (ssi.c:277-293) is not part of this model. It parses
  the request variables, reads the fixed file `foo.shtml` into a 32768-byte
  buffer and calls the scanner. The file, the buffer size and the read
  length are I/O. The document is a parameter of `Scanner.Parse` instead.
- The `ssi_plugin` registration structure (ssi.c:338-343) is plugin loader
  metadata and has no behaviour to model.
- Logging (`uwsgi_log`) is not modelled.
- Memory is not modelled: allocation, its failure, and the failure of
  `uwsgi_buffer_append` in echo (ssi.c:323-327). A fragment is a byte
  sequence.
- The parser frees each handler's fragment without using it (ssi.c:195-198).
  The model returns the fragment in the `Invoked` outcome so that properties
  can state what each handler produced.
- Handlers registered by other plugins are not visible. They are the
  parameter `ExternalHandlers`, a function of the document, the recorded
  pairs and the request variables.
- `uwsgi_get_var` (a uWSGI core function) is a map lookup on the request
  variables. EchoCommand.EchoOutput: the 16-bit `rlen` of the value is not
  modelled, so values of 65536 bytes or more are echoed whole.
- `strcmp`, `strlen` and `uwsgi_strncmp` are sequence equality and length.
  Command names are registered as C strings without NUL bytes.
- The linked list of commands is a sequence field of `Registry`, in list
  order. Node identity and the `next` pointers are not modelled.
- Scanner.Parse: the model fixes the body's start at the byte right after
  `#`. The C code sets `cmd` at the first byte reached in status 5 that is
  not `-` (ssi.c:245-247). A body that starts with `-` therefore leaves
  `cmd` NULL, or points past the counted bytes. That path is undefined
  behaviour in C. For every other body both choices give the same span.
- CommandParser.Trim: an empty body or a body of two or more whitespace
  bytes runs nothing in the model. C computes with unsigned `size_t`
  there. For the empty body the rstrip loop starts at `len - 1`, which
  wraps, and reads `buf[SIZE_MAX]` (ssi.c:140). For two or more whitespace
  bytes the rstrip loop decrements `cmd_len` (ssi.c:142) after the lstrip
  loop has already brought it to 0, so it wraps and the name loop reads
  past the body. A body of one whitespace byte wraps nothing, and C runs
  nothing for it, as the model does.
- Args.TokenizeRender: the round trip is stated for pairs separated by a
  single space. C skips any run of whitespace between pairs
  (ssi.c:111-116). `Args.SpaceRun` proves that such a run acts as one
  space, but the round trip itself is not restated for longer runs.
- Args: after a pair is recorded, C resets `key` to NULL (ssi.c:99-102).
  The model sets the key start to 0. Status 3 replaces it before it is
  used.
- The C functions are split into smaller methods, each proved against its
  specification function. `uwsgi_ssi_parse` becomes Scanner.Feed,
  Scanner.ParseByte and Scanner.Parse. `uwsgi_ssi_parse_command` becomes
  CommandParser.TrimBody, NameLength, ParseTrimmed, RunHandler and
  CallHandler. A method and its specification function describe the same
  step twice on purpose. The method follows the C statements: Feed assigns
  the automaton's variables case by case, and the others run the loops and
  fill the argument array. The function is what the lemmas reason about.
- Scanner.Verdict has an `Inert` branch for a span outside the document.
  That branch is never taken, because every scanned span lies inside the
  document (Scanner.Scan).
