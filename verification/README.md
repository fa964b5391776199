# mirror: stack capture and frame resolution, in Dafny

This is a model of the core of `github.com/go-toolbelt/mirror`, a small Go library. It
captures the program counters of the current goroutine's stack cheaply, and later
turns them into readable frames.

A frame carries these fields:

- a package;
- a function, with pointer-receiver decoration removed;
- a bare file name;
- a line;
- a preformatted display line `\tat pkg.Func(file.go:42)`.

Resolution goes through a process-wide cache keyed by program counter. One counter
can expand to several logical frames when calls were inlined, and the frame iterator
hides that expansion.

The model has four modules, one file each:

| file | module | models |
|---|---|---|
| `text.dfy` | `Text` | The string primitives the Go code calls. `strings.LastIndex` and `strings.Index` with a one-character needle. The `%d` rendering of an `int` and a parser that reads it back. |
| `frame.dfy` | `FrameNames` | `frame.go`. The `Frame` record, `splitFunction` (including the `[\*\(\)]` regular expression as a character filter), `toFileName`, `toFormatted`, `fromRuntimeFrame` and `Frame.String`. |
| `cache.dfy` | `FrameCache` | `cache.go`. `getFrameForPtr` as lookup-or-resolve-and-store over a map that is passed in and handed back. The symbolizer `runtime.CallersFrames` is a function parameter (the *oracle*). |
| `stack.dfy` | `Stacks` | `stack.go`. `depth`, `Stack`, `Capture` (the runtime's stack walk is a parameter), the `Frames` iterator and `Frames.Next`, plus the caller's drain loop. |

The central abstraction: an iterator with pending frames `current` and unexpanded
pointers `ptrs` still has to return `current ++ Flatten(ptrs)`. Here `Flatten`
concatenates the resolution of each pointer in stack order. `Next` is proved against
that sequence:

- it returns its head with `ok` exactly when the sequence is non-empty;
- it leaves the tail as the new remainder;
- otherwise it returns the zero `Frame` and `false` and changes nothing.

`Next` is also lazy, and it goes through the cache:

- a call with pending frames expands no pointer and leaves the cache as it is;
- a call without pending frames expands only the first pointer and stores it in the
  cache, so that pointer is the only key it can add;
- if that pointer was already cached, the cache is left as it is;
- an exhausted call leaves the cache alone.

Every expansion the cache hands out is non-empty, so the fetch loop runs at most once
per call. The loop would skip a pointer with an empty expansion, but that case cannot arise. Each
iteration drops one pointer, which is the loop's termination measure.

Draining the iterator therefore yields the frames of all captured pointers, in order.
The cache stays *coherent*, meaning every entry equals the resolution of its key. The
cache only ever grows, so it never changes what is returned.

Some behaviour of the code that is easy to misread, and how the model follows it:

- `splitFunction` cuts at the *first* `.` after the last `/`, not at the last dot of
  the name. A closure `pkg.F.func1` therefore has package `pkg` and function
  `F.func1`.
- When the last path segment holds no `.` but the name holds a `/`, the code does not
  panic. The bound `i + j` then lands on the last `/`, and the name splits there.
- `splitFunction` panics (a negative slice bound) exactly when the name holds neither
  `/` nor `.`. `Splittable` is that domain, and `FrameNames.SplittableIff` states it.
- `getFrameForPtr` appends a conversion of every frame `CallersFrames` reports,
  including the zero `runtime.Frame` it returns when it has none. Its empty function
  name would make `splitFunction` panic. So on a miss the model requires the
  symbolizer's answer to be non-empty with splittable names (`Resolvable`), and the
  stored entries are never empty.

## Model

| member | source | states |
|---|---|---|
| Text.LastIndexOfSpec | frame.go:34 | The last-index search returns -1 or a position holding the character, and no later position holds it. |
| Text.IndexOfSpec | frame.go:35 | The first-index search returns -1 or a position holding the character, and no earlier position holds it. |
| Text.SearchMissIffAbsent | frame.go:34-35 | Either search reports -1 exactly when the character does not occur. |
| Text.NatToDecimalSpec | frame.go:49 | The decimal rendering of a natural number is a non-empty digit run without a leading zero, and its value is the number. |
| Text.IntToDecimalShape | frame.go:49 | `%d` output starts with '-' exactly for negative numbers and is otherwise all digits. |
| Text.DecimalRoundTrip | frame.go:49 | Parsing the `%d` rendering of any integer gives the integer back. |
| FrameNames.StripReceiverNoiseSpec | frame.go:31-36 | Removing `*`, `(` and `)` leaves none of them and never lengthens the text. Text without them is unchanged. |
| FrameNames.StripCounts | frame.go:31-36 | Every occurrence of `*`, `(` and `)` is deleted, and every other character keeps its number of occurrences. With StripConcat, only those three characters are taken out and the others stay in order. |
| FrameNames.StripConcat | frame.go:31-36 | Stripping a concatenation is the concatenation of the stripped parts. |
| FrameNames.StripKeepsAbsence | frame.go:31-36 | Stripping introduces no character that was not there. |
| FrameNames.StripIdempotent | frame.go:31-36 | Stripping twice is stripping once. |
| FrameNames.SplittableIff | frame.go:33-37 | The name contains a '/' or a '.' exactly when splitFunction's bound `i + j` is non-negative. Otherwise the bound is negative and the slice panics, so `Splittable` is exactly the domain where the code does not panic. |
| FrameNames.CutIndexSpec | frame.go:34-36 | The cut is at or after the last '/'. It is the first '.' after that slash when there is one, otherwise the slash itself. No '/' follows the cut. |
| FrameNames.CutIndexSplitsAt | frame.go:34-36 | For a name whose last segment has a '.', the cut satisfies the search-free characterisation `SplitsAt`. |
| FrameNames.SplitPointUnique | frame.go:34-36 | At most one position satisfies `SplitsAt`, so the cut is determined by the name alone. |
| FrameNames.SplitFunctionSpec | frame.go:33-37 | The package part is a proper prefix of the name. The function part is the stripped text after the cut, with no '/' and no receiver noise. |
| FrameNames.SplitFunctionRejoins | frame.go:33-37 | A symbol with a package dot is exactly package + "." + raw function part. The function part is the stripped raw part, and the dot is the split point. |
| FrameNames.SplitClosureExample | stack_test.go:85 | A closure symbol keeps its later dots in the function part. |
| FrameNames.SplitPointerReceiverExample | stack_test.go:155 | A pointer-receiver method symbol loses its `(*` and `)`. |
| FrameNames.ToFileNameSpec | frame.go:39-41 | The file name is a suffix of the path containing no '/'. It is the whole path when the path has no '/', otherwise it is preceded by a '/'. |
| FrameNames.ToFileNameIdempotent | frame.go:39-41 | Shortening an already short file name changes nothing. |
| FrameNames.FormatExample | frame.go:43-50 | The display template on concrete values. |
| FrameNames.FormattedLineRoundTrip | frame.go:43-50 | Whatever colons the names contain, the line number can be read back from the display text, between its last ':' and the final ')'. |
| FrameNames.Frame.String | frame.go:52-54 | For a frame whose display text was built from its own fields, the shown text gives back the frame's line. |
| FrameNames.FromRuntimeFrameSpec | frame.go:18-29 | The package and function come from splitFunction, the file from toFileName, and the line is copied. The display text is the one built from those fields and shows the reported line. |
| FrameNames.ResolveFunctionExample | stack_test.go:23-29 | All five fields of a resolved frame on a concrete symbol and path. |
| FrameCache.ResolveElements | cache.go:22-30 | Resolution converts each raw frame in place, keeping the symbolizer's order. |
| FrameCache.ResolveAppend | cache.go:22-30 | Resolving a concatenation resolves each part. |
| FrameCache.ConvertCallers | cache.go:19-30 | The do-while loop over the symbolizer's frames returns the conversion of every reported frame, in order, and at least one. |
| FrameCache.GetFrameForPtr | cache.go:13-33 | A hit returns the stored frames and leaves the cache alone. A miss returns the resolution of the pointer. Afterwards the pointer maps to the result, old entries are unchanged, only the pointer may be new, and coherence is kept. |
| FrameCache.LookupTwice | cache.go:13-33 | Two lookups of one pointer in a row return the same frames. |
| Stacks.Capture | stack.go:19-23 | A captured stack holds the first `min(walked, 32)` walked pointers, counts them, and has zeros in the remaining slots. |
| Stacks.Stack.Frames | stack.go:30-34 | A new iterator holds exactly the first `n` pointers of the stack and no pending frames. |
| Stacks.CaptureThenFrames | stack.go:19-34 | Iterating a fresh capture covers exactly the walked pointers that fit. |
| Stacks.FlattenLength | stack.go:37-43 | Every pointer expands to at least one frame, so the expansion is empty exactly when no pointers are left. |
| Stacks.FlattenAppend | stack.go:36-47 | Expanding a concatenation of pointer lists expands each list in turn. |
| Stacks.FlattenSingle | stack.go:42-45 | One pointer expands to exactly its symbolizer frames, inlined calls before their caller. |
| Stacks.Next | stack.go:36-47 | With `ok` exactly when frames remain, Next returns the first remaining frame and leaves the rest. Otherwise it returns the zero Frame with the iterator and cache unchanged, so exhaustion is stable. It is lazy: with pending frames it expands nothing and leaves the cache unchanged. Without them it consumes only the first pointer, stores that pointer in the cache (adding no other key), and changes nothing on a hit. The cache only grows and stays coherent. |
| Stacks.Drain | stack.go:36-47 | Calling Next until it fails returns every remaining frame once, in order. |
| Stacks.StackFrames | stack.go:30-47 | Iterating a stack yields the concatenated resolutions of its first `n` pointers, at least `n` frames. |
| Stacks.FirstFrameTwice | stack_test.go:181-195 | The first frame of an iterator is the same whether or not the cache already holds its pointer. A first call that expands a pointer leaves it cached, and the second call is then served from the cache without changing it. |

## Left out

- `Capture`'s call to `runtime.Callers`, including `skip` and `baseSkips`: walking the goroutine's stack is runtime behaviour. The walked program counters are a parameter, and only the copy into the fixed array is modelled.
- `runtime.CallersFrames`: the platform symbolizer is a total function from a program counter to its raw frames. Its answers cannot change over time, which is why caching them is sound.
- The `sync.Map` and concurrency: the cache is a map threaded through the calls by value. Concurrent callers that race to store the same key would store equal values, but that is not modelled.
- Go slices sharing backing arrays, the pointer receivers of `Stack.Frames` and `Frames.Next` (the iterator is returned as a new value), and allocation behaviour (the zero-allocation benchmark).
- Go strings are bytes and the searches return byte offsets, but the model uses characters and character indices. The indices differ after a non-ASCII character, yet the separators the Go code searches for ('/' and '.') are ASCII, as is the ':' the model's `ParseLine` looks for, so the pieces cut out of valid UTF-8 text are the same.
- Strings that are not valid UTF-8: a Go string may hold any bytes, but `seq<char>` cannot represent them, so names and paths with invalid UTF-8 are not modelled.
- `Frame.Line` is a Go `int`. The model uses unbounded integers, so lines beyond 64 bits are not ruled out.
- `fmt.Sprintf` and the `regexp` engine are replaced by the concrete template and a character filter for the one class used.
- FrameCache.GetFrameForPtr: requires a non-empty, splittable symbolizer answer on a miss. The source instead panics there, in splitFunction, when a reported name (or the empty name of the zero frame) holds neither '/' nor '.'.
- Stacks.Next: never meets a pointer whose expansion is empty, because resolutions are non-empty; the skipping behaviour of the loop for such a pointer is therefore not exercised. It requires a coherent cache and resolvable pending pointers. That is the state the program keeps, because the cache starts empty and only `getFrameForPtr` writes to it.
