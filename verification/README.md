# Verified model of the mini-tsc C runtime

This project models, in Dafny, the parts of the runtime library that every compiled program links against, and the
string escaping of the emitter that produces those programs. What the C code does step by step (linked lists rewritten
in place, probe loops, buffers filled and cursors advanced) is written as classes and methods with loops. Each is
proved against definitions on values, and what the code is for is then proved about those definitions, for every
input, every run or every interleaving.

| files | subject |
|---|---|
| `gc_graph.dfy`, `gc_liveness.dfy`, `gc.dfy` | the mark-sweep collector: exact reachability, field by field, in-order sweep, accounting, pacing |
| `promise_model.dfy`, `promise.dfy` | the promise engine: every interleaving of attachments and settlements means the same fold of handlers |
| `thread_pool.dfy`, `job_queue.dfy` | the thread pool as a state machine at lock granularity, and its linked queues |
| `probe_table.dfy`, `hashmap.dfy` | the open-addressing hash map as a refinement of a finite map |
| `json_text.dfy`, `json_numbers.dfy`, `json_decimals.dfy`, `json_grammar.dfy`, `json_layout.dfy`, `json_roundtrip.dfy`, `json_nesting.dfy`, `json.dfy` | JSON text: what every text of RFC 8259 is read as, what is printed, and exactly which values come back, however deeply nested |
| `octets.dfy`, `fips180.dfy`, `sha1.dfy`, `base64.dfy`, `websocket_frames.dfy`, `websocket.dfy`, `accept_example.dfy` | the WebSocket handshake and wire format against FIPS 180-4, RFC 4648 and RFC 6455 |
| `timer_model.dfy`, `timer_clock.dfy`, `timers.dfy` | the timer list, polled while callbacks change it, and when timers fire |
| `calendar.dfy`, `dates.dfy` | date arithmetic against the closed-form Gregorian calendar |
| `split_join.dfy`, `array_ops.dfy` | splitting and joining strings |
| `radix.dfy`, `convert_base.dfy` | integers converted between bases 2 to 36 |
| `template_emitter.dfy` | C string literals and template strings as the emitter writes them |
| `basics.dfy` | optional values and the character escaping that several parts share |

`dafny verify dfyconfig.toml` checks everything.

## What the proofs found

Each of these is a place where the code does less than a reader would expect. The code is kept as it is, and when it
does what one would expect is proved as a condition that is both necessary and sufficient.

- A JSON value, nested to any depth, comes back from its printed text exactly if its strings and keys have no NUL and
  fit the buffers they are read into, its integers have at most six significant digits, and it survives the element
  scanner, which looks at commas and brackets but not at quotes: every element but the last of its container ends
  where the scanner says, and the last is found whole in what the scanner takes for it, behind which an array does not
  meet a brace (`JsonNesting.RoundTripExact`). That only these come back rests on a conservation law: no text parses
  to a value with more commas than the text has (`JsonNesting.ParseKeeps`), and a printed text has none to spare
  (`JsonNesting.RenderCommas`).
- For an array or object of strings this says that every string fits and passes the scanner, and all but the last
  close the brackets they open, whatever brackets the keys have (`JsonRoundTrip.ArrayRoundTripExact`,
  `JsonNesting.ObjectRoundTripExact`).
- The parser reads every text of RFC 8259 as what it denotes, whatever white space stands between its tokens, if its
  strings and keys fit and pass the scanner and its keys differ (`JsonGrammar.ParseReadsJson`), except that the escapes
  \b, \f and \u only lose their backslash (`JsonGrammar.UnknownEscape`).
- The parser can read beyond its text on what the printer wrote: of `{"k": "a,"}` it takes the part behind the comma
  for a key, which runs up to the NUL, and steps past it (`JsonNesting.TrailingCommaOverruns`). And it can fail to
  end: on `{"k": ["["]}` it comes back to the last brace for ever (`JsonNesting.OpenStringHangs`).
- A string by itself comes back exactly if it has no NUL and at most 4095 bytes
  (`JsonRoundTrip.StringRoundTripExact`), and an integer exactly if it has at most six significant digits
  (`JsonRoundTrip.NumberRoundTripExact`). A Dafny `char` stands here for one byte of a C string: 2000 characters of
  three bytes each do not come back.
- The receiver delivers a text frame exactly if its payload is shorter than 1 MiB. A longer one is delivered as an
  empty message and its payload, still in the input, is then taken for further frames
  (`WebSocketFrames.DeliveredExactly`).
- A job is sure to have run by the time all workers have exited, in every interleaving, exactly if its push is over
  and it does not lie on the queue with all workers already gone (`ThreadPool.SureExactly`). So at the moment the
  shutdown flag is set, the jobs sure to run are exactly those whose `ts_thread_pool_submit` has returned
  (`ThreadPool.SureIffPushedBeforeFlag`); any other can be lost (`ThreadPool.CanBeLost`).
- A lost job keeps the pool pending only until shutdown returns (`ThreadPool.LostForever`). From then on
  `ts_jobs_pending` answers 0, and the job is dropped without notice (`ThreadPool.SilentlyDropped`). That answer is
  right, in every interleaving without later submissions, exactly if every submission had returned when the flag was
  set (`ThreadPool.AnswerRightIff`). The next submission starts the pool again with empty queues and a count of zero,
  which leaves it consistent exactly if no job was outstanding (`ThreadPool.RestartKeepsInv`); a job left on the queue
  never runs (`ThreadPool.ForgottenForever`).
- Date fields read off an instant are a clock's fields exactly from 1970 on, or on the stroke of midnight
  (`Dates.Components`), `days_from_epoch` is right exactly from 1970 on (`Dates.DaysFromEpoch`), and the day of the
  week is right exactly from 28 December 1969 on, or on Sundays (`Dates.GetDay`).
- Converting a number to another base and back gives the input back exactly if it was in canonical form
  (`Radix.ThereAndBack`).
- A slot handed to `ts_gc_add_root` is registered exactly if there was room in the table or it was registered already;
  a slot without room is dropped without notice (`Gc.Collector.AddRoot`).

## Model

| member | source | states |
|---|---|---|
| Gc.Collector.FindObject | runtime/src/gc.c:72-80 | A word resolves to the one object whose payload holds it, interior pointers included, or no object holds it |
| GcGraph.ResolvesUniquely | runtime/src/gc.c:66-80 | Because blocks do not overlap, the first hit in list order is the only one |
| Gc.Collector.ScanRange | runtime/src/gc.c:85-102 | Scanning words marks their targets and only objects reachable from them; all but the objects still on the recursion stack have their successors marked; terminates because unmarked objects shrink |
| Gc.Collector.ScanBody | runtime/src/gc.c:141-196 | Each kind is scanned through exactly its own words: array elements in use, occupied map slots, captured values, a promise's four values and its link |
| GcLiveness.EdgeExactly | runtime/src/gc.c:141-196 | One object refers to another exactly through a word of a raw payload, an array element below the length, a key or value of an occupied slot, a captured value, or a promise's four values and link; strings, slack capacity and vacant slots hold nothing |
| GcLiveness.CapturedLives | runtime/src/gc.c:169-176 | What a live closure has captured is live |
| GcLiveness.ElementLives | runtime/src/gc.c:147-153 | What a live array holds below its length is live |
| GcLiveness.BindingLives | runtime/src/gc.c:154-168 | The keys and values of a live map are live |
| GcLiveness.PromiseLives | runtime/src/gc.c:177-188 | What a live promise holds, and the promise derived from it, are live |
| GcLiveness.RawLives | runtime/src/gc.c:189-195 | What a word of a live raw block points at is live |
| GcLiveness.LiveIsLeast | runtime/src/gc.c:134-197 | The live set is the least set that holds the targets of the root words and whatever its members refer to |
| GcLiveness.PointsInto | runtime/src/gc.c:66-80 | A word points at an object exactly if it is the payload's address or lies inside it |
| Gc.Collector.MarkObject | runtime/src/gc.c:134-197 | Marking one object marks it and only what it reaches, and leaves the marked set closed except for objects still being scanned |
| Gc.Collector.MarkRoots | runtime/src/gc.c:394-411 | After explicit roots, static words and stack words the marked set equals the reachable set |
| Gc.Collector.RootWordsExactly | runtime/src/gc.c:394-411 | A collection starts from the static words, the stack words if the bottom is known, and the contents of the registered slots, null excepted, and from no others |
| GcGraph.ClosedSetIsLiveSet | runtime/src/gc.c:134-197 | A set that holds the root targets, is closed under edges and holds only reachable objects is the reachable set |
| GcGraph.MarksObject | runtime/src/gc.c:134-197 | An object turns from grey to black when all it scans has been marked |
| GcGraph.MarksThen | runtime/src/gc.c:85-102 | Marking through two word sequences in turn is marking through their concatenation |
| Gc.Collector.Unlink | runtime/src/gc.c:243-245 | Rewriting one pointer removes one node and keeps every other in place |
| Gc.Collector.FreeHeader | runtime/src/gc.c:243-255 | Unlinks, finalises, and takes header plus payload off the live bytes: the saturating guards never saturate |
| Gc.Collector.SweepStep | runtime/src/gc.c:442-456 | One turn of the sweep keeps its invariant: survivors so far with marks cleared, then the rest of the old list |
| GcGraph.SweptStep | runtime/src/gc.c:442-456 | The sweep's invariant on values, for the object stepped over and the object removed |
| GcGraph.SweptAll | runtime/src/gc.c:439-456 | At the end the list is the marked objects, the finalised ones are the unmarked, and no mark is left |
| GcGraph.SelectAt | runtime/src/gc.c:439-456 | Survivors keep their relative order |
| Gc.Collector.Sweep | runtime/src/gc.c:439-456 | The list becomes the marked objects in the old order, the others are finalised in list order, all marks are clear |
| GcGraph.RetireGarbage | runtime/src/gc.c:199-241 | No object is finalised twice or while still listed |
| Gc.Collector.Collect | runtime/src/gc.c:384-469 | What is left is exactly what roots, static words and stack words reach, in order; every other object is finalised once; the threshold becomes twice the live bytes, at least 1 MiB |
| GcGraph.SurvivorsClosed | runtime/src/gc.c:384-456 | Whatever a survivor or a root points at survives |
| GcGraph.CollectTwice | runtime/src/gc.c:384-456 | A second collection with the same roots frees nothing |
| Gc.Collector.AllocKind | runtime/src/gc.c:323-357 | The new zeroed block is in front of what pressure and an emergency collection leave; live bytes stay below L + max(1 MiB, 2L) plus this allocation, L being live after the last collection |
| GcGraph.WithOne | runtime/src/gc.c:346-355 | A block the allocator places apart keeps the heap well placed and adds its header and payload to the bytes |
| GcLiveness.FreshRefersToNothing | runtime/src/gc.c:346-355 | A zeroed block refers to nothing |
| Gc.Collector.FreeObject | runtime/src/gc.c:360-374 | A payload pointer of a listed object frees that object and only it; any other pointer leaves the heap alone |
| GcGraph.RetireOne | runtime/src/gc.c:243-255 | Freeing one object keeps finalisation once-only |
| Gc.Collector.IsManaged | runtime/src/gc.c:376-382 | True exactly for pointers into some listed payload |
| Gc.Collector.AddRoot | runtime/src/gc.c:298-305 | Afterwards the slot is a root if and only if there was room or it was one already |
| Gc.Collector.RegisteredRootLives | runtime/src/gc.c:394-398 | The object a registered slot points at, or into, is live in every collection, whatever static data and stack hold |
| Gc.Collector.RemoveRoot | runtime/src/gc.c:307-317 | The first registration of the slot is overwritten by the last root |
| GcGraph.LastOverRemoves | runtime/src/gc.c:307-317 | Doing so removes exactly one registration, counted with multiplicity |
| Promises.RunHandlers | runtime/src/promise.c:33-62 | Settles the derived promise, recursively, so that every promise agrees with its parent and handler; settled promises and other roots are untouched |
| Promises.Resolve | runtime/src/promise.c:64-72 | Settles a pending promise once and its whole chain with it; terminates because each call settles one more pending promise |
| Promises.Reject | runtime/src/promise.c:74-82 | The same for rejection |
| Promises.Then | runtime/src/promise.c:84-102 | Attaching before or after settlement leaves every promise consistent with its parent |
| Promises.ThenOnPlainValue | runtime/src/promise.c:86-90 | On a value that is no promise the result is fulfilled with it |
| Promises.Run | runtime/src/promise.c:33-102 | After any schedule of creations, attachments and settlements each promise object holds the fold of the handlers from its root, and each handler that applies has run once |
| Promises.MirrorsEval | runtime/src/promise.c:33-102 | Local agreement of each promise with its parent gives the fold along the whole chain |
| PromiseModel.ReplayClosed | runtime/src/promise.c:64-102 | A run in closed form: creations decide the shape, first settlements the rest |
| PromiseModel.InterleavingIrrelevant | runtime/src/promise.c:33-102 | Schedules with the same creations and the same first settlements, however interleaved, end in the same states |
| PromiseModel.SettleThenCommute | runtime/src/promise.c:64-98 | Attachment and settlement commute, and neither forbids the other |
| PromiseModel.SettledWithRoot | runtime/src/promise.c:33-82 | A derived promise is settled exactly when its root is, however long the chain |
| PromiseModel.RejectionPasses | runtime/src/promise.c:47-60 | A derived promise is rejected with an error exactly if its root is and no promise derived on the way has a rejection handler |
| PromiseModel.ValuePasses | runtime/src/promise.c:36-46 | Behind a resolved root the fulfilment handlers run in chain order, and rejection handlers have no part |
| PromiseModel.RejectionCaught | runtime/src/promise.c:47-60 | Behind a rejected root the first rejection handler on the way turns the error into a value, and the fulfilment handlers behind it run on that |
| PromiseModel.SettledForGood | runtime/src/promise.c:64-82 | Once a promise is settled nothing later changes it |
| ThreadPool.StepPlaces | runtime/src/thread_pool.c:55-73 | Every step keeps each submitted job in exactly one place and every other job in none |
| ThreadPool.StepLogged | runtime/src/thread_pool.c:176-185 | Every step keeps the callback counts equal to what the job's place says has run |
| ThreadPool.StepCounted | runtime/src/thread_pool.c:204-255 | The in-flight counter equals the jobs whose completion is not yet accounted for, and is positive whenever one is |
| ThreadPool.StepInv | runtime/src/thread_pool.c:55-255 | Every enabled step of submitters, workers and completion polls keeps the invariant |
| ThreadPool.WorkThenComplete | runtime/src/thread_pool.c:176-255 | Over every interleaving, work runs at most once, complete at most once and only after work, and both have run exactly once for a freed job |
| ThreadPool.NothingPending | runtime/src/thread_pool.c:219-232 | While the pool is started, nothing is pending exactly when every submitted job has been freed, and then each has run work once and complete once |
| ThreadPool.DecrementNeverBlocked | runtime/src/thread_pool.c:243-250 | The guard on the in-flight decrement never blocks |
| ThreadPool.CompletionPoll | runtime/src/thread_pool.c:234-255 | One undisturbed poll of a started pool completes every job then done and lowers the in-flight count by their number; on a pool not started it does nothing |
| ThreadPool.OrderlyShutdown | runtime/src/thread_pool.c:285-305 | If nothing is submitted after the flag is set, a worker exits only when no work is left to take or on its way |
| ThreadPool.AllWorkDone | runtime/src/thread_pool.c:285-305 | Then, once all workers have exited, every submitted job has run its work |
| ThreadPool.FinalPoll | runtime/src/thread_pool.c:302-304 | After any run in which all workers have exited, the final poll completes and frees every job but those still to be taken or in the hands of another poll, and just these stay in the count; then shutdown returns and nothing is said to be pending; after an orderly run none is left to be taken |
| ThreadPool.LostForever | runtime/src/thread_pool.c:204-232 | A job still to be taken when all workers have exited is never run; the count never returns to zero, and the pool is said to be pending exactly until shutdown returns |
| ThreadPool.DoneAfterReturn | runtime/src/thread_pool.c:219-305 | In every run, once shutdown has returned nothing is pending, and every submitted job has run work and complete once if and only if none is on the work queue, on its way there, or with a poll that has still to call its complete |
| ThreadPool.DoneIffPushedBeforeFlag | runtime/src/thread_pool.c:285-305 | When the flag is set, a job is sure to have run work and complete once by the time shutdown has returned and the polls are through with it if and only if its submission has returned |
| ThreadPool.AnswerRightIff | runtime/src/thread_pool.c:219-305 | The answer 0 after shutdown is right about every job, in every interleaving without later submissions, if and only if every submission had returned when the flag was set |
| ThreadPool.SilentlyDropped | runtime/src/thread_pool.c:219-305 | A concrete run in which shutdown has returned, nothing is pending, and a submitted job never ran |
| ThreadPool.RestartKeepsInv | runtime/src/thread_pool.c:187-202 | Starting the pool again leaves the count and the places right if and only if no job was outstanding |
| ThreadPool.RestartForgets | runtime/src/thread_pool.c:187-202 | A job left on the work queue is in no place after a restart and has not run |
| ThreadPool.ForgottenForever | runtime/src/thread_pool.c:187-255 | Such a job never runs, whatever the restarted pool does |
| ThreadPool.RunUnlessUntaken | runtime/src/thread_pool.c:176-217 | In every run, once all workers have exited, a submitted job has run once if and only if it is not still to be taken |
| ThreadPool.SureExactly | runtime/src/thread_pool.c:176-217 | From a reachable state a job runs in every continuation if and only if its push is over and it is not on the queue with all workers gone |
| ThreadPool.SureIffPushedBeforeFlag | runtime/src/thread_pool.c:285-301 | When the flag is set the jobs sure to run, whatever is submitted later, are exactly those whose submission has returned |
| ThreadPool.CanBeLost | runtime/src/thread_pool.c:204-217 | From any state the pool can close before a job not yet pushed reaches the queue |
| ThreadPool.LateSubmissionIsLost | runtime/src/thread_pool.c:204-217 | A concrete run with such a job |
| JobQueues.JobQueue.Push | runtime/src/thread_pool.c:55-73 | The linked queue appends a job at its tail |
| JobQueues.JobQueue.Pop | runtime/src/thread_pool.c:108-161 | The linked queue yields its oldest job, unlinked, or null when it is empty |
| HashMaps.HashString | runtime/src/hashmap.c:6-12 | The loop computes djb2 modulo 2^32 of the bytes before the first NUL |
| ProbeTable.Djb2Is | runtime/src/hashmap.c:6-12 | The hash is the polynomial of the bytes in 33, 5381 in front, modulo 2^32 |
| HashMaps.HashMap.Probe | runtime/src/hashmap.c:45-48 | Probing stops, on the key or on the first vacant slot of its path, because the load bound leaves a vacant slot |
| HashMaps.HashMap.Get | runtime/src/hashmap.c:57-67 | Agrees with the finite map for present and absent keys |
| HashMaps.HashMap.Has | runtime/src/hashmap.c:69-78 | True exactly for keys of the map |
| HashMaps.HashMap.Set | runtime/src/hashmap.c:40-55 | The map gains or changes exactly the one binding; an insertion below the load bound never resizes |
| HashMaps.HashMap.Resize | runtime/src/hashmap.c:24-38 | Doubling leaves the map unchanged, and no reinsertion doubles again |
| HashMaps.HashMap.ForEach | runtime/src/hashmap.c:88-95 | Visits every binding of the map, each key once |
| HashMaps.HashMap.Count | runtime/src/hashmap.c:97-104 | The count of occupied slots is the size field and the size of the map |
| ProbeTable.MissIsAbsent | runtime/src/hashmap.c:57-78 | Where probing stops decides membership, also for keys with embedded NULs |
| ProbeTable.StoreUpdates | runtime/src/hashmap.c:50-54 | Storing where probing stops keeps every key reachable from its home slot |
| ProbeTable.VacantSlot | runtime/src/hashmap.c:41-48 | A table that is not full has a vacant slot |
| ProbeTable.ListsUnique | runtime/src/hashmap.c:24-38 | A table represents one map only |
| ProbeTable.PairsAreBindings | runtime/src/hashmap.c:88-104 | The occupied slots in order are the bindings, once each |
| JsonCode.ReadString | runtime/src/runtime.c:847-867 | The buffer loop reads escapes and stops at a quote, the end or a full buffer, as the reader on texts does, and says where it would step past the end behind a backslash |
| JsonCode.ScanElement | runtime/src/runtime.c:877-887 | The depth-counting loop finds the end of an element |
| JsonCode.ParseText | runtime/src/runtime.c:820-969 | The cursor parser computes the parse of the text, and says where the C loop would not end and where it would read beyond the text |
| JsonCode.ParseArray | runtime/src/runtime.c:870-902 | The array loop is the element-by-element parse |
| JsonCode.ParseObject | runtime/src/runtime.c:905-966 | The object loop is the field-by-field parse, later keys replacing earlier ones; a key that runs to the NUL makes it step past the text |
| JsonCode.EscapeString | runtime/src/runtime.c:1017-1037 | The escape loop quotes a string, and the text is cut at a NUL of the string |
| JsonCode.Stringify | runtime/src/runtime.c:1008-1072 | The compact printer writes the compact layout, large integers rounded to six digits with an exponent |
| JsonCode.StringifyFields | runtime/src/runtime.c:977-1005 | The object callback, with its first flag, writes the fields in enumeration order |
| JsonCode.BuildIndent | runtime/src/runtime.c:1075-1082 | Fills the indent buffer within its 256 bytes |
| JsonCode.StringifyIndent | runtime/src/runtime.c:1128-1228 | The indenting printer writes the indented layout, or the compact one for a width of zero or less |
| JsonCode.PrintThenParse | runtime/src/runtime.c:820-1228 | Printing at any indent width and parsing, in the program's own loops, gives the value back if and only if its strings fit and it survives the scanner; printable values always do |
| JsonRoundTrip.RoundTrip | runtime/src/runtime.c:820-1072 | Parsing undoes printing, compact or indented, for every value, nested to any depth, whose nested strings and keys pass the element scanner and whose numbers are integers of at most six significant digits; parsing ends |
| JsonRoundTrip.IndentationIsInvisible | runtime/src/runtime.c:1097-1228 | The indented text parses to the same value as the compact one |
| JsonRoundTrip.ScannerTakes | runtime/src/runtime.c:877-887 | The scanner takes a text as one element if and only if its brackets balance and it has no comma outside them, quoted or not |
| JsonRoundTrip.RenderScans | runtime/src/runtime.c:877-887 | Every printed value within the domain is taken whole |
| JsonRoundTrip.ReadExact | runtime/src/runtime.c:851-866 | Reading an escaped string with just enough room gives the string |
| JsonNumbers.ReadGeneral | runtime/src/runtime.c:838-842 | Reading what `%g` printed for an integer, exponent and fraction included, gives the integer rounded to six significant digits |
| JsonDecimals.DecimalValue | runtime/src/runtime.c:838-842 | Every decimal text, with decimals, sign and exponent, is worth its digits as one integer, moved by the number of decimals and by the exponent |
| JsonDecimals.Examples | runtime/src/runtime.c:838-842 | 1.5, -1.5, 25e-1 and 3E2 are read as such |
| JsonGrammar.ParseReadsJson | runtime/src/runtime.c:820-969 | Every text of RFC 8259 whose strings and keys fit and pass the scanner and whose keys differ is read as what it denotes, whatever white space stands between its tokens |
| JsonGrammar.RawReads | runtime/src/runtime.c:847-867 | A string is read as its RFC 8259 escapes say |
| JsonGrammar.UnknownEscape | runtime/src/runtime.c:851-861 | Any other escape, \b, \f and \u included, only loses its backslash |
| JsonGrammar.PrintedDenotes | runtime/src/runtime.c:1017-1037 | A printed string is a string of RFC 8259 that denotes what was printed |
| JsonGrammar.LastValueWins | runtime/src/runtime.c:960 | A key that comes again keeps its place and gets the later value |
| JsonLayout.ArrayLayout | runtime/src/runtime.c:1038-1228 | Elements are printed with a comma and a blank between them, or one a line, indented by their depth |
| JsonLayout.ObjectLayout | runtime/src/runtime.c:977-1228 | The same for an object's fields |
| JsonLayout.WordsAndNumbers | runtime/src/runtime.c:1008-1016 | The words, and small and large numbers, are printed as C prints them |
| JsonRoundTrip.NumberRoundTripExact | runtime/src/runtime.c:838-1013 | An integer below 2^53 comes back if and only if it has at most six significant digits |
| JsonRoundTrip.StringRoundTripExact | runtime/src/runtime.c:846-868 | A top-level string comes back if and only if it has no NUL and fits the buffer |
| JsonRoundTrip.NestedStringsPass | runtime/src/runtime.c:870-966 | Whatever the text, well formed or not, no string that the scanner stops in, that has a NUL or that is too long comes out of an array or object |
| JsonRoundTrip.ItemsReached | runtime/src/runtime.c:870-902 | Of a printed array exactly the elements up to and including the first string that leaves a bracket open come back |
| JsonRoundTrip.ArrayRoundTripExact | runtime/src/runtime.c:870-902 | An array of any strings and of nestable values comes back, compact or indented, if and only if its strings fit and pass the scanner and all but the last close the brackets they open |
| JsonRoundTrip.FieldsReached | runtime/src/runtime.c:905-966 | Of a printed object exactly the fields up to and including the first string value that leaves a bracket open come back |
| JsonNesting.ParseKeeps | runtime/src/runtime.c:820-969 | No text, well formed or not, parses to a value with more commas than the text, or with a string or key too long for its buffer |
| JsonNesting.FieldsKeep | runtime/src/runtime.c:905-966 | The object loop never gains a comma, and overwriting an earlier key costs at least one |
| JsonNesting.RenderCommas | runtime/src/runtime.c:1008-1228 | A printed text has exactly the commas of its value: those of its strings and one between two elements |
| JsonNesting.TurnTakes | runtime/src/runtime.c:877-887 | If the scanner stops at a comma behind as many commas as an element has, it has taken exactly that element |
| JsonNesting.TruncatedRead | runtime/src/runtime.c:911-933 | An escaped string that is cut short reads as less than the string, or runs past the text |
| JsonNesting.ParseExact | runtime/src/runtime.c:820-969 | From a printed value that brackets and white space follow, or that is cut where a scan may stop, the value is read if and only if it survives in that text |
| JsonNesting.RoundTripExact | runtime/src/runtime.c:820-1228 | A value nested to any depth comes back, compact or indented, if and only if its strings and keys fit and have no NUL and it survives the scanning of its text |
| JsonNesting.ObjectRoundTripExact | runtime/src/runtime.c:905-966 | An object of any string values and nestable values, whatever brackets its keys have, comes back if and only if its strings fit and pass the scanner and all but the last close the brackets they open |
| JsonNesting.TrailingCommaOverruns | runtime/src/runtime.c:905-966 | A printed object whose only value is a string that ends in a comma makes the reader step past the text |
| JsonNesting.OpenStringHangs | runtime/src/runtime.c:870-902 | A printed object whose only value is an array of one string that leaves a bracket open makes the array loop turn for ever |
| Fips180.BlocksConcat | runtime/src/websocket.c:125-132 | Hashing a message of whole blocks in two parts is hashing it at once |
| Fips180.PadLength | runtime/src/websocket.c:134-143 | Padding makes the message one block longer, or two when fewer than nine bytes are free |
| Fips180.FewestZeros | runtime/src/websocket.c:134-139 | Padding uses the fewest zero bytes that reach a block boundary |
| Fips180.PadInjective | runtime/src/websocket.c:134-143 | Different messages have different paddings |
| Fips180.FinalBlocks | runtime/src/websocket.c:137-144 | The two-block end of a message is the padding of FIPS 180-4 section 5.1.1 |
| Fips180.FinalBlock | runtime/src/websocket.c:137-144 | So is the one-block end |
| Fips180.DigestInverse | runtime/src/websocket.c:145-148 | The digest bytes read big-endian are the hash value |
| WebSocketSha1.RoundFunction | runtime/src/websocket.c:105-111 | The code's round functions and constants are those of FIPS 180-4 |
| Fips180.RoundConstants | runtime/src/websocket.c:105-111 | The round constants are the integer parts of 2^30 times the square roots of 2, 3, 5 and 10 |
| WebSocketSha1.Transform | runtime/src/websocket.c:96-115 | The block loop is the compression function of FIPS 180-4 section 6.1.2 |
| WebSocketSha1.WsSha1.Update | runtime/src/websocket.c:125-132 | A context fed m, then data, is a context fed m followed by data |
| WebSocketSha1.WsSha1.Final | runtime/src/websocket.c:134-149 | The digest is SHA-1 of everything fed, for every length FIPS 180-4 allows |
| WebSockets.DigestChunks | runtime/src/websocket.c:117-149 | Feeding any chunks gives the digest of the chunks joined |
| WebSockets.AcceptKey | runtime/src/websocket.c:153-170 | The accept key is base64 of SHA-1 of the key and the GUID, 28 characters long |
| AcceptExample.ExampleAnswer | runtime/src/websocket.c:153-170 | The nonce of the example in RFC 6455 section 1.3 is answered as given there |
| AcceptExample.NonceAscii | runtime/src/websocket.c:153-170 | The bytes hashed for it are its characters in ASCII |
| Base64.LetterAt | runtime/src/websocket.c:63-84 | The letters are A to Z, a to z, 0 to 9, plus and slash, in this order |
| Base64.EncodeBytes | runtime/src/websocket.c:63-84 | The loop writes the encoding, four letters for every three bytes begun |
| Base64.RoundTrip | runtime/src/runtime.c:2594-2617 | An RFC 4648 decoder gives the bytes back, whatever their number |
| WebSocketFrames.HeaderBack | runtime/src/websocket.c:764-783 | The receiver takes apart every length form and mask bit of a text frame's header |
| WebSocketFrames.MaskTwice | runtime/src/websocket.c:801-804 | Unmasking undoes masking |
| WebSocketFrames.DeliveredExactly | runtime/src/websocket.c:748-813 | A text frame is delivered whole and exactly its bytes consumed if and only if its payload is shorter than 1 MiB; a longer one is delivered as the empty message, its payload left in the input |
| WebSocketFrames.AllDelivered | runtime/src/websocket.c:748-813 | Any run of frames, masked or not, comes out as the payloads that went in, in order, one call a frame, and exactly their bytes are consumed |
| WebSocketFrames.OwnControlFrames | runtime/src/websocket.c:353-356 | The receiver closes on the runtime's own close frame and skips its own pong, consuming exactly their bytes |
| WebSocketFrames.AnyFrame | runtime/src/websocket.c:748-838 | Any frame below 1 MiB laid out by hand as RFC 6455 has it is received: a text or binary message whose bytes xored with the key bytes of their places are the bytes on the wire, a close, a ping that is answered, or nothing |
| Octets.ByteIsNumber | runtime/src/websocket.c:318-334 | The length bytes are the numbers they stand for |
| WebSocketFrames.FrameBytes | runtime/src/websocket.c:310-350 | What is sent is a final text frame that announces its length, with the key behind the header and each data byte xored with the key byte of its place |
| WebSockets.SendFrame | runtime/src/websocket.c:310-350 | The bytes written are the text frame of RFC 6455 section 5.2 |
| WebSockets.WebSocket.RecvHeader | runtime/src/websocket.c:751-783 | Reads a header, or consumes what is there when it comes short |
| WebSockets.WebSocket.RecvPayload | runtime/src/websocket.c:785-799 | Takes exactly the payload from the input |
| WebSockets.WebSocket.RecvFrames | runtime/src/websocket.c:748-838 | One call delivers, closes, answers a ping or waits as the receiver on values does |
| TimerModel.RunInv | runtime/src/builtins.c:319-414 | In every run a timer is in the list and active exactly while the log says it is live, numbers never repeat, and newer timers come first |
| TimerModel.ClearedNeverFires | runtime/src/builtins.c:338-346 | In every run a cleared timer never fires again |
| TimerModel.OneShotFiresOnce | runtime/src/builtins.c:393-396 | In every run a one-shot timer fires at most once |
| TimerModel.PassExact | runtime/src/builtins.c:381-414 | A pass fires a timer present at its start exactly once if it was active and due and no callback cleared it before the walk came to it, and not at all otherwise |
| TimerModel.LaterTimersWait | runtime/src/builtins.c:319-336 | A timer added during a pass does not fire in it |
| TimerModel.OthersSilent | runtime/src/builtins.c:387-401 | Nothing fires that the walk does not reach |
| TimerModel.ActiveMembers | runtime/src/builtins.c:366-377 | Removal keeps exactly the active timers, in order |
| TimerClock.FiresWhenDue | runtime/src/builtins.c:319-401 | A pass after an addition fires the new timer exactly if its delay, or 0 for a negative one, is over to half a millisecond |
| TimerClock.NeverEarly | runtime/src/builtins.c:319-414 | In every run, with a clock that does not go back, no timer fires before its delay is over to half a millisecond, whether the program or a callback has set it |
| TimerClock.FiringsApart | runtime/src/builtins.c:393-401 | In every run two polls that fire the same timer are its delay apart, to half a millisecond |
| Timers.TimerList.Add | runtime/src/builtins.c:319-336 | The new timer is linked in front, due after a delay that is never negative |
| Timers.TimerList.Clear | runtime/src/builtins.c:338-346 | The first timer with the number stops being active; nothing else changes |
| Timers.TimerList.FireTimer | runtime/src/builtins.c:389-396 | A one-shot is inactive before its call; an interval is set again after it if still active |
| Timers.TimerList.GcInactive | runtime/src/builtins.c:366-377 | The pointer-rewriting loop leaves the active timers in order |
| Timers.TimerList.PollOnce | runtime/src/builtins.c:381-414 | The linked-list walk, whose list callbacks change meanwhile, is the pass on values; it reports whether anything fired |
| Calendar.YearStep | runtime/src/runtime.c:38-46 | The closed-form Gregorian day count gains 365 or 366 days in every year, past or future |
| Calendar.DateUnique | runtime/src/runtime.c:42-55 | A day number has one date |
| Calendar.MonthFormula | runtime/src/runtime.c:47-50 | The days before each month are given by a formula without a table |
| Calendar.KnownDays | runtime/src/runtime.c:42-55 | 1 January 1970 is day 0 and 1 January 2000 day 10957 |
| Calendar.FieldsUnique | runtime/src/runtime.c:86-126 | An instant has one set of clock fields |
| Calendar.IsoRoundTrip | runtime/src/runtime.c:57-72 | The parser reads back the fields of every ISO text of the years 0 to 9999 |
| Calendar.IsoLayout | runtime/src/runtime.c:141-146 | The text is YYYY-MM-DDTHH:MM:SS.mmmZ, character by character |
| Dates.DaysFromEpoch | runtime/src/runtime.c:42-55 | The loops compute the day number if and only if the year is 1970 or later |
| Dates.DateOfDay | runtime/src/runtime.c:93-125 | The year and month loops find the valid date of any day, past or future |
| Dates.Components | runtime/src/runtime.c:86-126 | The fields always add up to the instant, and are clock fields if and only if the instant is not before 1970 or is a midnight |
| Dates.DayThenDate | runtime/src/runtime.c:42-126 | `days_from_epoch` inverts the date loops if and only if the day is not before 1970 |
| Dates.ToIso | runtime/src/runtime.c:141-146 | The ISO text shows the fields of the instant |
| Dates.ParseDate | runtime/src/runtime.c:74-84 | The parsed instant is that of the fields read if and only if the year is 1970 or later |
| Dates.PrintThenParse | runtime/src/runtime.c:74-146 | Printing and parsing gives back every whole millisecond from 1970 through 9999 |
| Dates.GetDay | runtime/src/runtime.c:131 | The day of the week is right if and only if the day is not before 28 December 1969 or is a Sunday; otherwise it is seven too small |
| Dates.WeekdaysFollow | runtime/src/runtime.c:131 | Weekdays follow each other, and 1 January 2000 was a Saturday |
| StringArrays.TSArray.Push | runtime/src/array_ops.c:26-32 | Appends; a full array first moves to one of twice the capacity |
| StringArrays.SearchFrom | runtime/src/string_ops.c:243-249 | The search loop finds the first occurrence from a place on |
| StringArrays.Split | runtime/src/string_ops.c:227-258 | The loops push the pieces of the string |
| StringArrays.JoinItems | runtime/src/array_ops.c:85-93 | The loop joins the items with the separator |
| SplitJoin.JoinSplit | runtime/src/string_ops.c:227-258 | Joining the pieces gives back the string, for every string and separator, the empty ones included |
| SplitJoin.PiecesAre | runtime/src/string_ops.c:227-258 | An empty separator gives one piece a character; otherwise the first piece is what stands before the first separator |
| SplitJoin.SplitExactly | runtime/src/string_ops.c:240-256 | The pieces are the only ones that join to the string, contain no separator and take every separator as early as possible |
| SplitJoin.SplitJoinExact | runtime/src/string_ops.c:240-256 | Splitting undoes joining if and only if the pieces are of that kind |
| StringArrays.SplitThenJoin | runtime/src/array_ops.c:85-93 | The round trip through the program's own loops |
| Radix.DigitsArePlain | runtime/src/builtins.c:109-112 | The digits of a number have no leading zero and evaluate to it |
| Radix.DigitsAndLetters | runtime/src/builtins.c:102-112 | Digits are 0 to 9 and the letters of either case |
| Radix.EvalConcat | runtime/src/builtins.c:132-139 | Digits in front weigh more, by the power of the base that the digits behind give |
| Radix.KnownTexts | runtime/src/builtins.c:114-216 | Eleven in base 2 and 255 in base 16 |
| Radix.MeaningOfCanonical | runtime/src/builtins.c:114-216 | Reading the text of an integer in any base gives the integer |
| Radix.CanonicalExactly | runtime/src/builtins.c:124-139 | A text is what converting its own value gives if and only if it has no plus sign, leading zero, minus zero, lower-case digit or trailing text |
| Radix.ThereAndBack | runtime/src/builtins.c:114-216 | Converting to another base keeps the value, and converting back gives the input if and only if it was canonical |
| ConvertBase.ParseInteger | runtime/src/builtins.c:132-139 | The parse loop computes the value of the leading digits |
| ConvertBase.WriteDigits | runtime/src/builtins.c:180-187 | The digits are written backwards into the buffer, which is never full |
| ConvertBase.Convert | runtime/src/builtins.c:114-216 | The output is the canonical text of the input's value in the target base; a bad base gives the empty text |
| ConvertBase.ConvertTwice | runtime/src/builtins.c:114-216 | The round trip through the program's own loops |
| TemplateEmitter.EscapeIsSimultaneous | src/codegen/expression-emitter.ts:5519-5526 | The five chained replacements are one replacement of every character at once |
| TemplateEmitter.LiteralRoundTrip | src/codegen/expression-emitter.ts:5519-5526 | Reading the C literal gives the string back, for every string |
| TemplateEmitter.NewMeans | src/codegen/expression-emitter.ts:5145-5148 | The emitted constructor call, read back as C text, evaluates to the string, whatever its characters |
| TemplateEmitter.ConcatMeans | src/codegen/expression-emitter.ts:5178-5181 | The emitted concatenation call, its arguments found again in the text, evaluates to the two strings joined |
| TemplateEmitter.FoldedMeans | src/codegen/expression-emitter.ts:5145-5182 | The emitted text, read as C, evaluates to the head, then each span's text and literal in order, templates nested in spans included |
| TemplateEmitter.CallsInWords | src/codegen/expression-emitter.ts:5145-5181 | The two calls spelled out evaluate to the string, and to the first argument's string with the second's behind it |
| TemplateEmitter.OneSpan | src/codegen/expression-emitter.ts:5145-5182 | A template with one span means head, span, literal |
| TemplateEmitter.OneSpanMore | src/codegen/expression-emitter.ts:5145-5182 | A further span adds its string and literal behind the others |
| TemplateEmitter.EmitTemplate | src/codegen/expression-emitter.ts:5145-5182 | The parts collected and reduced are that text |

## Left out

- Machine integers: sizes, counters and identifiers are unbounded except where a wrap-around is written out (the hash, the SHA-1 byte count, words of the compression function).
- Gc.Collector.MarkRoots: takes the words of the stack and of the writable sections as inputs; finding their bounds is not part of this model.
- Gc.Collector.AllocKind: malloc's answers are inputs, required only not to overlap blocks in use.
- Gc.Collector.ScanBody: the words of a raw payload and of the buffers are taken as aligned word sequences.
- Locks around the collector: collection is modelled in one thread.
- Promises.Run: allows one `then` or `catch` per promise, as a second overwrites the first; `finally`, `ts_await` and the Promise constructor's resolvers are not modelled. A promise returned by a handler is a plain value, as in the code.
- Promises.Resolve: handlers are total functions on values that do not touch promises themselves.
- Gc.Collector.SetThreshold: the setter has no row; its effect on pacing shows in the accounting of Gc.Collector.AllocKind.
- ThreadPool.StepInv: condition variables, timed waits and thread start-up are left out; safety is proved, not that anything eventually happens.
- ThreadPool.FinalPoll: runs end with the first shutdown; of a restart the step itself is modelled (`ThreadPool.Restarted`), and what follows it only for a job left on the queue.
- ThreadPool.StepPlaces: a submission that finds the pool started is modelled; one whose start of the pool races with another thread's is not.
- HashMaps.HashMap.Set: keys are values; the code stores pointers and relies on keys not being changed.
- JsonRoundTrip.RoundTrip: an object stands for its bindings in printing order; the order in which the rebuilt hash map would enumerate them is not modelled.
- JsonCode.Stringify: the numbers printed are integers below 2^53; `%g` on fractions is not modelled.
- JsonRoundTrip.FieldsReached: gives what comes back of an object only if the keys behind a string that leaves a bracket open close no bracket they do not open; that the object itself does not come back otherwise either is JsonNesting.ObjectRoundTripExact.
- JsonRoundTrip.ArrayRoundTripExact: arrays and objects among the elements are taken to be nestable; JsonNesting.RoundTripExact asks nothing of them.
- JsonNesting.RoundTripExact: the numbers of the value are integers below 2^53, since `%g` on fractions is not modelled; an object has one value for a key, as a map does.
- JsonGrammar.ParseReadsJson: asks that no string has an unbalanced bracket or a comma outside brackets, as the scanner then goes astray, that sizes fit the buffers and that keys differ; what happens otherwise to a printed text is JsonNesting.RoundTripExact.
- TimerClock.NeverEarly: the clock is taken not to go back.
- JsonCode.ParseText: a number's value is a real that is not rounded to a double; hexadecimal, infinite and not-a-number texts after a sign are not modelled; a text ends at its first NUL; where C reads beyond it the result is that it does, not what it finds there.
- JsonCode.StringifyIndent: the indentation fits the 256-byte buffers with their NUL, since from 256 columns on the C code writes past them.
- JsonCode.BuildIndent: the same.
- WebSockets.SendFrame: payloads are at most 65535 bytes, since the longer form shifts a C int by more than its width.
- WebSockets.WebSocket.RecvFrames: a receive returns all the bytes asked for that have arrived; a payload of which only a part has arrived, and binary frames of 1 MiB or more, are excluded because the code then uses memory it has not written.
- WebSockets.AcceptKey: sockets and the HTTP upgrade are not modelled.
- Timers.TimerList.PollOnce: the sleep of an idle poll and the clock reading for it are left out; callbacks add and clear timers but do not poll; times are real numbers.
- Dates.Components: instants are whole milliseconds, on which the divisions by powers of ten are exact.
- Dates.ParseDate: a text cut off inside its time, or with a month beyond 13, is excluded because the code then reads past the text or the month table.
- Dates.PrintThenParse: the printed form of years before 1970 and after 9999 is not modelled.
- ConvertBase.Convert: texts with a fraction are not modelled; values are below 2^53, where a double holds every integer.
- TemplateEmitter.FoldedMeans: an interpolated expression's code is taken to close its brackets and literals and to have no bare comma, as a call argument must; which conversion call wraps an interpolated expression is not modelled; literals are read as C string literals without trigraphs, and a raw NUL in source text is not modelled.
- The remaining emitters, the builtin registry, the command line, file, network and console input and output, and the accessors of values and objects.
