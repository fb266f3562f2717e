# crust-of-rust-notes, core logic in Dafny

This project models the pieces of the crust-of-rust-notes repository that
carry behaviour of their own, each as immutable data and pure functions
(the two sorters as methods with loops over a local slice value):

- **panama**: the multi-producer/single-consumer channel. The state is the
  shared FIFO `queue`, the `senders` count and the Receiver's private
  `buffer`. `send`, Sender `clone`, Sender `drop`, Receiver `drop` and
  `recv` are single atomic steps. `recv` has three outcomes: an item, closed
  (`None`), or would-block (the condition-variable wait). Runs of arbitrary
  action sequences record what was sent and received. Over them the model
  proves conservation and FIFO order, and that closure is terminal.
- **4_sort**: `quicksort` (Hoare-style partition around the first element,
  the `right == 0` break, pivot placement, recursion on both sides) and
  `SelectionSort::sort` (the first minimum of the unsorted suffix is swapped
  into place). Both are proved to return a sorted permutation of the input.
  A sorted permutation is unique, so the unit tests' expected outputs follow.
- **vid6**: `strtok`, which splits off the token before the first delimiter.
- **10_fat_pointers_dispatch**: `group_by`/`GroupBy::next`, the
  `TextObjectParser::next` BT/Td/Tj/ET state machine, and `parse_row`.
- **vid3**: the hand-rolled `Rc`, over a heap of allocation records with a
  freed flag and a multiset of live handles.
- **other_videos/mywat2**: `format_path` and the `Message`/`TaskBlock`
  command-list operations.

Files: `optional.dfy` (Option), `channel.dfy`, `channel_runs.dfy`,
`sorting.dfy` (sortedness, `swap`, uniqueness of sorted permutations),
`quicksort.dfy`, `selectionsort.dfy`, `strtok.dfy`, `groupby.dfy`,
`textobjects.dfy`, `parserow.dfy`, `rc.dfy`, `mywat.dfy`.

Modelling choices:
- A mutable slice `&mut [T]` is a `seq<int>` held in a local variable. Each
  `slice.swap` rebinds it to `Swap(slice, i, j)`. `split_at_mut` and the
  recursive calls on the halves become sub-sequences that are put back
  together by concatenation. The element type `T: Ord` is `int`.
- Sender handles are named by ids. This lets the invariant "`senders`
  equals the number of live Senders" (`Channel.Valid`) be stated. Cloning
  and dropping a Sender require that the handle they act on is alive, which
  is what Rust ownership guarantees, and also the reachable-state invariant
  `Channel.Valid`, which `Channel.New` establishes and every operation
  keeps. The run-level `ChannelRuns.Apply` and `ChannelRuns.Run` require
  the same invariant. The bulk `mem::swap` in `recv` is
  modelled literally: the buffer takes the rest of the queue, and the queue
  takes the old buffer, which is proved to be empty at that point.
- `f32` coordinates are `real` values. `PdfString::as_str().ok()` is a
  `Str(decoded: Option<string>)` operand, so a `Tj` whose string does not
  decode resets the pending text to `None`, as in the source.
- `heck::to_title_case` is the parameter `titleCase` of `ParseRow`.

## Model

| member | source | states |
|---|---|---|
| Channel.New | panama/src/lib.rs:109-120 | a new channel has an empty queue and buffer, `senders == 1`, exactly one live Sender, and satisfies the channel invariant |
| Channel.Send | panama/src/lib.rs:55-62 | the value is appended at the tail of the pending items and of the shared queue; counts, buffer and the Receiver's liveness are unchanged, and no liveness of the Receiver is required |
| Channel.CloneSender | panama/src/lib.rs:29-41 | `senders` grows by exactly one and the new handle is a fresh live Sender; queue and buffer are unchanged; the invariant is kept |
| Channel.DropSender | panama/src/lib.rs:43-53 | `senders` shrinks by exactly one and the handle is no longer live; the count reaches zero exactly when the last live Sender is dropped; the invariant is kept |
| Channel.DropReceiver | panama/src/lib.rs:65-68 | dropping the Receiver discards its private buffer and leaves the shared queue and the sender count as they were |
| Channel.Recv | panama/src/lib.rs:70-96 | returns an item exactly when something is pending, and it is the oldest one, the rest staying pending in order; returns closed exactly when nothing is pending and `senders == 0`, would block exactly when nothing is pending and `senders > 0`, and changes nothing in both cases; the fast path leaves the shared queue alone and the slow path leaves it empty |
| ChannelRuns.ApplyPreservesInv | panama/src/lib.rs:29-96 | every single action keeps: received is a prefix of sent, and while the Receiver lives, sent is received followed by the pending items |
| ChannelRuns.RunConserves | panama/src/lib.rs:29-96 | over any run of actions the items are conserved and delivered in FIFO order, with no loss and no duplication |
| ChannelRuns.ClosedStaysClosed | panama/src/lib.rs:29-62 | once no Sender is alive and nothing is pending, no run can send or clone again, so the channel stays closed |
| ChannelRuns.ClosedIsTerminal | panama/src/lib.rs:87 | once `recv` has returned `None`, every later `recv` after any run returns `None` too |
| ChannelRuns.ClosedMeansAllDelivered | panama/src/lib.rs:70-93 | when `recv` reports closure, everything ever sent has been received |
| ChannelRuns.PingPong | panama/src/lib.rs:135-140 | send 42 then recv gives `Some(42)` |
| ChannelRuns.ClosedTx | panama/src/lib.rs:142-147 | dropping the only Sender then recv gives `None` |
| ChannelRuns.ClosedRx | panama/src/lib.rs:149-154 | after the Receiver is dropped, a send still succeeds and queues the value |
| ChannelRuns.DrainBeforeClose | panama/src/lib.rs:72-93 | send 1 and 2 and drop the Sender; recv then gives 1, 2 and then `None` |
| QuickSort.PartitionLoop | 4_sort/src/quicksort.rs:19-43 | the loop keeps `left` and `right` in bounds, never underflows `right` (the `right == 0` break), terminates, and ends with every item before `left` at most the pivot and every item from `left` on above it; `rest` is permuted |
| QuickSort.PlacePivot | 4_sort/src/quicksort.rs:45-49 | after the swap with index `left`, the pivot sits at `left` with every earlier item at most the pivot and every later item above it; the slice is permuted |
| QuickSort.Partition | 4_sort/src/quicksort.rs:18-52 | the rearranged slice is a permutation with the original first element at the returned index, everything before it at most that pivot and everything after it above it |
| QuickSort.Quicksort | 4_sort/src/quicksort.rs:5-55 | the result is sorted and a permutation of the input; slices of length 0 or 1 are unchanged; a length-2 slice is swapped when `slice[0] > slice[1]` and left alone otherwise |
| QuickSort.ItWorks | 4_sort/src/quicksort.rs:66-71 | `[4,2,5,3,1,6,7,8,9]` sorts to `[1,...,9]` |
| SelectionSort.SmallestInRest | 4_sort/src/selectionsort.rs:13-18 | the index lies in the unsorted suffix, holds a minimum of it, and no earlier index of the suffix holds that minimum |
| SelectionSort.Sort | 4_sort/src/selectionsort.rs:6-34 | the result is sorted and a permutation of the input |
| SelectionSort.ItWorks | 4_sort/src/selectionsort.rs:37-42 | `[4,2,5,3,1]` sorts to `[1,2,3,4,5]` |
| Strtok.Find | vid6/src/lib.rs:4 | finds nothing exactly when the delimiter is absent; otherwise the index holds the delimiter and nothing before it does |
| Strtok.Strtok | vid6/src/lib.rs:3-14 | the token contains no delimiter; if the delimiter occurs, token, delimiter and the new string concatenate to the old string; otherwise the whole string is returned and the new string is empty |
| Strtok.StrtokUnique | vid6/src/lib.rs:3-8 | any delimiter-free prefix followed by the delimiter is exactly the token split off, and what follows it is the new string |
| Strtok.HelloWorld | vid6/src/lib.rs:112-136 | `"hello world"` with `' '` gives `"hello"` and leaves `"world"` |
| Strtok.EmptyStaysEmpty | vid6/src/lib.rs:9-13 | an empty string gives an empty token and stays empty |
| GroupBy.Span | 10_fat_pointers_dispatch/src/lib.rs:188-198 | the peek loop takes a prefix whose items all have the key, and stops only at the end of input or at an item with a different key |
| GroupBy.Next | 10_fat_pointers_dispatch/src/lib.rs:182-201 | returns `None` exactly on exhausted input; otherwise a non-empty, key-homogeneous group that with the remaining items gives back the input, and the next remaining item has a different key |
| GroupBy.Groups | 10_fat_pointers_dispatch/src/lib.rs:155-201 | all groups yielded in order are non-empty and key-homogeneous, consecutive groups have different keys, and their concatenation is the input |
| GroupBy.FirstGroupIsNext | 10_fat_pointers_dispatch/src/lib.rs:182-201 | in any correct grouping, the first group is exactly what `next` yields and the rest of the groups cover what it leaves |
| GroupBy.GroupingUnique | 10_fat_pointers_dispatch/src/lib.rs:182-201 | any grouping with those properties is exactly the one the iterator yields |
| TextObjects.Step | 10_fat_pointers_dispatch/src/lib.rs:118-146 | `BT` and `ET` clear both pending halves; unrecognised operators and malformed `Td`/`Tj` change nothing; `Td` keeps the text and `Tj` keeps the position |
| TextObjects.Next | 10_fat_pointers_dispatch/src/lib.rs:114-150 | `next` yields nothing exactly when no `ET` is reached with both a position and a text pending; otherwise it yields at the first such `ET` the object built from them and resumes right after it |
| TextObjects.ScanYieldsAtFirstCompleteEnd | 10_fat_pointers_dispatch/src/lib.rs:118-149 | the same characterisation from any pending position and text the loop has reached: nothing is yielded exactly when no later `ET` finds both pending; otherwise the first such `ET` yields the object and the loop resumes after it |
| TextObjects.BeginDiscardsHistory | 10_fat_pointers_dispatch/src/lib.rs:120-125 | a `BT` discards every position and text seen before it |
| TextObjects.SkippedOpsAreInert | 10_fat_pointers_dispatch/src/lib.rs:145 | a run of unrecognised operations leaves the pending state unchanged |
| TextObjects.LaterOperandOverwrites | 10_fat_pointers_dispatch/src/lib.rs:126-135 | after any history, a well-formed `Td` replaces the pending position and keeps the text, and a well-formed `Tj` replaces the pending text (with `None` when it does not decode) and keeps the position |
| TextObjects.SimpleBlock | 10_fat_pointers_dispatch/src/lib.rs:136-143 | `BT Td Tj ET` yields the object with that position and text |
| TextObjects.IntegerPositionIsSkipped | 10_fat_pointers_dispatch/src/lib.rs:126-130 | a `Td` with integer operands is skipped, so its block yields nothing |
| MemberRows.ParseRow | 10_fat_pointers_dispatch/src/lib.rs:242-262 | succeeds exactly on 6 cells, with surname (title-cased), first name, email and mobile from cells 0-3; otherwise the error reports the row length |
| RefCount.New | vid3/src/rc.rs:31-45 | a fresh allocation holds the value with count 1 and one handle to it; earlier allocations are untouched; the invariant is kept |
| RefCount.Clone | vid3/src/rc.rs:47-57 | the count of the same allocation grows by exactly one and one more handle to it exists; nothing else changes |
| RefCount.Drop | vid3/src/rc.rs:68-82 | the allocation is freed exactly when its count was 1, otherwise the count shrinks by exactly one; the handle is gone and the invariant (count equals live handles) is kept |
| RefCount.Deref | vid3/src/rc.rs:59-66 | a live handle's allocation is not freed and yields its stored value |
| RefCount.DerefStable | vid3/src/rc.rs:59-66 | a handle's value is unchanged by `new`, `clone` and `drop` of other handles |
| RefCount.FreedExactlyAtLastHandle | vid3/src/rc.rs:68-82 | after a drop, the allocation is freed exactly when no handle to it remains |
| RefCount.Lifecycle | vid3/src/rc.rs:31-82 | new then clone gives count 2; the first drop keeps the value alive and the second frees it |
| PathFormat.RemoveAll | other_videos/mywat2/src/main.rs:328-330 | the removed character no longer occurs, no character is introduced, a string without it is unchanged, and a one-character string becomes empty exactly when it is that character |
| PathFormat.RemoveAllDistributes | other_videos/mywat2/src/main.rs:328-330 | `replace` works piece by piece and in order: removing from a concatenation concatenates the removals, so together with the one-character case every other character is kept in its place |
| PathFormat.FormatPath | other_videos/mywat2/src/main.rs:326-332 | the result contains no carriage return, line feed or tab |
| PathFormat.FormatPathIsKeep | other_videos/mywat2/src/main.rs:326-332 | the three `replace` passes equal a one-pass filter that keeps every other character |
| PathFormat.FormatPathDistributes | other_videos/mywat2/src/main.rs:326-332 | `format_path` works piece by piece and in order: formatting a concatenation concatenates the formatted parts, and a single character is dropped exactly when it is one of the stripped characters |
| PathFormat.CleanPathUnchanged | other_videos/mywat2/src/main.rs:326-332 | a path with none of the three characters is returned unchanged |
| PathFormat.FormatPathIdempotent | other_videos/mywat2/src/main.rs:326-332 | formatting twice is formatting once |
| Commands.NewMessage | other_videos/mywat2/src/main.rs:352-354 | a new message has no commands |
| Commands.AppendCmd | other_videos/mywat2/src/main.rs:356-358 | exactly one command is added, at the end, and earlier ones are unchanged |
| Commands.Undo | other_videos/mywat2/src/main.rs:360-362 | removes only the last command, and does nothing on an empty list |
| Commands.Clear | other_videos/mywat2/src/main.rs:364-366 | the command list is empty |
| Commands.NewTaskBlock | other_videos/mywat2/src/main.rs:390-396 | a new task block has no messages |
| Commands.AddMessage | other_videos/mywat2/src/main.rs:398-400 | exactly one message is added, at the end, and earlier ones are unchanged |
| Commands.UndoInvertsAppend | other_videos/mywat2/src/main.rs:356-362 | `undo` takes back the last `append_cmd` |

## Left out

- Locking, the condition variable and `Arc` in panama are left out. Each channel operation is one atomic step, and the `notify_one` wake-ups after `send` and after the last Sender's drop are not modelled. Lock poisoning (`lock().unwrap()`) is left out too.
- Channel.Recv: a blocking wait is the `WouldBlock` outcome, with the state unchanged. Spurious wake-ups and the retry loop are not modelled.
- Thread interleavings are not modelled. Per-sender order under concurrent senders follows from the whole-stream FIFO property of `ChannelRuns.RunConserves`, because each run is a total order of atomic steps.
- Channel.CloneSender: `senders` is a `nat`, not a pointer-width `usize`, so overflow of `senders += 1` is not modelled.
- Channel.DropSender: underflow of `senders -= 1` is not modelled; the invariant `Channel.Valid` rules it out.
- RefCount.Clone: the refcount is a `nat`, so the wrap-around of `c + 1` past `usize::MAX` is not modelled.
- `NonNull`, `Box::into_raw`/`from_raw` and `PhantomData` in the Rc are replaced by an allocation record with a freed flag. vid3/src/cell.rs is a plain field of that record.
- QuickSort.Quicksort and SelectionSort.Sort work on `int` rather than on any `T: Ord`. This means the model cannot tell whether equal elements were swapped.
- GroupBy.Next: the grouper is a pure function. An `FnMut` grouper with side effects, or keys whose `PartialEq` is not an equivalence relation (`f32` NaN), is not modelled.
- TextObjects.Step: `f32` coordinates are `real`, so rounding, NaN and signed zero are not modelled.
- The `text_objects` adaptor, `parse`, `parse_members_on_page` and the `pdf` crate's `File`/`Page` types are left out as foreign. The same holds for `heck::to_title_case`, which is a parameter, and for `anyhow` context text beyond the row length.
- The `strlen*`, `Hei`, `bar`, `say_hei` and `foo` dispatch demonstrations are left out. They are trivial or only print.
- Strtok.Strtok works on `seq<char>`. UTF-8 byte offsets (`len_utf8`) are not modelled.
- PathFormat.FormatPath works on text. The lossy `PathBuf::display` conversion is not modelled.
- `Message::execute`, `Cmd::execute` and `TaskBlock::execute` are left out, because they run commands through `dyn` dispatch. The inherent `Message::execute` builds a lazy iterator that is never consumed, so it runs nothing. The `TaskBlock` fields `handle` and `hooks` are left out.
- `main`, `talking_threads`, `get_input` and the `Service` impl of mywat2 are left out: they are I/O, threads and `todo!()`.
- vid8 (spinlock atomics), 9_async, 6_drop_check, other_videos/rtest and other_videos/arc_receiver are not part of this model. They are concurrency, type-system or network demonstrations with no sequential behaviour to state.
