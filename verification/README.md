# A verified model of the OpenSovix module registry, IPC queues, system-call table and VGA console

This Dafny project models four sequential components of the OpenSovix microkernel and
proves what each of them promises.

- **Module registry** (`src/modules/module.c`), in `module.dfy`, `image.dfy` and `memory.dfy`.
  - `Modules.Registry` holds the loaded-module list, newest first, as a `seq<Entry>` (index 0 is the head), plus `module_count`.
  - Loading reads the 32-byte `ModuleHeader`, checks the magic, and allocates the code+data region.
  - It copies text then data, allocates the entry, and decodes the `ModuleExportTable` at `export_offset`.
  - It then runs `init`, prepends the entry, and releases the raw image.
  - Unloading runs its three guards in the source's order, ignores the `exit` hook's result, unlinks the entry and frees both blocks.
  - The allocator (`Memory.Heap`) may refuse any request. It keeps a ghost map of live blocks, so every failure path is proved to leave no block behind.
  - The byte layouts are little-endian u32 words as on i386, with decode/encode round trips proved in both directions. They cover the header, `ModuleInfo` (220 bytes) and the export table (296 bytes, with `info` at offset 72).
- **IPC queues** (`ipc.c`), in `ipc.dfy`.
  - `Ipc.Table` is the 128-entry `ipc_queues` array with its counter.
  - `Ipc.Queue` is a queue object whose `array<Message>` slots are updated in place.
  - Each queue operation is proved equal to a pure step function (`SendStep`, `ReceiveStep`) over a `QueueState` value. Its counters and error codes are stated there.
- **System-call table** (`src/kernel/syscall.c`), in `syscall.dfy`.
  - The 26-entry handler array.
  - Registration with its range check.
  - The initial population.
  - The dispatcher that writes `params->result`.
  - The result mapping of `syscall_module_call`.
- **VGA text console** (`src/kernel/drivers/vga.c`), in `vga.dfy`.
  - `Vga.Console` holds the cursor, the current attribute and the `W x H` cell array.
  - `Clear` and `Scroll` are the nested loops of the source. `Putc`, `Puts` and `Printf` are proved against pure functions (`Put`, `PutAll`, `Render`) over a `Screen` value.
  - `Printf`'s format is modelled as the memory the format pointer designates. The model therefore follows the source's walk exactly, including what happens when a `%` sits right before the terminator.

Collaborators are parameters, because their code is not part of this model:
- the storage read (`filesystem_load_file`);
- module hooks and slot functions;
- system-call handler bodies;
- the current process and the tick counter;
- the digit conversions `itoa`/`utoa`.

The constants of ipc.h and vga.h (`MAX_MESSAGE_SIZE`, the queue-name buffer, the structure sizes, `VGA_WIDTH`, `VGA_HEIGHT`) are fixed fields of the objects that use them, set when those objects are constructed.

The model follows the code where it does less than its error codes and names suggest:
- **`export_offset`.** `ERR_INVALID_MODULE` is returned only for a bad magic (module.c:65-69). The export table is read at `export_offset` without any bounds check (module.c:104-106). Here that bound is a precondition of `Registry.Load` (see `LoadableImage`), not a check.
- **`module_call` failures.** `ERR_NOT_IMPLEMENTED` and `ERR_INVALID_ARG` exist in kernel.h:46-62, but `module_call` reports a missing module, an inactive one, an index out of range and an empty slot alike as NULL (module.c:214-235). `syscall_module_call` turns that NULL into `ERR_GENERIC`.
- **Names as keys.** `module_find` and the `ERR_EXISTS` check treat the name as a key. The code stores the file name truncated to 31 characters but compares full names (module.c:98, 194). Loading a longer name twice therefore registers it twice (`LongNameNeverFound`).
- **`MAX_MODULES`.** No limit is enforced in the code (`MAX_MODULES`, kernel.h:34, only appears in a log line at module.c:40), so the model has none either.

## Model

| member | source | states |
|---|---|---|
| Kernel.ErrorCode.Code | src/kernel/kernel.h:46-62 | 0 exactly for success, every error between -14 and -1 |
| Kernel.ToU32 | ipc.c:44 | conversion to u32 is the identity on u32 values and adds 2^32 to negative ints |
| Kernel.Word | src/kernel/syscall.c:65 | an error code stored in a u32 slot is 0 exactly for success, otherwise one of the top 14 values |
| Kernel.WordInjective | src/kernel/kernel.h:46-62 | two error codes with the same u32 word are the same code |
| Kernel.Truncate | src/modules/module.c:98 | `strncpy` into a zeroed buffer keeps exactly the first `cap` characters of a longer string and the whole string when it fits |
| Memory.Heap.Alloc | src/modules/module.c:73-78 | a granted block is fresh and recorded with its size; a refusal changes nothing |
| Memory.Heap.Free | src/modules/module.c:68 | exactly the given block stops being live |
| Memory.Heap.FreeModule | src/modules/module.c:182 | a module region is released with the size it was allocated with, and only it |
| ModuleImage.ReadEncodeWord | src/modules/module.h:9-18 | a little-endian encoded u32 reads back as itself |
| ModuleImage.EncodeReadWord | src/modules/module.h:9-18 | any four bytes are the encoding of the word they hold |
| ModuleImage.ReadEncodedWord | src/modules/module.h:9-18 | word k of an encoded sequence reads back as its k-th element whatever follows |
| ModuleImage.ReadEncodedWords | src/modules/module.h:9-18 | an encoded word sequence reads back whole |
| ModuleImage.EncodeReadWords | src/modules/module.h:9-18 | re-encoding n words read from memory gives back those 4n bytes |
| ModuleImage.ParseEncodedHeader | src/modules/module.h:9-18 | an encoded `ModuleHeader` parses back to itself whatever code follows it |
| ModuleImage.EncodeParsedHeader | src/modules/module.h:9-18 | the first 32 bytes of any image are the encoding of its parsed header |
| ModuleImage.DecodeInfo | src/kernel/kernel.h:86-94 | a decoded `ModuleInfo` has its four character arrays at their declared sizes |
| ModuleImage.DecodeEncodedInfo | src/kernel/kernel.h:86-94 | encoding then decoding a `ModuleInfo` is the identity |
| ModuleImage.EncodeDecodedInfo | src/kernel/kernel.h:86-94 | decoding then encoding 220 bytes is the identity |
| ModuleImage.DecodeExports | src/modules/module.h:23-37 | a decoded export table has 15 slots and a well-formed info |
| ModuleImage.DecodeEncodedExports | src/modules/module.h:23-37 | encoding then decoding an export table is the identity |
| ModuleImage.EncodeDecodedExports | src/modules/module.h:23-37 | decoding then encoding the 296 table bytes is the identity |
| Modules.Lookup | src/modules/module.c:191-200 | the first entry from the head whose name equals the key, or none when no entry has it |
| Modules.LoadedLayout | src/modules/module.c:80-85 | the region holds text then data, i.e. the `text_size + data_size` bytes after the header |
| Modules.UnloadGuard | src/modules/module.c:149-164 | NotFound iff the name is missing; Permission iff found and CORE; Busy iff found, not CORE and depended on |
| Modules.CoreIsPermanent | src/modules/module.c:155-158 | a CORE module is refused with Permission whatever its dependents |
| Modules.RemovalKeepsDepsClosed | src/modules/module.c:161-179 | removing an entry nobody depends on leaves every dependency pointing into the list |
| Modules.RemovalKeepsValid | src/modules/module.c:174-184 | unlinking that entry and releasing its two blocks keeps the registry invariant |
| Modules.LongNameNeverFound | src/modules/module.c:96-98 | a name longer than 31 characters is never found, since stored names are truncated |
| Modules.FoundAfterLoad | src/modules/module.c:98 | a freshly prepended entry is found at the head under a file name that fits |
| Modules.PrependKeepsValid | src/modules/module.c:119-123 | prepending an entry built from two fresh blocks keeps the registry invariant |
| Modules.Listing | src/modules/module.c:247-255 | one row per entry |
| Modules.ListingAt | src/modules/module.c:247-255 | row k is entry k's name, type string, version and active flag |
| Modules.ListingAfterRemoval | src/modules/module.c:174-179 | after an unlink the listing loses exactly that row and keeps the others in order |
| Modules.TypeToString | src/modules/module.c:291-302 | "UNKNOWN" exactly for types above 6, "CORE" exactly for type 0 |
| Modules.Registry.constructor | src/modules/module.c:25-26 | the registry starts empty with count 0 |
| Modules.Registry.Find | src/modules/module.c:191-200 | the list walk returns the first entry with that name, or none |
| Modules.Registry.ListAll | src/modules/module.c:244-256 | the heading count is `module_count` and the rows follow the list from the head |
| Modules.Registry.CheckDependencies | src/modules/module.c:259-278 | true exactly when some other entry lists the target among its dependencies |
| Modules.Registry.Query | src/modules/module.c:203-211 | NotFound iff no entry has the name; otherwise Success with the info of the first entry from the head with that name, the one `module_find` returns |
| Modules.Registry.Call | src/modules/module.c:214-241 | NULL when the module is missing, not active, the index is at least 15 or the slot is empty; otherwise the slot function's result |
| Modules.Registry.Load | src/modules/module.c:45-131 | a known name gives Exists with its info; a missing file gives NotFound; bad magic gives InvalidModule; a refused block gives NoMemory; a failing `init` code is returned verbatim; every failure leaves list, count and live blocks unchanged; success prepends an ACTIVE entry laid out from the image, increments the count and returns its info |
| Modules.Registry.LoadImage | src/modules/module.c:56-130 | with the raw image held: bad magic rolls back to InvalidModule; other failures roll back completely; success prepends the loaded entry and releases the raw buffer |
| Modules.Registry.Link | src/modules/module.c:119-123 | the entry becomes the head, the count grows by one and the invariant holds with its two blocks live |
| Modules.Registry.Admit | src/modules/module.c:72-117 | region and entry blocks are both kept on success and both released on any failure; the result is `init`'s code or NoMemory |
| Modules.Registry.Unload | src/modules/module.c:134-188 | the guards' verdict in order; a refusal changes nothing; success removes exactly that entry keeping the others in order, decrements the count and frees its region and entry, whatever `exit` returned |
| Ipc.Zeros | ipc.c:52 | n zero bytes |
| Ipc.Blank | ipc.c:174 | a zeroed slot has sender pid 0, size 0 and a full-width payload |
| Ipc.Fresh | ipc.c:37-52 | a new queue is empty with every slot zeroed, and keeps the queue invariant |
| Ipc.FreeSlot | ipc.c:86-93 | the first slot with sender pid 0, or none when every slot is taken |
| Ipc.Stamp | ipc.c:106-112 | with a size and data, the first min(size, MAX_MESSAGE_SIZE) bytes are the sender's; otherwise the slot payload is untouched |
| Ipc.SendStep | ipc.c:75-116 | QueueFull iff full without timeout, Busy iff full with one, Generic iff not full and no free slot; failures change nothing; success fills the first slot with sender pid 0 (pid, receiver 0, uncapped size, timestamp, the first min(size, MAX_MESSAGE_SIZE) payload bytes), leaves every other slot untouched, increments count within capacity, sets tail to (tail+1) % max and keeps head; the invariant (0 <= count <= max, indices in range) holds |
| Ipc.ReceiveStep | ipc.c:131-178 | NotFound iff empty without timeout, Busy iff empty with one; failures change nothing; success reports min(size, buffer_size), delivers the head slot's bytes, zeroes it, decrements count, sets head to (head+1) % max and keeps tail, keeping the invariant |
| Ipc.FreshQueueDeliversFirst | ipc.c:99-178 | send then receive on a fresh queue hands back the sent prefix and its size, leaving the queue empty with both indices advanced |
| Ipc.KernelSendLeavesSlotFree | ipc.c:100-101 | a message sent with no current process keeps pid 0, so its slot is chosen again by the next send |
| Ipc.ReceiveCanDeliverBlank | ipc.c:86-178 | send and receive drift apart: on a 3-slot ring a receive can deliver a zeroed slot while a message stays stored |
| Ipc.Queue.constructor | ipc.c:36-52 | the queue object starts as `Fresh`: empty, indices 0, slots zeroed |
| Ipc.Queue.Send | ipc.c:75-121 | the slot scan and update produce exactly `SendStep` of the old state |
| Ipc.Queue.Receive | ipc.c:131-180 | the non-blocking paths produce exactly `ReceiveStep` of the old state |
| Ipc.Occupied | ipc.c:8-9 | the occupied entries are at most the table's size |
| Ipc.OccupiedFill | ipc.c:55-62 | filling an empty entry raises the occupied count by one |
| Ipc.OccupiedClear | ipc.c:227-241 | emptying an occupied entry lowers the occupied count by one |
| Ipc.RoomLeft | ipc.c:24-27 | while the counter is below the table size there is an empty entry |
| Ipc.FirstEmpty | ipc.c:55-60 | the lowest empty entry, or none when all are taken |
| Ipc.FirstWithId | ipc.c:184-191 | the lowest entry holding a queue with that id, or none |
| Ipc.FirstWithName | ipc.c:193-200 | the lowest entry holding a queue with that stored name, or none |
| Ipc.LowerQueueShadows | ipc.c:38 | when two queues share an id, lookups never reach the higher one |
| Ipc.EmptyTable | ipc.c:15-16 | an all-null table has no occupied entry |
| Ipc.Table.constructor | ipc.c:12-20 | every entry null and the count 0, over a fresh footprint |
| Ipc.Table.FindIndex | ipc.c:184-191 | the scan returns `FirstWithId` |
| Ipc.Table.FindByName | ipc.c:193-200 | the scan returns `FirstWithName` |
| Ipc.Table.Create | ipc.c:23-66 | NULL when the table is full or a block is refused, with table, count and live blocks unchanged; otherwise a fresh empty queue with id count+1 and the truncated name, stored at the lowest empty entry, count+1, its two blocks live; the table's footprint grows only by fresh objects, so the new queue can be sent to and received from |
| Ipc.Table.Place | ipc.c:54-62 | the new queue goes into the lowest empty entry and is counted; the footprint grows by exactly the queue and its slot array |
| Ipc.Table.Send | ipc.c:69-122 | NotFound for an unknown id; otherwise the found queue follows `SendStep` and every other queue is unchanged; the table, its counter and the allocator's live blocks are untouched |
| Ipc.Table.Receive | ipc.c:125-181 | NotFound for an unknown id; otherwise the found queue follows `ReceiveStep` and every other queue is unchanged; the table, its counter and the allocator's live blocks are untouched |
| Ipc.Table.Delete | ipc.c:218-244 | NotFound and no change for an unknown id; otherwise exactly that entry becomes null, the count drops by one and both blocks are freed; the footprint is unchanged, so the table stays usable |
| Syscall.InitialTable | src/kernel/syscall.c:16-40 | the table after initialisation has 26 entries, entry n being the handler registered under n |
| Syscall.Dispatch | src/kernel/syscall.c:61-67 | a handler runs iff the number is below SYS_MAX and its entry is set, and it is that entry |
| Syscall.ResultWord | src/kernel/syscall.c:64-70 | no handler gives ERR_NOT_IMPLEMENTED as a u32; otherwise the handler's return value |
| Syscall.InitialTablePopulated | src/kernel/syscall.c:16-40 | after init exactly SYS_EXIT and SYS_GETPID..SYS_MODULE_CALL have a handler |
| Syscall.UnregisteredNotImplemented | src/kernel/syscall.c:64-67 | NOP, FORK, EXEC, WAIT and every number from SYS_OPEN on answer ERR_NOT_IMPLEMENTED after init |
| Syscall.InitialHandlersDistinct | src/kernel/syscall.c:19-40 | each kernel handler is registered under one number only |
| Syscall.ModuleCallOutcome | src/kernel/syscall.c:189-192 | ERR_SUCCESS iff `module_call` returned non-null, else ERR_GENERIC; the pointer is stored iff a result address was given |
| Syscall.Params.constructor | src/kernel/kernel.h:256-264 | a parameter block carries the number and five arguments given |
| Syscall.Table.constructor | src/kernel/syscall.c:9 | the static table starts with every entry empty |
| Syscall.Table.Register | src/kernel/syscall.c:46-53 | InvalidArg and no change for num >= SYS_MAX; otherwise Success and only entry num replaced |
| Syscall.Table.Init | src/kernel/syscall.c:12-43 | clearing then the sixteen registrations yield exactly `InitialTable` |
| Syscall.Table.Handle | src/kernel/syscall.c:56-71 | a null block is left alone; otherwise the handler run is `Dispatch`, the result is `ResultWord`, and number and arguments are unchanged |
| Vga.Blanks | src/kernel/drivers/vga.c:27 | n blank cells in the given attribute |
| Vga.CellAt | src/kernel/drivers/vga.c:52-56 | the index y*W+x of an on-screen cursor is below W*H; the next row below it exists iff y+1 < H |
| Vga.TabStop | src/kernel/drivers/vga.c:46-47 | `(x + 8) & ~7` is the next multiple of 8 strictly greater than x |
| Vga.Scrolled | src/kernel/drivers/vga.c:83-98 | scrolling keeps the screen size |
| Vga.ScrolledRowUp | src/kernel/drivers/vga.c:85-91 | every row above the last becomes the old row below it |
| Vga.ScrolledRowLast | src/kernel/drivers/vga.c:94-97 | the last row becomes blank in the current attribute |
| Vga.SettleInside | src/kernel/drivers/vga.c:61-69 | wrap and scroll change nothing when the cursor is already on the screen |
| Vga.Step | src/kernel/drivers/vga.c:41-58 | the character's own effect keeps the buffer size and attribute and moves at most one row down |
| Vga.Settle | src/kernel/drivers/vga.c:61-69 | after wrapping and scrolling the cursor is on the screen: x < W and y < H |
| Vga.Put | src/kernel/drivers/vga.c:40-73 | `vga_putc` keeps the cursor on the screen and the attribute unchanged |
| Vga.PutPrintable | src/kernel/drivers/vga.c:54-64 | a printable character is written at y*W+x in the current attribute and the cursor moves right, or to the next row from the last column |
| Vga.PutPrintableCorner | src/kernel/drivers/vga.c:54-69 | from the bottom-right cell the character is written, the screen scrolls and the cursor goes to the start of the last row |
| Vga.PutLineControls | src/kernel/drivers/vga.c:41-69 | `\r` moves to column 0 only; `\n` moves to column 0 of the next row, scrolling on the last row; neither writes a cell |
| Vga.PutTab | src/kernel/drivers/vga.c:46-64 | a tab moves to the next tab stop without writing, or wraps to column 0 past the last column |
| Vga.PutBackspace | src/kernel/drivers/vga.c:48-53 | backspace steps left unless at column 0 and blanks the cell under the new cursor, staying on the row |
| Vga.PutAll | src/kernel/drivers/vga.c:76-80 | writing a string keeps the cursor on the screen and the attribute unchanged |
| Vga.PutAllAppend | src/kernel/drivers/vga.c:76-80 | writing a+b is writing a then b |
| Vga.CString | src/kernel/drivers/vga.c:77 | the characters before the first terminator: a NUL-free prefix followed by NUL |
| Vga.CStringIsPrefix | src/kernel/drivers/vga.c:77 | the string ends at the first terminator |
| Vga.RenderLiteral | src/kernel/drivers/vga.c:126-130 | a format without `%` prints itself up to its terminator |
| Vga.RenderConversions | src/kernel/drivers/vga.c:132-171 | `%%` prints `%`, `%s` with a null pointer prints "(null)", an unknown conversion prints nothing and takes no argument |
| Vga.LonePercentRunsOn | src/kernel/drivers/vga.c:126-171 | a `%` just before the terminator makes the walk step over it and print the memory that follows |
| Vga.Console.constructor | src/kernel/drivers/vga.c:15-20 | after `vga_init` the screen is blank in the initial attribute with the cursor home |
| Vga.Console.Clear | src/kernel/drivers/vga.c:23-32 | every one of the W*H cells is blank in the current attribute and the cursor is at (0, 0) |
| Vga.Console.SetColor | src/kernel/drivers/vga.c:35-37 | only the current attribute changes |
| Vga.Console.Scroll | src/kernel/drivers/vga.c:83-98 | the buffer becomes `Scrolled` of the old buffer: rows move up, the last row is blank |
| Vga.Console.Putc | src/kernel/drivers/vga.c:40-73 | the console becomes `Put` of its old state and the cursor stays on the screen |
| Vga.Console.Puts | src/kernel/drivers/vga.c:76-80 | the console becomes `PutAll` of the characters before the terminator |
| Vga.Console.PutPiece | src/kernel/drivers/vga.c:133-168 | one conversion of the `switch` prints exactly what `Piece` says: the digits, the string or "(null)", the character, `%`, or nothing for any other character |
| Vga.Console.Printf | src/kernel/drivers/vga.c:122-172 | the console becomes `PutAll` of what `Render` says the format walk prints |

## Left out

- Boot and initialisation sequencing, interrupts, the scheduler and `kprintf` logging: hardware plumbing and output with no state in this core.
- `module_system_init` (memory-pool creation) is not modelled; `module_check_health` walks the list and does nothing, so it is the identity and has no member.
- The storage read is a parameter: `Registry.Load` receives the file's bytes, or None for a missing file. Its buffer is modelled as one allocator request that may fail, which gives NotFound as in the source.
- Module hooks and slot functions are foreign code. `init`'s and `exit`'s results and a slot function's return value are parameters, and `query` is never called by this core.
- Modules.Registry.Load: requires `LoadableImage` of a file found under a name not yet registered (an already registered name is answered with Exists before the file is read, whatever storage holds). The image must be at least 32 bytes and its u32 size counter must not wrap. With the right magic, both segments must lie inside the file and the export table inside the region. The source checks none of this, and reading out of bounds is not modelled.
- Modules.Registry.Load: the init-failure path frees the region with `memory_free` rather than `memory_free_module`; the model does not distinguish the two frees there.
- A module that rewrites its own export table after `init` is not modelled: the entry keeps the table as decoded at load time.
- Dependency arrays are created empty and never filled by this core. `Depends`, `CheckDependencies` and the Busy guard are modelled in general, so the guard is vacuous for modules loaded here.
- Modules.Registry.ListAll: returns the rows `module_list_all` prints, not their `%-20s` formatting.
- Ipc.Table.Receive: requires that a timeout with a current process never meets an empty queue. The blocking path (ipc.c:137-151: block, yield, retry with `timeout - 1`) is scheduling and is excluded.
- `ipc_wake_waiters` walks the blocked list and does nothing; `ipc_list_queues` only prints. Neither has a member.
- The sender's pid (`process_get_current`) and `system_ticks` are parameters of `Send`.
- Ipc.ReceiveStep: delivers at most the `MAX_MESSAGE_SIZE` stored bytes but reports min(size, buffer_size). When a sender's size exceeded `MAX_MESSAGE_SIZE`, the source's `memcpy` reads past the slot's payload, and those extra bytes are not modelled.
- Ipc.Message: `IPCMessage` is taken to hold an inline payload of `MAX_MESSAGE_SIZE` bytes per slot, the reading under which the capped copies of ipc.c:108-111 and ipc.c:166 make sense. The declaration at src/kernel/kernel.h:200-211 has a `void* data` pointer that `ipc_queue_create` zeroes and nothing sets; that pointer form, under which every slot would copy through one null pointer, is not modelled.
- Ipc.Table.Create: the slot buffer is requested with `max_messages * sizeof(IPCMessage)` computed in 32 bits (`ToU32`), but the model's slot array always has `max_messages` slots. A request that wrapped to a smaller block, and the overflowing writes that would follow, are not modelled.
- ipc.h and vga.h are not part of this model. `MAX_MESSAGE_SIZE`, the name capacity, `sizeof(IPCQueue)`, `sizeof(IPCMessage)`, `VGA_WIDTH` and `VGA_HEIGHT` are constructor arguments. `vga_entry` is the abstract cell `Cell(ch, color)`, and `vga_entry_color(fg, bg)` is the attribute passed to `SetColor` and the constructor.
- System-call handler bodies (syscall.c:76-180) cast arguments to pointers and call other subsystems: each handler's return value is a parameter of `Table.Handle`, and handlers are identified by name.
- `vga_update_cursor` writes the cursor position to I/O ports: not modelled.
- Vga.Console.Putc: cursor coordinates are unbounded naturals. Since x < W and y < H always hold, the u32 arithmetic of the source cannot wrap as long as W*H fits in 32 bits, which the model does not state.
- Vga.Console.Printf: requires `Walks`. The walk must meet a terminator inside the given memory, and every conversion must find an argument of the kind it reads. A missing or mismatched `va_arg` is undefined in C.
- The digit conversions `itoa` and `utoa` are function parameters of `Printf`. Their digits are printed up to the first terminator.
