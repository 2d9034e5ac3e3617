/** The kernel module registry (src/modules/module.c): the process-wide list of loaded
    modules, newest first, with its counter; loading, unloading, lookup, query,
    dispatch through the export table and the dependency check. */
module Modules {
  import opened Kernel
  import opened ModuleImage
  import opened Memory

  /** `char name[32]` of a `ModuleEntry` keeps at most 31 characters. */
  const NameCapacity: nat := 31
  /** `sizeof(ModuleEntry)` on i386: name, base, size, status, info, exports,
      dependencies, dep_count, next. */
  const EntrySize: nat := 280
  /** `MODULE_TYPE_CORE`. */
  const CoreKind: U32 := 0

  /** `ModuleStatus` (kernel.h:67-73). */
  datatype Status = Unloaded | Loading | Active | Suspended | Error

  /** One `ModuleEntry` of the list. `handle` is the address of the entry itself (the
      identity that `dependencies` and the dependency check compare), `base` the address
      of its code+data region and `memory` what was copied there. */
  datatype Entry = Entry(
    handle: Handle,
    name: string,
    base: Handle,
    size: nat,
    memory: seq<Byte>,
    status: Status,
    info: ModuleInfo,
    exports: ExportTable,
    dependencies: seq<Handle>)

  // ---------------------------------------------------------------- lookup

  /** `module_find` on a list: the first entry, from the head, whose stored name equals
      `name` exactly. */
  function Lookup(es: seq<Entry>, name: string): (r: Option<nat>)
    ensures r.Some? ==> r.value < |es| && es[r.value].name == name
    ensures r.Some? ==> forall j :: 0 <= j < r.value ==> es[j].name != name
    ensures r.None? ==> forall j :: 0 <= j < |es| ==> es[j].name != name
  {
    if es == [] then None
    else if es[0].name == name then Some(0)
    else match Lookup(es[1..], name)
      case None => None
      case Some(k) => Some(k + 1)
  }

  /** Some other entry, identified by address, lists `target` among its dependencies
      (`module_check_dependencies`; the entry itself is skipped). */
  ghost predicate Depends(es: seq<Entry>, target: Handle) {
    exists k :: 0 <= k < |es| && es[k].handle != target && target in es[k].dependencies
  }

  /** Every dependency names an entry that is still in the list. */
  ghost predicate DepsClosed(es: seq<Entry>) {
    forall i, d :: 0 <= i < |es| && d in es[i].dependencies ==>
      exists j :: 0 <= j < |es| && es[j].handle == d
  }

  /** What the registry keeps true of its entries, given the allocator's live blocks. */
  ghost predicate EntriesValid(es: seq<Entry>, live: map<Handle, nat>) {
    && (forall i :: 0 <= i < |es| ==>
          && es[i].handle in live && es[i].base in live && live[es[i].base] == es[i].size
          && es[i].handle != es[i].base
          && |es[i].name| <= NameCapacity
          && es[i].status == Active
          && |es[i].memory| == es[i].size
          && es[i].exports.WellFormed()
          && es[i].info == es[i].exports.info)
    && (forall i, j :: 0 <= i < |es| && 0 <= j < |es| && i != j ==>
          es[i].handle != es[j].handle && es[i].base != es[j].base
          && es[i].handle != es[j].base)
    && DepsClosed(es)
  }

  // ---------------------------------------------------------------- images

  /** What the loader needs of an image file and the source does not check: the header
      lies inside the file, the file size fits its `u32` counter (so `text_size +
      data_size` cannot wrap), and for a file with the right magic both segments lie
      inside the file and the export table inside the copied region. */
  ghost predicate LoadableImage(file: seq<Byte>) {
    && HeaderSize <= |file| < 0x1_0000_0000
    && var h := ParseHeader(file);
       h.magic == Magic ==>
         && HeaderSize + h.textSize + h.dataSize <= |file|
         && h.exportOffset + ExportTableSize <= h.textSize + h.dataSize
  }

  /** The entry that loading `file` under `filename` registers. */
  ghost predicate LoadedFrom(en: Entry, filename: string, file: seq<Byte>)
    requires LoadableImage(file) && ParseHeader(file).magic == Magic
  {
    var h := ParseHeader(file);
    var size := h.textSize + h.dataSize;
    && en.name == Truncate(filename, NameCapacity)
    && en.size == size
    && |en.memory| == size
    && en.memory[..h.textSize] == file[HeaderSize..HeaderSize + h.textSize]
    && en.memory[h.textSize..] == file[HeaderSize + h.textSize..HeaderSize + size]
    && en.exports == DecodeExports(en.memory[h.exportOffset..h.exportOffset + ExportTableSize])
    && en.info == en.exports.info
    && en.status == Active
    && en.dependencies == []
  }

  /** An entry whose region is the text copy followed by the data copy, with the export
      table read from the region, is the entry `LoadedFrom` describes. */
  lemma CopiedEntry(en: Entry, filename: string, file: seq<Byte>)
    requires LoadableImage(file) && ParseHeader(file).magic == Magic
    requires var h := ParseHeader(file);
      && en.name == Truncate(filename, NameCapacity)
      && en.size == h.textSize + h.dataSize
      && en.memory == file[HeaderSize..HeaderSize + h.textSize] + file[HeaderSize + h.textSize..HeaderSize + en.size]
      && en.exports == DecodeExports(en.memory[h.exportOffset..h.exportOffset + ExportTableSize])
      && en.info == en.exports.info && en.status == Active && en.dependencies == []
    ensures LoadedFrom(en, filename, file)
  {
    var h := ParseHeader(file);
    assert en.memory[..h.textSize] == file[HeaderSize..HeaderSize + h.textSize];
    assert en.memory[h.textSize..] == file[HeaderSize + h.textSize..HeaderSize + en.size];
  }

  /** The two copies of the loader place text then data: together they are one
      contiguous copy of the image bytes that follow the header. */
  lemma LoadedLayout(en: Entry, filename: string, file: seq<Byte>)
    requires LoadableImage(file) && ParseHeader(file).magic == Magic
    requires LoadedFrom(en, filename, file)
    ensures en.memory == file[HeaderSize..HeaderSize + en.size]
  {
    var h := ParseHeader(file);
    assert en.memory == en.memory[..h.textSize] + en.memory[h.textSize..];
    assert file[HeaderSize..HeaderSize + en.size]
        == file[HeaderSize..HeaderSize + h.textSize] + file[HeaderSize + h.textSize..HeaderSize + en.size];
  }

  // ---------------------------------------------------------------- guards

  /** The outcome of the guards of `module_unload`, in the order the source runs them. */
  function UnloadGuard(es: seq<Entry>, name: string, depends: bool): (e: ErrorCode)
    ensures Lookup(es, name).None? <==> e == NotFound
    ensures e == Permission <==> Lookup(es, name).Some? && es[Lookup(es, name).value].info.kind == CoreKind
    ensures e == Busy <==> Lookup(es, name).Some? && es[Lookup(es, name).value].info.kind != CoreKind && depends
    ensures e in {NotFound, Permission, Busy, Success}
  {
    match Lookup(es, name)
    case None => NotFound
    case Some(i) =>
      if es[i].info.kind == CoreKind then Permission
      else if depends then Busy
      else Success
  }

  /** A core module is refused whatever its dependency state. */
  lemma CoreIsPermanent(es: seq<Entry>, name: string, i: nat, d1: bool, d2: bool)
    requires Lookup(es, name) == Some(i) && es[i].info.kind == CoreKind
    ensures UnloadGuard(es, name, d1) == UnloadGuard(es, name, d2) == Permission
  {
  }

  /** Removing the entry at `i` that no other entry depends on keeps every remaining
      dependency pointing at a remaining entry. */
  lemma {:induction false} RemovalKeepsDepsClosed(es: seq<Entry>, live: map<Handle, nat>, i: nat)
    requires EntriesValid(es, live) && i < |es|
    requires !Depends(es, es[i].handle)
    ensures DepsClosed(es[..i] + es[i + 1..])
  {
    var rest := es[..i] + es[i + 1..];
    forall k, d | 0 <= k < |rest| && d in rest[k].dependencies
      ensures exists j :: 0 <= j < |rest| && rest[j].handle == d
    {
      var k0 := if k < i then k else k + 1;
      assert rest[k] == es[k0];
      var j0 :| 0 <= j0 < |es| && es[j0].handle == d;
      assert j0 != i;
      var j := if j0 < i then j0 else j0 - 1;
      assert rest[j] == es[j0];
    }
  }

  lemma {:induction false} RemovalKeepsValid(es: seq<Entry>, live: map<Handle, nat>, i: nat)
    requires EntriesValid(es, live) && i < |es|
    requires !Depends(es, es[i].handle)
    ensures EntriesValid(es[..i] + es[i + 1..], live - {es[i].handle, es[i].base})
  {
    RemovalKeepsDepsClosed(es, live, i);
    var rest := es[..i] + es[i + 1..];
    forall k | 0 <= k < |rest|
      ensures rest[k] == es[if k < i then k else k + 1]
    {
    }
  }

  /** Every stored name is at most 31 characters long, so a longer file name never
      matches: loading it again registers a second entry instead of reporting `Exists`. */
  lemma {:induction false} LongNameNeverFound(es: seq<Entry>, live: map<Handle, nat>, name: string)
    requires EntriesValid(es, live) && |name| > NameCapacity
    ensures Lookup(es, name).None?
  {
  }

  /** A freshly loaded entry is found under its file name when that name fits. */
  lemma FoundAfterLoad(en: Entry, es: seq<Entry>, filename: string)
    requires en.name == Truncate(filename, NameCapacity) && |filename| <= NameCapacity
    ensures Lookup([en] + es, filename) == Some(0)
  {
  }

  /** Prepending an entry built from fresh blocks keeps the registry's invariant. */
  lemma PrependKeepsValid(es: seq<Entry>, live: map<Handle, nat>, en: Entry)
    requires EntriesValid(es, live)
    requires en.handle !in live && en.base !in live && en.handle != en.base
    requires |en.name| <= NameCapacity && en.status == Active && |en.memory| == en.size
    requires en.exports.WellFormed() && en.info == en.exports.info && en.dependencies == []
    ensures EntriesValid([en] + es, live[en.base := en.size][en.handle := EntrySize])
  {
    var es' := [en] + es;
    assert DepsClosed(es') by {
      forall i, d | 0 <= i < |es'| && d in es'[i].dependencies
        ensures exists j :: 0 <= j < |es'| && es'[j].handle == d
      {
        assert i > 0 && es'[i] == es[i - 1];
        var j :| 0 <= j < |es| && es[j].handle == d;
        assert es'[j + 1].handle == d;
      }
    }
  }

  /** Releasing a held block after two further acquisitions leaves exactly those two. */
  lemma ReleaseHeld(live: map<Handle, nat>, held: Handle, n: nat, b: Handle, sb: nat, h: Handle, sh: nat)
    requires held !in live && b != held && h != held
    ensures live[held := n][b := sb][h := sh] - {held} == live[b := sb][h := sh]
  {
  }

  // ---------------------------------------------------------------- listing

  /** One line of `module_list_all`. */
  datatype Row = Row(name: seq<Byte>, kind: string, version: seq<Byte>, active: bool)

  function RowOf(en: Entry): Row {
    Row(en.info.name, TypeToString(en.info.kind), en.info.version, en.status == Active)
  }

  /** `module_list_all`: one row per entry, from the head of the list. */
  function Listing(es: seq<Entry>): (rows: seq<Row>)
    ensures |rows| == |es|
  {
    if es == [] then [] else [RowOf(es[0])] + Listing(es[1..])
  }

  lemma {:induction false} ListingAt(es: seq<Entry>, k: nat)
    requires k < |es|
    ensures Listing(es)[k] == RowOf(es[k])
  {
    if k > 0 {
      ListingAt(es[1..], k - 1);
    }
  }

  /** Removing an entry removes its row and keeps the others in order. */
  lemma {:induction false} ListingAfterRemoval(es: seq<Entry>, i: nat)
    requires i < |es|
    ensures Listing(es[..i] + es[i + 1..]) == Listing(es)[..i] + Listing(es)[i + 1..]
  {
    var rest := es[..i] + es[i + 1..];
    var rows := Listing(es);
    var kept := rows[..i] + rows[i + 1..];
    assert |kept| == |rest|;
    forall k | 0 <= k < |rest|
      ensures Listing(rest)[k] == kept[k]
    {
      var k0 := if k < i then k else k + 1;
      assert rest[k] == es[k0] && kept[k] == rows[k0];
      ListingAt(rest, k);
      ListingAt(es, k0);
    }
  }

  /** `module_type_to_string`. */
  function TypeToString(kind: U32): (s: string)
    ensures s == "UNKNOWN" <==> kind > 6
    ensures kind == CoreKind <==> s == "CORE"
  {
    match kind
    case 0 => "CORE"
    case 1 => "MEMORY"
    case 2 => "FS"
    case 3 => "DEVICE"
    case 4 => "NETWORK"
    case 5 => "SECURITY"
    case 6 => "UTILITY"
    case _ => "UNKNOWN"
  }

  // ---------------------------------------------------------------- the registry

  class Registry {
    /** `module_list`, head first. */
    var entries: seq<Entry>
    /** `module_count`. */
    var count: nat
    /** The allocator the registry draws on. */
    const heap: Heap

    ghost predicate Valid()
      reads this, heap
    {
      heap.Valid() && count == |entries| && EntriesValid(entries, heap.live)
    }

    /** Every entry's export table has its 15 slots (implied by Valid). */
    ghost predicate SlotsWellFormed()
      reads this
    {
      forall i :: 0 <= i < |entries| ==> entries[i].exports.WellFormed()
    }

    constructor (heap: Heap)
      requires heap.Valid()
      ensures Valid() && this.heap == heap && entries == [] && count == 0
    {
      this.heap := heap;
      entries := [];
      count := 0;
    }

    /** `module_find`: walk the list from the head. */
    method Find(name: string) returns (r: Option<nat>)
      ensures r == Lookup(entries, name)
    {
      var i := 0;
      while i < |entries|
        invariant 0 <= i <= |entries|
        invariant forall j :: 0 <= j < i ==> entries[j].name != name
      {
        if entries[i].name == name {
          return Some(i);
        }
        i := i + 1;
      }
      return None;
    }

    /** `module_list_all`: the count it prints in its heading and one row per entry,
        walking from the head of the list (the formatting of `kprintf` is not modelled). */
    method ListAll() returns (heading: nat, rows: seq<Row>)
      ensures heading == count
      ensures rows == Listing(entries)
    {
      heading := count;
      rows := [];
      var i := 0;
      while i < |entries|
        invariant 0 <= i <= |entries|
        invariant |rows| == i && forall k :: 0 <= k < i ==> rows[k] == RowOf(entries[k])
      {
        rows := rows + [RowOf(entries[i])];
        i := i + 1;
      }
      forall k | 0 <= k < |rows|
        ensures rows[k] == Listing(entries)[k]
      {
        ListingAt(entries, k);
      }
    }

    /** `module_check_dependencies`: does an entry other than `target` list it? */
    method CheckDependencies(target: Handle) returns (b: bool)
      ensures b == Depends(entries, target)
    {
      var k := 0;
      while k < |entries|
        invariant 0 <= k <= |entries|
        invariant forall j :: 0 <= j < k ==> entries[j].handle == target || target !in entries[j].dependencies
      {
        if entries[k].handle != target {
          var deps := entries[k].dependencies;
          var d := 0;
          while d < |deps|
            invariant 0 <= d <= |deps|
            invariant target !in deps[..d]
          {
            if deps[d] == target {
              return true;
            }
            d := d + 1;
          }
          assert deps[..d] == deps;
        }
        k := k + 1;
      }
      return false;
    }

    /** `module_query`. */
    method Query(name: string) returns (e: ErrorCode, info: Option<ModuleInfo>)
      ensures e == Success || e == NotFound
      ensures e == NotFound <==> forall j :: 0 <= j < |entries| ==> entries[j].name != name
      ensures e == NotFound ==> info == None
      // the first entry from the head with that name, as `module_find` returns it
      ensures e == Success ==> Lookup(entries, name).Some? && info == Some(entries[Lookup(entries, name).value].info)
    {
      var found := Find(name);
      if found.None? {
        return NotFound, None;
      }
      return Success, Some(entries[found.value].info);
    }

    /** `module_call`: the slot function's result, or 0 (NULL) when the module is
        missing, not active, the index is out of range or the slot is empty, in that
        order. `result` stands for what the slot function returns. */
    method Call(name: string, index: U32, result: U32) returns (r: U32)
      requires SlotsWellFormed()
      ensures Lookup(entries, name).None? ==> r == 0
      ensures index >= SlotCount ==> r == 0
      ensures r != 0 ==> r == result
      ensures var found := Lookup(entries, name);
        found.Some? && entries[found.value].status != Active ==> r == 0
      ensures var found := Lookup(entries, name);
        found.Some? && entries[found.value].status == Active && index < SlotCount ==>
          r == if entries[found.value].exports.functions[index] == 0 then 0 else result
    {
      var found := Find(name);
      if found.None? {
        return 0;
      }
      var en := entries[found.value];
      if en.status != Active {
        return 0;
      }
      if index >= SlotCount {
        return 0;
      }
      var slot := en.exports.functions[index];
      if slot == 0 {
        return 0;
      }
      return result;
    }

    /** `module_load`. `file` is what storage holds under `filename` (None: no such
        file) and `initResult` what the module's `init` hook returns. The allocator may
        refuse the raw buffer, the region or the entry. */
    method Load(filename: string, file: Option<seq<Byte>>, initResult: ErrorCode)
      returns (e: ErrorCode, info: Option<ModuleInfo>)
      requires Valid()
      requires file.Some? && Lookup(entries, filename).None? ==> LoadableImage(file.value)
      modifies this, heap
      ensures Valid()
      // an already registered name: its info is reported and nothing changes
      ensures Lookup(old(entries), filename).Some? ==>
        e == Exists && info == Some(old(entries)[Lookup(old(entries), filename).value].info)
      ensures Lookup(old(entries), filename).None? && file.None? ==> e == NotFound
      ensures Lookup(old(entries), filename).None? && file.Some? && ParseHeader(file.value).magic != Magic ==>
        e == InvalidModule || e == NotFound
      ensures Lookup(old(entries), filename).None? && file.Some? && ParseHeader(file.value).magic == Magic ==>
        e == initResult || e == NoMemory || e == NotFound
      // every failure rolls back completely: no registration, no leaked block
      ensures e != Success ==>
        entries == old(entries) && count == old(count) && heap.live == old(heap.live)
      ensures e != Success && e != Exists ==> info == None
      // success prepends the new entry
      ensures e == Success ==>
        && file.Some? && ParseHeader(file.value).magic == Magic && initResult == Success
        && Lookup(old(entries), filename).None?
        && |entries| == |old(entries)| + 1 && entries[1..] == old(entries)
        && count == old(count) + 1
        && LoadedFrom(entries[0], filename, file.value)
        && info == Some(entries[0].info)
        && entries[0].handle !in old(heap.live) && entries[0].base !in old(heap.live)
        && heap.live == old(heap.live)[entries[0].base := entries[0].size][entries[0].handle := EntrySize]
    {
      var existing := Find(filename);
      if existing.Some? {
        return Exists, Some(entries[existing.value].info);
      }
      if file.None? {
        return NotFound, None;
      }
      e, info := LoadImage(filename, file.value, initResult);
    }

    /** `module_load` once the name is known to be new and the file was found: hold the
        raw image while the header is checked and the module admitted, link the new
        entry at the head of the list, release the raw image. */
    method LoadImage(filename: string, image: seq<Byte>, initResult: ErrorCode)
      returns (e: ErrorCode, info: Option<ModuleInfo>)
      requires Valid() && Lookup(entries, filename).None?
      requires LoadableImage(image)
      modifies this, heap
      ensures Valid()
      ensures ParseHeader(image).magic != Magic ==> e == InvalidModule || e == NotFound
      ensures ParseHeader(image).magic == Magic ==> e == initResult || e == NoMemory || e == NotFound
      ensures e != Success ==>
        entries == old(entries) && count == old(count) && heap.live == old(heap.live) && info == None
      ensures e == Success ==>
        && ParseHeader(image).magic == Magic && initResult == Success
        && |entries| == |old(entries)| + 1 && entries[1..] == old(entries)
        && count == old(count) + 1
        && LoadedFrom(entries[0], filename, image)
        && info == Some(entries[0].info)
        && entries[0].handle !in old(heap.live) && entries[0].base !in old(heap.live)
        && heap.live == old(heap.live)[entries[0].base := entries[0].size][entries[0].handle := EntrySize]
    {
      // filesystem_load_file hands over a buffer of its own, or NULL
      ghost var before := heap.live;
      var raw, rawOk := heap.Alloc(|image|);
      if !rawOk {
        return NotFound, None;
      }
      var header := ParseHeader(image);
      if header.magic != Magic {
        heap.Free(raw);
        FreeUndoesAlloc(before, raw, |image|);
        return InvalidModule, None;
      }
      var admitted;
      e, admitted := Admit(filename, image, initResult);
      if e != Success {
        heap.Free(raw);
        FreeUndoesAlloc(before, raw, |image|);
        return e, None;
      }
      var entry := admitted.value;
      Link(entry, before);
      heap.Free(raw);
      ReleaseHeld(before, raw, |image|, entry.base, entry.size, entry.handle, EntrySize);
      info := Some(entry.info);
    }

    /** Link a new, fully built entry at the head of the list (`modules = module`) and
        count it. */
    method Link(entry: Entry, ghost live: map<Handle, nat>)
      requires count == |entries| && EntriesValid(entries, live)
      requires entry.handle !in live && entry.base !in live && entry.handle != entry.base
      requires |entry.name| <= NameCapacity && entry.status == Active && |entry.memory| == entry.size
      requires entry.exports.WellFormed() && entry.info == entry.exports.info && entry.dependencies == []
      modifies this
      ensures entries == [entry] + old(entries) && count == old(count) + 1
      ensures entries[0] == entry && entries[1..] == old(entries)
      ensures EntriesValid(entries, live[entry.base := entry.size][entry.handle := EntrySize])
      ensures count == |entries|
    {
      PrependKeepsValid(entries, live, entry);
      entries := [entry] + entries;
      count := count + 1;
    }

    /** The steps of `module_load` between the magic check and the linking, while the
        raw image buffer is held: allocate the region, copy text then data, allocate and
        fill the entry with status LOADING, read the export table and run `init`. A
        failure frees what these steps acquired; on success the entry comes back ACTIVE. */
    method Admit(filename: string, image: seq<Byte>, initResult: ErrorCode)
      returns (e: ErrorCode, admitted: Option<Entry>)
      requires heap.Valid()
      requires LoadableImage(image) && ParseHeader(image).magic == Magic
      modifies heap
      ensures heap.Valid()
      ensures e == initResult || e == NoMemory
      ensures e != Success ==> heap.live == old(heap.live) && admitted == None
      ensures e == Success ==>
        && initResult == Success && admitted.Some?
        && var entry := admitted.value;
        && LoadedFrom(entry, filename, image)
        && entry.handle !in old(heap.live) && entry.base !in old(heap.live)
        && entry.handle != entry.base
        && heap.live == old(heap.live)[entry.base := entry.size][entry.handle := EntrySize]
    {
      var header := ParseHeader(image);
      var size := header.textSize + header.dataSize;
      ghost var live := heap.live;
      var base, baseOk := heap.Alloc(size);
      if !baseOk {
        return NoMemory, None;
      }
      var text := image[HeaderSize..HeaderSize + header.textSize];
      var data := image[HeaderSize + header.textSize..HeaderSize + size];
      var memory := text + data;
      var handle, handleOk := heap.Alloc(EntrySize);
      if !handleOk {
        heap.Free(base);
        FreeUndoesAlloc(live, base, size);
        return NoMemory, None;
      }
      var exports := DecodeExports(memory[header.exportOffset..header.exportOffset + ExportTableSize]);
      var entry := Entry(handle, Truncate(filename, NameCapacity), base, size, memory,
                     Loading, exports.info, exports, []);
      if initResult != Success {
        heap.Free(base);
        heap.Free(handle);
        FreeUndoesAllocs(live, base, size, handle, EntrySize);
        return initResult, None;
      }
      CopiedEntry(entry.(status := Active), filename, image);
      return Success, Some(entry.(status := Active));
    }

    /** `module_unload`. `exitResult` is what the module's `exit` hook returns; it is
        reported nowhere and never stops the teardown. */
    method Unload(name: string, exitResult: ErrorCode) returns (e: ErrorCode)
      requires Valid()
      modifies this, heap
      ensures Valid()
      ensures var found := Lookup(old(entries), name);
        e == UnloadGuard(old(entries), name,
                         found.Some? && Depends(old(entries), old(entries)[found.value].handle))
      ensures e != Success ==>
        entries == old(entries) && count == old(count) && heap.live == old(heap.live)
      ensures e == Success ==>
        var i := Lookup(old(entries), name).value;
        var gone := old(entries)[i];
        && entries == old(entries)[..i] + old(entries)[i + 1..]
        && count == old(count) - 1
        && heap.live == old(heap.live) - {gone.handle, gone.base}
    {
      var found := Find(name);
      if found.None? {
        return NotFound;
      }
      var i := found.value;
      var curr := entries[i];
      if curr.info.kind == CoreKind {
        return Permission;
      }
      var busy := CheckDependencies(curr.handle);
      if busy {
        return Busy;
      }
      if curr.exports.exit != 0 {
        var ignored := exitResult;   // a failing exit hook is only logged
      }
      ghost var live := heap.live;
      RemovalKeepsValid(entries, live, i);
      entries := entries[..i] + entries[i + 1..];
      heap.FreeModule(curr.base, curr.size);
      heap.Free(curr.handle);
      assert heap.live == live - {curr.handle, curr.base};
      count := count - 1;
      return Success;
    }
  }
}
