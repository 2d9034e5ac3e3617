/** The VGA text console (src/kernel/drivers/vga.c): a cursor, a current colour
    attribute and a `VGA_WIDTH` x `VGA_HEIGHT` array of cells in row-major order.
    `VGA_WIDTH`, `VGA_HEIGHT`, `vga_entry` and `vga_entry_color` live in vga.h, which is
    not part of this model: the dimensions are positive constants of a `Console` and a
    cell is an abstract (character, attribute) pair. */
module Vga {
  import opened Kernel

  /** The backspace character, `'\b'`. */
  const Backspace: char := 8 as char

  /** `vga_entry(ch, color)`. */
  datatype Cell = Cell(ch: char, color: Byte)

  function Blanks(n: nat, color: Byte): (r: seq<Cell>)
    ensures |r| == n && forall k :: 0 <= k < n ==> r[k] == Cell(' ', color)
  {
    seq(n, _ => Cell(' ', color))
  }

  /** The whole console as a value: cells, cursor column and row, current attribute. */
  datatype Screen = Screen(cells: seq<Cell>, x: nat, y: nat, color: Byte)

  /** The cursor is always on the screen. */
  ghost predicate Inv(s: Screen, w: nat, h: nat) {
    0 < w && 0 < h && |s.cells| == w * h && s.x < w && s.y < h
  }

  lemma {:induction false} MulMono(a: nat, b: nat, w: nat)
    requires a <= b
    ensures a * w <= b * w
    decreases b - a
  {
    if a < b {
      MulMono(a + 1, b, w);
      assert (a + 1) * w == a * w + w;
    }
  }

  /** The first `r` rows, and row `r` with them when `r < h`, fit in a `w` x `h` buffer. */
  lemma Rows(r: nat, w: nat, h: nat)
    requires r <= h
    ensures 0 <= r * w <= w * h && (r + 1) * w == r * w + w
    ensures r < h ==> r * w + w <= w * h
    ensures r == h ==> r * w == w * h
  {
    if r < h {
      MulMono(r + 1, h, w);
    }
  }

  /** The index of the first cell of row `r`, counted one row at a time. */
  function RowStart(r: nat, w: nat): nat {
    if r == 0 then 0 else RowStart(r - 1, w) + w
  }

  /** Row `r` of a `w` x `h` buffer ends inside it, at its end for the last row. */
  lemma {:induction false} RowFits(r: nat, w: nat, h: nat)
    requires r < h
    ensures RowStart(r, w) + w <= w * h
    ensures r + 1 == h ==> RowStart(r, w) + w == w * h
  {
    RowStartIs(r, w);
    Rows(r, w, h);
    Rows(r + 1, w, h);
  }

  lemma {:induction false} RowStartIs(r: nat, w: nat)
    ensures RowStart(r, w) == r * w
  {
    if r > 0 {
      RowStartIs(r - 1, w);
      assert r * w == (r - 1) * w + w;
    }
  }

  /** The index of column `x`, row `y` in the row-major buffer: always inside it. */
  function CellAt(x: nat, y: nat, w: nat, h: nat): (k: nat)
    requires x < w && y < h
    ensures k < w * h
    ensures k + w < w * h <==> y + 1 < h
  {
    Rows(y, w, h);
    Rows(y + 1, w, h);
    y * w + x
  }

  /** `(x + 8) & ~7`: clearing the low three bits of `x + 8`. */
  function TabStop(x: nat): (t: nat)
    ensures t % 8 == 0 && x < t <= x + 8
  {
    (x + 8) - (x + 8) % 8
  }

  /** `vga_scroll` on the cells: every row moves up by one and the last row is blank. */
  function Scrolled(cells: seq<Cell>, w: nat, color: Byte): (r: seq<Cell>)
    requires w <= |cells|
    ensures |r| == |cells|
  {
    cells[w..] + Blanks(w, color)
  }

  lemma ScrolledUp(cells: seq<Cell>, w: nat, color: Byte, k: nat)
    requires k + w < |cells|
    ensures Scrolled(cells, w, color)[k] == cells[k + w]
  {
  }

  lemma ScrolledLast(cells: seq<Cell>, w: nat, color: Byte, k: nat)
    requires w <= |cells| && |cells| - w <= k < |cells|
    ensures Scrolled(cells, w, color)[k] == Cell(' ', color)
  {
  }

  /** Row `row` of the scrolled screen is row `row + 1` of the old one. */
  lemma ScrolledRowUp(cells: seq<Cell>, w: nat, h: nat, color: Byte, row: nat, col: nat)
    requires |cells| == w * h && row + 1 < h && col < w
    ensures Scrolled(cells, w, color)[CellAt(col, row, w, h)] == cells[CellAt(col, row + 1, w, h)]
  {
    Rows(row, w, h);
    ScrolledUp(cells, w, color, CellAt(col, row, w, h));
  }

  /** The last row of the scrolled screen is blank in the current attribute. */
  lemma ScrolledRowLast(cells: seq<Cell>, w: nat, h: nat, color: Byte, col: nat)
    requires 0 < h && |cells| == w * h && col < w
    ensures Scrolled(cells, w, color)[CellAt(col, h - 1, w, h)] == Cell(' ', color)
  {
    Rows(h - 1, w, h);
    ScrolledLast(cells, w, color, CellAt(col, h - 1, w, h));
  }

  /** On a screen whose cursor is already on the screen, the second half of `vga_putc`
      changes nothing. */
  lemma SettleInside(s: Screen, w: nat, h: nat)
    requires Inv(s, w, h)
    ensures Settle(s, w, h) == s
  {
  }

  /** The first half of `vga_putc`: the character's own effect. */
  function Step(s: Screen, c: char, w: nat, h: nat): (t: Screen)
    requires Inv(s, w, h)
    ensures |t.cells| == w * h && t.color == s.color && t.y <= s.y + 1
  {
    if c == '\n' then s.(x := 0, y := s.y + 1)
    else if c == '\r' then s.(x := 0)
    else if c == '\t' then s.(x := TabStop(s.x))
    else if c == Backspace then
      var nx := if s.x > 0 then s.x - 1 else 0;
      s.(x := nx, cells := s.cells[CellAt(nx, s.y, w, h) := Cell(' ', s.color)])
    else
      s.(x := s.x + 1, cells := s.cells[CellAt(s.x, s.y, w, h) := Cell(c, s.color)])
  }

  /** The second half of `vga_putc`: wrap past the last column, scroll past the last row. */
  function Settle(s: Screen, w: nat, h: nat): (t: Screen)
    requires 0 < w && 0 < h && |s.cells| == w * h
    ensures Inv(t, w, h)
  {
    var wrapped := if s.x >= w then s.(x := 0, y := s.y + 1) else s;
    if wrapped.y >= h then wrapped.(cells := Scrolled(wrapped.cells, w, wrapped.color), y := h - 1)
    else wrapped
  }

  /** `vga_putc` on the console value. */
  function Put(s: Screen, c: char, w: nat, h: nat): (t: Screen)
    requires Inv(s, w, h)
    ensures Inv(t, w, h) && t.color == s.color
  {
    Settle(Step(s, c, w, h), w, h)
  }

  /** The characters `vga_putc` writes literally. */
  predicate Printable(c: char) {
    c != '\n' && c != '\r' && c != '\t' && c != Backspace
  }

  /** A printable character lands at `CellAt(x, y)` in the current attribute and the cursor
      moves one column right, or to the start of the next row from the last column;
      only from the bottom-right cell does the screen scroll. */
  lemma PutPrintable(s: Screen, c: char, w: nat, h: nat)
    requires Inv(s, w, h) && Printable(c)
    requires s.x + 1 < w || s.y + 1 < h
    ensures var t := Put(s, c, w, h);
      && t.cells == s.cells[CellAt(s.x, s.y, w, h) := Cell(c, s.color)]
      && (if s.x + 1 < w then t.x == s.x + 1 && t.y == s.y else t.x == 0 && t.y == s.y + 1)
  {
  }

  /** From the bottom-right cell a printable character is written, then the screen
      scrolls it up one row and the cursor goes to the start of the last row. */
  lemma PutPrintableCorner(s: Screen, c: char, w: nat, h: nat)
    requires Inv(s, w, h) && Printable(c)
    requires s.x + 1 == w && s.y + 1 == h
    ensures var t := Put(s, c, w, h);
      && t.cells == Scrolled(s.cells[CellAt(s.x, s.y, w, h) := Cell(c, s.color)], w, s.color)
      && t.x == 0 && t.y == h - 1
  {
  }

  /** A newline goes to column 0 of the next row and a carriage return to column 0 of
      the same row; neither writes a cell, and a newline on the last row scrolls. */
  lemma PutLineControls(s: Screen, w: nat, h: nat)
    requires Inv(s, w, h)
    ensures var t := Put(s, '\r', w, h);
      t.cells == s.cells && t.x == 0 && t.y == s.y
    ensures var t := Put(s, '\n', w, h);
      && t.x == 0
      && (if s.y + 1 < h then t.y == s.y + 1 && t.cells == s.cells
          else t.y == h - 1 && t.cells == Scrolled(s.cells, w, s.color))
  {
  }

  /** A tab moves to the next multiple of 8 strictly to the right, wrapping to the next
      row when that is past the last column; no cell is written. */
  lemma PutTab(s: Screen, w: nat, h: nat)
    requires Inv(s, w, h)
    ensures var t := Put(s, '\t', w, h);
      && (TabStop(s.x) < w ==> t.x == TabStop(s.x) && t.y == s.y && t.cells == s.cells)
      && (TabStop(s.x) >= w ==> t.x == 0)
  {
  }

  /** A backspace steps back one column unless at column 0, then blanks the cell under
      the cursor; it never leaves the row. */
  lemma PutBackspace(s: Screen, w: nat, h: nat)
    requires Inv(s, w, h)
    ensures var t := Put(s, Backspace, w, h);
      var nx := if s.x > 0 then s.x - 1 else 0;
      && t.x == nx && t.y == s.y
      && t.cells == s.cells[CellAt(nx, s.y, w, h) := Cell(' ', s.color)]
  {
    SettleInside(Step(s, Backspace, w, h), w, h);
  }

  /** Writing a string is writing its characters one after the other. */
  function PutAll(s: Screen, str: seq<char>, w: nat, h: nat): (t: Screen)
    requires Inv(s, w, h)
    ensures Inv(t, w, h) && t.color == s.color
    decreases |str|
  {
    if str == [] then s else PutAll(Put(s, str[0], w, h), str[1..], w, h)
  }

  lemma {:induction false} PutAllAppend(s: Screen, a: seq<char>, b: seq<char>, w: nat, h: nat)
    requires Inv(s, w, h)
    ensures PutAll(s, a + b, w, h) == PutAll(PutAll(s, a, w, h), b, w, h)
    decreases |a|
  {
    if a == [] {
      assert a + b == b;
    } else {
      assert (a + b)[1..] == a[1..] + b;
      PutAllAppend(Put(s, a[0], w, h), a[1..], b, w, h);
    }
  }

  // ---------------------------------------------------------------- C strings

  /** The characters of the NUL-terminated string that starts at `mem[0]`. */
  function CString(mem: seq<char>): (r: seq<char>)
    requires '\0' in mem
    ensures |r| < |mem| && mem[|r|] == '\0' && r == mem[..|r|] && '\0' !in r
  {
    if mem[0] == '\0' then [] else [mem[0]] + CString(mem[1..])
  }

  lemma CStringIsPrefix(mem: seq<char>, i: nat)
    requires i < |mem| && mem[i] == '\0' && '\0' !in mem[..i]
    ensures CString(mem) == mem[..i]
  {
  }

  // ---------------------------------------------------------------- formatted output

  /** A variadic argument as `vga_vprintf` reads it; a string is the memory its pointer
      designates, `None` the null pointer. */
  datatype Arg = SignedArg(n: int) | UnsignedArg(u: U32) | StringArg(s: Option<seq<char>>) | CharArg(c: char)

  /** The conversions that consume an argument, and the kind each expects. */
  predicate Consumes(conv: char) {
    conv in {'d', 'i', 'u', 'x', 'X', 's', 'c'}
  }

  predicate Fits(conv: char, a: Arg) {
    if conv == 'd' || conv == 'i' then a.SignedArg?
    else if conv == 'u' || conv == 'x' || conv == 'X' then a.UnsignedArg?
    else if conv == 's' then a.StringArg? && (a.s.Some? ==> '\0' in a.s.value)
    else conv == 'c' ==> a.CharArg?
  }

  /** The walk `vga_vprintf` makes over the memory from `mem[p]` on, with the arguments
      `args` still to be read, reaches a terminator it tests, stays inside `mem`, and
      finds an argument of the right kind for each conversion. A `%` directly before the
      terminator makes the walk step over it and go on with the memory beyond. */
  ghost predicate Walks(mem: seq<char>, p: nat, args: seq<Arg>)
    decreases |mem| - p
  {
    if p >= |mem| then false
    else if mem[p] == '\0' then true
    else if mem[p] != '%' then Walks(mem, p + 1, args)
    else
      && p + 1 < |mem|
      && (Consumes(mem[p + 1]) ==> |args| > 0 && Fits(mem[p + 1], args[0]))
      && Walks(mem, p + 2, if Consumes(mem[p + 1]) then args[1..] else args)
  }

  /** What one conversion prints. `itoa` and `utoa` stand for the digit conversions
      (`itoa(n, buf, 10)`, `utoa(n, buf, base)`), which are not part of this model; their
      buffer is printed up to its terminator. */
  function Piece(conv: char, args: seq<Arg>, itoa: int -> seq<char>, utoa: (U32, nat) -> seq<char>): (r: seq<char>)
    requires Consumes(conv) ==> |args| > 0 && Fits(conv, args[0])
  {
    if conv == 'd' || conv == 'i' then CString(itoa(args[0].n) + ['\0'])
    else if conv == 'u' then CString(utoa(args[0].u, 10) + ['\0'])
    else if conv == 'x' || conv == 'X' then CString(utoa(args[0].u, 16) + ['\0'])
    else if conv == 's' then
      (if args[0].s.Some? then CString(args[0].s.value) else "(null)")
    else if conv == 'c' then [args[0].c]
    else if conv == '%' then "%"
    else []
  }

  /** The characters `vga_vprintf` sends to `vga_putc`, from `mem[p]` on. */
  function Render(mem: seq<char>, p: nat, args: seq<Arg>, itoa: int -> seq<char>,
                  utoa: (U32, nat) -> seq<char>): seq<char>
    requires Walks(mem, p, args)
    decreases |mem| - p
  {
    if mem[p] == '\0' then []
    else if mem[p] != '%' then [mem[p]] + Render(mem, p + 1, args, itoa, utoa)
    else
      var conv := mem[p + 1];
      Piece(conv, args, itoa, utoa) + Render(mem, p + 2, if Consumes(conv) then args[1..] else args, itoa, utoa)
  }

  /** A format without `%` prints itself up to its terminator. */
  lemma {:induction false} RenderLiteral(mem: seq<char>, p: nat, args: seq<Arg>,
                                         itoa: int -> seq<char>, utoa: (U32, nat) -> seq<char>)
    requires p < |mem| && '\0' in mem[p..] && '%' !in CString(mem[p..])
    ensures Walks(mem, p, args)
    ensures Render(mem, p, args, itoa, utoa) == CString(mem[p..])
    decreases |mem| - p
  {
    if mem[p] != '\0' {
      assert mem[p..][1..] == mem[p + 1..];
      assert CString(mem[p..]) == [mem[p]] + CString(mem[p + 1..]);
      RenderLiteral(mem, p + 1, args, itoa, utoa);
    }
  }

  /** `%%` prints one `%`, `%s` with a null pointer prints "(null)", and a conversion
      outside the switch prints nothing and reads no argument. */
  lemma RenderConversions(mem: seq<char>, p: nat, args: seq<Arg>,
                          itoa: int -> seq<char>, utoa: (U32, nat) -> seq<char>)
    requires p + 1 < |mem| && mem[p] == '%' && Walks(mem, p, args)
    ensures mem[p + 1] == '%' ==> Render(mem, p, args, itoa, utoa) == "%" + Render(mem, p + 2, args, itoa, utoa)
    ensures mem[p + 1] == 's' && args[0].s.None? ==>
      Render(mem, p, args, itoa, utoa) == "(null)" + Render(mem, p + 2, args[1..], itoa, utoa)
    ensures !Consumes(mem[p + 1]) && mem[p + 1] != '%' ==>
      Render(mem, p, args, itoa, utoa) == Render(mem, p + 2, args, itoa, utoa)
  {
  }

  /** A format ending in a lone `%` does not stop at its terminator: the walk steps over
      it and prints what follows in memory up to the next terminator. */
  lemma LonePercentRunsOn(itoa: int -> seq<char>, utoa: (U32, nat) -> seq<char>)
    ensures Walks(['a', '%', '\0', 'b', '\0'], 0, [])
    ensures Render(['a', '%', '\0', 'b', '\0'], 0, [], itoa, utoa) == ['a', 'b']
  {
    var mem := ['a', '%', '\0', 'b', '\0'];
    assert Walks(mem, 3, []);
    assert Render(mem, 3, [], itoa, utoa) == ['b'];
    assert Render(mem, 1, [], itoa, utoa) == Render(mem, 3, [], itoa, utoa);
  }

  // ---------------------------------------------------------------- the console

  class Console {
    const width: nat
    const height: nat
    /** `VGA_MEMORY`. */
    const buffer: array<Cell>
    /** `cursor_x`, `cursor_y` and `current_color`. */
    var x: nat
    var y: nat
    var color: Byte

    ghost function State(): Screen
      reads this, buffer
    {
      Screen(buffer[..], x, y, color)
    }

    ghost predicate Shape()
      reads this
    {
      0 < width && 0 < height && buffer.Length == width * height
    }

    ghost predicate Valid()
      reads this, buffer
    {
      Shape() && Inv(State(), width, height)
    }

    /** `vga_init`: cursor home, the attribute `vga_entry_color(LIGHT_GREY, BLACK)`
        (given as `color`), then a cleared screen. */
    constructor (width: nat, height: nat, color: Byte)
      requires 0 < width && 0 < height
      ensures Valid() && fresh(buffer)
      ensures this.width == width && this.height == height
      ensures State() == Screen(Blanks(width * height, color), 0, 0, color)
    {
      this.width := width;
      this.height := height;
      buffer := new Cell[width * height](_ => Cell(' ', 0));
      x, y := 0, 0;
      this.color := color;
      new;
      Clear();
    }

    /** `vga_clear`: every cell blank in the current attribute, cursor home. */
    method Clear()
      requires Shape()
      modifies this, buffer
      ensures Valid()
      ensures State() == Screen(Blanks(width * height, old(color)), 0, 0, old(color))
    {
      var row := 0;
      var start := 0;  // `row * width`, the index of the row's first cell
      while row < height
        modifies buffer
        invariant 0 <= row <= height && start == row * width
        invariant forall k :: 0 <= k < start ==> buffer[k] == Cell(' ', color)
      {
        Rows(row, width, height);
        var col := 0;
        while col < width
          modifies buffer
          invariant 0 <= col <= width
          invariant forall k :: 0 <= k < start + col ==> buffer[k] == Cell(' ', color)
        {
          buffer[start + col] := Cell(' ', color);
          col := col + 1;
        }
        row := row + 1;
        start := start + width;
      }
      Rows(row, width, height);
      assert buffer[..] == Blanks(width * height, color);
      x := 0;
      y := 0;
    }

    /** `vga_set_color`; `attribute` is `vga_entry_color(fg, bg)`. */
    method SetColor(attribute: Byte)
      requires Valid()
      modifies this
      ensures Valid() && State() == old(State()).(color := attribute)
    {
      color := attribute;
    }

    /** `vga_scroll`: rows 1 .. H-1 move up one row, the last row is blanked. */
    method Scroll()
      requires Shape()
      modifies buffer
      ensures buffer[..] == Scrolled(old(buffer[..]), width, color)
    {
      var row := 1;
      var dst := 0;  // `(row - 1) * width`, where row `row` is copied to
      RowFits(0, width, height);
      while row < height
        invariant 1 <= row <= height && dst == RowStart(row - 1, width)
        invariant dst + width <= buffer.Length
        invariant row == height ==> dst + width == buffer.Length
        invariant forall k :: 0 <= k < dst ==> buffer[k] == old(buffer[k + width])
        invariant forall k :: dst <= k < buffer.Length ==> buffer[k] == old(buffer[k])
      {
        RowFits(row, width, height);
        var col := 0;
        while col < width
          invariant 0 <= col <= width
          invariant forall k :: 0 <= k < dst + col ==> buffer[k] == old(buffer[k + width])
          invariant forall k :: dst + col <= k < buffer.Length ==> buffer[k] == old(buffer[k])
        {
          buffer[dst + col] := buffer[dst + width + col];
          col := col + 1;
        }
        row := row + 1;
        dst := dst + width;
      }
      var col := 0;
      while col < width
        invariant 0 <= col <= width
        invariant forall k :: 0 <= k < dst ==> buffer[k] == old(buffer[k + width])
        invariant forall k :: dst <= k < dst + col ==> buffer[k] == Cell(' ', color)
        invariant forall k :: dst + col <= k < buffer.Length ==> buffer[k] == old(buffer[k])
      {
        buffer[dst + col] := Cell(' ', color);
        col := col + 1;
      }
    }

    /** `vga_putc`, without the hardware cursor update. */
    method Putc(c: char)
      requires Valid()
      modifies this, buffer
      ensures Valid()
      ensures State() == Put(old(State()), c, width, height)
    {
      if c == '\n' {
        x := 0;
        y := y + 1;
      } else if c == '\r' {
        x := 0;
      } else if c == '\t' {
        x := TabStop(x);
      } else if c == Backspace {
        if x > 0 {
          x := x - 1;
        }
        buffer[CellAt(x, y, width, height)] := Cell(' ', color);
      } else {
        buffer[CellAt(x, y, width, height)] := Cell(c, color);
        x := x + 1;
      }
      assert State() == Step(old(State()), c, width, height);
      if x >= width {
        x := 0;
        y := y + 1;
      }
      if y >= height {
        Scroll();
        y := height - 1;
      }
    }

    /** `vga_puts`: characters up to the terminator. */
    method Puts(str: seq<char>)
      requires Valid() && '\0' in str
      modifies this, buffer
      ensures Valid()
      ensures State() == PutAll(old(State()), CString(str), width, height)
    {
      var i := 0;
      while str[i] != '\0'
        invariant Valid() && 0 <= i < |str| && '\0' in str[i..]
        invariant '\0' !in str[..i]
        invariant State() == PutAll(old(State()), str[..i], width, height)
        decreases |str| - i
      {
        PutAllAppend(old(State()), str[..i], [str[i]], width, height);
        assert str[..i + 1] == str[..i] + [str[i]];
        Putc(str[i]);
        i := i + 1;
        assert '\0' in str[i..] by {
          var j :| i - 1 <= j < |str| && str[j] == '\0';
          assert j != i - 1;
          assert str[i..][j - i] == '\0';
        }
      }
      CStringIsPrefix(str, i);
    }

    /** The `switch` of `vga_vprintf` for one conversion: print what `Piece` says. */
    method PutPiece(conv: char, args: seq<Arg>, itoa: int -> seq<char>, utoa: (U32, nat) -> seq<char>)
      requires Valid() && (Consumes(conv) ==> |args| > 0 && Fits(conv, args[0]))
      modifies this, buffer
      ensures Valid()
      ensures State() == PutAll(old(State()), Piece(conv, args, itoa, utoa), width, height)
    {
      if conv == 'd' || conv == 'i' {
        Puts(itoa(args[0].n) + ['\0']);
      } else if conv == 'u' {
        Puts(utoa(args[0].u, 10) + ['\0']);
      } else if conv == 'x' || conv == 'X' {
        Puts(utoa(args[0].u, 16) + ['\0']);
      } else if conv == 's' {
        if args[0].s.Some? {
          Puts(args[0].s.value);
        } else {
          Puts("(null)\0");
          assert CString("(null)\0") == "(null)";
        }
      } else if conv == 'c' {
        Putc(args[0].c);
      } else if conv == '%' {
        Putc('%');
      }
    }

    /** `vga_vprintf` over the format memory `mem` and the arguments `args`. */
    method Printf(mem: seq<char>, args: seq<Arg>, itoa: int -> seq<char>, utoa: (U32, nat) -> seq<char>)
      requires Valid() && Walks(mem, 0, args)
      modifies this, buffer
      ensures Valid()
      ensures State() == PutAll(old(State()), Render(mem, 0, args, itoa, utoa), width, height)
    {
      var p := 0;
      var rest := args;
      while mem[p] != '\0'
        invariant Valid() && Walks(mem, p, rest)
        invariant PutAll(State(), Render(mem, p, rest, itoa, utoa), width, height)
               == PutAll(old(State()), Render(mem, 0, args, itoa, utoa), width, height)
        decreases |mem| - p
      {
        ghost var before := State();
        if mem[p] != '%' {
          assert ([mem[p]] + Render(mem, p + 1, rest, itoa, utoa))[1..] == Render(mem, p + 1, rest, itoa, utoa);
          Putc(mem[p]);
          p := p + 1;
          continue;
        }
        var conv := mem[p + 1];
        var next := if Consumes(conv) then rest[1..] else rest;
        PutAllAppend(before, Piece(conv, rest, itoa, utoa), Render(mem, p + 2, next, itoa, utoa), width, height);
        PutPiece(conv, rest, itoa, utoa);
        rest := next;
        p := p + 2;
      }
    }
  }
}
