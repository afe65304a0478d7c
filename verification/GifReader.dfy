/** The GIF frame reader: the pixel cursor with its interlaced row walk, the LZW table with
    back-pointers, and the code loop over the data sub-blocks. */
module GifReader {
  import opened Bits
  import opened BitStream
  import opened GifLzw
  import opened GifRaster

  datatype Entry = Entry(prefix: int, first: Byte, suffix: Byte)

  /** The rows a cursor in row `row` has before it, its own included. */
  function RowsLeft(row: nat, stride: nat, parse: nat, h: nat): seq<nat>
    requires stride > 0 && parse <= 3
  {
    PassRows(row, stride, h) + LaterPasses(parse, h)
  }

  function Product(a: nat, b: nat): nat {
    a * b
  }

  lemma {:induction false} TimesScale(a: nat, m: nat)
    ensures Times(a, 4 * m) == 4 * Times(a, m)
  {
    if a > 0 {
      TimesScale(a - 1, m);
    }
  }

  lemma TimesIsProduct(a: nat, m: nat)
    ensures Times(a, m) == Product(a, m)
  {
    TimesIs(a, m);
  }

  lemma {:induction false} TimesFour(a: nat, m: nat)
    requires m % 4 == 0
    ensures Times(a, m) % 4 == 0
  {
    if a > 0 {
      TimesFour(a - 1, m);
    }
  }

  /** The later passes begin with rows 2^(parse-1), at 2^parse rows apart. */
  lemma NextPass(parse: nat, h: nat)
    requires 1 <= parse <= 3
    ensures LaterPasses(parse, h) == RowsLeft(Pow2(parse - 1), Pow2(parse), parse - 1, h)
  {
    assert LaterPasses(0, h) == [];
    assert Pow2(0) == 1 && Pow2(1) == 2 && Pow2(2) == 4 && Pow2(3) == 8;
    assert PassRows(1, 2, h) + [] == PassRows(1, 2, h);
  }

  lemma {:induction false} NoWidthNoPixels(rows: seq<nat>, x: nat, y0: nat, line: nat)
    ensures RowsOffsets(rows, x, 0, y0, line) == []
  {
    if rows != [] {
      NoWidthNoPixels(rows[1..], x, y0, line);
    }
  }

  /** Offsets of whole pixels inside a buffer. */
  predicate Inside(at: seq<nat>, size: nat) {
    forall i :: 0 <= i < |at| ==> at[i] % 4 == 0 && at[i] + 4 <= size
  }

  /** Pixels of a rectangle inside the canvas are inside its buffer. */
  lemma {:induction false} RowsFit(rows: seq<nat>, x: nat, w: nat, y: nat, h: nat, line: nat, size: nat)
    requires forall i :: 0 <= i < |rows| ==> rows[i] < h
    requires x % 4 == 0 && line % 4 == 0 && x + 4 * w <= line && Times(y, line) + Times(h, line) <= size
    ensures Inside(RowsOffsets(rows, x, w, Times(y, line), line), size)
  {
    hide Times, RowOffsets;
    if rows != [] {
      RowsFit(rows[1..], x, w, y, h, line, size);
      RowFits(rows[0], x, w, y, h, line, size);
    }
  }

  lemma RowFits(row: nat, x: nat, w: nat, y: nat, h: nat, line: nat, size: nat)
    requires row < h && x % 4 == 0 && line % 4 == 0 && x + 4 * w <= line && Times(y, line) + Times(h, line) <= size
    ensures Inside(RowOffsets(x, w, Times(y, line) + Times(row, line)), size)
  {
    hide Times;
    TimesFour(y, line);
    TimesFour(row, line);
    TimesMono(row + 1, h, line);
    TimesStep(row, line);
  }

  class Gif {
    const data: seq<Byte>
    var pos: nat

    const out: array<Byte>
    const history: array<Byte>
    const codes: array<Entry>
    var color_table: seq<Byte>

    var line_size: nat
    var start_x: nat
    var start_y: nat
    var max_x: nat
    var max_y: nat
    var cur_x: nat
    var cur_y: nat
    var step: nat
    var parse: nat

    // the frame's size and the cursor in pixels
    ghost var w: nat
    ghost var h: nat
    ghost var col: nat
    ghost var row: nat
    ghost var stride: nat

    constructor (input: seq<Byte>, gw: nat, gh: nat, table: seq<Byte>)
      requires |table| == 1024
      ensures Buffers() && out.Length == Times(gh, 4 * gw) && fresh(out) && fresh(history) && fresh(codes)
      ensures data == input && pos == 0 && color_table == table
    {
      data, pos, color_table := input, 0, table;
      TimesScale(gh, gw);
      out := new Byte[Times(gh, 4 * gw)];
      history := new Byte[Times(gh, gw)];
      codes := new Entry[TABLE_SIZE](_ => Entry(-1, 0, 0));
    }

    ghost predicate Buffers()
      reads this`color_table
    {
      out != history && out.Length == 4 * history.Length && codes.Length == TABLE_SIZE && |color_table| == 1024
    }

    ghost predicate Cursor()
      reads this`parse, this`stride, this`max_x, this`start_x, this`w, this`max_y, this`start_y, this`h,
            this`line_size, this`cur_y, this`row, this`step, this`cur_x, this`col
    {
      && parse <= 3 && stride > 0
      && max_x == start_x + 4 * w && max_y == start_y + Times(h, line_size) && max_x <= line_size
      && cur_y == start_y + Times(row, line_size) && step == Times(stride, line_size)
      && (row < h ==> cur_x == start_x + 4 * col && col < w)
    }

    /** Offsets of the pixels still to come. */
    ghost function Left(): seq<nat>
      requires Cursor()
      reads this`parse, this`stride, this`max_x, this`start_x, this`w, this`max_y, this`start_y, this`h,
            this`line_size, this`cur_y, this`row, this`step, this`cur_x, this`col
    {
      if row >= h then [] else
      RowOffsets(cur_x, w - col, cur_y)
      + RowsOffsets(RowsLeft(row + stride, stride, parse, h), start_x, w, start_y, line_size)
    }

    ghost function Picture(): Canvas
      reads out, history
    {
      Canvas(out[..], history[..])
    }

    ghost predicate Ready()
      reads this`color_table, out, history
      reads this`parse, this`stride, this`max_x, this`start_x, this`w, this`max_y, this`start_y, this`h,
            this`line_size, this`cur_y, this`row, this`step, this`cur_x, this`col
    {
      Buffers() && Cursor() && Fits(Picture(), Left())
    }

    lemma AtEnd()
      requires Cursor()
      ensures cur_y >= max_y <==> row >= h
    {
      if row >= h {
        TimesMono(h, row, line_size);
      } else {
        TimesMono(row + 1, h, line_size);
      }
    }

    /** Sets the bounds of a frame, in bytes. */
    method PlaceFrame(x: nat, y: nat, width: nat, height: nat, gw: nat)
      modifies this`line_size, this`start_x, this`start_y, this`max_x, this`max_y, this`w, this`h
      ensures line_size == 4 * gw && start_x == 4 * x && start_y == Times(y, line_size) && w == width && h == height
      ensures max_x == start_x + 4 * w && max_y == start_y + Times(h, line_size)
    {
      hide Times, Product;
      line_size := gw * 4;
      start_x := x * 4;
      start_y := Product(y, line_size);
      max_x := start_x + width * 4;
      max_y := start_y + Product(height, line_size);
      w, h := width, height;
      StartProducts(y, height, line_size);
    }

    /** Sets the cursor to the frame's first pixel. A frame without width starts at its end. */
    method PlaceCursor(interlaced: bool)
      requires max_x == start_x + 4 * w <= line_size && max_y == start_y + Times(h, line_size)
      modifies this`cur_x, this`cur_y, this`step, this`parse, this`col, this`row, this`stride
      ensures Cursor() && Left() == FrameOffsets(interlaced, start_x, w, start_y, h, line_size)
    {
      hide Times, Product, FrameOffsets, Left;
      cur_x, col := start_x, 0;
      cur_y, row := start_y, 0;
      if max_x == start_x {
        cur_y, row := max_y, h;
      }
      if interlaced {
        step, parse, stride := Product(8, line_size), 3, 8;
      } else {
        step, parse, stride := line_size, 0, 1;
      }
      StartProducts(0, 0, line_size);
      FirstPixel(interlaced);
    }

    /** Prepares a frame of the given size at (x, y), if it lies inside the canvas. */
    method StartFrame(x: nat, y: nat, width: nat, height: nat, gw: nat, gh: nat, interlaced: bool) returns (ok: bool)
      requires Buffers() && out.Length == Times(gh, 4 * gw)
      modifies this
      ensures Buffers() && pos == old(pos) && color_table == old(color_table)
      ensures ok <==> x + width <= gw && y + height <= gh
      ensures ok ==> Ready() && Left() == FrameOffsets(interlaced, 4 * x, width, Times(y, 4 * gw), height, 4 * gw)
    {
      hide Fits, Left, Cursor, FrameOffsets, Times;
      if x + width > gw || y + height > gh {
        return false;
      }
      PlaceFrame(x, y, width, height, gw);
      PlaceCursor(interlaced);
      FrameFits(interlaced, x, y, gw, gh);
      ok := true;
    }

    lemma FirstPixel(interlaced: bool)
      requires Cursor() && (if interlaced then parse == 3 && stride == 8 else parse == 0 && stride == 1)
      requires cur_x == start_x && col == 0
      requires if w == 0 then row == h else row == 0
      ensures Left() == FrameOffsets(interlaced, start_x, w, start_y, h, line_size)
    {
      hide RowOffsets, RowOrder, RowsLeft, Times;
      var rows := RowOrder(interlaced, h);
      if w == 0 {
        NoWidthNoPixels(rows, start_x, start_y, line_size);
      } else {
        FirstRow(interlaced, stride, parse, h);
      }
    }

    static lemma FirstRow(interlaced: bool, stride: nat, parse: nat, h: nat)
      requires if interlaced then parse == 3 && stride == 8 else parse == 0 && stride == 1
      ensures var rows := RowOrder(interlaced, h);
              if h == 0 then rows == [] else rows != [] && rows[0] == 0 && rows[1..] == RowsLeft(stride, stride, parse, h)
    {
      var rows := RowOrder(interlaced, h);
      assert rows == RowsLeft(0, stride, parse, h);
      if h == 0 {
        NoRows(parse);
      } else {
        assert rows[1..] == RowsLeft(stride, stride, parse, h);
      }
    }

    static lemma NoRows(parse: nat)
      requires parse <= 3
      ensures LaterPasses(parse, 0) == []
    {
    }

    lemma FrameFits(interlaced: bool, x: nat, y: nat, gw: nat, gh: nat)
      requires Buffers() && Cursor() && out.Length == Times(gh, 4 * gw)
      requires line_size == 4 * gw && start_x == 4 * x && start_y == Times(y, line_size) && y + h <= gh
      requires Left() == FrameOffsets(interlaced, start_x, w, start_y, h, line_size)
      ensures Fits(Picture(), Left())
    {
      hide RowsOffsets, RowOrder;
      TimesAdd(y, h, line_size);
      TimesMono(y + h, gh, line_size);
      RowsFit(RowOrder(interlaced, h), start_x, w, y, h, line_size, out.Length);
    }

    // ----- the pixel cursor

    /** Enters later passes until there is a row left in one, or no pass is left. */
    method NextPasses(ghost rows: seq<nat>)
      requires Cursor() && cur_x == start_x && col == 0 && w > 0
      requires rows == RowsLeft(row, stride, parse, h)
      modifies this`cur_y, this`step, this`parse, this`row, this`stride
      ensures Cursor() && rows == RowsLeft(row, stride, parse, h) && (row >= h ==> parse == 0)
    {
      hide Times, PassRows, LaterPasses, RowsLeft, Product, Shr, Pow2;
      AtEnd();
      while cur_y >= max_y && parse > 0
        invariant Cursor() && (cur_y >= max_y <==> row >= h)
        invariant rows == RowsLeft(row, stride, parse, h)
        decreases parse
      {
        SkipPass(row, stride, parse, h);
        PassStep(parse, line_size);
        step := Product(Pow2(parse), line_size);
        cur_y := start_y + Shr(step, 1);
        row, stride := Pow2(parse - 1), Pow2(parse);
        parse := parse - 1;
        AtEnd();
      }
    }

    /** Moves to the first pixel of the next row, of the next pass if need be. */
    method NextRow()
      requires Cursor() && row < h
      modifies this`cur_x, this`cur_y, this`step, this`parse, this`col, this`row, this`stride
      ensures Cursor()
      ensures Left() == RowsOffsets(old(RowsLeft(row + stride, stride, parse, h)), start_x, w, start_y, line_size)
    {
      hide Times, RowsOffsets, RowsLeft, Left;
      ghost var rows := RowsLeft(row + stride, stride, parse, h);
      cur_x, col := start_x, 0;
      TimesAdd(row, stride, line_size);
      cur_y, row := cur_y + step, row + stride;
      NextPasses(rows);
      AtRowStart();
    }

    lemma AtRowStart()
      requires Cursor() && cur_x == start_x && col == 0 && (row >= h ==> parse == 0)
      ensures Left() == RowsOffsets(RowsLeft(row, stride, parse, h), start_x, w, start_y, line_size)
    {
      hide Times, RowOffsets, RowsLeft;
      RowHead(row, stride, parse, h);
    }

    /** Moves past the current pixel. */
    method Advance()
      requires Cursor() && row < h
      modifies this`cur_x, this`cur_y, this`step, this`parse, this`col, this`row, this`stride
      ensures Cursor() && Left() == old(Left())[1..]
    {
      hide Times, RowsOffsets, RowsLeft, RowOffsets;
      RowTail(cur_x, w - col, cur_y,
              RowsOffsets(RowsLeft(row + stride, stride, parse, h), start_x, w, start_y, line_size));
      if cur_x + 4 >= max_x {
        NextRow();
      } else {
        cur_x, col := cur_x + 4, col + 1;
      }
    }

    // ----- pixels

    /** Draws a colour at a byte offset, unless it is transparent. */
    method DrawAt(idx: nat, suffix: Byte)
      requires Buffers() && idx % 4 == 0 && idx + 4 <= out.Length
      modifies out, history
      ensures Picture() == PutPixel(old(Picture()), idx, ColorOf(color_table, suffix))
    {
      history[idx / 4] := 1;
      var c := color_table[4 * suffix..4 * suffix + 4];
      if c[3] > 128 {
        out[idx] := c[2];
        out[idx + 1] := c[1];
        out[idx + 2] := c[0];
        out[idx + 3] := c[3];
      }
    }

    /** Draws one pixel and moves on; once the frame is full, pixels are dropped. */
    method OutPixel(suffix: Byte)
      requires Ready()
      modifies this`cur_x, this`cur_y, this`step, this`parse, this`col, this`row, this`stride, out, history
      ensures Ready() && Left() == Drop(old(Left()), 1)
      ensures Picture() == Paint(old(Picture()), old(Left()), [suffix], color_table)
    {
      hide RowsOffsets, RowsLeft, Times, PutPixel, ColorOf;
      AtEnd();
      if cur_y >= max_y {
        return;
      }
      assert Left()[0] == cur_x + cur_y;
      ghost var next := PutPixel(Picture(), cur_x + cur_y, ColorOf(color_table, suffix));
      assert Paint(next, Left()[1..], [], color_table) == next;
      DrawAt(cur_x + cur_y, suffix);
      Advance();
    }

    // ----- the LZW table

    method Get8() returns (b: Byte)
      modifies this`pos
      ensures b == ByteAt(data, old(pos)) && pos == Next(data, old(pos))
    {
      if pos < |data| {
        b := data[pos];
        pos := pos + 1;
      } else {
        b := 0;
      }
    }

    /** Draws the string of a code, from its first pixel, by following prefixes. */
    method OutGifCode(code: nat, ghost cs: nat, ghost dict: seq<seq<Byte>>)
      requires Ready() && TableFor(codes[..], cs, dict) && IsString(cs, dict, code)
      modifies this`cur_x, this`cur_y, this`step, this`parse, this`col, this`row, this`stride, out, history
      ensures Ready() && Left() == Drop(old(Left()), |dict[code]|)
      ensures Picture() == Paint(old(Picture()), old(Left()), dict[code], color_table)
      decreases code
    {
      hide Left, Cursor, Paint, Pow2;
      assert EntryFor(codes[..], cs, dict, code);
      var e := codes[code];
      if e.prefix >= 0 {
        ghost var pic, left := Picture(), Left();
        OutGifCode(e.prefix, cs, dict);
        PaintConcat(pic, left, dict[e.prefix], [e.suffix], color_table);
        DropDrop(left, |dict[e.prefix]|, 1);
      }
      OutPixel(e.suffix);
    }

    /** Fills in one entry per pixel value. */
    method InitTable(cs: nat)
      requires codes.Length == TABLE_SIZE && cs <= 12
      modifies codes
      ensures TableFor(codes[..], cs, Roots(cs))
    {
      Pow2Mono(cs, 12);
      Pow2Values();
      hide Pow2;
      var clear := Pow2(cs);
      for i := 0 to clear
        invariant forall c :: 0 <= c < i ==> codes[c] == Entry(-1, c % 256, c % 256)
      {
        codes[i] := Entry(-1, i % 256, i % 256);
      }
    }

    /** Enters the string of oldcode, extended by the first pixel of code's string. For a code
        not yet defined that is the pixel just set as the new entry's first. */
    method AddEntry(avail: nat, oldcode: nat, code: nat, ghost cs: nat, ghost dict: seq<seq<Byte>>)
      returns (ghost dict': seq<seq<Byte>>)
      requires TableFor(codes[..], cs, dict) && avail == |dict| < TABLE_SIZE && Pow2(cs) + 2 <= avail
      requires IsString(cs, dict, oldcode) && (IsString(cs, dict, code) || code == avail)
      modifies codes
      ensures dict[oldcode] != [] && (if code < |dict| then dict[code] else dict[oldcode]) != []
      ensures dict' == dict + [dict[oldcode] + [(if code < |dict| then dict[code] else dict[oldcode])[0]]]
      ensures TableFor(codes[..], cs, dict')
    {
      hide Pow2;
      ghost var before := codes[..];
      assert EntryFor(before, cs, dict, oldcode);
      assert code < avail ==> EntryFor(before, cs, dict, code);
      codes[avail] := Entry(oldcode, codes[oldcode].first, codes[avail].suffix);
      if code == avail + 1 {
        assert false;  // avail has been stepped before the comparison, so it never holds
      }
      var suffix := codes[code].first;
      codes[avail] := codes[avail].(suffix := suffix);
      dict' := dict + [dict[oldcode] + [suffix]];
      TableExtend(before, codes[..], cs, dict, dict');
    }

    /** Acts on one code. */
    method HandleCode(cs: nat, code: nat, r: Registers, ghost st: Lzw) returns (stop: bool, ok: bool, r': Registers, ghost st': Lzw)
      requires Ready() && cs <= 12 && Good(cs, st) && Matches(cs, r, st) && TableFor(codes[..], cs, st.dict)
      modifies this`cur_x, this`cur_y, this`step, this`parse, this`col, this`row, this`stride, out, history, codes
      ensures Ready() && Good(cs, st') && TableFor(codes[..], cs, st'.dict)
      ensures var s := StepCode(LowBitsZero, cs, st, code);
              if stop then s.Stop? && (ok <==> s.status == Finished)
              else s.Go? && s.st == st' && Matches(cs, r', st')
      ensures stop ==> Picture() == old(Picture()) && Left() == old(Left())
      ensures !stop ==> var emit := StepCode(LowBitsZero, cs, st, code).emit;
                Left() == Drop(old(Left()), |emit|) && Picture() == Paint(old(Picture()), old(Left()), emit, color_table)
    {
      hide Left, Cursor, Paint, Pow2, Fits, TableFor, Roots;
      stop, ok, r', st' := true, false, r, st;
      var clear := Pow2(cs);
      if code == clear {
        InitialGood(cs);
        TableReset(codes[..], cs, st.dict);
        PaintNothing(Picture(), Left(), color_table);
        stop, r', st' := false, Registers(cs + 1, clear + 2, -1, false), Initial(cs, true);
      } else if code == clear + 1 {
        ok := true;
      } else if code <= r.avail {
        stop, r', st' := HandleString(cs, code, r, st);
      }
    }

    /** Acts on a code for a string. */
    method HandleString(cs: nat, code: nat, r: Registers, ghost st: Lzw) returns (stop: bool, r': Registers, ghost st': Lzw)
      requires Ready() && cs <= 12 && Good(cs, st) && Matches(cs, r, st) && TableFor(codes[..], cs, st.dict)
      requires code <= r.avail && code != Pow2(cs) && code != Pow2(cs) + 1
      modifies this`cur_x, this`cur_y, this`step, this`parse, this`col, this`row, this`stride, out, history, codes
      ensures Ready() && Good(cs, st') && TableFor(codes[..], cs, st'.dict)
      ensures var s := StepCode(LowBitsZero, cs, st, code);
              if stop then s.Stop? && s.status != Finished else s.Go? && s.st == st' && Matches(cs, r', st')
      ensures stop ==> Picture() == old(Picture()) && Left() == old(Left())
      ensures !stop ==> var emit := StepCode(LowBitsZero, cs, st, code).emit;
                Left() == Drop(old(Left()), |emit|) && Picture() == Paint(old(Picture()), old(Left()), emit, color_table)
    {
      hide Left, Cursor, Paint, Pow2, Fits, TableFor, And, Mask, Roots;
      stop, r', st' := true, r, st;
      if r.first {
        return;
      }
      var avail := r.avail;
      ghost var dict := st.dict;
      if r.oldcode >= 0 {
        avail := avail + 1;
        if avail > TABLE_SIZE {
          return;
        }
        dict := AddEntry(r.avail, r.oldcode, code, cs, st.dict);
      } else if code == avail {
        return;
      }
      OutGifCode(code, cs, dict);
      var codesize := r.codesize;
      AndMask(avail, codesize);
      if And(avail, Pow2(codesize) - 1) == 0 && avail <= 0x0FFF {
        codesize := codesize + 1;
      }
      stop, r', st' := false, Registers(codesize, avail, code, false), Lzw(dict, code, codesize, true);
      WidthBound(cs, r.codesize, avail);
    }

    // ----- the code loop

    /** Fetches the next byte of the sub-blocks; none is left after a terminator. */
    method NextByte(len: nat) returns (some: bool, b: Byte, len': nat)
      modifies this`pos
      ensures some ==> RestOfBlock(data, old(pos), len) == [b] + RestOfBlock(data, pos, len')
      ensures !some ==> RestOfBlock(data, old(pos), len) == []
      ensures RestEnd(data, old(pos), len) == if some then RestEnd(data, pos, len') else pos
    {
      len' := len;
      if len' == 0 {
        len' := Get8();
        if len' == 0 {
          return false, 0, 0;
        }
      }
      assert RestOfBlock(data, old(pos), len) == RestOfBlock(data, pos, len');
      assert RestEnd(data, old(pos), len) == RestEnd(data, pos, len');
      len' := len' - 1;
      b := Get8();
      some := true;
    }

    /** Skips what is left of a sub-block and all that follow. */
    method SkipBlocks(len: nat)
      modifies this`pos
      ensures Clip(data, pos) == Clip(data, RestEnd(data, old(pos), len))
    {
      SkipRest(data, pos, len);
      pos := pos + len;
      var n := Get8();
      while n > 0
        invariant n > 0 ==> pos <= |data|
        invariant Clip(data, RestEnd(data, old(pos), len)) == Clip(data, if n > 0 then RestEnd(data, pos, n) else pos)
        decreases |data| - pos
      {
        SkipRest(data, pos, n);
        pos := pos + n;
        n := Get8();
      }
    }

    /** Decodes a frame's data and draws it. A frame that decodes leaves the input behind its
        data. */
    method ProcessGifRaster() returns (ok: bool)
      requires Ready()
      modifies this`pos, this`cur_x, this`cur_y, this`step, this`parse, this`col, this`row, this`stride,
               out, history, codes
      ensures Ready()
      ensures var cs := ByteAt(data, old(pos));
              if cs > 12 then !ok && Picture() == old(Picture())
              else
                var d := Decode(LowBitsZero, cs, SubBlocks(data, Next(data, old(pos))));
                && (ok <==> d.status == Finished)
                && Picture() == Paint(old(Picture()), old(Left()), d.px, color_table)
                && (ok ==> Clip(data, pos) == Clip(data, BlocksEnd(data, Next(data, old(pos)))))
    {
      hide Left, Cursor, Paint, Pow2, Fits, TableFor, Roots, RestOfBlock, Good, Run, StepCode, BlocksEnd;
      var lzw_cs := Get8();
      if lzw_cs > 12 {
        return false;
      }
      InitTable(lzw_cs);
      ok := CodeLoop(lzw_cs);
    }

    /** A whole frame: an image descriptor's rectangle and then its raster. Frames outside the
        screen are refused; otherwise the decoded pixels are painted on the frame's offsets. */
    method DrawFrame(x: nat, y: nat, width: nat, height: nat, gw: nat, gh: nat, interlaced: bool) returns (ok: bool)
      requires Buffers() && out.Length == Times(gh, 4 * gw)
      modifies this, out, history, codes
      ensures Buffers()
      ensures var cs := ByteAt(data, old(pos));
              if x + width > gw || y + height > gh || cs > 12 then !ok && Picture() == old(Picture())
              else
                var d := Decode(LowBitsZero, cs, SubBlocks(data, Next(data, old(pos))));
                var at := FrameOffsets(interlaced, 4 * x, width, Times(y, 4 * gw), height, 4 * gw);
                && (ok <==> d.status == Finished)
                && Fits(old(Picture()), at) && Picture() == Paint(old(Picture()), at, d.px, color_table)
                && color_table == old(color_table)
                && (forall k: nat :: k < |d.px| && k < |at| ==> EntryShown(out[..], old(out[..]), at[k], d.px[k], color_table))
                && (ok ==> Clip(data, pos) == Clip(data, BlocksEnd(data, Next(data, old(pos)))))
    {
      hide Fits, Left, Cursor, FrameOffsets, Times, Decode, SubBlocks, Paint, BlocksEnd;
      ok := StartFrame(x, y, width, height, gw, gh, interlaced);
      if ok {
        ok := ProcessGifRaster();
        ghost var cs := ByteAt(data, old(pos));
        if cs <= 12 {
          ghost var d := Decode(LowBitsZero, cs, SubBlocks(data, Next(data, old(pos))));
          FrameSeen(old(Picture()), interlaced, x, width, y, height, gw, d.px, color_table);
        }
      }
    }

    method CodeLoop(cs: nat) returns (ok: bool)
      requires Ready() && cs <= 12 && TableFor(codes[..], cs, Roots(cs))
      modifies this`pos, this`cur_x, this`cur_y, this`step, this`parse, this`col, this`row, this`stride,
               out, history, codes
      ensures Ready()
      ensures var d := Decode(LowBitsZero, cs, SubBlocks(data, old(pos)));
              (ok <==> d.status == Finished) && Picture() == Paint(old(Picture()), old(Left()), d.px, color_table)
      ensures ok ==> Clip(data, pos) == Clip(data, BlocksEnd(data, old(pos)))
    {
      hide Left, Cursor, Paint, Pow2, Fits, TableFor, Roots, Good, Run, StepCode, RestOfBlock, Peek, And, Or, Shl, Shr, Matches, Drop,
        SubBlocks, Picture, RestEnd, BlocksEnd;
      ghost var end := BlocksEnd(data, pos);
      ghost var payload, pic, left := SubBlocks(data, pos), Picture(), Left();
      ghost var all := Decode(LowBitsZero, cs, payload);
      ghost var st, p: nat, px: seq<Byte>, taken: seq<Byte> := Initial(cs, false), 0, [], [];
      InitialGood(cs);
      StartRegisters(cs);
      PaintNothing(pic, left, color_table);
      WholeBlock(data, pos);
      PeekEmpty(payload);
      var r := Registers(cs + 1, Pow2(cs) + 2, -1, true);
      var bits: nat, valid_bits: nat, len: nat := 0, 0, 0;
      while true
        invariant Ready() && Good(cs, st) && Matches(cs, r, st) && TableFor(codes[..], cs, st.dict)
        invariant r.codesize == st.width && r.codesize >= 1
        invariant payload == taken + RestOfBlock(data, pos, len) && 8 * |taken| == p + valid_bits
        invariant bits == Peek(payload, p, valid_bits) && end == RestEnd(data, pos, len)
        invariant all == Run(LowBitsZero, cs, payload, p, st, px)
        invariant Fits(pic, left) && |color_table| == 1024
        invariant Left() == Drop(left, |px|) && Picture() == Paint(pic, left, px, color_table)
        decreases |payload| - |taken|, valid_bits
      {
        if valid_bits < r.codesize {
          var some, b;
          some, b, len := NextByte(len);
          if !some {
            RunEnds(LowBitsZero, cs, payload, p, st, px);
            return true;
          }
          TakeByte(payload, taken, b, RestOfBlock(data, pos, len), p, valid_bits);
          taken := taken + [b];
          bits := Or(bits, Shl(b, valid_bits));
          valid_bits := valid_bits + 8;
        } else {
          PeekTake(payload, p, valid_bits, r.codesize);
          var code := And(bits, Pow2(r.codesize) - 1);
          bits := Shr(bits, r.codesize);
          valid_bits := valid_bits - r.codesize;
          RunCode(LowBitsZero, cs, payload, p, st, px, code);
          ghost var s := StepCode(LowBitsZero, cs, st, code);
          p := p + r.codesize;
          var stop;
          stop, ok, r, st := HandleCode(cs, code, r, st);
          if stop {
            if ok {
              SkipBlocks(len);
            }
            return;
          }
          PaintMore(pic, left, px, s.emit, color_table);
          px := px + s.emit;
          RegisterWidth(cs, r, st);
        }
      }
    }
  }

  lemma FrameSeen(pic: Canvas, interlaced: bool, x: nat, width: nat, y: nat, height: nat, gw: nat, px: seq<Byte>, table: seq<Byte>)
    requires |table| == 1024 && x + width <= gw
    requires Fits(pic, FrameOffsets(interlaced, 4 * x, width, Times(y, 4 * gw), height, 4 * gw))
    ensures var at := FrameOffsets(interlaced, 4 * x, width, Times(y, 4 * gw), height, 4 * gw);
            forall k: nat :: k < |px| && k < |at| ==> EntryShown(Paint(pic, at, px, table).out, pic.out, at[k], px[k], table)
  {
    hide Paint, FrameOffsets, EntryShown, Times;
    var at := FrameOffsets(interlaced, 4 * x, width, Times(y, 4 * gw), height, 4 * gw);
    FrameVisitsOnce(interlaced, 4 * x, width, Times(y, 4 * gw), height, 4 * gw);
    forall k: nat | k < |px| && k < |at|
      ensures EntryShown(Paint(pic, at, px, table).out, pic.out, at[k], px[k], table)
    {
      PaintShows(pic, at, px, table, k);
    }
  }

  /** Pixels painted one code after the other. */
  lemma PaintMore(pic: Canvas, left: seq<nat>, px: seq<Byte>, emit: seq<Byte>, table: seq<Byte>)
    requires |table| == 1024 && Fits(pic, left)
    ensures Fits(Paint(pic, left, px, table), Drop(left, |px|))
    ensures Paint(pic, left, px + emit, table) == Paint(Paint(pic, left, px, table), Drop(left, |px|), emit, table)
    ensures Drop(Drop(left, |px|), |emit|) == Drop(left, |px + emit|)
  {
    hide Paint, Drop, Fits;
    PaintConcat(pic, left, px, emit, table);
    DropDrop(left, |px|, |emit|);
  }

  lemma StartRegisters(cs: nat)
    requires cs <= 12
    ensures Matches(cs, Registers(cs + 1, Pow2(cs) + 2, -1, true), Initial(cs, false))
  {
  }

  lemma RegisterWidth(cs: nat, r: Registers, st: Lzw)
    requires Matches(cs, r, st) && Good(cs, st)
    ensures r.codesize == st.width >= 1
  {
  }

  lemma WholeBlock(data: seq<Byte>, pos: nat)
    ensures SubBlocks(data, pos) == [] + RestOfBlock(data, pos, 0)
    ensures BlocksEnd(data, pos) == RestEnd(data, pos, 0)
  {
  }

  lemma PeekEmpty(payload: seq<Byte>)
    ensures Peek(payload, 0, 0) == 0
  {
  }

  /** Taking a byte of the payload into the bit window. */
  lemma TakeByte(payload: seq<Byte>, taken: seq<Byte>, b: Byte, rest: seq<Byte>, p: nat, n: nat)
    requires payload == taken + ([b] + rest) && 8 * |taken| == p + n
    ensures payload == taken + [b] + rest
    ensures Or(Peek(payload, p, n), Shl(b, n)) == Peek(payload, p, n + 8)
  {
    assert ByteAt(payload, |taken|) == b;
    hide Peek, Or, Shl;
    WindowExtend(payload, p, n, |taken|, 8);
  }

  lemma RunEnds(rule: Rule, cs: nat, payload: seq<Byte>, p: nat, st: Lzw, px: seq<Byte>)
    requires cs <= 12 && Good(cs, st) && p + st.width > 8 * |payload|
    ensures Run(rule, cs, payload, p, st, px) == Decoded(px, Finished)
  {
  }

  lemma RunCode(rule: Rule, cs: nat, payload: seq<Byte>, p: nat, st: Lzw, px: seq<Byte>, code: nat)
    requires cs <= 12 && Good(cs, st) && p + st.width <= 8 * |payload| && code == Peek(payload, p, st.width)
    ensures Run(rule, cs, payload, p, st, px) ==
            var s := StepCode(rule, cs, st, code);
            if s.Stop? then Decoded(px, s.status) else Run(rule, cs, payload, p + st.width, s.st, px + s.emit)
  {
    hide StepCode, Peek;
  }

  /** The decoder's registers; codemask is always (1 << codesize) - 1. */
  datatype Registers = Registers(codesize: nat, avail: nat, oldcode: int, first: bool)

  ghost predicate Matches(cs: nat, r: Registers, st: Lzw) {
    r.codesize == st.width <= 13 && r.avail == |st.dict| && r.oldcode == st.prev && r.first == !st.cleared
  }

  /** Codes stay within 12 bits (13 for a minimum code size of 12). */
  lemma WidthBound(cs: nat, width: nat, next: nat)
    requires 0 < next && width <= 13
    ensures Grow(LowBitsZero, width, next) <= 13
  {
    if next <= 0xFFF && width == 13 {
      Pow2Values();
      MaskSmall(next, 13);
    }
  }

  /** Entry c of the table spells string c: a pixel, or a shorter entry's string and a pixel. */
  ghost predicate EntryFor(t: seq<Entry>, cs: nat, dict: seq<seq<Byte>>, c: nat)
    requires c < |t| && c < |dict|
  {
    && dict[c] != [] && t[c].first == dict[c][0]
    && if c < Pow2(cs) then t[c].prefix == -1 && dict[c] == [t[c].suffix]
       else 0 <= t[c].prefix < c && IsString(cs, dict, t[c].prefix) && dict[c] == dict[t[c].prefix] + [t[c].suffix]
  }

  ghost predicate TableFor(t: seq<Entry>, cs: nat, dict: seq<seq<Byte>>) {
    |t| == TABLE_SIZE && |dict| <= TABLE_SIZE && forall c: nat :: IsString(cs, dict, c) ==> EntryFor(t, cs, dict, c)
  }

  lemma TableExtend(t: seq<Entry>, t': seq<Entry>, cs: nat, dict: seq<seq<Byte>>, dict': seq<seq<Byte>>)
    requires TableFor(t, cs, dict) && |dict| < TABLE_SIZE && Pow2(cs) + 2 <= |dict|
    requires |t'| == TABLE_SIZE && forall c :: 0 <= c < |dict| ==> t'[c] == t[c]
    requires |dict'| == |dict| + 1 && dict'[..|dict|] == dict
    requires EntryFor(t', cs, dict', |dict|)
    ensures TableFor(t', cs, dict')
  {
    hide Pow2;
    forall c: nat | IsString(cs, dict', c)
      ensures EntryFor(t', cs, dict', c)
    {
      if c < |dict| {
        assert dict'[..|dict|][c] == dict[c];
        assert EntryFor(t, cs, dict, c);
        if c >= Pow2(cs) {
          assert dict'[..|dict|][t[c].prefix] == dict[t[c].prefix];
        }
      }
    }
  }

  /** Entries for single pixels are never overwritten, so clearing needs no table work. */
  lemma TableReset(t: seq<Entry>, cs: nat, dict: seq<seq<Byte>>)
    requires TableFor(t, cs, dict) && cs <= 12 && Pow2(cs) + 2 <= |dict|
    requires forall c :: 0 <= c < Pow2(cs) ==> dict[c] == [c % 256]
    ensures TableFor(t, cs, Roots(cs))
  {
    hide Pow2;
    forall c: nat | IsString(cs, Roots(cs), c)
      ensures EntryFor(t, cs, Roots(cs), c)
    {
      assert IsString(cs, dict, c) && EntryFor(t, cs, dict, c);
    }
  }

  lemma PaintNothing(c: Canvas, at: seq<nat>, table: seq<Byte>)
    requires |table| == 1024 && Fits(c, at)
    ensures Paint(c, at, [], table) == c && Drop(at, 0) == at
  {
  }

  lemma DropDrop(at: seq<nat>, m: nat, n: nat)
    ensures Drop(Drop(at, m), n) == Drop(at, m + n)
  {
  }

  lemma RowTail(x: nat, n: nat, y: nat, rest: seq<nat>)
    requires n > 0
    ensures (RowOffsets(x, n, y) + rest)[1..] == if n == 1 then rest else RowOffsets(x + 4, n - 1, y) + rest
  {
  }

  lemma StartProducts(y: nat, h: nat, line: nat)
    ensures Product(y, line) == Times(y, line) && Product(h, line) == Times(h, line)
    ensures Product(8, line) == Times(8, line) && line == Times(1, line) && Times(0, line) == 0
  {
    TimesIsProduct(y, line);
    TimesIsProduct(h, line);
    TimesIsProduct(8, line);
  }

  lemma SkipPass(row: nat, stride: nat, parse: nat, h: nat)
    requires stride > 0 && row >= h && 1 <= parse <= 3
    ensures RowsLeft(row, stride, parse, h) == RowsLeft(Pow2(parse - 1), Pow2(parse), parse - 1, h)
  {
    NextPass(parse, h);
    PassOver(row, stride, h);
  }

  lemma PassOver(row: nat, stride: nat, h: nat)
    requires stride > 0 && row >= h
    ensures PassRows(row, stride, h) == []
  {
  }

  lemma RowHead(row: nat, stride: nat, parse: nat, h: nat)
    requires stride > 0 && parse <= 3 && (row >= h ==> parse == 0)
    ensures row >= h ==> RowsLeft(row, stride, parse, h) == []
    ensures row < h ==> RowsLeft(row, stride, parse, h) == [row] + RowsLeft(row + stride, stride, parse, h)
  {
  }

  lemma PassStep(parse: nat, line: nat)
    requires 1 <= parse <= 3
    ensures Product(Pow2(parse), line) == Times(Pow2(parse), line)
    ensures Shr(Product(Pow2(parse), line), 1) == Times(Pow2(parse - 1), line)
  {
    TimesIsProduct(Pow2(parse), line);
    TimesAdd(Pow2(parse - 1), Pow2(parse - 1), line);
  }
}
