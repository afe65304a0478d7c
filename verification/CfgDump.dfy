/** The text dump of the control flow graph: how the coverage pass writes it and how the graph
    reader takes it in. */
module CfgDump {
  import opened CfgBuild

  const USIZE_MAX: nat := 0xFFFF_FFFF_FFFF_FFFF

  /** The largest number of 64 bits. */
  lemma UsizeMax()
    ensures USIZE_MAX + 1 == 0x1_0000 * 0x1_0000 * 0x1_0000 * 0x1_0000
  {
  }

  datatype Option<T> = None | Some(value: T)

  // ----- numbers

  function Digit(d: nat): char
    requires d < 10
  {
    ('0' as int + d) as char
  }

  function Decimal(n: nat): (s: string)
    ensures |s| > 0
    ensures forall i :: 0 <= i < |s| ==> '0' <= s[i] <= '9'
  {
    if n < 10 then [Digit(n)] else Decimal(n / 10) + [Digit(n % 10)]
  }

  function ParseDigits(s: string): Option<nat> {
    if s == [] then None else
    var c := s[|s| - 1];
    if !('0' <= c <= '9') then None
    else if |s| == 1 then Some(c as int - '0' as int)
    else
      match ParseDigits(s[..|s| - 1])
      case None => None
      case Some(v) =>
        var n := 10 * v + (c as int - '0' as int);
        if n > USIZE_MAX then None else Some(n)
  }

  /** Rust's parse::<usize>: an optional plus sign and at least one digit, in range. */
  function ParseNumber(s: string): Option<nat> {
    if s != [] && s[0] == '+' then ParseDigits(s[1..]) else ParseDigits(s)
  }

  lemma {:induction false} DecimalParses(n: nat)
    requires n <= USIZE_MAX
    ensures ParseDigits(Decimal(n)) == Some(n)
  {
    if n >= 10 {
      DecimalParses(n / 10);
      var s := Decimal(n);
      assert s[..|s| - 1] == Decimal(n / 10);
    }
  }

  lemma NumberParses(n: nat)
    requires n <= USIZE_MAX
    ensures ParseNumber(Decimal(n)) == Some(n)
  {
    DecimalParses(n);
    assert Decimal(n)[0] != '+';
  }

  // ----- lines

  /** Length of s up to the first c, or all of it. */
  function Find(s: string, c: char): (k: nat)
    ensures k <= |s| && (k < |s| ==> s[k] == c) && forall i :: 0 <= i < k ==> s[i] != c
  {
    if s == [] || s[0] == c then 0 else 1 + Find(s[1..], c)
  }

  function StripCr(line: string): string {
    if line != [] && line[|line| - 1] == '\r' then line[..|line| - 1] else line
  }

  /** Rust's lines(): split after each newline, and drop a carriage return before it; what comes
      after the last newline is kept as it is. */
  function Lines(s: string): seq<string>
    decreases |s|
  {
    if s == [] then [] else
    var k := Find(s, '\n');
    if k == |s| then [s] else [StripCr(s[..k])] + Lines(s[k + 1..])
  }

  function Join(lines: seq<string>): string {
    if lines == [] then "" else lines[0] + "\n" + Join(lines[1..])
  }

  predicate PlainLine(line: string) {
    '\n' !in line && (line != [] ==> line[|line| - 1] != '\r')
  }

  lemma {:induction false} LinesOfJoin(lines: seq<string>)
    requires forall i :: 0 <= i < |lines| ==> PlainLine(lines[i])
    ensures Lines(Join(lines)) == lines
  {
    if lines != [] {
      var line, rest := lines[0], Join(lines[1..]);
      var s := line + "\n" + rest;
      assert PlainLine(line);
      var k := Find(s, '\n');
      assert k == |line| by {
        assert s[|line|] == '\n';
        assert forall i :: 0 <= i < |line| ==> s[i] == line[i] && line[i] in line;
      }
      assert s[..k] == line && s[k + 1..] == rest;
      LinesOfJoin(lines[1..]);
    }
  }

  // ----- the reader

  datatype ReaderState = ReaderState(current_bb: nat, maps: Reader)

  const START: ReaderState := ReaderState(0, Reader(map[], map[], map[]))

  /** The part before the first plus and the part between it and the next one, if any. */
  function SplitPlus(s: string): (string, Option<string>) {
    var k := Find(s, '+');
    if k == |s| then (s, None)
    else
      var tail := s[k + 1..];
      (s[..k], Some(tail[..Find(tail, '+')]))
  }

  /** A function name and a location. */
  function NamedLocation(s: string): Option<(string, nat)> {
    var (name, number) := SplitPlus(s);
    match number
    case None => None
    case Some(digits) =>
      match ParseNumber(digits)
      case None => None
      case Some(loc) => Some((name, loc))
  }

  /** One line; None where the reader panics. */
  function ParseLine(s: ReaderState, line: string): Option<ReaderState> {
    if |line| < 2 then Some(s) else
    var kind, content, maps := line[..2], line[2..], s.maps;
    if kind == "->" then
      match ParseNumber(content)
      case None => None
      case Some(succ) =>
        var list := if s.current_bb in maps.bb_to_succ then maps.bb_to_succ[s.current_bb] + [succ] else [succ];
        Some(s.(maps := maps.(bb_to_succ := maps.bb_to_succ[s.current_bb := list])))
    else if kind == "%%" then
      match NamedLocation(content)
      case None => None
      case Some((name, loc)) => Some(ReaderState(loc, maps.(bb_to_func := maps.bb_to_func[loc := name])))
    else if kind == "$$" then
      match NamedLocation(content)
      case None => None
      case Some((name, loc)) => Some(s.(maps := maps.(func_to_entry := maps.func_to_entry[name := loc])))
    else Some(s)
  }

  function ParseLines(s: ReaderState, lines: seq<string>): Option<ReaderState>
    decreases |lines|
  {
    if lines == [] then Some(s) else
    match ParseLine(s, lines[0])
    case None => None
    case Some(t) => ParseLines(t, lines[1..])
  }

  class CfgFileReader {
    var current_bb: nat
    var bb_to_func: map<nat, string>
    var bb_to_successors: map<nat, seq<nat>>
    var func_to_entry_bb: map<string, nat>

    ghost function State(): ReaderState
      reads this
    {
      ReaderState(current_bb, Reader(bb_to_func, bb_to_successors, func_to_entry_bb))
    }

    constructor ()
      ensures State() == START
    {
      current_bb, bb_to_func, bb_to_successors, func_to_entry_bb := 0, map[], map[], map[];
    }

    /** Takes in one line; a panic leaves no reader behind. */
    method TakeLine(line: string) returns (panic: bool, taken: bool)
      modifies this
      ensures panic <==> ParseLine(old(State()), line) == None
      ensures !panic ==> Some(State()) == ParseLine(old(State()), line) && (taken <==> |line| >= 2)
    {
      panic, taken := false, false;
      if |line| < 2 {
        return;
      }
      var content := line[2..];
      if line[..2] == "->" {
        var successor := ParseNumber(content);
        if successor == None {
          return true, false;
        }
        if current_bb in bb_to_successors {
          bb_to_successors := bb_to_successors[current_bb := bb_to_successors[current_bb] + [successor.value]];
        } else {
          bb_to_successors := bb_to_successors[current_bb := [successor.value]];
        }
      } else if line[..2] == "%%" {
        var named := NamedLocation(content);
        if named == None {
          return true, false;
        }
        current_bb := named.value.1;
        bb_to_func := bb_to_func[current_bb := named.value.0];
      } else if line[..2] == "$$" {
        var named := NamedLocation(content);
        if named == None {
          return true, false;
        }
        func_to_entry_bb := func_to_entry_bb[named.value.0 := named.value.1];
      }
      taken := true;
    }

    /** Takes in a whole dump. */
    method TakeContent(content: string) returns (panic: bool)
      modifies this
      ensures panic <==> ParseLines(old(State()), Lines(content)) == None
      ensures !panic ==> Some(State()) == ParseLines(old(State()), Lines(content))
    {
      var lines := Lines(content);
      for i := 0 to |lines|
        invariant ParseLines(old(State()), lines) == ParseLines(State(), lines[i..])
      {
        assert lines[i..][1..] == lines[i + 1..];
        var taken;
        panic, taken := TakeLine(lines[i]);
        if panic {
          return;
        }
      }
      panic := false;
    }
  }

  // ----- the writer

  datatype Block = Block(func: string, loc: nat, succ: seq<nat>)

  datatype EntryPoint = EntryPoint(func: string, loc: nat)

  /** A module: its functions with their entry blocks, and all blocks, in any order. */
  datatype Module = Module(entries: seq<EntryPoint>, blocks: seq<Block>)

  function EntryLine(e: EntryPoint): string {
    "$$" + e.func + "+" + Decimal(e.loc)
  }

  function BlockLine(b: Block): string {
    "%%" + b.func + "+" + Decimal(b.loc)
  }

  function SuccLine(s: nat): string {
    "->" + Decimal(s)
  }

  function EntryLines(entries: seq<EntryPoint>): seq<string> {
    if entries == [] then [] else [EntryLine(entries[0])] + EntryLines(entries[1..])
  }

  function SuccLines(succ: seq<nat>): seq<string> {
    if succ == [] then [] else [SuccLine(succ[0])] + SuccLines(succ[1..])
  }

  function BlockLines(blocks: seq<Block>): seq<string> {
    if blocks == [] then [] else [BlockLine(blocks[0])] + SuccLines(blocks[0].succ) + BlockLines(blocks[1..])
  }

  function Dump(m: Module): string {
    Join(EntryLines(m.entries) + BlockLines(m.blocks))
  }

  predicate PlainName(name: string) {
    '+' !in name && '\n' !in name
  }

  predicate Writable(m: Module) {
    && (forall i :: 0 <= i < |m.entries| ==> PlainName(m.entries[i].func) && m.entries[i].loc <= USIZE_MAX)
    && (forall i :: 0 <= i < |m.blocks| ==> PlainName(m.blocks[i].func) && m.blocks[i].loc <= USIZE_MAX)
    && (forall i, j :: 0 <= i < |m.blocks| && 0 <= j < |m.blocks[i].succ| ==> m.blocks[i].succ[j] <= USIZE_MAX)
  }

  // ----- reading back what was written

  lemma {:induction false} FindAfter(name: string, c: char, tail: string)
    requires c !in name
    ensures Find(name + [c] + tail, c) == |name|
  {
    if name == [] {
    } else {
      assert name[0] in name;
      assert (name + [c] + tail)[1..] == name[1..] + [c] + tail;
      FindAfter(name[1..], c, tail);
    }
  }

  lemma {:induction false} FindNone(s: string, c: char)
    requires c !in s
    ensures Find(s, c) == |s|
  {
    if s != [] {
      assert s[0] in s;
      FindNone(s[1..], c);
    }
  }

  lemma NamedLocationParses(name: string, loc: nat)
    requires '+' !in name && loc <= USIZE_MAX
    ensures NamedLocation(name + "+" + Decimal(loc)) == Some((name, loc))
  {
    var digits := Decimal(loc);
    var s := name + "+" + digits;
    FindAfter(name, '+', digits);
    assert s[..|name|] == name && s[|name| + 1..] == digits;
    FindNone(digits, '+');
    assert digits[..|digits|] == digits;
    NumberParses(loc);
  }

  lemma EntryLineParses(s: ReaderState, e: EntryPoint)
    requires PlainName(e.func) && e.loc <= USIZE_MAX
    ensures ParseLine(s, EntryLine(e))
            == Some(s.(maps := s.maps.(func_to_entry := s.maps.func_to_entry[e.func := e.loc])))
  {
    hide NamedLocation;
    var line := EntryLine(e);
    assert line[..2] == "$$" && line[2..] == e.func + "+" + Decimal(e.loc);
    NamedLocationParses(e.func, e.loc);
  }

  lemma BlockLineParses(s: ReaderState, b: Block)
    requires PlainName(b.func) && b.loc <= USIZE_MAX
    ensures ParseLine(s, BlockLine(b))
            == Some(ReaderState(b.loc, s.maps.(bb_to_func := s.maps.bb_to_func[b.loc := b.func])))
  {
    hide NamedLocation;
    var line := BlockLine(b);
    assert line[..2] == "%%" && line[2..] == b.func + "+" + Decimal(b.loc);
    NamedLocationParses(b.func, b.loc);
  }

  /** A successor list grown by more successors; no key for an empty list. */
  function Appended(m: map<nat, seq<nat>>, loc: nat, succ: seq<nat>): map<nat, seq<nat>> {
    if succ == [] then m else m[loc := (if loc in m then m[loc] else []) + succ]
  }

  lemma SuccLineParses(s: ReaderState, succ: nat)
    requires succ <= USIZE_MAX
    ensures ParseLine(s, SuccLine(succ))
            == Some(s.(maps := s.maps.(bb_to_succ := Appended(s.maps.bb_to_succ, s.current_bb, [succ]))))
  {
    var line := SuccLine(succ);
    assert line[..2] == "->" && line[2..] == Decimal(succ);
    NumberParses(succ);
    assert [] + [succ] == [succ];
  }

  lemma {:induction false} ParseConcat(s: ReaderState, a: seq<string>, b: seq<string>)
    ensures ParseLines(s, a + b) ==
            match ParseLines(s, a) case None => None case Some(t) => ParseLines(t, b)
    decreases |a|
  {
    hide ParseLine;
    if a == [] {
      assert a + b == b;
    } else {
      assert (a + b)[1..] == a[1..] + b;
      var r := ParseLine(s, a[0]);
      if r.Some? {
        ParseConcat(r.value, a[1..], b);
      }
    }
  }

  lemma {:induction false} SuccLinesParse(s: ReaderState, succ: seq<nat>)
    requires forall j :: 0 <= j < |succ| ==> succ[j] <= USIZE_MAX
    ensures ParseLines(s, SuccLines(succ))
            == Some(s.(maps := s.maps.(bb_to_succ := Appended(s.maps.bb_to_succ, s.current_bb, succ))))
    decreases |succ|
  {
    hide ParseLine, SuccLine, Appended;
    if succ == [] {
      NothingAppended(s.maps.bb_to_succ, s.current_bb);
    } else {
      SuccLineParses(s, succ[0]);
      AppendedAgain(s.maps.bb_to_succ, s.current_bb, succ[0], succ[1..]);
      assert [succ[0]] + succ[1..] == succ;
      SuccLinesParse(s.(maps := s.maps.(bb_to_succ := Appended(s.maps.bb_to_succ, s.current_bb, [succ[0]]))), succ[1..]);
      assert SuccLines(succ)[1..] == SuccLines(succ[1..]);
    }
  }

  lemma NothingAppended(m: map<nat, seq<nat>>, loc: nat)
    ensures Appended(m, loc, []) == m
  {
  }

  lemma AppendedAgain(m: map<nat, seq<nat>>, loc: nat, x: nat, rest: seq<nat>)
    ensures Appended(Appended(m, loc, [x]), loc, rest) == Appended(m, loc, [x] + rest)
  {
    var list := if loc in m then m[loc] else [];
    assert list + [x] + rest == list + ([x] + rest);
    assert rest == [] ==> [x] + rest == [x];
  }

  /** The maps after the entry records, and after the block records. */
  function AfterEntries(maps: Reader, entries: seq<EntryPoint>): Reader
    decreases |entries|
  {
    if entries == [] then maps else
    var e := entries[0];
    AfterEntries(maps.(func_to_entry := maps.func_to_entry[e.func := e.loc]), entries[1..])
  }

  function AfterBlocks(maps: Reader, blocks: seq<Block>): Reader
    decreases |blocks|
  {
    if blocks == [] then maps else
    var b := blocks[0];
    AfterBlocks(Reader(maps.bb_to_func[b.loc := b.func], Appended(maps.bb_to_succ, b.loc, b.succ), maps.func_to_entry),
                blocks[1..])
  }

  lemma {:induction false} EntryLinesParse(s: ReaderState, entries: seq<EntryPoint>)
    requires forall i :: 0 <= i < |entries| ==> PlainName(entries[i].func) && entries[i].loc <= USIZE_MAX
    ensures ParseLines(s, EntryLines(entries)) == Some(s.(maps := AfterEntries(s.maps, entries)))
    decreases |entries|
  {
    hide ParseLine, EntryLine;
    if entries != [] {
      var e := entries[0];
      EntryLineParses(s, e);
      EntryLinesParse(s.(maps := s.maps.(func_to_entry := s.maps.func_to_entry[e.func := e.loc])), entries[1..]);
      assert EntryLines(entries)[1..] == EntryLines(entries[1..]);
    }
  }

  lemma {:induction false} BlockLinesParse(s: ReaderState, blocks: seq<Block>)
    requires forall i :: 0 <= i < |blocks| ==> PlainName(blocks[i].func) && blocks[i].loc <= USIZE_MAX
    requires forall i, j :: 0 <= i < |blocks| && 0 <= j < |blocks[i].succ| ==> blocks[i].succ[j] <= USIZE_MAX
    ensures var r := ParseLines(s, BlockLines(blocks)); r.Some? && r.value.maps == AfterBlocks(s.maps, blocks)
    decreases |blocks|
  {
    hide ParseLine, BlockLine, SuccLines, Appended;
    if blocks != [] {
      var b := blocks[0];
      BlockLineParses(s, b);
      var t := ReaderState(b.loc, s.maps.(bb_to_func := s.maps.bb_to_func[b.loc := b.func]));
      var head, tail := [BlockLine(b)], SuccLines(b.succ) + BlockLines(blocks[1..]);
      assert BlockLines(blocks) == head + tail;
      assert (head + tail)[0] == BlockLine(b) && (head + tail)[1..] == tail;
      assert ParseLines(s, BlockLines(blocks)) == ParseLines(t, tail);
      ParseConcat(t, SuccLines(b.succ), BlockLines(blocks[1..]));
      SuccLinesParse(t, b.succ);
      BlockLinesParse(t.(maps := t.maps.(bb_to_succ := Appended(t.maps.bb_to_succ, b.loc, b.succ))), blocks[1..]);
    }
  }

  // ----- the text splits into the lines that were written

  lemma PlainNumberedLine(head: string, loc: nat)
    requires '\n' !in head
    ensures PlainLine(head + Decimal(loc))
  {
    var line := head + Decimal(loc);
    assert line[|line| - 1] == Decimal(loc)[|Decimal(loc)| - 1];
  }

  lemma {:induction false} PlainEntryLines(entries: seq<EntryPoint>)
    requires forall i :: 0 <= i < |entries| ==> PlainName(entries[i].func)
    ensures forall i :: 0 <= i < |EntryLines(entries)| ==> PlainLine(EntryLines(entries)[i])
  {
    hide PlainLine;
    if entries != [] {
      PlainEntryLines(entries[1..]);
      PlainNumberedLine("$$" + entries[0].func + "+", entries[0].loc);
      assert EntryLine(entries[0]) == "$$" + entries[0].func + "+" + Decimal(entries[0].loc);
    }
  }

  lemma {:induction false} PlainSuccLines(succ: seq<nat>)
    ensures forall i :: 0 <= i < |SuccLines(succ)| ==> PlainLine(SuccLines(succ)[i])
  {
    hide PlainLine;
    if succ != [] {
      PlainSuccLines(succ[1..]);
      PlainNumberedLine("->", succ[0]);
    }
  }

  lemma {:induction false} PlainBlockLines(blocks: seq<Block>)
    requires forall i :: 0 <= i < |blocks| ==> PlainName(blocks[i].func)
    ensures forall i :: 0 <= i < |BlockLines(blocks)| ==> PlainLine(BlockLines(blocks)[i])
  {
    hide PlainLine;
    if blocks != [] {
      PlainBlockLines(blocks[1..]);
      PlainSuccLines(blocks[0].succ);
      PlainNumberedLine("%%" + blocks[0].func + "+", blocks[0].loc);
      assert BlockLine(blocks[0]) == "%%" + blocks[0].func + "+" + Decimal(blocks[0].loc);
    }
  }

  /** Reading a dump gives the maps of the module, record by record. */
  lemma DumpReadsBack(m: Module)
    requires Writable(m)
    ensures var r := ParseLines(START, Lines(Dump(m)));
            r.Some? && r.value.maps == AfterBlocks(AfterEntries(START.maps, m.entries), m.blocks)
  {
    hide ParseLine, PlainLine, EntryLines, BlockLines, Join, Lines;
    PlainEntryLines(m.entries);
    PlainBlockLines(m.blocks);
    LinesOfJoin(EntryLines(m.entries) + BlockLines(m.blocks));
    ParseConcat(START, EntryLines(m.entries), BlockLines(m.blocks));
    EntryLinesParse(START, m.entries);
    BlockLinesParse(START.(maps := AfterEntries(START.maps, m.entries)), m.blocks);
  }

  // ----- with distinct names and locations, whatever the order of the records

  ghost predicate DistinctKeys(m: Module) {
    && (forall i, j :: 0 <= i < j < |m.entries| ==> m.entries[i].func != m.entries[j].func)
    && (forall i, j :: 0 <= i < j < |m.blocks| ==> m.blocks[i].loc != m.blocks[j].loc)
  }

  ghost predicate InFunc(blocks: seq<Block>, l: nat, f: string) {
    exists b :: b in blocks && b.loc == l && b.func == f
  }

  ghost predicate HasSucc(blocks: seq<Block>, l: nat, succ: seq<nat>) {
    succ != [] && exists b :: b in blocks && b.loc == l && b.succ == succ
  }

  /** r holds exactly the module's entry points, blocks and successor lists. */
  ghost predicate Holds(r: Reader, m: Module) {
    && (forall f: string, l: nat :: (f in r.func_to_entry && r.func_to_entry[f] == l) <==> EntryPoint(f, l) in m.entries)
    && (forall l: nat, f: string :: (l in r.bb_to_func && r.bb_to_func[l] == f) <==> InFunc(m.blocks, l, f))
    && (forall l: nat, s: seq<nat> :: (l in r.bb_to_succ && r.bb_to_succ[l] == s) <==> HasSucc(m.blocks, l, s))
  }

  lemma {:induction false} EntriesHold(maps: Reader, entries: seq<EntryPoint>, f: string, l: nat)
    requires forall i, j :: 0 <= i < j < |entries| ==> entries[i].func != entries[j].func
    requires forall e :: e in entries ==> e.func !in maps.func_to_entry
    ensures var r := AfterEntries(maps, entries);
            && r.bb_to_func == maps.bb_to_func && r.bb_to_succ == maps.bb_to_succ
            && ((f in r.func_to_entry && r.func_to_entry[f] == l) <==>
                (f in maps.func_to_entry && maps.func_to_entry[f] == l) || EntryPoint(f, l) in entries)
    decreases |entries|
  {
    if entries != [] {
      var e := entries[0];
      assert e in entries;
      var next := maps.(func_to_entry := maps.func_to_entry[e.func := e.loc]);
      forall d | d in entries[1..]
        ensures d.func !in next.func_to_entry
      {
        var k :| 0 <= k < |entries[1..]| && entries[1..][k] == d;
        assert entries[k + 1] == d && d in entries;
      }
      EntriesHold(next, entries[1..], f, l);
      assert EntryPoint(f, l) in entries <==> EntryPoint(f, l) == e || EntryPoint(f, l) in entries[1..];
    }
  }

  lemma {:induction false} BlocksHold(maps: Reader, blocks: seq<Block>, l: nat, f: string, s: seq<nat>)
    requires forall i, j :: 0 <= i < j < |blocks| ==> blocks[i].loc != blocks[j].loc
    requires forall b :: b in blocks ==> b.loc !in maps.bb_to_func && b.loc !in maps.bb_to_succ
    ensures var r := AfterBlocks(maps, blocks);
            && r.func_to_entry == maps.func_to_entry
            && ((l in r.bb_to_func && r.bb_to_func[l] == f) <==>
                (l in maps.bb_to_func && maps.bb_to_func[l] == f) || InFunc(blocks, l, f))
            && ((l in r.bb_to_succ && r.bb_to_succ[l] == s) <==>
                (l in maps.bb_to_succ && maps.bb_to_succ[l] == s) || HasSucc(blocks, l, s))
    decreases |blocks|
  {
    if blocks != [] {
      var b, rest := blocks[0], blocks[1..];
      assert b in blocks;
      var next := Reader(maps.bb_to_func[b.loc := b.func], Appended(maps.bb_to_succ, b.loc, b.succ), maps.func_to_entry);
      forall c | c in rest
        ensures c.loc !in next.bb_to_func && c.loc !in next.bb_to_succ
      {
        var k :| 0 <= k < |rest| && rest[k] == c;
        assert blocks[k + 1] == c && c in blocks;
      }
      BlocksHold(next, rest, l, f, s);
      assert [] + b.succ == b.succ;
      InFirstOrRest(b, rest, l, f, s);
      assert blocks == [b] + rest;
    } else {
      assert !InFunc(blocks, l, f) && !HasSucc(blocks, l, s);
    }
  }

  lemma InFirstOrRest(b: Block, rest: seq<Block>, l: nat, f: string, s: seq<nat>)
    ensures InFunc([b] + rest, l, f) <==> (b.loc == l && b.func == f) || InFunc(rest, l, f)
    ensures HasSucc([b] + rest, l, s) <==> (s != [] && b.loc == l && b.succ == s) || HasSucc(rest, l, s)
  {
    var all := [b] + rest;
    assert b in all;
    assert forall c :: c in all <==> c == b || c in rest;
  }

  /** Round trip: the dump of a module with distinct names and locations, its records in any
      order, reads back as exactly that module. */
  lemma DumpRoundTrip(m: Module)
    requires Writable(m) && DistinctKeys(m)
    ensures var r := ParseLines(START, Lines(Dump(m))); r.Some? && Holds(r.value.maps, m)
  {
    hide InFunc, HasSucc, ParseLines, Lines, Dump;
    DumpReadsBack(m);
    var maps := AfterEntries(START.maps, m.entries);
    var r := AfterBlocks(maps, m.blocks);
    forall f: string, l: nat
      ensures (f in maps.func_to_entry && maps.func_to_entry[f] == l) <==> EntryPoint(f, l) in m.entries
    {
      EntriesHold(START.maps, m.entries, f, l);
    }
    assert maps.bb_to_func == map[] && maps.bb_to_succ == map[] by {
      EntriesHold(START.maps, m.entries, "", 0);
    }
    forall l: nat, f: string
      ensures (l in r.bb_to_func && r.bb_to_func[l] == f) <==> InFunc(m.blocks, l, f)
    {
      BlocksHold(maps, m.blocks, l, f, []);
    }
    forall l: nat, s: seq<nat>
      ensures (l in r.bb_to_succ && r.bb_to_succ[l] == s) <==> HasSucc(m.blocks, l, s)
    {
      BlocksHold(maps, m.blocks, l, "", s);
    }
    BlocksHold(maps, m.blocks, 0, "", []);
  }

  /** The order of the records does not matter: whatever holds the same module is the same. */
  lemma HoldsDetermines(r1: Reader, r2: Reader, m1: Module, m2: Module)
    requires Holds(r1, m1) && Holds(r2, m2)
    requires (forall e :: e in m1.entries <==> e in m2.entries) && (forall b :: b in m1.blocks <==> b in m2.blocks)
    ensures r1 == r2
  {
    forall f: string
      ensures f in r1.func_to_entry <==> f in r2.func_to_entry
      ensures f in r1.func_to_entry ==> r1.func_to_entry[f] == r2.func_to_entry[f]
    {
      if f in r1.func_to_entry {
        assert EntryPoint(f, r1.func_to_entry[f]) in m2.entries;
      }
      if f in r2.func_to_entry {
        assert EntryPoint(f, r2.func_to_entry[f]) in m1.entries;
      }
    }
    assert forall l: nat, f: string :: InFunc(m1.blocks, l, f) <==> InFunc(m2.blocks, l, f);
    assert forall l: nat, s: seq<nat> :: HasSucc(m1.blocks, l, s) <==> HasSucc(m2.blocks, l, s);
    hide InFunc, HasSucc;
    forall l: nat
      ensures l in r1.bb_to_func <==> l in r2.bb_to_func
      ensures l in r1.bb_to_func ==> r1.bb_to_func[l] == r2.bb_to_func[l]
      ensures l in r1.bb_to_succ <==> l in r2.bb_to_succ
      ensures l in r1.bb_to_succ ==> r1.bb_to_succ[l] == r2.bb_to_succ[l]
    {
      if l in r1.bb_to_func {
        assert InFunc(m2.blocks, l, r1.bb_to_func[l]);
      }
      if l in r2.bb_to_func {
        assert InFunc(m1.blocks, l, r2.bb_to_func[l]);
      }
      if l in r1.bb_to_succ {
        assert HasSucc(m2.blocks, l, r1.bb_to_succ[l]);
      }
      if l in r2.bb_to_succ {
        assert HasSucc(m1.blocks, l, r2.bb_to_succ[l]);
      }
    }
    assert r1.func_to_entry == r2.func_to_entry && r1.bb_to_func == r2.bb_to_func && r1.bb_to_succ == r2.bb_to_succ;
  }
}
