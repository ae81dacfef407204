/** The two /proc parsers: the line machine that counts physical cores, and the stat line reader that
    survives any command name. */
module ProcParsers {
  import opened Sequences
  import opened Text

  // ----- lines -----

  /** Where Python's `str.splitlines` ends a line. */
  predicate IsBreak(c: char) {
    var n := c as int;
    10 <= n <= 13 || 28 <= n <= 30 || n == 0x85 || n == 0x2028 || n == 0x2029
  }

  predicate OneLine(s: string) { forall c :: c in s ==> !IsBreak(c) }

  function LineLength(s: string): (n: nat)
    ensures n <= |s| && OneLine(s[..n]) && (n < |s| ==> IsBreak(s[n]))
  {
    if s == "" || IsBreak(s[0]) then 0 else 1 + LineLength(s[1..])
  }

  /** `s.splitlines()`: a carriage return and a line feed after it are one break, and a final break
      starts no line. */
  function SplitLines(s: string): seq<string>
    decreases |s|
  {
    var n := LineLength(s);
    if s == "" then []
    else if n == |s| then [s]
    else
      var width := if s[n] == '\r' && n + 1 < |s| && s[n + 1] == '\n' then 2 else 1;
      [s[..n]] + SplitLines(s[n + width..])
  }

  lemma {:induction false} LineLengthOfLine(line: string, rest: string)
    requires OneLine(line) && rest != "" && IsBreak(rest[0])
    ensures LineLength(line + rest) == |line|
  {
    if line == "" {
      assert line + rest == rest;
    } else {
      assert (line + rest)[1..] == line[1..] + rest;
      LineLengthOfLine(line[1..], rest);
    }
  }

  function Render(lines: seq<string>): string {
    if lines == [] then "" else lines[0] + "\n" + Render(lines[1..])
  }

  lemma {:induction false} SplitRendered(lines: seq<string>)
    requires forall i :: 0 <= i < |lines| ==> OneLine(lines[i])
    ensures SplitLines(Render(lines)) == lines
  {
    if lines != [] {
      var line, rest := lines[0], "\n" + Render(lines[1..]);
      var s := Render(lines);
      assert s == line + rest;
      LineLengthOfLine(line, rest);
      assert s[..|line|] == line && s[|line| + 1..] == Render(lines[1..]);
      SplitRendered(lines[1..]);
    }
  }

  // ----- what the core count means -----

  type Block = seq<string>

  predicate Blank(line: string) { Strip(line) == "" }

  /** The value a line gives to a key, if it is a line of that key. */
  function ValueIn(line: string, key: string): Option<string> {
    var stripped := Strip(line);
    if ':' !in stripped then None
    else
      var (k, v) := Partition(stripped, ':');
      if Strip(k) == key then Some(Strip(v)) else None
  }

  /** The last value a block gives to a key. */
  function LastValue(block: Block, key: string): Option<string> {
    if block == [] then None
    else
      var v := ValueIn(block[|block| - 1], key);
      if v.Some? then v else LastValue(block[..|block| - 1], key)
  }

  const PHYSICAL := "physical id"
  const CORE := "core id"

  function PairOf(block: Block): Option<(string, string)> {
    var p, c := LastValue(block, PHYSICAL), LastValue(block, CORE);
    if p.Some? && c.Some? then Some((p.value, c.value)) else None
  }

  /** The blocks that blank lines delimit; there is always a last one, perhaps empty. */
  function Blocks(lines: seq<string>): (bs: seq<Block>)
    ensures bs != []
  {
    if lines == [] then [[]]
    else
      var before, line := Blocks(lines[..|lines| - 1]), lines[|lines| - 1];
      if Blank(line) then before + [[]]
      else before[..|before| - 1] + [before[|before| - 1] + [line]]
  }

  /** The distinct pairs of fully keyed blocks. */
  function Pairs(bs: seq<Block>): set<(string, string)> {
    set b | b in bs && PairOf(b).Some? :: PairOf(b).value
  }

  function Counted<T>(s: set<T>): Option<nat> { if s == {} then None else Some(|s|) }

  /** The number of distinct physical cores, None when no block carries both keys. */
  function CoreCount(lines: seq<string>): Option<nat> { Counted(Pairs(Blocks(lines))) }

  lemma PairsUnion(a: seq<Block>, b: seq<Block>)
    ensures Pairs(a + b) == Pairs(a) + Pairs(b)
  {
    forall p | p in Pairs(a) + Pairs(b) ensures p in Pairs(a + b) {
      var x :| (x in a || x in b) && PairOf(x).Some? && PairOf(x).value == p;
      assert x in a + b;
    }
  }

  lemma PairsOfOne(b: Block)
    ensures Pairs([b]) == if PairOf(b).Some? then {PairOf(b).value} else {}
  {
    assert forall x :: x in [b] <==> x == b;
  }

  // ----- the machine -----

  /** Commits the pair of a finished block. */
  function Commit(pairs: set<(string, string)>, physicalId: Option<string>, coreId: Option<string>): set<(string, string)> {
    if physicalId.Some? && coreId.Some? then pairs + {(physicalId.value, coreId.value)} else pairs
  }

  /** What the machine holds after some lines: the pairs of the finished blocks and the keys of the
      open one. */
  ghost predicate Holds(lines: seq<string>, pairs: set<(string, string)>, physicalId: Option<string>, coreId: Option<string>) {
    var bs := Blocks(lines);
    && pairs == Pairs(bs[..|bs| - 1])
    && physicalId == LastValue(bs[|bs| - 1], PHYSICAL)
    && coreId == LastValue(bs[|bs| - 1], CORE)
  }

  lemma HoldsBlank(lines: seq<string>, line: string, pairs: set<(string, string)>, p: Option<string>, c: Option<string>)
    requires Holds(lines, pairs, p, c) && Blank(line)
    ensures Holds(lines + [line], Commit(pairs, p, c), None, None)
  {
    var bs := Blocks(lines);
    assert (lines + [line])[..|lines|] == lines;
    assert (bs + [[]])[..|bs|] == bs == bs[..|bs| - 1] + [bs[|bs| - 1]];
    PairsUnion(bs[..|bs| - 1], [bs[|bs| - 1]]);
    PairsOfOne(bs[|bs| - 1]);
  }

  lemma HoldsLine(lines: seq<string>, line: string, pairs: set<(string, string)>, p: Option<string>, c: Option<string>)
    requires Holds(lines, pairs, p, c) && !Blank(line)
    ensures var vp, vc := ValueIn(line, PHYSICAL), ValueIn(line, CORE);
            Holds(lines + [line], pairs, if vp.Some? then vp else p, if vc.Some? then vc else c)
  {
    var bs := Blocks(lines);
    var open := bs[|bs| - 1];
    assert (lines + [line])[..|lines|] == lines;
    assert (open + [line])[..|open|] == open;
    assert Blocks(lines + [line])[..|bs| - 1] == bs[..|bs| - 1];
  }

  method ParsePhysicalCpuCount(text: string) returns (count: Option<nat>)
    ensures count == CoreCount(SplitLines(text))
  {
    var lines := SplitLines(text);
    var pairs: set<(string, string)> := {};
    var physicalId: Option<string>, coreId: Option<string> := None, None;
    var i := 0;
    while i < |lines|
      invariant i <= |lines| && Holds(lines[..i], pairs, physicalId, coreId)
    {
      var line := lines[i];
      assert lines[..i + 1] == lines[..i] + [line];
      var stripped := Strip(line);
      i := i + 1;
      if stripped == "" {
        HoldsBlank(lines[..i - 1], line, pairs, physicalId, coreId);
        pairs := Commit(pairs, physicalId, coreId);
        physicalId, coreId := None, None;
        continue;
      }
      HoldsLine(lines[..i - 1], line, pairs, physicalId, coreId);
      if ':' !in stripped {
        continue;
      }
      var (key, value) := Partition(stripped, ':');
      key, value := Strip(key), Strip(value);
      if key == PHYSICAL {
        physicalId := Some(value);
      } else if key == CORE {
        coreId := Some(value);
      }
    }
    assert lines[..i] == lines;
    HoldsBlank(lines, "", pairs, physicalId, coreId);
    TrailingBlank(lines, "");
    pairs := Commit(pairs, physicalId, coreId);
    count := if pairs == {} then None else Some(|pairs|);
  }

  // ----- what the count ignores -----

  lemma TrailingBlank(lines: seq<string>, blank: string)
    requires Blank(blank)
    ensures Blocks(lines + [blank]) == Blocks(lines) + [[]]
    ensures Pairs(Blocks(lines + [blank])) == Pairs(Blocks(lines))
  {
    assert (lines + [blank])[..|lines|] == lines;
    PairsUnion(Blocks(lines), [[]]);
    PairsOfOne([]);
  }

  lemma OneBlankIgnored(lines: seq<string>, blank: string)
    requires Blank(blank)
    ensures CoreCount(lines + [blank]) == CoreCount(lines)
  {
    TrailingBlank(lines, blank);
  }

  /** Blank lines at the end of the file change nothing. */
  lemma {:induction false} TrailingBlanksIgnored(lines: seq<string>, blanks: seq<string>)
    requires forall i :: 0 <= i < |blanks| ==> Blank(blanks[i])
    ensures CoreCount(lines + blanks) == CoreCount(lines)
    decreases |blanks|
  {
    if blanks == [] {
      assert lines + blanks == lines;
    } else {
      var front := blanks[..|blanks| - 1];
      TrailingBlanksIgnored(lines, front);
      OneBlankIgnored(lines + front, blanks[|blanks| - 1]);
      AppendLast(lines, blanks);
    }
  }

  predicate Solid(block: Block) { forall i :: 0 <= i < |block| ==> !Blank(block[i]) }

  /** A line that is not blank joins the open block. */
  lemma BlocksStep(lines: seq<string>, line: string, closed: seq<Block>, open: Block)
    requires !Blank(line) && Blocks(lines) == closed + [open]
    ensures Blocks(lines + [line]) == closed + [open + [line]]
  {
    assert (lines + [line])[..|lines|] == lines;
    assert (closed + [open])[..|closed|] == closed;
  }

  lemma {:induction false} BlocksOfSolid(before: seq<string>, block: Block)
    requires Solid(block)
    ensures Blocks(before + [""] + block) == Blocks(before) + [block]
    decreases |block|
  {
    if block == [] {
      assert before + [""] + block == before + [""];
      TrailingBlank(before, "");
    } else {
      var front, last := block[..|block| - 1], block[|block| - 1];
      BlocksOfSolid(before, front);
      BlocksStep(before + [""] + front, last, Blocks(before), front);
      AppendLast(before + [""], block);
    }
  }

  lemma {:induction false} BlocksOfFirst(block: Block)
    requires Solid(block)
    ensures Blocks(block) == [block]
  {
    if block != [] {
      var front, last := block[..|block| - 1], block[|block| - 1];
      BlocksOfFirst(front);
      BlocksStep(front, last, [], front);
      AppendLast([], block);
      assert [] + [front] == [front] && [] + [front + [last]] == [front + [last]];
    }
  }

  /** A file of blocks, one blank line between each two. */
  function FileOf(bs: seq<Block>): seq<string>
    requires bs != []
  {
    if |bs| == 1 then bs[0] else FileOf(bs[..|bs| - 1]) + [""] + bs[|bs| - 1]
  }

  lemma {:induction false} BlocksOfFile(bs: seq<Block>)
    requires bs != [] && AllSolid(bs)
    ensures Blocks(FileOf(bs)) == bs
  {
    if |bs| == 1 {
      OneBlock(bs[0]);
      assert bs == [bs[0]];
    } else {
      var front, last := bs[..|bs| - 1], bs[|bs| - 1];
      assert bs == front + [last];
      BlocksOfFile(front);
      OneMoreBlock(front, last);
    }
  }

  predicate AllSolid(bs: seq<Block>) { forall i :: 0 <= i < |bs| ==> Solid(bs[i]) }

  lemma OneBlock(block: Block)
    requires Solid(block)
    ensures Blocks(FileOf([block])) == [block]
  {
    BlocksOfFirst(block);
  }

  lemma OneMoreBlock(bs: seq<Block>, block: Block)
    requires bs != [] && Solid(block) && Blocks(FileOf(bs)) == bs
    ensures Blocks(FileOf(bs + [block])) == bs + [block]
  {
    assert (bs + [block])[..|bs|] == bs;
    BlocksOfSolid(FileOf(bs), block);
  }

  /** Neither the order of the blocks nor repeated blocks change the count. */
  lemma OrderAndRepeatsIgnored(bs: seq<Block>, other: seq<Block>)
    requires bs != [] && other != [] && (forall b :: b in bs <==> b in other)
    requires AllSolid(bs)
    ensures CoreCount(FileOf(bs)) == CoreCount(FileOf(other))
  {
    forall i | 0 <= i < |other| ensures Solid(other[i]) {
      assert other[i] in bs;
    }
    BlocksOfFile(bs);
    BlocksOfFile(other);
    assert Pairs(bs) == Pairs(other);
  }

  // ----- a kernel's file read back -----

  /** One logical processor: its number, its socket and its core. */
  datatype Processor = Processor(index: nat, socket: nat, core: nat)

  function KeyLine(key: string, n: nat): string { key + "\t" + [':'] + (" " + Digits(n)) }

  function ProcessorBlock(p: Processor): Block {
    [KeyLine("processor", p.index), KeyLine(PHYSICAL, p.socket), KeyLine(CORE, p.core)]
  }

  lemma DigitsPlain(n: nat)
    ensures NoSpace(Digits(n)) && OneLine(Digits(n)) && Trimmed(Digits(n))
  {
    forall c | c in Digits(n) ensures !IsSpace(c) && !IsBreak(c) {
      assert IsDigit(c);
    }
  }

  predicate PlainKey(key: string) { key != "" && Trimmed(key) && OneLine(key) && ':' !in key }

  lemma KeyLineIsWhole(key: string, n: nat)
    requires PlainKey(key)
    ensures Strip(KeyLine(key, n)) == KeyLine(key, n) && OneLine(KeyLine(key, n))
  {
    var line := KeyLine(key, n);
    DigitsPlain(n);
    assert line[0] == key[0] && line[|line| - 1] == Digits(n)[|Digits(n)| - 1];
    StripPadded("", line, "");
    assert "" + line + "" == line;
  }

  lemma KeyLineDivides(key: string, n: nat)
    requires PlainKey(key)
    ensures Partition(KeyLine(key, n), ':') == (key + "\t", " " + Digits(n)) && ':' in KeyLine(key, n)
    ensures Strip(key + "\t") == key && Strip(" " + Digits(n)) == Digits(n)
  {
    DigitsPlain(n);
    PartitionAtFirst(key + "\t", ':', " " + Digits(n));
    StripPadded("", key, "\t");
    assert "" + key + "\t" == key + "\t";
    StripPadded(" ", Digits(n), "");
    assert " " + Digits(n) + "" == " " + Digits(n);
  }

  lemma KeyLineReads(key: string, n: nat, wanted: string)
    requires PlainKey(key)
    ensures !Blank(KeyLine(key, n)) && OneLine(KeyLine(key, n))
    ensures ValueIn(KeyLine(key, n), wanted) == if wanted == key then Some(Digits(n)) else None
  {
    KeyLineIsWhole(key, n);
    KeyLineDivides(key, n);
  }

  lemma LastValueStep(block: Block, line: string, key: string)
    ensures LastValue(block + [line], key) == if ValueIn(line, key).Some? then ValueIn(line, key) else LastValue(block, key)
  {
    assert (block + [line])[..|block|] == block;
  }

  lemma KeysArePlain()
    ensures PlainKey("processor") && PlainKey(PHYSICAL) && PlainKey(CORE)
  {
  }

  lemma ProcessorLine(key: string, n: nat, wanted: string)
    requires key == "processor" || key == PHYSICAL || key == CORE
    ensures Usable(KeyLine(key, n))
    ensures ValueIn(KeyLine(key, n), wanted) == if wanted == key then Some(Digits(n)) else None
  {
    KeysArePlain();
    KeyLineReads(key, n, wanted);
  }

  lemma CoreValue(p: Processor)
    ensures LastValue(ProcessorBlock(p), CORE) == Some(Digits(p.core))
  {
    var a, b, c := KeyLine("processor", p.index), KeyLine(PHYSICAL, p.socket), KeyLine(CORE, p.core);
    ProcessorLine(CORE, p.core, CORE);
    LastValueStep([a, b], c, CORE);
    assert ProcessorBlock(p) == [a, b] + [c];
  }

  lemma SocketValue(p: Processor)
    ensures LastValue(ProcessorBlock(p), PHYSICAL) == Some(Digits(p.socket))
  {
    var a, b, c := KeyLine("processor", p.index), KeyLine(PHYSICAL, p.socket), KeyLine(CORE, p.core);
    ProcessorLine(CORE, p.core, PHYSICAL);
    ProcessorLine(PHYSICAL, p.socket, PHYSICAL);
    LastValueStep([a], b, PHYSICAL);
    LastValueStep([a, b], c, PHYSICAL);
    assert [a, b] == [a] + [b] && ProcessorBlock(p) == [a, b] + [c];
  }

  predicate Usable(line: string) { !Blank(line) && OneLine(line) }

  lemma ThreeUsable(a: string, b: string, c: string)
    requires Usable(a) && Usable(b) && Usable(c)
    ensures Solid([a, b, c]) && AllOneLine([a, b, c])
  {
  }

  predicate AllOneLine(lines: seq<string>) { forall i :: 0 <= i < |lines| ==> OneLine(lines[i]) }

  lemma ProcessorBlockReads(p: Processor)
    ensures Solid(ProcessorBlock(p)) && AllOneLine(ProcessorBlock(p))
    ensures PairOf(ProcessorBlock(p)) == Some((Digits(p.socket), Digits(p.core)))
  {
    ProcessorLine("processor", p.index, CORE);
    ProcessorLine(PHYSICAL, p.socket, CORE);
    ProcessorLine(CORE, p.core, CORE);
    ThreeUsable(KeyLine("processor", p.index), KeyLine(PHYSICAL, p.socket), KeyLine(CORE, p.core));
    SocketValue(p);
    CoreValue(p);
  }

  function ProcessorBlocks(ps: seq<Processor>): (bs: seq<Block>)
    ensures |bs| == |ps| && forall i :: 0 <= i < |ps| ==> bs[i] == ProcessorBlock(ps[i])
  {
    if ps == [] then [] else [ProcessorBlock(ps[0])] + ProcessorBlocks(ps[1..])
  }

  /** The physical cores: distinct sockets and cores. */
  function Cores(ps: seq<Processor>): set<(nat, nat)> { set p | p in ps :: (p.socket, p.core) }

  function Written(c: (nat, nat)): (string, string) { (Digits(c.0), Digits(c.1)) }

  lemma WrittenInjective(a: (nat, nat), b: (nat, nat))
    requires Written(a) == Written(b)
    ensures a == b
  {
    ParseDigits(a.0);
    ParseDigits(a.1);
    ParseDigits(b.0);
    ParseDigits(b.1);
  }

  lemma {:induction false} ImageSize(s: set<(nat, nat)>, t: set<(string, string)>)
    requires t == set c | c in s :: Written(c)
    ensures |t| == |s|
    decreases |s|
  {
    if s == {} {
      assert t == {};
    } else {
      var c :| c in s;
      var rest := set d | d in s - {c} :: Written(d);
      assert Written(c) !in rest by {
        forall d | d in s - {c} ensures Written(d) != Written(c) {
          if Written(d) == Written(c) {
            WrittenInjective(d, c);
          }
        }
      }
      assert t == rest + {Written(c)};
      ImageSize(s - {c}, rest);
    }
  }

  lemma PairsOfProcessors(ps: seq<Processor>)
    ensures Pairs(ProcessorBlocks(ps)) == set c | c in Cores(ps) :: Written(c)
  {
    var bs := ProcessorBlocks(ps);
    forall c | c in Cores(ps) ensures Written(c) in Pairs(bs) {
      var p :| p in ps && (p.socket, p.core) == c;
      var i :| 0 <= i < |ps| && ps[i] == p;
      ProcessorBlockReads(p);
      assert bs[i] in bs;
    }
    forall x | x in Pairs(bs) ensures exists c :: c in Cores(ps) && Written(c) == x {
      var b :| b in bs && PairOf(b).Some? && PairOf(b).value == x;
      var i :| 0 <= i < |bs| && bs[i] == b;
      ProcessorBlockReads(ps[i]);
      assert ps[i] in ps && (ps[i].socket, ps[i].core) in Cores(ps);
    }
  }

  lemma {:induction false} FileLinesPlain(bs: seq<Block>)
    requires bs != [] && forall i :: 0 <= i < |bs| ==> AllOneLine(bs[i])
    ensures AllOneLine(FileOf(bs))
  {
    if |bs| > 1 {
      FileLinesPlain(bs[..|bs| - 1]);
      assert OneLine("");
    }
  }

  /** The text a kernel writes for any processors reads back as their number of distinct cores. */
  lemma KernelFileReadsBack(ps: seq<Processor>)
    requires ps != []
    ensures CoreCount(SplitLines(Render(FileOf(ProcessorBlocks(ps))))) == Some(|Cores(ps)|)
  {
    var bs := ProcessorBlocks(ps);
    forall i | 0 <= i < |bs|
      ensures Solid(bs[i]) && AllOneLine(bs[i])
    {
      ProcessorBlockReads(ps[i]);
    }
    FileLinesPlain(bs);
    SplitRendered(FileOf(bs));
    BlocksOfFile(bs);
    PairsOfProcessors(ps);
    ImageSize(Cores(ps), Pairs(bs));
    assert (ps[0].socket, ps[0].core) in Cores(ps);
  }

  // ----- the stat line -----

  datatype CpuTime = Cpu(utimeNs: int, stimeNs: int) | NoAnchor | BadField | BadClock

  function StripNewlines(s: string): string {
    if s != "" && s[|s| - 1] == '\n' then StripNewlines(s[..|s| - 1]) else s
  }

  predicate AnchorAt(s: string, i: int) { 0 <= i && i + 1 < |s| && s[i] == ')' && s[i + 1] == ' ' }

  /** The last place where a closing parenthesis is followed by a space, or -1. */
  function LastAnchor(s: string): (i: int)
    ensures -1 <= i <= |s| - 2 || i == -1
    ensures i >= 0 ==> AnchorAt(s, i)
    ensures forall j :: j > i ==> !AnchorAt(s, j)
  {
    if |s| < 2 then -1
    else if AnchorAt(s, |s| - 2) then |s| - 2
    else
      var i := LastAnchor(s[..|s| - 1]);
      AnchorsOfPrefix(s);
      i
  }

  lemma AnchorsOfPrefix(s: string)
    requires |s| >= 2
    ensures forall j :: j < |s| - 2 ==> (AnchorAt(s, j) <==> AnchorAt(s[..|s| - 1], j))
  {
  }

  /** The text part of `read_daemon_cpu_ns`. */
  function ReadCpu(text: string, clkTck: int): CpuTime {
    var raw := StripNewlines(text);
    var at := LastAnchor(raw);
    if at == -1 then NoAnchor else ReadFields(Split(raw[at + 2..]), clkTck)
  }

  function ReadFields(fields: seq<string>, clkTck: int): CpuTime {
    if |fields| <= 12 then BadField
    else
      var utime, stime := ParseInt(fields[11]), ParseInt(fields[12]);
      if utime.None? || stime.None? then BadField
      else if clkTck <= 0 then BadClock
      else
        InNanoseconds(utime.value, stime.value, clkTck)
  }

  function InNanoseconds(utime: int, stime: int, clkTck: int): CpuTime
    requires clkTck > 0
  {
    var nsPerJiffy := 1_000_000_000 / clkTck;
    Cpu(utime * nsPerJiffy, stime * nsPerJiffy)
  }

  predicate HasAnchor(s: string) { exists i :: 0 <= i < |s| && AnchorAt(s, i) }

  lemma AnchorMoves(prefix: string, tail: string, j: int)
    requires j >= 0
    ensures AnchorAt(prefix + ") " + tail, |prefix| + 2 + j) <==> AnchorAt(tail, j)
  {
    var s, n := prefix + ") " + tail, |prefix|;
    if j + 1 < |tail| {
      assert s[n + 2 + j] == tail[j] && s[n + 2 + j + 1] == tail[j + 1];
    }
  }

  lemma AnchorHere(prefix: string, tail: string)
    ensures AnchorAt(prefix + ") " + tail, |prefix|) && !AnchorAt(prefix + ") " + tail, |prefix| + 1)
  {
  }

  /** The split falls at the end of the command name exactly when nothing after it looks like one. */
  lemma AnchorIff(prefix: string, tail: string)
    ensures LastAnchor(prefix + ") " + tail) == |prefix| <==> !HasAnchor(tail)
  {
    var at := LastAnchor(prefix + ") " + tail);
    AnchorHere(prefix, tail);
    if j :| 0 <= j < |tail| && AnchorAt(tail, j) {
      AnchorMoves(prefix, tail, j);
    } else if at > |prefix| {
      AnchorMoves(prefix, tail, at - |prefix| - 2);
    }
  }

  function Spaced(fields: seq<string>): string
    requires fields != []
  {
    if |fields| == 1 then fields[0] else fields[0] + " " + Spaced(fields[1..])
  }

  predicate Fields(fields: seq<string>) { forall i :: 0 <= i < |fields| ==> fields[i] != "" && NoSpace(fields[i]) && ')' !in fields[i] }

  lemma {:induction false} SpacedSplits(fields: seq<string>)
    requires fields != [] && Fields(fields)
    ensures Split(Spaced(fields)) == fields
  {
    if |fields| == 1 {
      assert fields[0] + "" == fields[0];
      SplitToken(fields[0], "");
    } else {
      SpacedSplits(fields[1..]);
      var rest := " " + Spaced(fields[1..]);
      assert Spaced(fields) == fields[0] + rest;
      SplitToken(fields[0], rest);
      assert rest[1..] == Spaced(fields[1..]);
    }
  }

  lemma {:induction false} SpacedEnds(fields: seq<string>)
    requires fields != [] && Fields(fields)
    ensures ')' !in Spaced(fields)
    ensures Spaced(fields) != "" && !IsSpace(Spaced(fields)[|Spaced(fields)| - 1])
  {
    if |fields| == 1 {
      assert fields[0][|fields[0]| - 1] in fields[0];
    } else {
      SpacedEnds(fields[1..]);
    }
  }

  predicate AllNewlines(s: string) { forall i :: 0 <= i < |s| ==> s[i] == '\n' }

  lemma {:induction false} NewlinesStripped(s: string, newlines: string)
    requires s != "" && s[|s| - 1] != '\n' && AllNewlines(newlines)
    ensures StripNewlines(s + newlines) == s
  {
    if newlines == "" {
      assert s + newlines == s;
    } else {
      assert (s + newlines)[..|s + newlines| - 1] == s + newlines[..|newlines| - 1];
      NewlinesStripped(s, newlines[..|newlines| - 1]);
    }
  }

  /** A stat line gives back its utime and stime for every command name, whatever parentheses, spaces
      or newlines it holds. */
  lemma StatReadsBack(pid: nat, comm: string, fields: seq<string>, newlines: string, utime: int, stime: int, clkTck: int)
    requires |fields| >= 13 && Fields(fields) && fields[11] == Decimal(utime) && fields[12] == Decimal(stime)
    requires clkTck > 0 && AllNewlines(newlines)
    ensures ReadCpu(Decimal(pid) + " (" + comm + ") " + Spaced(fields) + newlines, clkTck)
         == Cpu(utime * (1_000_000_000 / clkTck), stime * (1_000_000_000 / clkTck))
  {
    var prefix := Decimal(pid) + " (" + comm;
    assert Decimal(pid) + " (" + comm + ") " + Spaced(fields) + newlines == prefix + ") " + Spaced(fields) + newlines;
    ReadsTheFields(prefix, fields, newlines, clkTck);
    FieldsReadBack(fields, utime, stime, clkTck);
  }

  lemma ReadsTheFields(prefix: string, fields: seq<string>, newlines: string, clkTck: int)
    requires fields != [] && Fields(fields) && AllNewlines(newlines)
    ensures ReadCpu(prefix + ") " + Spaced(fields) + newlines, clkTck) == ReadFields(fields, clkTck)
  {
    TailIsFound(prefix, fields, newlines);
  }

  lemma FieldsReadBack(fields: seq<string>, utime: int, stime: int, clkTck: int)
    requires |fields| >= 13 && fields[11] == Decimal(utime) && fields[12] == Decimal(stime) && clkTck > 0
    ensures ReadFields(fields, clkTck) == InNanoseconds(utime, stime, clkTck)
  {
    ParseDecimal(utime);
    ParseDecimal(stime);
  }

  lemma TailIsFound(prefix: string, fields: seq<string>, newlines: string)
    requires fields != [] && Fields(fields) && AllNewlines(newlines)
    ensures var raw := StripNewlines(prefix + ") " + Spaced(fields) + newlines);
            LastAnchor(raw) == |prefix| && |raw| >= |prefix| + 2 && Split(raw[|prefix| + 2..]) == fields
  {
    var tail := Spaced(fields);
    var raw := prefix + ") " + tail;
    SpacedSplits(fields);
    SpacedEnds(fields);
    assert raw[|raw| - 1] == tail[|tail| - 1];
    NewlinesStripped(raw, newlines);
    AnchorIff(prefix, tail);
    assert raw[|prefix| + 2..] == tail;
  }
}
